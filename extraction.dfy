/**
 * Text extraction: the recogniser returns an ordered list of detections,
 * each a region, the text read in it and a confidence; the extracted text is
 * the detections' texts joined by single spaces. Any exception raised while
 * converting the image or recognising it is reported to the user and turns
 * into an empty extracted text.
 */
module Extraction {
  import opened Wrappers

  /** One recognised region: its corner points, the text read in it, and the confidence. */
  datatype Detection = Detection(box: seq<(int, int)>, text: string, confidence: real)

  /** What the recogniser hands back: detections in its own order, or the exception it raised. */
  datatype Recognition = Recognized(detections: seq<Detection>) | Raised(error: string)

  /** The result of an extraction: the text, and the error message shown to the user, if any. */
  datatype Extracted = Extracted(text: string, shown: Option<string>)

  /** Prefix of the message shown when extraction fails. */
  const ErrorPrefix: string := "Error during text extraction: "

  /** The text field of every detection, in the order given. */
  function Texts(ds: seq<Detection>): (fs: seq<string>)
    ensures |fs| == |ds|
    ensures forall i :: 0 <= i < |ds| ==> fs[i] == ds[i].text
  {
    if ds == [] then [] else [ds[0].text] + Texts(ds[1..])
  }

  /** The fragments separated by exactly one space each; no fragments give the empty string. */
  function JoinWithSpace(fs: seq<string>): string
    decreases |fs|
  {
    if |fs| == 0 then ""
    else if |fs| == 1 then fs[0]
    else fs[0] + " " + JoinWithSpace(fs[1..])
  }

  /**
   * Splitting on every single space, the inverse of JoinWithSpace: the
   * pieces between consecutive spaces, including empty ones, in order.
   */
  function SplitOnSpace(s: string): (fs: seq<string>)
    ensures |fs| > 0
    decreases |s|
  {
    if |s| == 0 then [""]
    else if s[0] == ' ' then [""] + SplitOnSpace(s[1..])
    else
      var rest := SplitOnSpace(s[1..]);
      [[s[0]] + rest[0]] + rest[1..]
  }

  /** extract_text: join the recognised texts, or show the error and give the empty text. */
  function ExtractText(r: Recognition): (e: Extracted)
    ensures r.Raised? ==> e.text == "" && e.shown == Some(ErrorPrefix + r.error)
    ensures r.Recognized? ==> e.text == JoinWithSpace(Texts(r.detections)) && e.shown == None
  {
    match r
    case Recognized(ds) => Extracted(JoinWithSpace(Texts(ds)), None)
    case Raised(error) => Extracted("", Some(ErrorPrefix + error))
  }

  predicate NoSpace(s: string) {
    forall j :: 0 <= j < |s| ==> s[j] != ' '
  }

  /** Total number of characters in the fragments. */
  function TotalLength(fs: seq<string>): nat {
    if fs == [] then 0 else |fs[0]| + TotalLength(fs[1..])
  }

  /** No fragments join to "", and a single fragment joins to itself. */
  lemma JoinSmallCases(s: string)
    ensures JoinWithSpace([]) == ""
    ensures JoinWithSpace([s]) == s
  {
  }

  /** The join adds exactly one separator between consecutive fragments. */
  lemma {:induction false} JoinLength(fs: seq<string>)
    requires |fs| > 0
    ensures |JoinWithSpace(fs)| == TotalLength(fs) + |fs| - 1
    decreases |fs|
  {
    if |fs| > 1 {
      JoinLength(fs[1..]);
    }
  }

  /** Joining a further fragment appends one space and that fragment. */
  lemma {:induction false} JoinAppend(fs: seq<string>, s: string)
    requires |fs| > 0
    ensures JoinWithSpace(fs + [s]) == JoinWithSpace(fs) + " " + s
    decreases |fs|
  {
    if |fs| == 1 {
      assert fs + [s] == [fs[0], s];
    } else {
      JoinAppend(fs[1..], s);
      assert (fs + [s])[1..] == fs[1..] + [s];
    }
  }

  /** A string without spaces splits into itself. */
  lemma {:induction false} SplitNoSpace(s: string)
    requires NoSpace(s)
    ensures SplitOnSpace(s) == [s]
    decreases |s|
  {
    if |s| > 0 {
      SplitNoSpace(s[1..]);
      assert [s[0]] + s[1..] == s;
    }
  }

  /** A space-free fragment followed by a space splits off as one piece. */
  lemma {:induction false} SplitAfterWord(w: string, rest: string)
    requires NoSpace(w)
    ensures SplitOnSpace(w + " " + rest) == [w] + SplitOnSpace(rest)
    decreases |w|
  {
    if |w| == 0 {
      assert w + " " + rest == [' '] + rest;
      assert (w + " " + rest)[1..] == rest;
    } else {
      SplitAfterWord(w[1..], rest);
      var s := w + " " + rest;
      assert s[0] == w[0] && s[1..] == w[1..] + " " + rest;
      assert [w[0]] + w[1..] == w;
    }
  }

  /**
   * Splitting undoes joining when the fragments hold no spaces and there is
   * at least one of them.
   */
  lemma {:induction false} SplitJoinRoundTrip(fs: seq<string>)
    requires |fs| > 0
    requires forall i :: 0 <= i < |fs| ==> NoSpace(fs[i])
    ensures SplitOnSpace(JoinWithSpace(fs)) == fs
    decreases |fs|
  {
    if |fs| == 1 {
      SplitNoSpace(fs[0]);
    } else {
      SplitJoinRoundTrip(fs[1..]);
      SplitAfterWord(fs[0], JoinWithSpace(fs[1..]));
      assert fs == [fs[0]] + fs[1..];
    }
  }

  /** Putting a character in front of the first fragment puts it in front of the join. */
  lemma JoinConsHead(c: char, fs: seq<string>)
    requires |fs| > 0
    ensures JoinWithSpace([[c] + fs[0]] + fs[1..]) == [c] + JoinWithSpace(fs)
  {
    var gs := [[c] + fs[0]] + fs[1..];
    assert gs[1..] == fs[1..];
    if |fs| > 1 {
      ConsAssociates(c, fs[0], " " + JoinWithSpace(fs[1..]));
    }
  }

  /** Kept apart from JoinConsHead so that its proof stays small for the solver. */
  lemma ConsAssociates(c: char, a: string, b: string)
    ensures ([c] + a) + b == [c] + (a + b)
  {
  }

  /** Joining undoes splitting, for every string. */
  lemma {:induction false} JoinSplitRoundTrip(s: string)
    ensures JoinWithSpace(SplitOnSpace(s)) == s
    decreases |s|
  {
    if |s| > 0 {
      JoinSplitRoundTrip(s[1..]);
      var rest := SplitOnSpace(s[1..]);
      if s[0] == ' ' {
        assert ([""] + rest)[1..] == rest;
      } else {
        JoinConsHead(s[0], rest);
      }
      assert [s[0]] + s[1..] == s;
    }
  }

  /**
   * A successful extraction: nothing recognised gives the empty text;
   * otherwise the text is as long as the recognised texts together plus one
   * space between each two of them, and, when no recognised text holds a
   * space, it splits back into the recognised texts in order.
   */
  lemma ExtractTextSpec(r: Recognition)
    ensures r.Recognized? && r.detections == [] ==> ExtractText(r).text == ""
    ensures r.Recognized? && r.detections != [] ==>
              |ExtractText(r).text| == TotalLength(Texts(r.detections)) + |r.detections| - 1
    ensures r.Recognized? && r.detections != [] &&
            (forall i :: 0 <= i < |r.detections| ==> NoSpace(r.detections[i].text)) ==>
              SplitOnSpace(ExtractText(r).text) == Texts(r.detections)
  {
    if r.Recognized? && r.detections != [] {
      JoinLength(Texts(r.detections));
    }
    if r.Recognized? && r.detections != [] &&
       (forall i :: 0 <= i < |r.detections| ==> NoSpace(r.detections[i].text)) {
      SplitJoinRoundTrip(Texts(r.detections));
    }
  }
}

/**
 * The keyword highlighter: every case-insensitive, literal, leftmost and
 * non-overlapping occurrence of a keyword in a text is wrapped in markup
 * that shows it in bold red, keeping the matched characters as they were.
 *
 * The substitution is modelled the way a regular-expression `sub` with a
 * callable replacement works: search for the leftmost match from the
 * current position, emit the unmatched gap before it, emit the replacement
 * built from the matched slice, resume right after the match, and finally
 * emit the remaining tail; the emitted pieces are then joined.
 */
module Highlight {
  import opened Wrappers
  import opened CaseFold

  /** Markup put around a match: an opening tag and a closing tag. */
  datatype Markup = Markup(open: string, close: string)

  /** The bold red span the highlighter puts around each match. */
  const Emphasis: Markup := Markup("<span style='color: red; font-weight: bold;'>", "</span>")

  /** Number of characters each wrapped match adds to the output. */
  function Overhead(mk: Markup): nat { |mk.open| + |mk.close| }

  /** A matched slice as it appears in the output. */
  function Wrap(group: string, mk: Markup): string { mk.open + group + mk.close }

  /**
   * The escaped keyword matches `text` at position `i`: each keyword
   * character equals the corresponding text character up to case. An escaped
   * literal has no metacharacters, so a match is exactly |kw| characters long.
   */
  predicate MatchesAt(text: string, kw: string, i: nat) {
    i + |kw| <= |text| && EqualIgnoringCase(text[i..i + |kw|], kw)
  }

  /**
   * A keyword without letters is matched literally: it occurs exactly where
   * the same characters appear, so a keyword such as "." matches only a dot.
   */
  lemma CaselessKeywordMatchesLiterally(text: string, kw: string, i: nat)
    requires forall j :: 0 <= j < |kw| ==> Caseless(kw[j])
    ensures MatchesAt(text, kw, i) <==> i + |kw| <= |text| && text[i..i + |kw|] == kw
  {
    if i + |kw| <= |text| {
      var slice := text[i..i + |kw|];
      EqualIgnoringCaseAt(slice, kw);
      forall j | 0 <= j < |kw| ensures CharEqIgnoreCase(slice[j], kw[j]) <==> slice[j] == kw[j] {
        CaselessCharMatchesOnlyItself(kw[j], slice[j]);
      }
    }
  }

  /** Leftmost search for the keyword starting at position `from`. */
  function Find(text: string, kw: string, from: nat): (r: Option<nat>)
    requires |kw| > 0 && from <= |text|
    ensures r.Some? ==> from <= r.value && r.value + |kw| <= |text|
    decreases |text| - from
  {
    if from + |kw| > |text| then None
    else if MatchesAt(text, kw, from) then Some(from)
    else Find(text, kw, from + 1)
  }

  /**
   * The search finds the first occurrence at or after `from`, and finds
   * nothing exactly when there is none.
   */
  lemma {:induction false} FindIsLeftmost(text: string, kw: string, from: nat)
    requires |kw| > 0 && from <= |text|
    ensures Find(text, kw, from).Some? ==>
              var p := Find(text, kw, from).value;
              from <= p && MatchesAt(text, kw, p) && forall q :: from <= q < p ==> !MatchesAt(text, kw, q)
    ensures Find(text, kw, from).None? <==> forall q :: from <= q ==> !MatchesAt(text, kw, q)
    decreases |text| - from
  {
    if from + |kw| <= |text| && !MatchesAt(text, kw, from) {
      FindIsLeftmost(text, kw, from + 1);
    }
  }

  /** A match object: where the match starts and the matched slice. */
  datatype Match = Match(start: nat, group: string)

  /** One piece of the substitution's output before joining. */
  datatype Piece = Gap(s: string) | Hit(m: Match)

  /** The text a piece stands for in the output. */
  function Shown(p: Piece, mk: Markup): string {
    match p
    case Gap(s) => s
    case Hit(m) => Wrap(m.group, mk)
  }

  /** The slice of the input a piece was taken from. */
  function Source(p: Piece): string {
    match p
    case Gap(s) => s
    case Hit(m) => m.group
  }

  /** Joins the pieces into the output string. */
  function Render(ps: seq<Piece>, mk: Markup): string {
    if ps == [] then [] else Shown(ps[0], mk) + Render(ps[1..], mk)
  }

  /** Joins the pieces with every wrapper deleted. */
  function Unmark(ps: seq<Piece>): string {
    if ps == [] then [] else Source(ps[0]) + Unmark(ps[1..])
  }

  /** Start positions of the matches, in output order. */
  function Starts(ps: seq<Piece>): seq<nat> {
    if ps == [] then []
    else (if ps[0].Hit? then [ps[0].m.start] else []) + Starts(ps[1..])
  }

  /**
   * The substitution loop from position `from`: search for the leftmost
   * match; emit the unmatched gap before it when that gap is not empty, then
   * the match itself, and resume right after the match; with no match left,
   * emit the rest of the text when it is not empty.
   */
  function Pieces(text: string, kw: string, from: nat): seq<Piece>
    requires |kw| > 0 && from <= |text|
    decreases |text| - from, 1
  {
    match Find(text, kw, from)
    case None =>
      if from < |text| then [Gap(text[from..])] else []
    case Some(p) =>
      if from < p then [Gap(text[from..p])] + PiecesFromMatch(text, kw, p)
      else PiecesFromMatch(text, kw, p)
  }

  /** The pieces from a match at `p` on: the match, then the loop after it. */
  function PiecesFromMatch(text: string, kw: string, p: nat): seq<Piece>
    requires |kw| > 0 && p + |kw| <= |text|
    decreases |text| - p, 0
  {
    [Hit(Match(p, text[p..p + |kw|]))] + Pieces(text, kw, p + |kw|)
  }

  /**
   * highlight_text: an empty text or an empty keyword leaves the text as it
   * is; otherwise every match is wrapped.
   */
  function HighlightText(text: string, kw: string): (r: string)
    ensures |text| == 0 || |kw| == 0 ==> r == text
  {
    if |text| == 0 || |kw| == 0 then text
    else Render(Pieces(text, kw, 0), Emphasis)
  }

  // ---------------------------------------------------------------------
  // Layout of the pieces over the input

  /**
   * The pieces lie end to end over text[from..]: each is the slice of the
   * text at its offset, gaps are never empty, and a match records the offset
   * it was found at.
   */
  ghost predicate Tiles(text: string, from: nat, ps: seq<Piece>)
    decreases |ps|
  {
    if ps == [] then from == |text|
    else
      var src := Source(ps[0]);
      && from + |src| <= |text|
      && text[from..from + |src|] == src
      && (ps[0].Gap? ==> |src| > 0)
      && (ps[0].Hit? ==> ps[0].m.start == from)
      && Tiles(text, from + |src|, ps[1..])
  }

  lemma {:induction false} UnmarkOfTiles(text: string, from: nat, ps: seq<Piece>)
    requires Tiles(text, from, ps)
    ensures from <= |text| && Unmark(ps) == text[from..]
    decreases |ps|
  {
    if ps != [] {
      var src := Source(ps[0]);
      var mid := from + |src|;
      UnmarkOfTiles(text, mid, ps[1..]);
      assert Unmark(ps) == src + text[mid..];
      assert text[from..] == text[from..mid] + text[mid..];
    }
  }

  lemma {:induction false} PiecesTile(text: string, kw: string, from: nat)
    requires |kw| > 0 && from <= |text|
    ensures Tiles(text, from, Pieces(text, kw, from))
    decreases |text| - from
  {
    match Find(text, kw, from)
    case None =>
      if from < |text| {
        assert text[from..|text|] == text[from..];
      }
    case Some(p) =>
      PiecesTile(text, kw, p + |kw|);
      PiecesTileAtMatch(text, kw, from, p);
  }

  /** One step of PiecesTile: the pieces up to and including the next match tile. */
  lemma PiecesTileAtMatch(text: string, kw: string, from: nat, p: nat)
    requires |kw| > 0 && from <= |text| && Find(text, kw, from) == Some(p)
    requires Tiles(text, p + |kw|, Pieces(text, kw, p + |kw|))
    ensures Tiles(text, from, Pieces(text, kw, from))
  {
    var rest := Pieces(text, kw, p + |kw|);
    HitTiles(text, p, |kw|, rest);
    assert PiecesFromMatch(text, kw, p) == [Hit(Match(p, text[p..p + |kw|]))] + rest;
    if from < p {
      GapTiles(text, from, p, PiecesFromMatch(text, kw, p));
    }
  }

  lemma HitTiles(text: string, p: nat, k: nat, rest: seq<Piece>)
    requires p + k <= |text| && Tiles(text, p + k, rest)
    ensures Tiles(text, p, [Hit(Match(p, text[p..p + k]))] + rest)
  {
    var ps := [Hit(Match(p, text[p..p + k]))] + rest;
    assert ps[1..] == rest;
  }

  lemma GapTiles(text: string, from: nat, p: nat, rest: seq<Piece>)
    requires from < p <= |text| && Tiles(text, p, rest)
    ensures Tiles(text, from, [Gap(text[from..p])] + rest)
  {
    assert ([Gap(text[from..p])] + rest)[1..] == rest;
  }

  /**
   * Round trip: deleting the wrappers from the pieces gives back the text
   * from `from` on, character for character.
   */
  lemma PiecesRoundTrip(text: string, kw: string, from: nat)
    requires |kw| > 0 && from <= |text|
    ensures Unmark(Pieces(text, kw, from)) == text[from..]
  {
    PiecesTile(text, kw, from);
    UnmarkOfTiles(text, from, Pieces(text, kw, from));
  }

  // ---------------------------------------------------------------------
  // The matches are the keyword's occurrences, with their original case

  /** Every match among the pieces is an occurrence of the keyword, kept as the text's own slice. */
  ghost predicate HitsAreOccurrences(text: string, kw: string, ps: seq<Piece>)
    decreases |ps|
  {
    ps != [] ==>
      && (ps[0].Hit? ==>
            var m := ps[0].m;
            MatchesAt(text, kw, m.start) && m.group == text[m.start..m.start + |kw|])
      && HitsAreOccurrences(text, kw, ps[1..])
  }

  lemma {:induction false} PiecesHitsAreOccurrences(text: string, kw: string, from: nat)
    requires |kw| > 0 && from <= |text|
    ensures HitsAreOccurrences(text, kw, Pieces(text, kw, from))
    decreases |text| - from
  {
    match Find(text, kw, from)
    case None =>
    case Some(p) =>
      PiecesHitsAreOccurrences(text, kw, p + |kw|);
      HitsAreOccurrencesAtMatch(text, kw, from, p);
  }

  /** One step of PiecesHitsAreOccurrences: the match found from `from` is an occurrence. */
  lemma HitsAreOccurrencesAtMatch(text: string, kw: string, from: nat, p: nat)
    requires |kw| > 0 && from <= |text| && Find(text, kw, from) == Some(p)
    requires HitsAreOccurrences(text, kw, Pieces(text, kw, p + |kw|))
    ensures HitsAreOccurrences(text, kw, Pieces(text, kw, from))
  {
    FindIsLeftmost(text, kw, from);
    var rest := Pieces(text, kw, p + |kw|);
    var ms := PiecesFromMatch(text, kw, p);
    assert ms[1..] == rest;
    assert HitsAreOccurrences(text, kw, ms);
    if from < p {
      assert ([Gap(text[from..p])] + ms)[1..] == ms;
    }
  }

  lemma {:induction false} HitsAreOccurrencesAt(text: string, kw: string, ps: seq<Piece>, i: nat)
    requires HitsAreOccurrences(text, kw, ps) && i < |ps| && ps[i].Hit?
    ensures MatchesAt(text, kw, ps[i].m.start)
    ensures ps[i].m.group == text[ps[i].m.start..ps[i].m.start + |kw|]
    decreases i
  {
    if i > 0 {
      HitsAreOccurrencesAt(text, kw, ps[1..], i - 1);
    }
  }

  /** Every position at which the keyword occurs in the text. */
  ghost function Occurrences(text: string, kw: string): set<nat> {
    set q: nat | q <= |text| && MatchesAt(text, kw, q)
  }

  /**
   * The meaning of "all leftmost, non-overlapping occurrences from `from`
   * on", for occurrences `occ` of length `k`: when nothing is chosen, no
   * occurrence starts at or after `from`; otherwise the first chosen start is
   * the leftmost occurrence at or after `from`, and the remaining starts are
   * chosen the same way from the end of that occurrence on.
   */
  ghost predicate LeftmostNonOverlapping(occ: set<nat>, k: nat, from: nat, ss: seq<nat>)
    decreases |ss|
  {
    if ss == [] then forall q :: q in occ ==> q < from
    else
      && from <= ss[0] && ss[0] in occ
      && (forall q :: from <= q < ss[0] ==> q !in occ)
      && LeftmostNonOverlapping(occ, k, ss[0] + k, ss[1..])
  }

  /** For every starting point there is exactly one choice of starts that fits the description. */
  lemma {:induction false} LeftmostNonOverlappingIsUnique(occ: set<nat>, k: nat, from: nat, ss: seq<nat>, ts: seq<nat>)
    requires LeftmostNonOverlapping(occ, k, from, ss)
    requires LeftmostNonOverlapping(occ, k, from, ts)
    ensures ss == ts
    decreases |ss|
  {
    if ss != [] && ts != [] {
      assert ss[0] == ts[0];
      LeftmostNonOverlappingIsUnique(occ, k, ss[0] + k, ss[1..], ts[1..]);
      assert ss == [ss[0]] + ss[1..] && ts == [ts[0]] + ts[1..];
    }
  }

  /** Chosen starts are occurrences, in increasing order, and no two of them overlap. */
  lemma {:induction false} LeftmostNonOverlappingSeparated(occ: set<nat>, k: nat, from: nat, ss: seq<nat>)
    requires LeftmostNonOverlapping(occ, k, from, ss)
    ensures forall i :: 0 <= i < |ss| ==> from <= ss[i] && ss[i] in occ
    ensures forall i :: 0 < i < |ss| ==> ss[i - 1] + k <= ss[i]
    decreases |ss|
  {
    if ss != [] {
      LeftmostNonOverlappingSeparated(occ, k, ss[0] + k, ss[1..]);
      assert forall i :: 0 < i < |ss| ==> ss[i] == ss[1..][i - 1];
    }
  }

  /**
   * No occurrence is missed: every occurrence at or after `from` is either
   * chosen or begins inside a chosen occurrence.
   */
  lemma {:induction false} LeftmostNonOverlappingCovers(occ: set<nat>, k: nat, from: nat, ss: seq<nat>, q: nat)
    requires LeftmostNonOverlapping(occ, k, from, ss)
    requires q in occ && from <= q
    ensures exists i :: 0 <= i < |ss| && ss[i] <= q < ss[i] + k
    decreases |ss|
  {
    if q >= ss[0] + k {
      LeftmostNonOverlappingCovers(occ, k, ss[0] + k, ss[1..], q);
      var i :| 0 <= i < |ss[1..]| && ss[1..][i] <= q < ss[1..][i] + k;
      assert ss[i + 1] == ss[1..][i];
    }
  }

  /** The starts of the pieces from `from` are the first match followed by the starts after it. */
  lemma StartsOfPieces(text: string, kw: string, from: nat, p: nat)
    requires |kw| > 0 && from <= |text| && Find(text, kw, from) == Some(p)
    ensures Starts(Pieces(text, kw, from)) == [p] + Starts(Pieces(text, kw, p + |kw|))
  {
    var tail := PiecesFromMatch(text, kw, p);
    assert Starts(tail) == [p] + Starts(Pieces(text, kw, p + |kw|));
    if from < p {
      assert Starts([Gap(text[from..p])] + tail) == Starts(tail);
    }
  }

  /** The substitution loop chooses exactly the leftmost non-overlapping occurrences. */
  lemma {:induction false} PiecesAreLeftmostNonOverlapping(text: string, kw: string, from: nat)
    requires |kw| > 0 && from <= |text|
    ensures LeftmostNonOverlapping(Occurrences(text, kw), |kw|, from, Starts(Pieces(text, kw, from)))
    decreases |text| - from
  {
    var occ := Occurrences(text, kw);
    FindIsLeftmost(text, kw, from);
    match Find(text, kw, from)
    case None =>
      if from < |text| {
        assert Pieces(text, kw, from) == [Gap(text[from..])];
      }
    case Some(p) =>
      PiecesAreLeftmostNonOverlapping(text, kw, p + |kw|);
      StartsOfPieces(text, kw, from, p);
      var ss := Starts(Pieces(text, kw, from));
      assert ss[0] == p && ss[1..] == Starts(Pieces(text, kw, p + |kw|));
      assert p in occ;
  }

  /** Each wrapped match adds exactly one opening and one closing tag. */
  lemma {:induction false} RenderLength(ps: seq<Piece>, mk: Markup)
    ensures |Render(ps, mk)| == |Unmark(ps)| + |Starts(ps)| * Overhead(mk)
    decreases |ps|
  {
    if ps != [] {
      RenderLength(ps[1..], mk);
      if ps[0].Hit? {
        MultiplySucc(|Starts(ps[1..])|, Overhead(mk));
      }
    }
  }

  lemma MultiplySucc(a: nat, b: nat)
    ensures (a + 1) * b == b + a * b
  {
  }

  /**
   * For a non-empty text and keyword, the output is the join of pieces that
   * give back the text once the wrappers are deleted, whose matches are
   * exactly the leftmost non-overlapping occurrences, and whose every match
   * is the original slice of the text; the output is longer than the text by
   * one wrapper per occurrence.
   */
  lemma HighlightTextSpec(text: string, kw: string)
    requires |text| > 0 && |kw| > 0
    ensures var ps := Pieces(text, kw, 0);
            && HighlightText(text, kw) == Render(ps, Emphasis)
            && Tiles(text, 0, ps)
            && Unmark(ps) == text
            && LeftmostNonOverlapping(Occurrences(text, kw), |kw|, 0, Starts(ps))
            && HitsAreOccurrences(text, kw, ps)
            && |HighlightText(text, kw)| == |text| + |Starts(ps)| * Overhead(Emphasis)
  {
    var ps := Pieces(text, kw, 0);
    PiecesTile(text, kw, 0);
    PiecesHitsAreOccurrences(text, kw, 0);
    PiecesRoundTrip(text, kw, 0);
    PiecesAreLeftmostNonOverlapping(text, kw, 0);
    RenderLength(ps, Emphasis);
  }

  /**
   * The output equals the input exactly when there is nothing to highlight:
   * the text or the keyword is empty, or the keyword occurs nowhere.
   */
  lemma HighlightIsIdentityIffNoMatch(text: string, kw: string)
    ensures HighlightText(text, kw) == text <==>
            (|text| == 0 || |kw| == 0 || forall q :: !MatchesAt(text, kw, q))
  {
    if |text| > 0 && |kw| > 0 {
      FindIsLeftmost(text, kw, 0);
      match Find(text, kw, 0)
      case None =>
        var ps := Pieces(text, kw, 0);
        assert ps == [Gap(text[0..])];
        assert Render(ps, Emphasis) == text[0..] + Render([], Emphasis);
      case Some(p) =>
        MatchLengthensOutput(text, kw, p, Emphasis);
    }
  }

  /** Once there is a match, the output is longer than the text by at least one wrapper. */
  lemma MatchLengthensOutput(text: string, kw: string, p: nat, mk: Markup)
    requires |kw| > 0 && Find(text, kw, 0) == Some(p)
    ensures |Render(Pieces(text, kw, 0), mk)| >= |text| + Overhead(mk)
  {
    var ps := Pieces(text, kw, 0);
    PiecesRoundTrip(text, kw, 0);
    StartsOfPieces(text, kw, 0, p);
    RenderLongerByHits(ps, mk);
  }

  /** With at least one match, rendering adds at least one wrapper's worth of characters. */
  lemma {:induction false} RenderLongerByHits(ps: seq<Piece>, mk: Markup)
    requires |Starts(ps)| > 0
    ensures |Render(ps, mk)| >= |Unmark(ps)| + Overhead(mk)
    decreases |ps|
  {
    RenderNotShorter(ps[1..], mk);
    if |Starts(ps[1..])| > 0 {
      RenderLongerByHits(ps[1..], mk);
    }
  }

  /** Rendering never makes the pieces shorter than their unmarked text. */
  lemma {:induction false} RenderNotShorter(ps: seq<Piece>, mk: Markup)
    ensures |Render(ps, mk)| >= |Unmark(ps)|
    decreases |ps|
  {
    if ps != [] {
      RenderNotShorter(ps[1..], mk);
    }
  }

  /** Each match in the output is the text's own slice, whatever the keyword's case. */
  lemma MatchKeepsOriginalCase(text: string, kw: string, i: nat)
    requires |text| > 0 && |kw| > 0
    requires i < |Pieces(text, kw, 0)| && Pieces(text, kw, 0)[i].Hit?
    ensures var m := Pieces(text, kw, 0)[i].m;
            && MatchesAt(text, kw, m.start)
            && m.group == text[m.start..m.start + |kw|]
            && EqualIgnoringCase(m.group, kw)
  {
    PiecesHitsAreOccurrences(text, kw, 0);
    HitsAreOccurrencesAt(text, kw, Pieces(text, kw, 0), i);
  }
}

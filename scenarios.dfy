/**
 * Worked examples of the highlighter and the extraction, each proved as a lemma.
 */
module Scenarios {
  import opened Wrappers
  import opened CaseFold
  import opened Highlight
  import opened Extraction

  /** In "Hello WORLD" the first case-insensitive occurrence of "world" starts at 6. */
  lemma HelloWorldSearch()
    ensures Find("Hello WORLD", "world", 0) == Some(6)
  {
    var t, k := "Hello WORLD", "world";
    assert !MatchesAt(t, k, 0) by { assert t[0..5][0] == 'H'; }
    assert !MatchesAt(t, k, 1) by { assert t[1..6][0] == 'e'; }
    assert !MatchesAt(t, k, 2) by { assert t[2..7][0] == 'l'; }
    assert !MatchesAt(t, k, 3) by { assert t[3..8][0] == 'l'; }
    assert !MatchesAt(t, k, 4) by { assert t[4..9][0] == 'o'; }
    assert !MatchesAt(t, k, 5) by { assert t[5..10][0] == ' '; }
    assert MatchesAt(t, k, 6) by {
      EqualIgnoringCaseAt(t[6..11], k);
    }
    FindIsLeftmost(t, k, 0);
  }

  /** The keyword is matched regardless of case, and the match keeps the text's case. */
  lemma HelloWorld()
    ensures HighlightText("Hello WORLD", "world") == "Hello " + Wrap("WORLD", Emphasis)
  {
    var t, k := "Hello WORLD", "world";
    HelloWorldSearch();
    assert t[0..6] == "Hello " && t[6..11] == "WORLD";
    assert Pieces(t, k, 11) == [];
    assert Pieces(t, k, 0) == [Gap("Hello "), Hit(Match(6, "WORLD"))];
  }

  /** A keyword made of a regular-expression metacharacter is searched for literally. */
  lemma DotsSearch()
    ensures Find("a.b.c", ".", 0) == Some(1)
    ensures Find("a.b.c", ".", 2) == Some(3)
    ensures Find("a.b.c", ".", 4) == None
  {
    var t, k := "a.b.c", ".";
    assert Caseless('.');
    forall i: nat ensures MatchesAt(t, k, i) <==> i + 1 <= |t| && t[i..i + 1] == k {
      CaselessKeywordMatchesLiterally(t, k, i);
    }
    assert t[0..1] == "a" && t[1..2] == "." && t[2..3] == "b" && t[3..4] == "." && t[4..5] == "c";
    FindIsLeftmost(t, k, 0);
    FindIsLeftmost(t, k, 2);
    FindIsLeftmost(t, k, 4);
  }

  /** The dots split "a.b.c" into three gaps and two hits. */
  lemma DotsPieces()
    ensures Pieces("a.b.c", ".", 0) ==
            [Gap("a"), Hit(Match(1, ".")), Gap("b"), Hit(Match(3, ".")), Gap("c")]
  {
    var t, k := "a.b.c", ".";
    DotsSearch();
    assert t[0..1] == "a" && t[1..2] == "." && t[2..3] == "b" && t[3..4] == "." && t[4..] == "c";
    assert Pieces(t, k, 4) == [Gap("c")];
    assert Pieces(t, k, 2) == [Gap("b"), Hit(Match(3, "."))] + [Gap("c")];
  }

  /** Rendering a piece in front of others puts its text in front. */
  lemma RenderCons(p: Piece, rest: seq<Piece>, mk: Markup)
    ensures Render([p] + rest, mk) == Shown(p, mk) + Render(rest, mk)
  {
    assert ([p] + rest)[1..] == rest;
  }

  /** Rendering the pieces of "a.b.c" with any markup. */
  lemma DotsRender(mk: Markup)
    ensures Render([Gap("a"), Hit(Match(1, ".")), Gap("b"), Hit(Match(3, ".")), Gap("c")], mk) ==
            "a" + Wrap(".", mk) + "b" + Wrap(".", mk) + "c"
  {
    var p4 := [Gap("c")];
    var p3 := [Hit(Match(3, "."))] + p4;
    var p2 := [Gap("b")] + p3;
    var p1 := [Hit(Match(1, "."))] + p2;
    var p0 := [Gap("a")] + p1;
    RenderCons(Gap("c"), [], mk);
    RenderCons(Hit(Match(3, ".")), p4, mk);
    RenderCons(Gap("b"), p3, mk);
    RenderCons(Hit(Match(1, ".")), p2, mk);
    RenderCons(Gap("a"), p1, mk);
    var w := Wrap(".", mk);
    assert "a" + (w + ("b" + (w + "c"))) == "a" + w + "b" + w + "c" by {
    }
    assert p0 == [Gap("a"), Hit(Match(1, ".")), Gap("b"), Hit(Match(3, ".")), Gap("c")];
  }

  /** Every dot is wrapped; the letters between them are kept. */
  lemma Dots()
    ensures HighlightText("a.b.c", ".") == "a" + Wrap(".", Emphasis) + "b" + Wrap(".", Emphasis) + "c"
  {
    DotsPieces();
    DotsRender(Emphasis);
  }

  /** Occurrences do not overlap: after a match the search resumes past its end. */
  lemma OverlappingCandidates()
    ensures HighlightText("aaa", "aa") == Wrap("aa", Emphasis) + "a"
  {
    var t, k := "aaa", "aa";
    assert MatchesAt(t, k, 0) by { EqualIgnoringCaseReflexive(k); assert t[0..2] == k; }
    assert Find(t, k, 0) == Some(0);
    assert t[0..2] == "aa" && t[2..] == "a";
    assert Pieces(t, k, 2) == [Gap("a")];
    assert Pieces(t, k, 0) == [Hit(Match(0, "aa")), Gap("a")];
  }

  /** The recogniser's fragments "INVOICE" and "2024" become "INVOICE 2024". */
  lemma InvoiceExtraction()
    ensures ExtractText(Recognized([Detection([], "INVOICE", 0.9), Detection([], "2024", 0.8)])).text
            == "INVOICE 2024"
  {
    var ds := [Detection([], "INVOICE", 0.9), Detection([], "2024", 0.8)];
    assert Texts(ds) == ["INVOICE", "2024"];
  }

  /** A recognised line that holds a space is kept whole; one space separates it from the next. */
  lemma LineWithSpaceExtraction()
    ensures ExtractText(Recognized([Detection([], "INVOICE NO", 0.9), Detection([], "2024", 0.8)])).text
            == "INVOICE NO 2024"
  {
    var ds := [Detection([], "INVOICE NO", 0.9), Detection([], "2024", 0.8)];
    assert Texts(ds) == ["INVOICE NO", "2024"];
  }

  /** Searching the extracted text for "invoice" highlights the upper-case word. */
  lemma InvoiceSearch()
    ensures Find("INVOICE 2024", "invoice", 0) == Some(0)
    ensures Find("INVOICE 2024", "invoice", 7) == None
  {
    var t, k := "INVOICE 2024", "invoice";
    assert MatchesAt(t, k, 0) by { EqualIgnoringCaseAt(t[0..7], k); }
  }

  lemma InvoicePieces()
    ensures Pieces("INVOICE 2024", "invoice", 0) == [Hit(Match(0, "INVOICE")), Gap(" 2024")]
  {
    var t, k := "INVOICE 2024", "invoice";
    InvoiceSearch();
    assert t[0..7] == "INVOICE" && t[7..] == " 2024";
  }

  lemma Invoice()
    ensures HighlightText("INVOICE 2024", "invoice") == Wrap("INVOICE", Emphasis) + " 2024"
  {
    InvoicePieces();
    var tail := [Gap(" 2024")];
    RenderCons(Gap(" 2024"), [], Emphasis);
    RenderCons(Hit(Match(0, "INVOICE")), tail, Emphasis);
    assert [Hit(Match(0, "INVOICE"))] + tail == [Hit(Match(0, "INVOICE")), Gap(" 2024")];
  }

  /** From the recogniser's fragments to the highlighted text shown to the user. */
  lemma InvoiceEndToEnd()
    ensures var e := ExtractText(Recognized([Detection([], "INVOICE", 0.9), Detection([], "2024", 0.8)]));
            e.shown == None && HighlightText(e.text, "invoice") == Wrap("INVOICE", Emphasis) + " 2024"
  {
    InvoiceExtraction();
    Invoice();
  }
}

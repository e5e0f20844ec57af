# OCR text scanner: keyword highlighter and text extraction

The application reads text from an uploaded image with an OCR engine, joins
the recognised fragments into one string, and lets the user search that
string for a keyword; every occurrence of the keyword is shown in bold red.
This project models the two pure parts of that pipeline in Dafny and proves
what they promise.

- **Highlighting** (`highlight_text`, `app.py:21-26`), in `highlight.dfy` and
  `casefold.dfy`. An empty text or an empty keyword leaves the text as it is.
  Otherwise the keyword is escaped, so it is matched as a literal string.
  It is compiled case-insensitively. Every leftmost, non-overlapping
  occurrence is replaced by the matched slice of the text, with its own case,
  wrapped in `<span style='color: red; font-weight: bold;'>` and `</span>`.
  The substitution is modelled the way a regular-expression `sub` does it:
  - search for the leftmost match from the current position;
  - emit the unmatched gap before it, then the wrapped match;
  - resume right after the match;
  - emit the rest of the text.

  The wrapper markup is a parameter (`Markup`) of the general lemmas.
  `Emphasis` is the application's own span.
- **Extraction** (`extract_text`, `app.py:11-19`), in `extraction.dfy`. The
  recogniser's detections are given as a value, in the order the recogniser
  returned them. The text of each detection is taken and the texts are joined
  with exactly one space between them. If the recogniser raises, the error is
  shown as `Error during text extraction: <error>` and the extracted text is
  empty. As the partner of the join, the model defines splitting on single
  spaces (the behaviour of Python's `split(' ')`) and proves both round trips.
- **Scenarios** (`scenarios.dfy`): worked examples, each proved as a lemma, among them:
  - `Hello WORLD` searched for `world`;
  - a metacharacter keyword `.`;
  - overlapping candidates `aa` in `aaa`;
  - fragments `INVOICE` and `2024` extracted, then searched for `invoice`.

The wrapper string follows the code at `app.py:25`: single-quoted attribute,
`color: red; font-weight: bold;` with spaces after the colons.

Case-insensitive matching is modelled per character: two characters match
when they fold to the same character. The fold lowers the ASCII capitals and
the Latin-1 capitals U+00C0..U+00DE other than U+00D7. Every other character
folds to itself.

## Model

| member | source | states |
|---|---|---|
| Highlight.HighlightText | app.py:21-23 | an empty text or an empty keyword returns the text unchanged |
| Highlight.HighlightTextSpec | app.py:21-26 | for a non-empty text and keyword, the output is the rendering of pieces that lie end to end over the text and give back the text once the wrappers are deleted; the matches are exactly the leftmost non-overlapping occurrences, each one the text's own slice of keyword length; the output is longer than the text by one opening and one closing tag per match |
| Highlight.HighlightIsIdentityIffNoMatch | app.py:21-26 | the output equals the input if and only if the text is empty, the keyword is empty, or the keyword occurs nowhere in the text |
| Highlight.MatchLengthensOutput | app.py:25 | once a match exists, the output is longer than the text by at least one wrapper |
| Highlight.MatchesAt | app.py:24 | the compiled escaped, case-insensitive pattern matches at a position when the keyword's length of text from there agrees with the keyword up to case; characterised by CaselessKeywordMatchesLiterally and MatchKeepsOriginalCase |
| Highlight.Find | app.py:25 | a match found by the search starts at or after the search position and lies inside the text |
| Highlight.FindIsLeftmost | app.py:24-25 | the search returns the first position at or after the start where the keyword matches, and returns nothing exactly when no position matches |
| Highlight.CaselessKeywordMatchesLiterally | app.py:24 | under the modelled fold, the escaped keyword is a literal: a keyword whose characters the fold neither lowers nor produces, such as `.`, matches exactly where the same characters appear |
| Highlight.Pieces | app.py:25 | the substitution scan from a position: the gap before the leftmost match, the match, then the scan after it; characterised by PiecesTile, PiecesRoundTrip, PiecesHitsAreOccurrences and PiecesAreLeftmostNonOverlapping |
| Highlight.PiecesFromMatch | app.py:25 | the match found at a position, followed by the scan resumed right after it; characterised by the same lemmas as Pieces |
| Highlight.Render | app.py:25 | the substitution's output: gaps as they are, each match wrapped; characterised by RenderLength, RenderLongerByHits and RenderNotShorter |
| Highlight.PiecesTile | app.py:25 | the pieces of the substitution are consecutive slices of the text; gaps are never empty; each match records the position it was found at |
| Highlight.PiecesRoundTrip | app.py:25 | deleting the wrappers from the output pieces gives back the text character for character |
| Highlight.PiecesHitsAreOccurrences | app.py:24-25 | every wrapped slice is an occurrence of the keyword and is the text's own slice at that position |
| Highlight.HitsAreOccurrencesAt | app.py:24-25 | the occurrence property holds for each match by index |
| Highlight.MatchKeepsOriginalCase | app.py:24-25 | each wrapped match is the text's own slice, agreeing with the keyword only up to case |
| Highlight.PiecesAreLeftmostNonOverlapping | app.py:25 | the match positions are exactly the leftmost non-overlapping occurrences of the keyword |
| Highlight.LeftmostNonOverlappingIsUnique | app.py:25 | there is only one sequence of positions that is the leftmost non-overlapping choice |
| Highlight.LeftmostNonOverlappingSeparated | app.py:25 | the chosen positions are occurrences, increasing, and never overlap |
| Highlight.LeftmostNonOverlappingCovers | app.py:25 | every occurrence is either chosen or begins inside a chosen occurrence |
| Highlight.RenderLength | app.py:25 | the output length is the text length plus the match count times the wrapper length |
| Highlight.RenderLongerByHits | app.py:25 | with at least one match, the output gains at least one wrapper's length |
| Highlight.RenderNotShorter | app.py:25 | wrapping never shortens the text |
| CaseFold.Fold | app.py:24 | ASCII and Latin-1 capitals fold to their lower case; every other character is left alone |
| CaseFold.CharEqIgnoreCase | app.py:24 | two characters match under the case-insensitive flag when they fold to the same character; characterised by CharEqIgnoreCaseIsEquivalence, CaselessCharMatchesOnlyItself and AsciiLetterMatchesBothCases |
| CaseFold.EqualIgnoringCase | app.py:24 | two strings match under the case-insensitive flag when they have the same length and match character by character; characterised by EqualIgnoringCaseAt and EqualIgnoringCaseReflexive |
| CaseFold.FoldIdempotent | app.py:24 | folding twice equals folding once; a folded character is never a capital |
| CaseFold.CharEqIgnoreCaseIsEquivalence | app.py:24 | case-insensitive character equality is reflexive, symmetric and transitive |
| CaseFold.EqualIgnoringCaseAt | app.py:24 | two strings agree up to case exactly when they have the same length and agree position by position |
| CaseFold.EqualIgnoringCaseReflexive | app.py:24 | every string matches itself |
| CaseFold.CaselessCharMatchesOnlyItself | app.py:24 | a character without case matches only itself |
| CaseFold.AsciiLetterMatchesBothCases | app.py:24 | under the modelled fold, an ASCII lower-case letter matches itself and its capital, and nothing else |
| Extraction.Texts | app.py:15 | the texts of the detections, one per detection, in the recogniser's order |
| Extraction.ExtractText | app.py:11-19 | if the recogniser raises, the text is empty and the error message is shown; otherwise the text is the detections' texts joined with single spaces, in order, and nothing is shown |
| Extraction.ExtractTextSpec | app.py:15-16 | no detections give the empty text; otherwise the text's length is the texts' total length plus one space between each two of them, whatever they contain; when the fragments hold no spaces, splitting the extracted text on single spaces gives back the fragments in order |
| Extraction.JoinWithSpace | app.py:15 | the recognised texts joined with one space between consecutive texts; characterised by JoinSmallCases, JoinLength, JoinAppend, SplitJoinRoundTrip and JoinSplitRoundTrip |
| Extraction.JoinSmallCases | app.py:15 | joining no fragments gives the empty string; joining one fragment gives that fragment |
| Extraction.JoinLength | app.py:15 | the join's length is the total fragment length plus one separator between each pair of consecutive fragments |
| Extraction.JoinAppend | app.py:15 | joining one more fragment appends a single space and that fragment |
| Extraction.SplitJoinRoundTrip | app.py:15 | with splitting on single spaces as the join's reference inverse, splitting the join of one or more space-free fragments gives back the fragments |
| Extraction.JoinSplitRoundTrip | app.py:15 | with the same reference inverse, joining the pieces of any string split on single spaces gives back the string |
| Scenarios.HelloWorld | app.py:21-26 | `Hello WORLD` with keyword `world` becomes `Hello ` followed by the wrapped `WORLD` |
| Scenarios.HelloWorldSearch | app.py:24-25 | the first case-insensitive occurrence of `world` in `Hello WORLD` is at 6 |
| Scenarios.DotsSearch | app.py:24 | the keyword `.` is found only at the dots of `a.b.c` |
| Scenarios.Dots | app.py:21-26 | `a.b.c` with keyword `.` wraps both dots and keeps the letters |
| Scenarios.OverlappingCandidates | app.py:25 | `aaa` with keyword `aa` wraps the first two characters only |
| Scenarios.InvoiceExtraction | app.py:15 | fragments `INVOICE` and `2024` are extracted as `INVOICE 2024` |
| Scenarios.LineWithSpaceExtraction | app.py:15 | fragments `INVOICE NO` and `2024` are extracted as `INVOICE NO 2024` |
| Scenarios.Invoice | app.py:21-26 | `INVOICE 2024` with keyword `invoice` wraps `INVOICE` and keeps ` 2024` |
| Scenarios.InvoiceEndToEnd | app.py:15-26 | the extracted text of fragments `INVOICE` and `2024`, searched for `invoice`, shows the wrapped `INVOICE` followed by ` 2024`, with no error shown |

## Left out

- OCR engine: the reader's construction and `readtext` (`app.py:9`, `app.py:14`) are not modelled. Their result is a parameter of `ExtractText`, in the recogniser's order, or the exception they raised.
- Array conversion with numpy (`app.py:13`) is not modelled. A failure there raises inside `extract_text` and is covered by the `Raised` case of `ExtractText`.
- Streamlit user interface (`main`, `app.py:28-64`) is not modelled: uploading, opening the image with PIL (`app.py:41`), text areas, buttons, session state and the download button. A failure to open the image is caught in `main` (`app.py:63-64`) with its own message, `extract_text` is then never called, and the stored extracted text keeps its previous value; none of this is modelled.
- JSON export: `json.dumps` of the extracted text (`app.py:56`) is not modelled.
- CaseFold.Fold: does not model full Unicode case folding. Only ASCII and Latin-1 capitals are folded. Wider equivalences are not captured: Greek, Cyrillic, the long s with s, the Kelvin sign with k, the dotted capital I (U+0130) and the dotless i (U+0131) with i.
- Extraction.ExtractText: showing the error through the user interface is reduced to the `shown` field of the result.
- Extraction.ExtractTextSpec: the split round trip is stated only for fragments without spaces, because a fragment holding a space cannot be told apart after joining.
- The rendered markup is trusted HTML. Neither the text nor the keyword is escaped, so the output can carry markup taken from the image; the model keeps that behaviour and does not sanitise.

/**
 * Per-character case-insensitive comparison, as used by a pattern compiled
 * with the IGNORECASE flag: two characters are equal when they fold to the
 * same character. The fold lowers ASCII capitals and the Latin-1 capitals
 * U+00C0..U+00DE (except the multiplication sign U+00D7); every other
 * character folds to itself.
 */
module CaseFold {

  predicate IsAsciiUpper(c: char) {
    'A' <= c <= 'Z'
  }

  predicate IsLatin1Upper(c: char) {
    0xC0 <= c as int <= 0xDE && c as int != 0xD7
  }

  /** The representative of c's case class: its lower-case form. */
  function Fold(c: char): (d: char)
    ensures IsAsciiUpper(c) || IsLatin1Upper(c) ==> d as int == c as int + 32
    ensures !IsAsciiUpper(c) && !IsLatin1Upper(c) ==> d == c
  {
    if IsAsciiUpper(c) || IsLatin1Upper(c) then (c as int + 32) as char else c
  }

  /** The fold maps every character to a character that folds to itself. */
  lemma FoldIdempotent(c: char)
    ensures Fold(Fold(c)) == Fold(c)
    ensures !IsAsciiUpper(Fold(c)) && !IsLatin1Upper(Fold(c))
  {
  }

  predicate CharEqIgnoreCase(a: char, b: char) {
    Fold(a) == Fold(b)
  }

  /** Two strings of the same length that agree character by character up to case. */
  predicate EqualIgnoringCase(a: string, b: string) {
    && |a| == |b|
    && (|a| > 0 ==> CharEqIgnoreCase(a[0], b[0]) && EqualIgnoringCase(a[1..], b[1..]))
  }

  /** The character-wise reading of EqualIgnoringCase. */
  lemma {:induction false} EqualIgnoringCaseAt(a: string, b: string)
    ensures EqualIgnoringCase(a, b) <==>
            |a| == |b| && forall j :: 0 <= j < |a| ==> CharEqIgnoreCase(a[j], b[j])
    decreases |a|
  {
    if |a| > 0 && |a| == |b| {
      EqualIgnoringCaseAt(a[1..], b[1..]);
      assert forall j :: 1 <= j < |a| ==> a[1..][j - 1] == a[j] && b[1..][j - 1] == b[j];
    }
  }

  /** Every string agrees with itself up to case. */
  lemma {:induction false} EqualIgnoringCaseReflexive(a: string)
    ensures EqualIgnoringCase(a, a)
    decreases |a|
  {
    if |a| > 0 {
      EqualIgnoringCaseReflexive(a[1..]);
    }
  }

  /** Case-insensitive character equality is an equivalence relation. */
  lemma CharEqIgnoreCaseIsEquivalence(a: char, b: char, c: char)
    ensures CharEqIgnoreCase(a, a)
    ensures CharEqIgnoreCase(a, b) == CharEqIgnoreCase(b, a)
    ensures CharEqIgnoreCase(a, b) && CharEqIgnoreCase(b, c) ==> CharEqIgnoreCase(a, c)
  {
  }

  /**
   * A character that no fold touches and that is not itself the lower-case
   * form of a capital matches only itself; this is why a keyword such as
   * "." is compared literally.
   */
  predicate Caseless(c: char) {
    && !IsAsciiUpper(c) && !IsLatin1Upper(c)
    && !('a' <= c <= 'z') && !(0xE0 <= c as int <= 0xFE && c as int != 0xF7)
  }

  lemma CaselessCharMatchesOnlyItself(c: char, d: char)
    requires Caseless(c)
    ensures CharEqIgnoreCase(d, c) <==> d == c
  {
  }

  /** ASCII letters match their other case and nothing else. */
  lemma AsciiLetterMatchesBothCases(c: char, d: char)
    requires 'a' <= c <= 'z'
    ensures CharEqIgnoreCase(d, c) <==> d == c || d as int == c as int - 32
  {
  }
}

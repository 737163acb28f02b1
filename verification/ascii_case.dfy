/**
 * ASCII letter case, as `::tolower` behaves in the "C" locale: the letters
 * `A`-`Z` become `a`-`z` and every other character is left alone.
 */
module AsciiCase {

  /** The distance between an upper-case ASCII letter and its lower-case form. */
  const CaseOffset: int := 'a' as int - 'A' as int

  predicate IsUpper(c: char) {
    'A' <= c <= 'Z'
  }

  predicate IsLowerLetter(c: char) {
    'a' <= c <= 'z'
  }

  /** A string in which no upper-case ASCII letter occurs. */
  predicate NoUpper(s: string) {
    forall i :: 0 <= i < |s| ==> !IsUpper(s[i])
  }

  /** `::tolower` on one character. */
  function ToLower(c: char): (d: char)
    ensures !IsUpper(d)
    ensures IsUpper(c) ==> IsLowerLetter(d) && d as int == c as int + CaseOffset
    ensures !IsUpper(c) ==> d == c
  {
    if IsUpper(c) then (c as int + CaseOffset) as char else c
  }

  /** The opposite case of an ASCII letter; any other character is unchanged. */
  function FlipCase(c: char): (d: char)
    ensures IsUpper(c) ==> IsLowerLetter(d)
    ensures IsLowerLetter(c) ==> IsUpper(d)
    ensures !IsUpper(c) && !IsLowerLetter(c) ==> d == c
  {
    if IsUpper(c) then (c as int + CaseOffset) as char
    else if IsLowerLetter(c) then (c as int - CaseOffset) as char
    else c
  }

  /** The whole string lower-cased, character by character. */
  function Lower(s: string): (r: string)
    ensures |r| == |s|
    ensures NoUpper(r)
    ensures forall i :: 0 <= i < |s| && !IsUpper(s[i]) ==> r[i] == s[i]
    ensures forall i :: 0 <= i < |s| && IsUpper(s[i]) ==> r[i] as int == s[i] as int + CaseOffset
  {
    seq(|s|, i requires 0 <= i < |s| => ToLower(s[i]))
  }

  /** `d` is `c` itself, or the other case of the ASCII letter `c`. */
  predicate CaseVariant(c: char, d: char) {
    c == d || ((IsUpper(c) || IsLowerLetter(c)) && d == FlipCase(c))
  }

  /** Two strings that differ at most in the case of their ASCII letters. */
  predicate SameUpToCase(a: string, b: string) {
    |a| == |b| && forall i :: 0 <= i < |a| ==> CaseVariant(a[i], b[i])
  }

  /**
   * `std::transform(s.begin(), s.end(), s.begin(), ::tolower)`: the string is
   * lower-cased in place, one position after the other.
   */
  method TransformToLower(s: string) returns (r: string)
    ensures r == Lower(s)
  {
    r := s;
    var i := 0;
    while i < |r|
      invariant |r| == |s|
      invariant 0 <= i <= |s|
      invariant forall j :: 0 <= j < i ==> r[j] == ToLower(s[j])
      invariant forall j :: i <= j < |s| ==> r[j] == s[j]
    {
      r := r[i := ToLower(r[i])];
      i := i + 1;
    }
  }

  /** Lower-casing twice is lower-casing once. */
  lemma LowerIdempotent(s: string)
    ensures Lower(Lower(s)) == Lower(s)
  {
    LowerFixesNoUpper(Lower(s));
  }

  /** A string with no upper-case letter is its own lower-case form. */
  lemma LowerFixesNoUpper(s: string)
    requires NoUpper(s)
    ensures Lower(s) == s
  {
  }

  /** Lower-casing works position by position, so it distributes over concatenation. */
  lemma LowerConcat(a: string, b: string)
    ensures Lower(a + b) == Lower(a) + Lower(b)
  {
  }

  /** A window of the lower-cased string is the lower-cased window. */
  lemma LowerSlice(s: string, i: int, j: int)
    requires 0 <= i <= j <= |s|
    ensures Lower(s)[i..j] == Lower(s[i..j])
  {
  }

  /** Two characters are case variants of each other exactly when `::tolower` maps them alike. */
  lemma CaseVariantIff(c: char, d: char)
    ensures CaseVariant(c, d) <==> ToLower(c) == ToLower(d)
  {
  }

  /** Two strings agree up to case exactly when their lower-case forms are equal. */
  lemma SameUpToCaseIff(a: string, b: string)
    ensures SameUpToCase(a, b) <==> |a| == |b| && Lower(a) == Lower(b)
  {
    if |a| == |b| {
      forall i | 0 <= i < |a|
        ensures CaseVariant(a[i], b[i]) <==> Lower(a)[i] == Lower(b)[i]
      {
        CaseVariantIff(a[i], b[i]);
      }
      if Lower(a) == Lower(b) {
        assert forall i :: 0 <= i < |a| ==> Lower(a)[i] == Lower(b)[i];
      }
    }
  }

  /** Flipping the case of one character keeps the string equal up to case. */
  lemma FlipOneSameUpToCase(s: string, k: int)
    requires 0 <= k < |s|
    ensures SameUpToCase(s, s[k := FlipCase(s[k])])
  {
  }
}

/**
 Lower-casing of strings, as the listing filter uses it to compare a
 property's category with the selected tab. The browser's
 `String.prototype.toLowerCase` is modelled on the ASCII range only: the
 letters 'A'..'Z' map to 'a'..'z' and every other character is kept.
 */
module Ascii {

  predicate IsUpper(c: char) {
    'A' <= c <= 'Z'
  }

  /** Lower-cases one character. */
  function LowerChar(c: char): (r: char)
    ensures IsUpper(c) ==> r as int == c as int + 32
    ensures !IsUpper(c) ==> r == c
    ensures !IsUpper(r)
  {
    if IsUpper(c) then (c as int + 32) as char else c
  }

  /** Lower-cases every character of `s`, keeping its length. */
  function Lower(s: string): (r: string)
    ensures |r| == |s|
    ensures forall i :: 0 <= i < |s| ==> r[i] == LowerChar(s[i])
  {
    seq(|s|, i requires 0 <= i < |s| => LowerChar(s[i]))
  }

  /** Two strings are equal up to case. */
  predicate SameIgnoringCase(a: string, b: string) {
    Lower(a) == Lower(b)
  }

  /** Lower-casing an already lower-cased string changes nothing. */
  lemma LowerIdempotent(s: string)
    ensures Lower(Lower(s)) == Lower(s)
  {
  }

  /** A string and its lower-cased form are equal up to case. */
  lemma LowerSameIgnoringCase(s: string)
    ensures SameIgnoringCase(s, Lower(s))
  {
    LowerIdempotent(s);
  }
}

/** Character classes and lower-casing, restricted to ASCII. */
module Ascii {

  predicate IsDigit(c: char) {
    '0' <= c <= '9'
  }

  predicate IsUpper(c: char) {
    'A' <= c <= 'Z'
  }

  predicate IsLatinLetter(c: char) {
    'a' <= c <= 'z' || IsUpper(c)
  }

  /** `str.lower()` on one character: upper-case latin letters map to their
      lower-case form, everything else is left alone. */
  function LowerChar(c: char): (r: char)
    ensures !IsUpper(r)
    ensures IsLatinLetter(r) <==> IsLatinLetter(c)
    ensures IsDigit(r) <==> IsDigit(c)
    ensures r == '.' <==> c == '.'
    ensures r == '\'' <==> c == '\''
  {
    if IsUpper(c) then (c - 'A' + 'a') as char else c
  }

  /** `str.lower()` (and `str.casefold()`) on a whole string. */
  function Lower(s: string): (r: string)
    ensures |r| == |s|
    ensures forall i :: 0 <= i < |s| ==> r[i] == LowerChar(s[i])
  {
    if s == [] then [] else [LowerChar(s[0])] + Lower(s[1..])
  }
}

/** `String.prototype.toUpperCase`, restricted to ASCII letters. */
module Ascii {

  predicate IsLower(c: char) { 'a' <= c <= 'z' }

  predicate IsUpper(c: char) { 'A' <= c <= 'Z' }

  /** The upper-case form of one character; only `a`..`z` change. */
  function UpperChar(c: char): (u: char)
    ensures !IsLower(u)
    ensures IsLower(c) ==> IsUpper(u) && u as int == c as int - 32
    ensures !IsLower(c) ==> u == c
  {
    if IsLower(c) then (c as int - 32) as char else c
  }

  /** `s.toUpperCase()`: same length, every position mapped by UpperChar. */
  function ToUpperCase(s: string): (r: string)
    ensures |r| == |s|
    ensures forall i :: 0 <= i < |s| ==> r[i] == UpperChar(s[i])
    ensures forall i :: 0 <= i < |r| ==> !IsLower(r[i])
  {
    seq(|s|, i requires 0 <= i < |s| => UpperChar(s[i]))
  }

  /** Upper-casing twice is upper-casing once. */
  lemma ToUpperCaseIdempotent(s: string)
    ensures ToUpperCase(ToUpperCase(s)) == ToUpperCase(s)
  {
  }

  /** A string with no lower-case letter is left as it is. */
  lemma ToUpperCaseNoLower(s: string)
    requires forall i :: 0 <= i < |s| ==> !IsLower(s[i])
    ensures ToUpperCase(s) == s
  {
  }
}

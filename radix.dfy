/**
 * `Number.prototype.toString(radix)` on non-negative integers, and its
 * inverse, the positional value of a digit string (as `parseInt`).
 * JavaScript writes the digits 10..35 as the lower-case letters `a`..`z`;
 * the value of a digit string ignores the case of its letters.
 */
module Radix {
  import opened Ascii

  /** The radices script.js uses: decimal (template strings) and hexadecimal. */
  type Base = b: int | b == 10 || b == 16 witness 10

  predicate IsAlnum(c: char) { '0' <= c <= '9' || IsLower(c) || IsUpper(c) }

  /** The value of one digit character, either case. */
  function DigitValue(c: char): (v: nat)
    requires IsAlnum(c)
    ensures v < 36
    ensures v < 10 <==> '0' <= c <= '9'
  {
    if '0' <= c <= '9' then c as int - '0' as int
    else if IsLower(c) then c as int - 'a' as int + 10
    else c as int - 'A' as int + 10
  }

  predicate IsDigitOf(c: char, radix: Base) { IsAlnum(c) && DigitValue(c) < radix }

  predicate AllDigits(s: string, radix: Base) {
    forall i :: 0 <= i < |s| ==> IsDigitOf(s[i], radix)
  }

  /** The digit strings toString can produce: non-empty, no leading zero. */
  predicate Canonical(s: string, radix: Base) {
    |s| >= 1 && AllDigits(s, radix) && (|s| > 1 ==> s[0] != '0')
  }

  /** The character JavaScript writes for digit d. */
  function DigitChar(d: nat): (c: char)
    requires d < 36
    ensures IsAlnum(c) && !IsUpper(c) && DigitValue(c) == d
  {
    if d < 10 then ('0' as int + d) as char else ('a' as int + d - 10) as char
  }

  /** Euclidean division by the radix: quotient and last digit. */
  lemma DivMod(n: nat, radix: Base)
    ensures n == (n / radix) * radix + n % radix
    ensures 0 <= n % radix < radix
    ensures n >= radix ==> 1 <= n / radix < n
    ensures n < radix ==> n / radix == 0 && n % radix == n
  {
    if radix == 10 { } else { }
  }

  /** The quotient and remainder of q * radix + d, for a digit d. */
  lemma DivModOf(q: nat, d: nat, radix: Base)
    requires d < radix
    ensures (q * radix + d) / radix == q && (q * radix + d) % radix == d
    ensures q >= 1 ==> q * radix + d >= radix
  {
    if radix == 10 { } else { }
  }

  /** A value below radix^k, shifted one digit and given a last digit, stays below radix^(k+1). */
  lemma ValueStep(q: nat, d: nat, p: nat, radix: Base)
    requires q < p && d < radix
    ensures q * radix + d < p * radix
  {
    if radix == 10 { } else { }
  }

  /** `n.toString(radix)` for a non-negative integer n. */
  function ToRadix(n: nat, radix: Base): (r: string)
    ensures Canonical(r, radix)
    ensures forall i :: 0 <= i < |r| ==> !IsUpper(r[i])
    ensures n == 0 <==> r == "0"
    ensures |r| > 1 <==> n >= radix
    decreases n
  {
    DivMod(n, radix);
    if n < radix then [DigitChar(n)] else ToRadix(n / radix, radix) + [DigitChar(n % radix)]
  }

  /** radix to the power n. */
  function Pow(radix: Base, n: nat): (p: nat)
    ensures p >= 1
  {
    if n == 0 then 1 else Pow(radix, n - 1) * radix
  }

  /** The value of a digit string, most significant digit first; k digits stay below radix^k. */
  function Value(s: string, radix: Base): (v: nat)
    requires AllDigits(s, radix)
    ensures v < Pow(radix, |s|)
    ensures |s| == 1 ==> v == DigitValue(s[0])
  {
    if |s| == 0 then 0
    else
      var q, d := Value(s[..|s| - 1], radix), DigitValue(s[|s| - 1]);
      ValueStep(q, d, Pow(radix, |s| - 1), radix);
      q * radix + d
  }

  /** Reading back what toString wrote gives the number. */
  lemma {:induction false} ValueOfToRadix(n: nat, radix: Base)
    ensures Value(ToRadix(n, radix), radix) == n
    decreases n
  {
    var r := ToRadix(n, radix);
    DivMod(n, radix);
    if n < radix {
      assert r[..0] == [];
    } else {
      var p := ToRadix(n / radix, radix);
      assert r == p + [DigitChar(n % radix)];
      assert r[..|r| - 1] == p;
      ValueOfToRadix(n / radix, radix);
    }
  }

  /** A digit string with a non-zero leading digit has a positive value. */
  lemma {:induction false} ValuePositive(s: string, radix: Base)
    requires |s| >= 1 && AllDigits(s, radix) && s[0] != '0'
    ensures Value(s, radix) >= 1
    decreases |s|
  {
    if |s| == 1 {
      assert s[..0] == [];
    } else {
      var p := s[..|s| - 1];
      assert p[0] == s[0];
      ValuePositive(p, radix);
    }
  }

  /** Every canonical lower-case digit string is what toString writes for its value. */
  lemma {:induction false} ToRadixOfValue(s: string, radix: Base)
    requires Canonical(s, radix)
    requires forall i :: 0 <= i < |s| ==> !IsUpper(s[i])
    ensures ToRadix(Value(s, radix), radix) == s
    decreases |s|
  {
    if |s| == 1 {
      SingleDigit(s, radix);
    } else {
      var p, last := DropLast(s, radix);
      ToRadixOfValue(p, radix);
      AppendDigit(Value(p, radix), DigitValue(last), radix);
    }
  }

  /**
   * A canonical lower-case numeral of two or more digits is a shorter one
   * followed by a last digit, and its value is the shorter one's value
   * times the radix plus that digit.
   */
  lemma DropLast(s: string, radix: Base) returns (p: string, last: char)
    requires Canonical(s, radix) && |s| > 1
    requires forall i :: 0 <= i < |s| ==> !IsUpper(s[i])
    ensures s == p + [last] && IsDigitOf(last, radix) && DigitChar(DigitValue(last)) == last
    ensures Canonical(p, radix) && forall i :: 0 <= i < |p| ==> !IsUpper(p[i])
    ensures Value(p, radix) >= 1
    ensures Value(s, radix) == Value(p, radix) * radix + DigitValue(last)
  {
    p, last := s[..|s| - 1], s[|s| - 1];
    assert p[0] == s[0];
    DigitCharOfValue(last);
    ValuePositive(p, radix);
  }

  /** A one-digit numeral has the digit's value and is written back as itself. */
  lemma SingleDigit(s: string, radix: Base)
    requires |s| == 1 && AllDigits(s, radix) && !IsUpper(s[0])
    ensures Value(s, radix) == DigitValue(s[0])
    ensures ToRadix(Value(s, radix), radix) == s
  {
    assert s[..0] == [];
    DigitCharOfValue(s[0]);
  }

  /** A lower-case or decimal digit is the character JavaScript writes for its value. */
  lemma DigitCharOfValue(c: char)
    requires IsAlnum(c) && !IsUpper(c)
    ensures DigitChar(DigitValue(c)) == c
  {
  }

  /** Appending digit d to the numeral of q >= 1 gives the numeral of q * radix + d. */
  lemma AppendDigit(q: nat, d: nat, radix: Base)
    requires 1 <= q && d < radix
    ensures ToRadix(q * radix + d, radix) == ToRadix(q, radix) + [DigitChar(d)]
  {
    DivModOf(q, d, radix);
  }

  /** Upper-casing a digit string keeps it a digit string of the same value. */
  lemma {:induction false} ValueOfUpper(s: string, radix: Base)
    requires AllDigits(s, radix)
    ensures AllDigits(ToUpperCase(s), radix)
    ensures Value(ToUpperCase(s), radix) == Value(s, radix)
    decreases |s|
  {
    var u := ToUpperCase(s);
    assert forall i :: 0 <= i < |s| ==> DigitValue(u[i]) == DigitValue(s[i]);
    if |s| > 0 {
      var p := s[..|s| - 1];
      assert u[..|u| - 1] == ToUpperCase(p);
      ValueOfUpper(p, radix);
    }
  }
}

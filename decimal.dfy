/**
 * Decimal rendering of integers, as Java's `String.valueOf(int)` produces it:
 * the digits of the magnitude, most significant first, without leading zeros,
 * preceded by '-' when the value is negative. `ParseInt` reads back exactly
 * the strings of that canonical form, and the two are proved to be inverses.
 */
module Decimal {
  import opened Wrappers

  predicate IsDigit(c: char) { '0' <= c <= '9' }

  predicate AllDigits(s: string) { forall i :: 0 <= i < |s| ==> IsDigit(s[i]) }

  /** A digit string in canonical form: non-empty, and no leading zero unless it is "0" itself. */
  predicate Canonical(s: string) { |s| >= 1 && AllDigits(s) && (s[0] != '0' || |s| == 1) }

  function DigitChar(d: nat): (c: char)
    requires d < 10
    ensures IsDigit(c) && c as int - '0' as int == d
  {
    ('0' as int + d) as char
  }

  function DigitValue(c: char): (d: nat)
    requires IsDigit(c)
    ensures d < 10 && DigitChar(d) == c
  {
    c as int - '0' as int
  }

  /** The decimal digits of n. */
  function NatToDigits(n: nat): (s: string)
    ensures Canonical(s)
  {
    if n < 10 then [DigitChar(n)] else NatToDigits(n / 10) + [DigitChar(n % 10)]
  }

  /** The number a string of digits denotes. */
  function DigitsValue(s: string): nat
    requires AllDigits(s)
  {
    if s == [] then 0 else 10 * DigitsValue(s[..|s| - 1]) + DigitValue(s[|s| - 1])
  }

  lemma {:induction false} DigitsOfNat(n: nat)
    ensures DigitsValue(NatToDigits(n)) == n
  {
    if n >= 10 {
      var s := NatToDigits(n);
      assert s[..|s| - 1] == NatToDigits(n / 10);
      DigitsOfNat(n / 10);
    }
  }

  lemma {:induction false} NatOfDigits(s: string)
    requires Canonical(s)
    ensures NatToDigits(DigitsValue(s)) == s
  {
    if |s| > 1 {
      var p := s[..|s| - 1];
      assert p[0] == s[0];
      NatOfDigits(p);
      assert s == p + [s[|s| - 1]];
    }
  }

  /** String.valueOf(int). */
  function IntToText(v: int): (s: string)
    ensures |s| >= 1
    ensures s[0] == '-' <==> v < 0
  {
    if v < 0 then "-" + NatToDigits(-v) else NatToDigits(v)
  }

  /** Reads back a canonical decimal rendering; anything else (a '+', "-0", a leading zero, a stray character) is None. */
  function ParseInt(s: string): Option<int>
  {
    if |s| >= 2 && s[0] == '-' && Canonical(s[1..]) && s[1] != '0' then Some(0 - DigitsValue(s[1..]))
    else if Canonical(s) then Some(DigitsValue(s))
    else None
  }

  /** The rendering of an int reads back as that int. */
  lemma ParseRendering(v: int)
    ensures ParseInt(IntToText(v)) == Some(v)
  {
    var s := IntToText(v);
    if v < 0 {
      var d := NatToDigits(-v);
      assert s[1..] == d;
      DigitsOfNat(-v);
    } else {
      DigitsOfNat(v);
    }
  }

  /** Every string that parses is the rendering of what it parses to, so rendering is canonical and one-to-one. */
  lemma RenderingOfParse(s: string, v: int)
    requires ParseInt(s) == Some(v)
    ensures IntToText(v) == s
  {
    if |s| >= 2 && s[0] == '-' && Canonical(s[1..]) && s[1] != '0' {
      NatOfDigits(s[1..]);
      assert s == "-" + s[1..];
    } else {
      NatOfDigits(s);
      if v < 0 { assert false; }
    }
  }

  lemma RenderingInjective(a: int, b: int)
    requires IntToText(a) == IntToText(b)
    ensures a == b
  {
    ParseRendering(a);
    ParseRendering(b);
  }
}

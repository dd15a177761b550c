/**
 Decimal rendering of a non-negative integer as `sprintf("%d")` does, its
 inverse, and the client's digit-counting loop.
 */
module Decimal {
  import opened CString

  predicate IsDigit(c: Byte) {
    '0' <= c <= '9'
  }

  predicate AllDigits(s: seq<Byte>) {
    forall i :: 0 <= i < |s| ==> IsDigit(s[i])
  }

  function DigitChar(d: nat): (c: Byte)
    requires d < 10
    ensures IsDigit(c) && c as int - '0' as int == d
  {
    ('0' as int + d) as char
  }

  function Pow10(k: nat): (r: nat)
    ensures r >= 1
  {
    if k == 0 then 1 else 10 * Pow10(k - 1)
  }

  /** The characters `sprintf(buf, "%d", v)` writes before its NUL. */
  function Digits(v: nat): (r: seq<Byte>)
    ensures |r| >= 1 && AllDigits(r) && NoNul(r)
    ensures v > 0 ==> r[0] != '0'
  {
    if v < 10 then [DigitChar(v)] else Digits(v / 10) + [DigitChar(v % 10)]
  }

  /** The value a string of decimal digits denotes. */
  function ParseDigits(s: seq<Byte>): nat
    requires AllDigits(s)
  {
    if |s| == 0 then 0
    else ParseDigits(s[..|s| - 1]) * 10 + (s[|s| - 1] as int - '0' as int)
  }

  /** Reading the rendered digits back gives the number. */
  lemma {:induction false} ParseDigitsOfDigits(v: nat)
    ensures ParseDigits(Digits(v)) == v
  {
    if v >= 10 {
      ParseDigitsOfDigits(v / 10);
      var d := Digits(v);
      assert d[..|d| - 1] == Digits(v / 10);
    }
  }

  /** The rendering has exactly as many digits as the decimal length of `v`:
      `v` is below `10^k`, and at least `10^(k-1)` unless it is one digit. */
  lemma {:induction false} DigitsLength(v: nat)
    ensures v < Pow10(|Digits(v)|)
    ensures |Digits(v)| > 1 ==> Pow10(|Digits(v)| - 1) <= v
  {
    if v >= 10 {
      DigitsLength(v / 10);
    }
  }

  /** The digit-counting loop of the room derivation: divide by ten while the
      value is at least 1, counting the steps. It counts the decimal digits of
      a positive value and gives 0 for a value below 1. */
  method CountDigits(tempr: int) returns (j: nat)
    ensures tempr >= 1 ==> j == |Digits(tempr)|
    ensures tempr < 1 ==> j == 0
  {
    j := 0;
    var t := tempr;
    while t >= 1
      invariant tempr < 1 ==> t == tempr && j == 0
      invariant tempr >= 1 ==> t >= 0
      invariant tempr >= 1 && t >= 1 ==> j + |Digits(t)| == |Digits(tempr)|
      invariant tempr >= 1 && t == 0 ==> j == |Digits(tempr)|
      decreases t
    {
      j := j + 1;
      t := t / 10;
    }
  }
}

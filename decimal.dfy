/** Decimal rendering of the zone index (main.go:103, `strconv.Itoa(z.Index)`),
    with the decimal reading it inverts. */
module Decimal {

  /** Go's `int` on the 64-bit platforms the exporter runs on. */
  newtype int64 = x: int | -0x8000_0000_0000_0000 <= x < 0x8000_0000_0000_0000

  predicate IsDigit(c: char) {
    '0' <= c <= '9'
  }

  predicate AllDigits(s: string) {
    forall i :: 0 <= i < |s| ==> IsDigit(s[i])
  }

  function DigitChar(d: nat): (c: char)
    requires d < 10
    ensures IsDigit(c)
    ensures (c as int) - ('0' as int) == d
  {
    (('0' as int) + d) as char
  }

  function DigitValue(c: char): (d: nat)
    requires IsDigit(c)
    ensures d < 10
  {
    (c as int) - ('0' as int)
  }

  /** The shortest decimal numeral of `n`: digits only, and a leading '0' only for 0 itself. */
  function NatToString(n: nat): (s: string)
    ensures |s| > 0 && AllDigits(s)
    ensures s[0] == '0' <==> n == 0
    ensures n == 0 ==> s == "0"
    decreases n
  {
    if n < 10 then [DigitChar(n)] else NatToString(n / 10) + [DigitChar(n % 10)]
  }

  /** `strconv.Itoa`: a '-' for negative numbers, then the numeral of the magnitude. */
  function Itoa(i: int64): (s: string)
    ensures |s| > 0
    ensures s[0] == '-' <==> i < 0
    ensures AllDigits(if i < 0 then s[1..] else s)
    ensures var d := if i < 0 then s[1..] else s; |d| > 0 && (d[0] == '0' ==> i == 0)
  {
    if i < 0 then "-" + NatToString(-(i as int)) else NatToString(i as nat)
  }

  /** The number a string of decimal digits denotes. */
  function DigitsValue(s: string): nat
    requires AllDigits(s)
  {
    if s == [] then 0 else DigitsValue(s[..|s| - 1]) * 10 + DigitValue(s[|s| - 1])
  }

  predicate IsNumeral(s: string) {
    if |s| > 0 && s[0] == '-' then AllDigits(s[1..]) else AllDigits(s)
  }

  /** The number an optionally signed decimal numeral denotes. */
  function DecimalValue(s: string): int
    requires IsNumeral(s)
  {
    if |s| > 0 && s[0] == '-' then -(DigitsValue(s[1..]) as int) else DigitsValue(s)
  }

  lemma {:induction false} NatToStringValue(n: nat)
    ensures DigitsValue(NatToString(n)) == n
    decreases n
  {
    if n >= 10 {
      var s := NatToString(n);
      assert s[..|s| - 1] == NatToString(n / 10);
      NatToStringValue(n / 10);
    }
  }

  /** The index label reads back as the zone's index: `Itoa` loses nothing. */
  lemma ItoaRoundTrip(i: int64)
    ensures IsNumeral(Itoa(i)) && DecimalValue(Itoa(i)) == i as int
  {
    if i < 0 {
      assert Itoa(i)[1..] == NatToString(-(i as int));
      NatToStringValue(-(i as int));
    } else {
      NatToStringValue(i as nat);
    }
  }

  /** Different indices get different labels. */
  lemma ItoaInjective(i: int64, j: int64)
    requires Itoa(i) == Itoa(j)
    ensures i == j
  {
    ItoaRoundTrip(i);
    ItoaRoundTrip(j);
  }
}

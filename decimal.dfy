/** Decimal rendering of integers, as a template literal shows a whole number in
    the mismatch messages, and the reading that recovers the number from it.
 */
module Decimal {

  predicate IsDigit(c: char) {
    '0' <= c <= '9'
  }

  function DigitChar(d: nat): (c: char)
    requires d < 10
    ensures IsDigit(c)
  {
    (48 + d) as char
  }

  /** Decimal digits of n, most significant first, without leading zeros. */
  function NatToDecimal(n: nat): (s: string)
    ensures |s| >= 1
    ensures forall i :: 0 <= i < |s| ==> IsDigit(s[i])
    ensures |s| > 1 ==> s[0] != '0'
  {
    if n < 10 then [DigitChar(n)] else NatToDecimal(n / 10) + [DigitChar(n % 10)]
  }

  /** A whole number as text: a minus sign before the digits of a negative one. */
  function IntToDecimal(i: int): (s: string)
    ensures IsNumeral(s)
    ensures (s[0] == '-') <==> i < 0
  {
    if i < 0 then "-" + NatToDecimal(-i) else NatToDecimal(i)
  }

  /** The number a run of decimal digits denotes. */
  function DigitsValue(s: string): int
    requires forall i :: 0 <= i < |s| ==> IsDigit(s[i])
  {
    if s == [] then 0 else 10 * DigitsValue(s[..|s| - 1]) + (s[|s| - 1] as int - 48)
  }

  /** Digits, possibly after one leading minus sign. */
  predicate IsNumeral(s: string) {
    |s| >= 1 && (s[0] == '-' || IsDigit(s[0])) && forall i :: 0 < i < |s| ==> IsDigit(s[i])
  }

  /** The number a numeral denotes. */
  function ParseDecimal(s: string): int
    requires IsNumeral(s)
  {
    if s[0] == '-' then 0 - DigitsValue(s[1..]) else DigitsValue(s)
  }

  lemma {:induction false} NatToDecimalRoundTrip(n: nat)
    ensures DigitsValue(NatToDecimal(n)) == n
  {
    if n >= 10 {
      NatToDecimalRoundTrip(n / 10);
      var s := NatToDecimal(n);
      assert s[..|s| - 1] == NatToDecimal(n / 10);
    }
  }

  /** The rendered text always reads back as the number it was rendered from, so
      distinct numbers give distinct texts. */
  lemma IntToDecimalRoundTrip(i: int)
    ensures ParseDecimal(IntToDecimal(i)) == i
  {
    var s := IntToDecimal(i);
    if i < 0 {
      NatToDecimalRoundTrip(-i);
      assert s[1..] == NatToDecimal(-i);
    } else {
      NatToDecimalRoundTrip(i);
    }
  }
}

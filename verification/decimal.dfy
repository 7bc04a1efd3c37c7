/**
 Decimal text of a whole number, with a leading minus sign when it is
 negative, as a JavaScript template literal writes a millisecond timestamp,
 together with its inverse.
 */
module Decimal {

  predicate IsDigit(c: char)
  {
    '0' <= c <= '9'
  }

  predicate AllDigits(s: string)
  {
    forall i :: 0 <= i < |s| ==> IsDigit(s[i])
  }

  function DigitChar(d: nat): (c: char)
    requires d < 10
    ensures IsDigit(c)
  {
    (d + '0' as int) as char
  }

  function DigitValue(c: char): (d: nat)
    requires IsDigit(c)
    ensures d < 10
  {
    c as int - '0' as int
  }

  /**
   The shortest decimal spelling of n: at least one digit, only digits, and
   no leading zero except for n == 0 itself.
   */
  function NatToDecimal(n: nat): (s: string)
    ensures |s| > 0 && AllDigits(s)
    ensures s[0] == '0' ==> n == 0
    ensures n >= 10 ==> |s| >= 2
  {
    if n < 10 then [DigitChar(n)]
    else NatToDecimal(n / 10) + [DigitChar(n % 10)]
  }

  /** The value a string of decimal digits denotes. */
  function DecimalValue(s: string): nat
    requires AllDigits(s)
  {
    if s == [] then 0
    else DecimalValue(s[..|s| - 1]) * 10 + DigitValue(s[|s| - 1])
  }

  /** Reading back the decimal text of n gives n. */
  lemma {:induction false} DecimalRoundTrip(n: nat)
    ensures DecimalValue(NatToDecimal(n)) == n
  {
    var s := NatToDecimal(n);
    if n < 10 {
      assert s[..0] == [];
    } else {
      assert s[..|s| - 1] == NatToDecimal(n / 10);
      DecimalRoundTrip(n / 10);
    }
  }

  /**
   The text of a whole number as JavaScript prints it: a leading minus sign
   for a negative value, then the digits of its magnitude.
   */
  function IntToDecimal(t: int): (s: string)
    ensures |s| > 0
    ensures s[0] == '-' <==> t < 0
  {
    if t < 0 then "-" + NatToDecimal(-t) else NatToDecimal(t)
  }

  /** Text made of an optional minus sign followed by decimal digits. */
  predicate IsSignedDecimal(s: string)
  {
    if |s| > 0 && s[0] == '-' then AllDigits(s[1..]) else AllDigits(s)
  }

  /** The value of an optionally signed decimal text. */
  function SignedDecimalValue(s: string): int
    requires IsSignedDecimal(s)
  {
    if |s| > 0 && s[0] == '-' then -(DecimalValue(s[1..]) as int) else DecimalValue(s)
  }

  /** Reading back the signed decimal text of t gives t. */
  lemma SignedDecimalRoundTrip(t: int)
    ensures IsSignedDecimal(IntToDecimal(t))
    ensures SignedDecimalValue(IntToDecimal(t)) == t
  {
    var s := IntToDecimal(t);
    if t < 0 {
      assert s[1..] == NatToDecimal(-t);
      DecimalRoundTrip(-t);
    } else {
      DecimalRoundTrip(t);
    }
  }

  /** Distinct whole numbers have distinct decimal texts. */
  lemma IntToDecimalInjective(a: int, b: int)
    requires IntToDecimal(a) == IntToDecimal(b)
    ensures a == b
  {
    SignedDecimalRoundTrip(a);
    SignedDecimalRoundTrip(b);
  }
}

/** Python's `str(n)` for an integer, as an f-string renders it: an optional
    minus sign followed by decimal digits without leading zeros, and the
    matching `int(s)` parse. */
module Decimal {

  predicate IsDigit(c: char)
  {
    '0' <= c <= '9'
  }

  predicate AllDigits(s: string)
  {
    forall i :: 0 <= i < |s| ==> IsDigit(s[i])
  }

  function DigitChar(d: nat): (c: char)
    requires d < 10
    ensures IsDigit(c) && (c == '0' <==> d == 0)
  {
    ('0' as int + d) as char
  }

  function DigitValue(c: char): (d: nat)
    requires IsDigit(c)
    ensures d < 10 && DigitChar(d) == c
  {
    c as int - '0' as int
  }

  /** The decimal text of a natural number. */
  function NatToDecimal(n: nat): (s: string)
    ensures |s| > 0 && AllDigits(s)
    ensures s[0] == '0' <==> n == 0
    ensures n == 0 ==> s == "0"
    decreases n
  {
    if n < 10 then [DigitChar(n)]
    else NatToDecimal(n / 10) + [DigitChar(n % 10)]
  }

  /** `int(s)` on a non-empty run of decimal digits. */
  function ParseNat(s: string): nat
    requires AllDigits(s)
    decreases |s|
  {
    if s == [] then 0
    else ParseNat(s[..|s| - 1]) * 10 + DigitValue(s[|s| - 1])
  }

  /** `str(i)`: the text is canonical, with a minus sign exactly for a
      negative number and no leading zero. */
  function IntToDecimal(i: int): (s: string)
    ensures |s| > 0
    ensures s[0] == '-' <==> i < 0
    ensures i < 0 ==> |s| > 1 && AllDigits(s[1..]) && s[1] != '0'
    ensures i >= 0 ==> AllDigits(s) && (s[0] == '0' ==> s == "0")
  {
    if i < 0 then
      var digits := NatToDecimal(-i);
      assert ("-" + digits)[1..] == digits;
      "-" + digits
    else NatToDecimal(i)
  }

  /** `int(s)` on what `IntToDecimal` produces. */
  function ParseInt(s: string): int
    requires |s| > 0
    requires AllDigits(s) || (|s| > 1 && s[0] == '-' && AllDigits(s[1..]))
  {
    if s[0] == '-' then -(ParseNat(s[1..]) as int) else ParseNat(s)
  }

  /** Reading back the digits of a natural number gives the number. */
  lemma {:induction false} NatToDecimalRoundTrip(n: nat)
    ensures ParseNat(NatToDecimal(n)) == n
    decreases n
  {
    if n >= 10 {
      var s := NatToDecimal(n / 10);
      var t := s + [DigitChar(n % 10)];
      assert t[..|t| - 1] == s;
      NatToDecimalRoundTrip(n / 10);
    }
  }

  /** `int(str(i)) == i`: parsing the text back gives the number. */
  lemma IntToDecimalRoundTrip(i: int)
    ensures ParseInt(IntToDecimal(i)) == i
  {
    var s := IntToDecimal(i);
    if i < 0 {
      assert s[1..] == NatToDecimal(-i);
      NatToDecimalRoundTrip(-i);
    } else {
      NatToDecimalRoundTrip(i);
    }
  }
}

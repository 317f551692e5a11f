/** Decimal digits: the `\d` character class, the value of a digit string
    (what `strconv.ParseInt(s, 10, _)` yields for such a string) and the
    `%d` / `%02d` renderings of a natural number. */
module Decimal {

  predicate IsDigit(c: char) {
    '0' <= c <= '9'
  }

  predicate AllDigits(s: string) {
    forall i :: 0 <= i < |s| ==> IsDigit(s[i])
  }

  function DigitValue(c: char): (d: nat)
    requires IsDigit(c)
    ensures d < 10
  {
    c as int - '0' as int
  }

  function DigitChar(d: nat): (c: char)
    requires d < 10
    ensures IsDigit(c) && DigitValue(c) == d
  {
    ('0' as int + d) as char
  }

  /** The number a string of decimal digits denotes (most significant first). */
  function Value(s: string): nat
    requires AllDigits(s)
  {
    if |s| == 0 then 0 else Value(s[..|s| - 1]) * 10 + DigitValue(s[|s| - 1])
  }

  /** `%d` of a natural number: shortest decimal rendering. */
  function NatToString(n: nat): (s: string)
    ensures 1 <= |s|
    ensures AllDigits(s)
    ensures Value(s) == n
    ensures n < 10 <==> |s| == 1
    ensures |s| == 1 || s[0] != '0'
  {
    if n < 10 then [DigitChar(n)]
    else
      var prefix := NatToString(n / 10);
      var s := prefix + [DigitChar(n % 10)];
      assert s[..|s| - 1] == prefix;
      s
  }

  /** `%02d` of a natural number: at least two digits, padded with a leading zero. */
  function Pad2(n: nat): (s: string)
    ensures 2 <= |s|
    ensures AllDigits(s)
    ensures Value(s) == n
    ensures n < 100 <==> |s| == 2
  {
    if n < 10 then
      var s := ['0'] + NatToString(n);
      assert s[..1] == ['0'];
      s
    else NatToString(n)
  }

  /** Two digits always denote a number below 100. */
  lemma TwoDigitsBelowHundred(s: string)
    requires AllDigits(s) && |s| <= 2
    ensures Value(s) < 100
  {
    if |s| == 2 {
      assert Value(s[..1]) < 10;
    }
  }
}

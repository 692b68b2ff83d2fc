/** Decimal text of integers, as Go's `%v` verb prints an `int` or a `uint32`:
    base ten, no leading zeros, a leading '-' for negative values. The parser
    is the partner that shows the printed text determines the number. */
module Decimal {

  predicate IsDigit(c: char) {
    '0' <= c <= '9'
  }

  predicate AllDigits(s: string) {
    forall i :: 0 <= i < |s| ==> IsDigit(s[i])
  }

  /** Text of a natural number: at least one digit. */
  predicate IsNatText(s: string) {
    |s| > 0 && AllDigits(s)
  }

  /** Text of an integer: a natural's text, optionally preceded by '-'. */
  predicate IsIntText(s: string) {
    IsNatText(s) || (|s| > 1 && s[0] == '-' && IsNatText(s[1..]))
  }

  function DigitValue(c: char): (d: nat)
    requires IsDigit(c)
    ensures d < 10
  {
    c as int - '0' as int
  }

  function DigitChar(d: nat): (c: char)
    requires d < 10
    ensures IsDigit(c) && DigitValue(c) == d
  {
    (d + '0' as int) as char
  }

  /** `%v` of a non-negative integer. */
  function NatToString(n: nat): (s: string)
    ensures IsNatText(s)
    ensures |s| > 1 ==> s[0] != '0'
    ensures n < 10 <==> |s| == 1
    decreases n
  {
    if n < 10 then [DigitChar(n)]
    else NatToString(n / 10) + [DigitChar(n % 10)]
  }

  /** `%v` of a signed integer. */
  function IntToString(i: int): (s: string)
    ensures IsIntText(s)
    ensures i < 0 <==> s[0] == '-'
  {
    if i < 0 then "-" + NatToString(-i) else NatToString(i)
  }

  /** Value of a string of digits, read left to right. */
  function ParseNat(s: string): nat
    requires AllDigits(s)
    decreases |s|
  {
    if |s| == 0 then 0
    else 10 * ParseNat(s[..|s| - 1]) + DigitValue(s[|s| - 1])
  }

  function ParseInt(s: string): int
    requires IsIntText(s)
  {
    if s[0] == '-' then -(ParseNat(s[1..]) as int) else ParseNat(s)
  }

  /** The printed text of a natural number reads back as that number. */
  lemma {:induction false} ParseNatToString(n: nat)
    ensures ParseNat(NatToString(n)) == n
    decreases n
  {
    if n >= 10 {
      var prefix := NatToString(n / 10);
      var s := prefix + [DigitChar(n % 10)];
      assert NatToString(n) == s;
      assert s[..|s| - 1] == prefix;
      ParseNatToString(n / 10);
    }
  }

  /** The printed text of an integer reads back as that integer. */
  lemma ParseIntToString(i: int)
    ensures ParseInt(IntToString(i)) == i
  {
    if i < 0 {
      var digits := NatToString(-i);
      var s := "-" + digits;
      assert IntToString(i) == s;
      assert s[1..] == digits;
      assert ParseInt(s) == -(ParseNat(digits) as int);
      ParseNatToString(-i);
    } else {
      var digits := NatToString(i);
      assert IntToString(i) == digits;
      assert digits[0] != '-';
      ParseNatToString(i);
    }
  }

  /** Printing is one-to-one: distinct numbers never print alike. */
  lemma IntToStringInjective(i: int, j: int)
    ensures IntToString(i) == IntToString(j) ==> i == j
  {
    ParseIntToString(i);
    ParseIntToString(j);
  }
}

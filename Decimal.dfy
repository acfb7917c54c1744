/**
 * The decimal text Java produces for an `int` when it is concatenated to a
 * String (Integer.toString): an optional minus sign, then the digits of the
 * magnitude, most significant first, with no leading zero. The reading
 * function `NumeralValue` is its inverse, so distinct integers never share a
 * text.
 */
module Decimal {

  predicate IsDigit(c: char) { '0' <= c <= '9' }

  predicate AllDigits(s: string) { forall k :: 0 <= k < |s| ==> IsDigit(s[k]) }

  /** A well-formed decimal text: optional '-', then at least one digit. */
  predicate IsNumeral(s: string)
  {
    if |s| > 0 && s[0] == '-' then |s| > 1 && AllDigits(s[1..]) else |s| > 0 && AllDigits(s)
  }

  function DigitValue(c: char): (d: nat)
    requires IsDigit(c)
    ensures d < 10
  {
    c as int - '0' as int
  }

  function DigitChar(d: nat): (c: char)
    requires d < 10
    ensures IsDigit(c) && DigitValue(c) == d
  {
    ('0' as int + d) as char
  }

  /** The number a string of digits denotes, most significant digit first. */
  function DigitsValue(s: string): nat
    requires AllDigits(s)
  {
    if s == [] then 0 else 10 * DigitsValue(s[..|s| - 1]) + DigitValue(s[|s| - 1])
  }

  /** The number a decimal text denotes. */
  function NumeralValue(s: string): int
    requires IsNumeral(s)
  {
    if s[0] == '-' then -(DigitsValue(s[1..]) as int) else DigitsValue(s)
  }

  /** The digits of a non-negative number, most significant first. */
  function NatToDecimal(n: nat): (s: string)
    ensures |s| > 0
    decreases n
  {
    if n < 10 then [DigitChar(n)] else NatToDecimal(n / 10) + [DigitChar(n % 10)]
  }

  /** Integer.toString: a minus sign for a negative value, then the digits of the magnitude. */
  function IntToDecimal(i: int): (s: string)
    ensures |s| > 0
  {
    if i < 0 then "-" + NatToDecimal(-i) else NatToDecimal(i)
  }

  /** The digits of `n` are digits, have no leading zero, and read back as `n`. */
  lemma {:induction false} NatToDecimalReadsBack(n: nat)
    ensures AllDigits(NatToDecimal(n))
    ensures NatToDecimal(n)[0] == '0' ==> n == 0
    ensures DigitsValue(NatToDecimal(n)) == n
    decreases n
  {
    if n >= 10 {
      var prefix := NatToDecimal(n / 10);
      NatToDecimalReadsBack(n / 10);
      assert NatToDecimal(n)[..|NatToDecimal(n)| - 1] == prefix;
    }
  }

  /** The text of `i` is a well-formed decimal text that reads back as `i`. */
  lemma IntToDecimalReadsBack(i: int)
    ensures IsNumeral(IntToDecimal(i))
    ensures NumeralValue(IntToDecimal(i)) == i
    ensures IntToDecimal(i)[0] == '-' <==> i < 0
  {
    if i < 0 {
      NatToDecimalReadsBack(-i);
      assert IntToDecimal(i)[1..] == NatToDecimal(-i);
    } else {
      NatToDecimalReadsBack(i);
    }
  }

  /** Distinct integers have distinct texts. */
  lemma IntToDecimalInjective(i: int, j: int)
    requires IntToDecimal(i) == IntToDecimal(j)
    ensures i == j
  {
    IntToDecimalReadsBack(i);
    IntToDecimalReadsBack(j);
  }

  /** A decimal text holds only digits and '-', so it never holds the separator `d`. */
  lemma {:induction false} NumeralAvoids(s: string, d: char)
    requires IsNumeral(s)
    requires d != '-' && !IsDigit(d)
    ensures d !in s
  {
    forall k | 0 <= k < |s|
      ensures s[k] != d
    {
      if s[0] == '-' && k > 0 {
        assert s[k] == s[1..][k - 1];
      }
    }
  }

  /** The text of an integer never holds a character other than '-' and the digits. */
  lemma IntToDecimalAvoids(i: int, d: char)
    requires d != '-' && !IsDigit(d)
    ensures d !in IntToDecimal(i)
  {
    IntToDecimalReadsBack(i);
    NumeralAvoids(IntToDecimal(i), d);
  }
}

/** Decimal text of natural numbers: the `ToString()` of a non-negative integer
    and the `int.Parse` of such a text, restricted to plain digit strings. */
module Decimal {

  predicate IsDigit(c: char) {
    '0' <= c <= '9'
  }

  predicate AllDigits(s: string) {
    forall i :: 0 <= i < |s| ==> IsDigit(s[i])
  }

  /** A decimal numeral as `ToString()` writes it: at least one digit and no
      leading zero unless the number is zero itself. */
  predicate IsCanonical(s: string) {
    && |s| >= 1
    && AllDigits(s)
    && (|s| > 1 ==> s[0] != '0')
  }

  function DigitValue(c: char): (d: nat)
    requires IsDigit(c)
    ensures d < 10
  {
    c as int - '0' as int
  }

  function DigitChar(d: nat): (c: char)
    requires d < 10
    ensures IsDigit(c) && DigitValue(c) == d
  {
    ('0' as int + d) as char
  }

  /** The value of a digit string, most significant digit first. */
  function Value(s: string): (n: nat)
    requires AllDigits(s)
  {
    if |s| == 0 then 0 else Value(s[..|s| - 1]) * 10 + DigitValue(s[|s| - 1])
  }

  /** The decimal text of `n`. */
  function Text(n: nat): (s: string)
    ensures IsCanonical(s)
    ensures s[0] == '0' <==> n == 0
    decreases n
  {
    if n < 10 then [DigitChar(n)] else Text(n / 10) + [DigitChar(n % 10)]
  }

  /** Parsing the text of a number gives the number back. */
  lemma {:induction false} ValueOfText(n: nat)
    ensures Value(Text(n)) == n
    decreases n
  {
    if n >= 10 {
      var s := Text(n);
      assert s[..|s| - 1] == Text(n / 10);
      ValueOfText(n / 10);
    }
  }

  /** The value of a numeral of up to three digits, written out. */
  lemma ValueOfShort(s: string)
    requires AllDigits(s) && 1 <= |s| <= 3
    ensures |s| == 1 ==> Value(s) == DigitValue(s[0])
    ensures |s| == 2 ==> Value(s) == DigitValue(s[0]) * 10 + DigitValue(s[1])
    ensures |s| == 3 ==> Value(s) == (DigitValue(s[0]) * 10 + DigitValue(s[1])) * 10 + DigitValue(s[2])
  {
    if |s| >= 2 {
      ValueOfShort(s[..|s| - 1]);
    }
  }

  /** A digit string whose first digit is not zero has a positive value. */
  lemma {:induction false} LeadingDigitPositive(s: string)
    requires |s| >= 1 && AllDigits(s) && s[0] != '0'
    ensures Value(s) >= 1
    decreases |s|
  {
    if |s| > 1 {
      LeadingDigitPositive(s[..|s| - 1]);
    }
  }

  /** Every canonical numeral is the text of its own value. */
  lemma {:induction false} TextOfValue(s: string)
    requires IsCanonical(s)
    ensures Text(Value(s)) == s
    decreases |s|
  {
    if |s| > 1 {
      var p := s[..|s| - 1];
      LeadingDigitPositive(p);
      TextOfValue(p);
      assert Text(Value(s)) == Text(Value(p)) + [s[|s| - 1]];
    }
  }

  /** The text of a number below 1000 has at most three digits. */
  lemma TextLengthBelowThousand(n: nat)
    requires n < 1000
    ensures |Text(n)| <= 3
    ensures n < 100 ==> |Text(n)| <= 2
    ensures n < 10 ==> |Text(n)| == 1
  {
    if n >= 10 {
      assert Text(n) == Text(n / 10) + [DigitChar(n % 10)];
      if n >= 100 {
        assert Text(n / 10) == Text(n / 100) + [DigitChar(n / 10 % 10)];
      }
    }
  }

  /** Two numbers have the same text exactly when they are equal. */
  lemma TextInjective(m: nat, n: nat)
    ensures Text(m) == Text(n) <==> m == n
  {
    if Text(m) == Text(n) {
      ValueOfText(m);
      ValueOfText(n);
    }
  }
}

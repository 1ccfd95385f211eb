/** Decimal numerals: the characters of a number and the number of a string of digits. */
module Decimals {
  import opened Powers

  function Digit(c: char): int {
    c as int - '0' as int
  }

  function DigitChar(d: int): (c: char)
    requires 0 <= d <= 10
    ensures Digit(c) == d
  {
    ('0' as int + d) as char
  }

  predicate IsDigit(c: char) {
    '0' <= c <= '9'
  }

  function Decimal(s: string): int {
    if s == [] then 0 else 10 * Decimal(s[..|s| - 1]) + Digit(s[|s| - 1])
  }

  lemma DecimalSnoc(s: string, c: char)
    ensures Decimal(s + [c]) == 10 * Decimal(s) + Digit(c)
  {
    assert (s + [c])[..|s|] == s;
  }

  /** The decimal numeral of n, without leading zeros. */
  function ToDigits(n: nat): (s: string)
    ensures s != [] && forall k :: 0 <= k < |s| ==> IsDigit(s[k])
  {
    if n < 10 then [DigitChar(n)] else ToDigits(n / 10) + [DigitChar(n % 10)]
  }

  lemma {:induction false} DigitsRoundTrip(n: nat)
    ensures Decimal(ToDigits(n)) == n
  {
    if n < 10 {
      assert [] + [DigitChar(n)] == ToDigits(n);
      DecimalSnoc([], DigitChar(n));
    } else {
      DigitsRoundTrip(n / 10);
      DecimalSnoc(ToDigits(n / 10), DigitChar(n % 10));
    }
  }

  /** Different numbers have different numerals. */
  lemma DigitsInjective(m: nat, n: nat)
    requires ToDigits(m) == ToDigits(n)
    ensures m == n
  {
    DigitsRoundTrip(m);
    DigitsRoundTrip(n);
  }

  lemma {:induction false} DigitsLength(n: nat, k: nat)
    requires k > 0
    ensures |ToDigits(n)| <= k <==> n < Pow(10, k)
    decreases n
  {
    assert Pow(10, k) == 10 * Pow(10, k - 1);
    if n < 10 {
      PowPositive(10, k - 1);
    } else if k == 1 {
      assert Pow(10, 0) == 1;
    } else {
      DigitsLength(n / 10, k - 1);
    }
  }
}

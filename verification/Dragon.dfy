/** Printing a binary floating-point number with a given number of exact decimal digits. */
module Dragon {
  import opened Powers
  import opened Bigits
  import opened BigitOrder
  import opened BigInt
  import opened Rounding
  import opened Decimals

  /** One past '9': a digit position holding ten, waiting for its carry. */
  const OVERFLOW: char := ':'

  lemma {:induction false} DecimalUpdate(s: string, i: nat, c: char)
    requires i < |s|
    ensures Decimal(s[i := c]) == Decimal(s) + (Digit(c) - Digit(s[i])) * Pow(10, |s| - 1 - i)
  {
    var n := |s| - 1;
    var t := s[i := c];
    if i == n {
      assert t[..n] == s[..n];
    } else {
      assert t[..n] == s[..n][i := c];
      DecimalUpdate(s[..n], i, c);
      MulAssoc(10, Digit(c) - Digit(s[i]), Pow(10, n - 1 - i));
    }
  }

  lemma {:induction false} DecimalZeros(s: string)
    requires forall k :: 0 <= k < |s| ==> s[k] == '0'
    ensures Decimal(s) == 0
  {
    if s != [] { DecimalZeros(s[..|s| - 1]); }
  }

  /** A leading overflow over zeros denotes a power of ten; so does a leading one, a place further up. */
  lemma DecimalLeading(s: string)
    requires s != [] && forall k :: 1 <= k < |s| ==> s[k] == '0'
    ensures Decimal(s) == Digit(s[0]) * Pow(10, |s| - 1)
  {
    var d, p := Digit(s[0]), Pow(10, |s| - 1);
    DecimalUpdate(s, 0, '0');
    DecimalZeros(s[0 := '0']);
    MulDistribute(0, d, p);
  }

  /** Whether multiplying a by ten can never make it b unless the stored exponents allow the comparison. */
  ghost predicate NeverTies(a: nat, aExp: nat, b: nat, bExp: nat) {
    aExp <= bExp || forall i: nat :: a * Pow(10, i) != b
  }

  lemma {:induction false} PowersOfFiveAreOdd(x: nat)
    ensures Pow(5, x) % 2 == 1
  {
    if x > 0 { PowersOfFiveAreOdd(x - 1); }
  }

  lemma FiveTo29()
    ensures Pow(5, 29) > TWO_64
  {
    assert Pow(5, 3) == 125;
    PowAdd(5, 3, 4);
    assert Pow(5, 4) == 625;
    PowAdd(5, 7, 7);
    PowAdd(5, 14, 14);
    PowAdd(5, 28, 1);
  }

  /** For a non-negative binary exponent a tie would need more than 64 bits of significand. */
  lemma IntegersNeverTie(sig: nat, e: nat, x: nat, shift: nat)
    requires 0 < sig < TWO_64 && 1 <= shift <= 2
    ensures NeverTies(sig * Pow(2, e), e / BIGIT_BITS, Pow(10, x) * Pow(2, shift), x / BIGIT_BITS)
  {
    if e / BIGIT_BITS > x / BIGIT_BITS {
      forall i: nat
        ensures sig * Pow(2, e) * Pow(10, i) != Pow(10, x) * Pow(2, shift)
      {
        ExponentGap(e, x, shift, i);
        NoTie(sig, e, x, shift, i);
      }
    }
  }

  lemma NoTie(sig: nat, e: nat, x: nat, shift: nat, i: nat)
    requires sig < TWO_64 && (e + i > x + shift || (x >= 30 && i <= 1))
    ensures sig * Pow(2, e) * Pow(10, i) != Pow(10, x) * Pow(2, shift)
  {
    var l, r := (sig * Pow(5, i)) * Pow(2, e + i), Pow(5, x) * Pow(2, x + shift);
    assert l != r by {
      if e + i > x + shift {
        TooManyTwos(sig * Pow(5, i), x, x + shift, e + i);
      } else {
        TooManyFives(sig, i, x, e + i, x + shift);
      }
    }
    assert sig * Pow(2, e) * Pow(10, i) == l by { SplitTens(sig, e, i); }
    assert Pow(10, x) * Pow(2, shift) == r by { SplitTen(x, shift); }
  }

  lemma ExponentGap(e: nat, x: nat, shift: nat, i: nat)
    requires shift <= 2 && e / BIGIT_BITS > x / BIGIT_BITS
    ensures e + i > x + shift || (x >= 30 && i <= 1)
  {}

  lemma TooManyTwos(a: nat, x: nat, m: nat, n: nat)
    requires m < n
    ensures a * Pow(2, n) != Pow(5, x) * Pow(2, m)
  {
    if a * Pow(2, n) == Pow(5, x) * Pow(2, m) {
      CancelTwos(Pow(5, x), a, m, n);
      PowersOfFiveAreOdd(x);
      var h := Pow(2, n - m - 1);
      MulAssoc(a, 2, h);
      MulAssoc(2, a, h);
      assert false;
    }
  }

  lemma TooManyFives(sig: nat, i: nat, x: nat, m: nat, n: nat)
    requires sig < TWO_64 && x >= 30 && i <= 1 && m <= n
    ensures sig * Pow(5, i) * Pow(2, m) < Pow(5, x) * Pow(2, n)
  {
    FiveTo29();
    PowMonotone(5, 29, x - 1);
    var five := Pow(5, i);
    assert five <= 5 by { assert Pow(5, 0) == 1 && Pow(5, 1) == 5; }
    assert sig * five <= 5 * sig by { MulMonotone(five, 5, sig); }
    assert Pow(5, x) == 5 * Pow(5, x - 1);
    PowPositive(2, m);
    PowMonotone(2, m, n);
    MulStrict(sig * five, Pow(5, x), Pow(2, m));
    MulMonotone(Pow(2, m), Pow(2, n), Pow(5, x));
  }

  lemma SplitTens(sig: nat, e: nat, i: nat)
    ensures sig * Pow(2, e) * Pow(10, i) == (sig * Pow(5, i)) * Pow(2, e + i)
  {
    PowProduct(5, 2, i);
    PowAdd(2, e, i);
    Interchange(sig, Pow(2, e), Pow(5, i), Pow(2, i));
  }

  lemma SplitTen(x: nat, shift: nat)
    ensures Pow(10, x) * Pow(2, shift) == Pow(5, x) * Pow(2, x + shift)
  {
    PowProduct(5, 2, x);
    PowAdd(2, x, shift);
    MulAssoc(Pow(5, x), Pow(2, x), Pow(2, shift));
  }

  lemma CancelTwos(a: nat, b: nat, m: nat, n: nat)
    requires m <= n && a * Pow(2, m) == b * Pow(2, n)
    ensures a == b * Pow(2, n - m)
  {
    PowAdd(2, n - m, m);
    PowPositive(2, m);
    MulAssoc(b, Pow(2, n - m), Pow(2, m));
    MulCancel(a, b * Pow(2, n - m), Pow(2, m));
  }

  /** Below one, the power of ten scaling the numerator is no larger than the power of two below it. */
  lemma FractionExponents(sig: nat, m: nat, s: nat)
    requires sig >= 2 && Pow(10, m) * sig < 10 * Pow(2, s)
    ensures m <= s
  {
    if m > s {
      PowMonotone(10, s + 1, m);
      TwoBelowTen(s);
      MulMonotone(2, sig, Pow(10, m));
      assert false;
    }
  }

  lemma {:induction false} TwoBelowTen(s: nat)
    ensures Pow(2, s) <= Pow(10, s)
  {
    if s > 0 {
      TwoBelowTen(s - 1);
      MulMonotone(2, 10, Pow(10, s - 1));
    }
  }

  /** Whether the value f * 2^e is below ten units of 10^exp10, as the digit generation expects. */
  ghost predicate InRange(f: nat, e: int, exp10: int) {
    ScaledNum(f, e, exp10) < 10 * ScaledDen(e, exp10)
  }

  /** Numerator and denominator whose quotient is f * 2^e / 10^exp10. */
  method StartFraction(f: nat, e: int, shift: nat, exp10: int) returns (numerator: BigInt, denominator: BigInt)
    requires f > 0 && 1 <= shift <= 2 && f * Pow(2, shift) < TWO_64
    requires (e >= 0 ==> exp10 >= 0) && Abs(exp10) < MAX_POWER && InRange(f, e, exp10)
    ensures fresh(numerator) && fresh(denominator) && numerator != denominator
    ensures TopNonZero(numerator.bigits) && TopNonZero(denominator.bigits)
    ensures numerator.Value() == ScaledNum(f, e, exp10) * Pow(2, shift)
    ensures denominator.Value() == ScaledDen(e, exp10) * Pow(2, shift)
    ensures NeverTies(numerator.Value(), numerator.exp, denominator.Value(), denominator.exp)
  {
    numerator := new BigInt();
    denominator := new BigInt();
    var significand := f * Pow(2, shift) % TWO_64;
    assert significand >= 2 by {
      assert Pow(2, 1) == 2 && Pow(2, 2) == 4;
      MulMonotone(1, f, Pow(2, shift));
    }
    assert significand == f * Pow(2, shift);
    if e >= 0 {
      numerator.Assign(significand);
      numerator.ShiftLeft(e);
      denominator.AssignPow10(exp10);
      denominator.ShiftLeft(shift);
      IntegersNeverTie(significand, e, exp10, shift);
      IntegerStart(f, e, shift, exp10);
    } else if exp10 < 0 {
      numerator.AssignPow10(-exp10);
      numerator.MultiplyU64(significand);
      denominator.Assign(1);
      denominator.ShiftLeft(shift - e);
      FractionStart(f, e, shift, exp10);
    } else {
      numerator.Assign(significand);
      denominator.AssignPow10(exp10);
      denominator.ShiftLeft(shift - e);
      MixedStart(f, e, shift, exp10);
    }
  }

  lemma IntegerStart(f: nat, e: int, shift: nat, exp10: int)
    requires e >= 0 && exp10 >= 0
    ensures f * Pow(2, shift) * Pow(2, e) == ScaledNum(f, e, exp10) * Pow(2, shift)
    ensures Pow(10, exp10) * Pow(2, shift) == ScaledDen(e, exp10) * Pow(2, shift)
  {
    ScaleValue(f, Pow(2, shift), Pow(2, e));
    assert Up(10, -exp10) == 1 && Up(2, -e) == 1;
  }

  lemma MixedStart(f: nat, e: int, shift: nat, exp10: int)
    requires e < 0 && exp10 >= 0
    ensures f * Pow(2, shift) == ScaledNum(f, e, exp10) * Pow(2, shift)
    ensures Pow(10, exp10) * Pow(2, shift - e) == ScaledDen(e, exp10) * Pow(2, shift)
  {
    PowAdd(2, -e, shift);
    MulAssoc(Pow(10, exp10), Pow(2, -e), Pow(2, shift));
    assert Up(10, -exp10) == 1 && Up(2, e) == 1;
  }

  lemma FractionStart(f: nat, e: int, shift: nat, exp10: int)
    requires e < 0 && exp10 < 0 && f * Pow(2, shift) >= 2 && InRange(f, e, exp10)
    ensures Pow(10, -exp10) * (f * Pow(2, shift)) == ScaledNum(f, e, exp10) * Pow(2, shift)
    ensures Pow(2, shift - e) == ScaledDen(e, exp10) * Pow(2, shift)
    ensures -exp10 <= shift - e
  {
    PowAdd(2, -e, shift);
    var m := Pow(10, -exp10);
    assert m * (f * Pow(2, shift)) == (f * m) * Pow(2, shift) by { MulAssoc(m, f, Pow(2, shift)); }
    PowPositive(2, shift);
    MulStrict(ScaledNum(f, e, exp10), 10 * ScaledDen(e, exp10), Pow(2, shift));
    MulAssoc(10, ScaledDen(e, exp10), Pow(2, shift));
    FractionExponents(f * Pow(2, shift), -exp10, shift - e);
  }

  /** The state of the fraction before each digit: below ten, comparable, and never tied by accident. */
  ghost predicate Ready(numerator: BigInt, denominator: BigInt, start: nat, startExp: nat, i: nat)
    reads numerator, denominator
  {
    && numerator != denominator
    && Canonical(numerator.bigits) && TopNonZero(denominator.bigits)
    && numerator.Value() < 10 * denominator.Value()
    && NeverTies(start, startExp, denominator.Value(), denominator.exp)
    && (numerator.exp <= denominator.exp
        || (TopNonZero(numerator.bigits) && numerator.exp == startExp
            && numerator.Value() == start * Pow(10, i)))
  }

  /** Splits off the integer part of the fraction. */
  method NextDigit(numerator: BigInt, denominator: BigInt, ghost start: nat, ghost startExp: nat, ghost i: nat)
      returns (digit: nat)
    requires Ready(numerator, denominator, start, startExp, i)
    modifies numerator
    ensures old(numerator.Value()) == digit * denominator.Value() + numerator.Value() && digit <= 9
    ensures numerator.Value() < denominator.Value() && Ready(numerator, denominator, start, startExp, i)
  {
    if numerator.exp <= denominator.exp {
      BigInt.CanonicalTop(numerator.bigits, numerator.exp, denominator.bigits, denominator.exp);
    }
    ghost var was, dv := numerator.Value(), denominator.Value();
    digit := numerator.DivmodAssign(denominator);
    if digit > 9 {
      MulMonotone(10, digit, dv);
      assert false;
    }
  }

  method TimesTen(numerator: BigInt, denominator: BigInt, ghost start: nat, ghost startExp: nat, ghost i: nat)
    requires Ready(numerator, denominator, start, startExp, i) && numerator.Value() < denominator.Value()
    modifies numerator
    ensures numerator.Value() == 10 * old(numerator.Value())
    ensures Ready(numerator, denominator, start, startExp, i + 1)
  {
    numerator.MultiplyU32(10);
    assert Pow(10, i + 1) == 10 * Pow(10, i);
    MulAssoc(start, Pow(10, i), 10);
  }

  /** Comparing twice the remainder with the denominator. */
  method CompareHalf(numerator: BigInt, denominator: BigInt) returns (c: int)
    requires TopNonZero(denominator.bigits)
    requires TopNonZero(numerator.bigits) || (Canonical(numerator.bigits) && numerator.exp <= denominator.exp)
    ensures c == Sign(2 * numerator.Value() - denominator.Value())
  {
    c := BigInt.AddCompare(numerator, numerator, denominator);
  }

  /** After i digits, which denote lead, the fraction holds the rest of start times ten to the i. */
  ghost predicate Generated(numerator: BigInt, denominator: BigInt, start: nat, startExp: nat, i: nat, lead: nat)
    reads numerator, denominator
  {
    && Ready(numerator, denominator, start, startExp, i)
    && start * Pow(10, i) == lead * (10 * denominator.Value()) + numerator.Value()
  }

  /** All the digits before the last. */
  method LeadingDigits(numerator: BigInt, denominator: BigInt, n: nat) returns (buf: string, ghost lead: nat)
    requires n > 0 && Ready(numerator, denominator, numerator.Value(), numerator.exp, 0)
    modifies numerator
    ensures |buf| == n && forall k :: 0 <= k < n ==> IsDigit(buf[k])
    ensures lead == Decimal(buf[..n - 1])
    ensures Generated(numerator, denominator, old(numerator.Value()), old(numerator.exp), n - 1, lead)
  {
    ghost var start, startExp := numerator.Value(), numerator.exp;
    buf, lead := seq(n, _ => '0'), 0;
    var i := 0;
    assert buf[..0] == [];
    while i < n - 1
      invariant 0 <= i <= n - 1 && |buf| == n && forall k :: 0 <= k < n ==> IsDigit(buf[k])
      invariant lead == Decimal(buf[..i]) && Generated(numerator, denominator, start, startExp, i, lead)
    {
      var digit := EmitDigit(numerator, denominator, start, startExp, i, lead);
      SetDigit(buf, i, digit);
      buf := buf[i := DigitChar(digit)];
      lead := 10 * lead + digit;
      i := i + 1;
    }
  }

  lemma SetDigit(s: string, i: nat, digit: nat)
    requires i < |s| && digit <= 9
    ensures Decimal(s[i := DigitChar(digit)][..i + 1]) == 10 * Decimal(s[..i]) + digit
  {
    assert s[i := DigitChar(digit)][..i + 1] == s[..i] + [DigitChar(digit)];
    DecimalSnoc(s[..i], DigitChar(digit));
  }

  /** One round of the loop. */
  method EmitDigit(numerator: BigInt, denominator: BigInt, ghost start: nat, ghost startExp: nat, ghost i: nat,
                   ghost lead: nat)
      returns (digit: nat)
    requires Generated(numerator, denominator, start, startExp, i, lead)
    modifies numerator
    ensures digit <= 9 && Generated(numerator, denominator, start, startExp, i + 1, 10 * lead + digit)
  {
    digit := NextDigit(numerator, denominator, start, startExp, i);
    ghost var r := numerator.Value();
    TimesTen(numerator, denominator, start, startExp, i);
    DigitStep(start, Pow(10, i), lead, denominator.Value(), digit, r);
  }

  lemma DigitStep(start: int, p: int, d: int, dv: int, digit: int, r: int)
    requires start * p == d * (10 * dv) + (digit * dv + r)
    ensures start * (10 * p) == (10 * d + digit) * (10 * dv) + 10 * r
  {
    MulAssoc(start, 10, p);
    MulAssoc(10, start, p);
    MulDistribute(10 * d, digit, 10 * dv);
    MulAssoc(10, d, 10 * dv);
    MulAssoc(digit, 10, dv);
    MulAssoc(10, digit, dv);
  }

  /** Moves the carry of an overflowing last digit up through the nines. */
  method PropagateCarry(digits: string) returns (buf: string)
    requires digits != [] && digits[|digits| - 1] == OVERFLOW
    requires forall k :: 0 <= k < |digits| - 1 ==> IsDigit(digits[k])
    ensures |buf| == |digits| && Decimal(buf) == Decimal(digits)
    ensures forall k :: 1 <= k < |buf| ==> IsDigit(buf[k])
    ensures IsDigit(buf[0]) || (buf[0] == OVERFLOW && forall k :: 1 <= k < |buf| ==> buf[k] == '0')
  {
    buf := digits;
    var i := |buf| - 1;
    while i > 0 && buf[i] == OVERFLOW
      invariant 0 <= i < |buf| == |digits| && Decimal(buf) == Decimal(digits)
      invariant forall k :: 0 <= k < |buf| && k != i ==> IsDigit(buf[k])
      invariant IsDigit(buf[i]) || (buf[i] == OVERFLOW && forall k :: i < k < |buf| ==> buf[k] == '0')
    {
      var up := (buf[i - 1] as int + 1) as char;
      CarryUp(buf, i, up);
      buf := buf[i := '0'][i - 1 := up];
      i := i - 1;
    }
  }

  /** Ten in one place is one in the next higher place. */
  lemma CarryUp(s: string, i: nat, up: char)
    requires 0 < i < |s| && s[i] == OVERFLOW && Digit(up) == Digit(s[i - 1]) + 1
    ensures Decimal(s[i := '0'][i - 1 := up]) == Decimal(s)
  {
    DecimalUpdate(s, i, '0');
    DecimalUpdate(s[i := '0'], i - 1, up);
    assert Pow(10, |s| - 1 - (i - 1)) == 10 * Pow(10, |s| - 1 - i);
  }

  /**
   * Writes f * 2^e rounded, half to even, to numDigits significant decimal digits counted from 10^exp10,
   * or to a single digit of the next higher place when numDigits is zero.
   */
  method FormatDragon(f: nat, e: int, predecessorCloser: bool, numDigits: nat, exp10: int)
      returns (buf: string, finalExp10: int)
    requires f > 0 && f * Pow(2, if predecessorCloser then 2 else 1) < TWO_64
    requires (e >= 0 ==> exp10 >= 0) && Abs(exp10) < MAX_POWER && InRange(f, e, exp10)
    ensures |buf| == (if numDigits == 0 then 1 else numDigits) && forall k :: 0 <= k < |buf| ==> IsDigit(buf[k])
    ensures var unit := exp10 - (numDigits - 1);
            && (finalExp10 == unit || (numDigits > 0 && finalExp10 == unit + 1 && Decimal(buf) == Pow(10, numDigits - 1)))
            && RoundsHalfEven(Decimal(buf) * Pow(10, finalExp10 - unit),
                              ScaledNum(f, e, unit), ScaledDen(e, unit))
  {
    var shift := if predecessorCloser then 2 else 1;
    var numerator, denominator := StartFraction(f, e, shift, exp10);
    finalExp10 := exp10 - (numDigits - 1);
    if numDigits == 0 {
      buf := NoDigits(numerator, denominator, f, e, shift, exp10);
      return;
    }
    var carried;
    buf, carried := SomeDigits(numerator, denominator, numDigits, f, e, shift, exp10);
    if carried { finalExp10 := finalExp10 + 1; }
  }

  /** The fraction at the start, with the common factor that makes room for half units. */
  ghost predicate Started(numerator: BigInt, denominator: BigInt, f: nat, e: int, shift: nat, exp10: int)
    reads numerator, denominator
  {
    && numerator != denominator && TopNonZero(numerator.bigits) && TopNonZero(denominator.bigits)
    && numerator.Value() == ScaledNum(f, e, exp10) * Pow(2, shift)
    && denominator.Value() == ScaledDen(e, exp10) * Pow(2, shift)
    && NeverTies(numerator.Value(), numerator.exp, denominator.Value(), denominator.exp)
    && InRange(f, e, exp10)
  }

  method NoDigits(numerator: BigInt, denominator: BigInt, ghost f: nat, ghost e: int, ghost shift: nat, ghost exp10: int)
      returns (buf: string)
    requires Started(numerator, denominator, f, e, shift, exp10)
    modifies denominator
    ensures |buf| == 1 && IsDigit(buf[0])
    ensures RoundsHalfEven(Decimal(buf) * Pow(10, 0), ScaledNum(f, e, exp10 + 1), ScaledDen(e, exp10 + 1))
  {
    var up;
    buf, up := HigherPlace(numerator, denominator);
    HigherPlaceRounds(f, e, shift, exp10, up);
  }

  method SomeDigits(numerator: BigInt, denominator: BigInt, n: nat, ghost f: nat, ghost e: int, ghost shift: nat,
                    ghost exp10: int)
      returns (buf: string, carried: bool)
    requires n > 0 && Started(numerator, denominator, f, e, shift, exp10)
    modifies numerator
    ensures |buf| == n && forall k :: 0 <= k < |buf| ==> IsDigit(buf[k])
    ensures carried ==> Decimal(buf) == Pow(10, n - 1)
    ensures RoundsHalfEven(Decimal(buf) * Pow(10, if carried then 1 else 0),
                           ScaledNum(f, e, exp10 - (n - 1)), ScaledDen(e, exp10 - (n - 1)))
  {
    StartInRange(f, e, shift, exp10);
    assert Pow(10, 0) == 1;
    assert Ready(numerator, denominator, numerator.Value(), numerator.exp, 0);
    buf, carried := FixedDigits(numerator, denominator, n);
    FinalDigits(f, e, shift, exp10, n - 1, Decimal(buf), carried);
  }

  /** The single digit of the next higher place. */
  method HigherPlace(numerator: BigInt, denominator: BigInt) returns (buf: string, up: bool)
    requires numerator != denominator && TopNonZero(denominator.bigits)
    requires TopNonZero(numerator.bigits) || (Canonical(numerator.bigits) && numerator.exp <= denominator.exp)
    modifies denominator
    ensures up <==> 2 * numerator.Value() > 10 * old(denominator.Value())
    ensures |buf| == 1 && IsDigit(buf[0]) && Decimal(buf) == if up then 1 else 0
  {
    denominator.MultiplyU32(10);
    var c := CompareHalf(numerator, denominator);
    up := c > 0;
    buf := if up then "1" else "0";
    assert buf[..0] == [] && Decimal(buf) == 10 * Decimal(buf[..0]) + Digit(buf[0]);
  }

  lemma FinalDigits(f: nat, e: int, shift: nat, exp10: int, m: nat, d: int, carried: bool)
    requires ScaledDen(e, exp10) * Pow(2, shift) > 0
    requires RoundsHalfEven(d * (if carried then 10 else 1), ScaledNum(f, e, exp10) * Pow(2, shift) * Pow(10, m),
                            ScaledDen(e, exp10) * Pow(2, shift))
    ensures RoundsHalfEven(d * Pow(10, if carried then 1 else 0), ScaledNum(f, e, exp10 - m), ScaledDen(e, exp10 - m))
  {
    assert Pow(10, 1) == 10 && Pow(10, 0) == 1;
    FinalRatio(f, e, shift, exp10, m, d * if carried then 10 else 1);
  }

  /** The given number of digits of the fraction; carried says that rounding made it one place longer. */
  method FixedDigits(numerator: BigInt, denominator: BigInt, n: nat) returns (buf: string, carried: bool)
    requires n > 0 && Ready(numerator, denominator, numerator.Value(), numerator.exp, 0)
    modifies numerator
    ensures |buf| == n && forall k :: 0 <= k < n ==> IsDigit(buf[k])
    ensures denominator.Value() > 0
    ensures RoundsHalfEven(Decimal(buf) * (if carried then 10 else 1),
                           old(numerator.Value()) * Pow(10, n - 1), denominator.Value())
    ensures carried ==> Decimal(buf) == Pow(10, n - 1)
  {
    ghost var start, startExp := numerator.Value(), numerator.exp;
    ghost var lead;
    buf, lead := LeadingDigits(numerator, denominator, n);
    var digit, roundUp := LastDigit(numerator, denominator, start, startExp, n - 1, lead);
    buf, carried := WriteLast(buf, digit, roundUp);
  }

  /** The last digit and whether it is to be rounded up; the digits before it denote lead. */
  method LastDigit(numerator: BigInt, denominator: BigInt, ghost start: nat, ghost startExp: nat, ghost i: nat,
                   ghost lead: nat)
      returns (digit: nat, roundUp: bool)
    requires Generated(numerator, denominator, start, startExp, i, lead)
    modifies numerator
    ensures digit <= 9 && denominator.Value() > 0
    ensures RoundsHalfEven(10 * lead + digit + if roundUp then 1 else 0, start * Pow(10, i), denominator.Value())
  {
    digit := NextDigit(numerator, denominator, start, startExp, i);
    var c := CompareHalf(numerator, denominator);
    roundUp := c > 0 || (c == 0 && digit % 2 != 0);
    DigitRounds(start * Pow(10, i), denominator.Value(), lead, digit, numerator.Value(), roundUp);
  }

  /** Writes the last digit, rounded. */
  method WriteLast(digits: string, digit: nat, roundUp: bool) returns (buf: string, carried: bool)
    requires digits != [] && digit <= 9 && forall k :: 0 <= k < |digits| ==> IsDigit(digits[k])
    ensures |buf| == |digits| && forall k :: 0 <= k < |buf| ==> IsDigit(buf[k])
    ensures Decimal(buf) * (if carried then 10 else 1)
            == 10 * Decimal(digits[..|digits| - 1]) + digit + if roundUp then 1 else 0
    ensures carried ==> Decimal(buf) == Pow(10, |buf| - 1)
  {
    var n := |digits|;
    if roundUp && digit == 9 {
      LastPlace(digits, OVERFLOW);
      buf, carried := CarryNine(digits[n - 1 := OVERFLOW]);
    } else {
      var c := DigitChar(if roundUp then digit + 1 else digit);
      LastPlace(digits, c);
      buf, carried := digits[n - 1 := c], false;
    }
  }

  method CarryNine(digits: string) returns (buf: string, carried: bool)
    requires digits != [] && digits[|digits| - 1] == OVERFLOW
    requires forall k :: 0 <= k < |digits| - 1 ==> IsDigit(digits[k])
    ensures |buf| == |digits| && forall k :: 0 <= k < |buf| ==> IsDigit(buf[k])
    ensures Decimal(buf) * (if carried then 10 else 1) == Decimal(digits)
    ensures carried ==> Decimal(buf) == Pow(10, |buf| - 1)
  {
    buf := PropagateCarry(digits);
    carried := false;
    if buf[0] == OVERFLOW {
      DecimalLeading(buf);
      DecimalLeading(buf[0 := '1']);
      buf := buf[0 := '1'];
      carried := true;
    }
  }

  lemma LastPlace(s: string, c: char)
    requires s != []
    ensures Decimal(s[|s| - 1 := c]) == 10 * Decimal(s[..|s| - 1]) + Digit(c)
  {
    assert s[|s| - 1 := c] == s[..|s| - 1] + [c];
    DecimalSnoc(s[..|s| - 1], c);
  }

  lemma StartInRange(f: nat, e: int, shift: nat, exp10: int)
    requires InRange(f, e, exp10)
    ensures ScaledNum(f, e, exp10) * Pow(2, shift) < 10 * (ScaledDen(e, exp10) * Pow(2, shift))
  {
    PowPositive(2, shift);
    MulStrict(ScaledNum(f, e, exp10), 10 * ScaledDen(e, exp10), Pow(2, shift));
    MulAssoc(10, ScaledDen(e, exp10), Pow(2, shift));
  }

  /** The common factor of numerator and denominator cancels. */
  lemma CancelShift(p: nat, q: nat, p': nat, q': nat, t: nat, x: nat)
    requires (p * x) * q' == p' * q
    ensures ((p * t) * x) * q' == p' * (q * t)
  {
    calc {
      ((p * t) * x) * q';
      { ScaleValue(p, t, x); }
      ((p * x) * t) * q';
      { ScaleValue(p * x, t, q'); }
      ((p * x) * q') * t;
      (p' * q) * t;
      { MulAssoc(p', q, t); }
      p' * (q * t);
    }
  }

  lemma DigitRounds(p: nat, den: nat, lead: nat, digit: nat, r: nat, up: bool)
    requires r < den && p == lead * (10 * den) + (digit * den + r)
    requires up <==> 2 * r > den || (2 * r == den && digit % 2 != 0)
    ensures RoundsHalfEven(10 * lead + digit + if up then 1 else 0, p, den)
  {
    var d := 10 * lead + digit;
    assert p == d * den + r by {
      MulAssoc(lead, 10, den);
      MulDistribute(10 * lead, digit, den);
    }
    assert d % 2 == digit % 2;
    RoundQuotient(d, r, p, den, up);
  }

  lemma FinalRatio(f: nat, e: int, shift: nat, exp10: int, m: nat, d: int)
    requires ScaledDen(e, exp10) * Pow(2, shift) > 0
    requires RoundsHalfEven(d, ScaledNum(f, e, exp10) * Pow(2, shift) * Pow(10, m),
                            ScaledDen(e, exp10) * Pow(2, shift))
    ensures RoundsHalfEven(d, ScaledNum(f, e, exp10 - m), ScaledDen(e, exp10 - m))
  {
    var p, q, p', q' := ScaledNum(f, e, exp10), ScaledDen(e, exp10), ScaledNum(f, e, exp10 - m), ScaledDen(e, exp10 - m);
    ScaleByTen(f, e, exp10, m);
    CancelShift(p, q, p', q', Pow(2, shift), Pow(10, m));
    RoundingRatio(d, p * Pow(2, shift) * Pow(10, m), q * Pow(2, shift), p', q');
  }

  /** With no digits asked for, the next higher place is 1 or 0. */
  lemma HigherPlaceRounds(f: nat, e: int, shift: nat, exp10: int, up: bool)
    requires InRange(f, e, exp10)
    requires up <==> 2 * (ScaledNum(f, e, exp10) * Pow(2, shift)) > 10 * (ScaledDen(e, exp10) * Pow(2, shift))
    ensures RoundsHalfEven(if up then 1 else 0, ScaledNum(f, e, exp10 + 1), ScaledDen(e, exp10 + 1))
  {
    var p, q := ScaledNum(f, e, exp10), 10 * ScaledDen(e, exp10);
    PowPositive(2, shift);
    MulAssoc(2, p, Pow(2, shift));
    MulAssoc(10, ScaledDen(e, exp10), Pow(2, shift));
    MulCancel(q, 2 * p, Pow(2, shift));
    assert RoundsHalfEven(if up then 1 else 0, p, q);
    ScaleByTen(f, e, exp10 + 1, 1);
    assert Pow(10, 1) == 10;
    MulAssoc(ScaledNum(f, e, exp10 + 1), 10, ScaledDen(e, exp10));
    RoundingRatio(if up then 1 else 0, p, q, ScaledNum(f, e, exp10 + 1), ScaledDen(e, exp10 + 1));
  }
}

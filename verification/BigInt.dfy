/** The arbitrary-precision integer behind exact decimal printing. */
module BigInt {
  import opened Powers
  import opened Bigits
  import opened Convolution
  import opened BigitOrder

  const TWO_64: nat := 0x1_0000_0000_0000_0000
  const TWO_128: nat := 0x1_0000_0000_0000_0000_0000_0000_0000_0000
  const BIGIT_BITS: nat := 32
  /** Twice the number of bigits must stay within int. */
  const MAX_SIZE: nat := 0x3FFF_FFFF
  /** The bit mask that walks over the exponent of a power of ten must stay within int. */
  const MAX_POWER: nat := 0x4000_0000

  /** 128-bit accumulator made of two 64-bit words. */
  class Accumulator {
    var lower: nat
    var upper: nat

    ghost predicate Valid()
      reads this
    {
      lower < TWO_64 && upper < TWO_64
    }

    ghost function Value(): nat
      reads this
    {
      lower + upper * TWO_64
    }

    constructor ()
      ensures Valid() && Value() == 0
    {
      lower, upper := 0, 0;
    }

    /** The conversion to a 32-bit word. */
    function ToBigit(): (b: Bigit)
      requires Valid()
      reads this
      ensures b == Value() % BASE
    {
      lower % BASE
    }

    method Add(n: nat)
      requires Valid() && n < TWO_64
      modifies this
      ensures Valid() && Value() == (old(Value()) + n) % TWO_128
      ensures old(Value()) + n < TWO_128 ==> Value() == old(Value()) + n
    {
      lower := (lower + n) % TWO_64;
      if lower < n { upper := (upper + 1) % TWO_64; }
    }

    /** The two shifted halves do not overlap, so their bitwise or is their sum. */
    method ShiftRight32()
      requires Valid()
      modifies this
      ensures Valid() && Value() == old(Value()) / BASE
    {
      lower := upper * BASE % TWO_64 + lower / BASE;
      upper := upper / BASE;
    }
  }

  lemma CarryStep(p: int, q: int, c: int, b: int, v: int, w: int, lo: int, hi: int)
    requires p + c * w == q * v
    requires b * v + c == lo + BASE * hi
    ensures (p + lo * w) + hi * (BASE * w) == (q + b * w) * v
  {
    calc {
      p + lo * w + hi * (BASE * w);
      { MulAssoc(hi, BASE, w); MulDistribute(lo, BASE * hi, w); }
      p + (lo + BASE * hi) * w;
      p + (b * v + c) * w;
      { MulDistribute(b * v, c, w); }
      q * v + (b * v) * w;
      { MulAssoc(b, v, w); MulAssoc(b, w, v); }
      q * v + (b * w) * v;
      { MulDistribute(q, b * w, v); }
      (q + b * w) * v;
    }
  }

  lemma BorrowStep(p: int, q: int, r: int, c: int, c': int, w: int, u: int, x: int, y: int, z: int)
    requires p - c * w == q - r
    requires z - BASE * c' == x - y - c
    requires u == y * w
    ensures (p + z * w) - c' * (BASE * w) == (q + x * w) - (r + u)
  {
    MulAssoc(c', BASE, w);
    MulDistribute(z, BASE * c', w);
    MulDistribute(x - y, c, w);
    MulDistribute(x, y, w);
  }

  /** Shifting a bigit left by s splits it at bit 32 - s. */
  lemma ShiftStep(b: Bigit, p: nat, q: nat, c: nat)
    requires p > 0 && q > 0 && p * q == BASE && c < p
    ensures b * p + c == b * p % BASE + c + BASE * (b / q)
    ensures b * p % BASE + c < BASE && b / q < p
  {
    var h, r := b / q, b % q;
    SplitProduct(b, p, q, h, r);
    ModUnique(b * p, h, r * p);
    if h >= p {
      MulMonotone(p, h, q);
      assert false;
    }
  }

  lemma SplitProduct(b: int, p: nat, q: nat, h: nat, r: nat)
    requires p > 0 && p * q == BASE && b == h * q + r && r < q
    ensures b * p == h * BASE + r * p && 0 <= r * p && r * p + p <= BASE
  {
    MulDistribute(h * q, r, p);
    MulAssoc(h, q, p);
    MulMonotone(0, r, p);
    MulMonotone(r + 1, q, p);
    MulDistribute(r, 1, p);
  }

  lemma ModUnique(x: nat, h: nat, r: nat)
    requires x == h * BASE + r && r < BASE
    ensures x % BASE == r && x / BASE == h
  {}

  lemma SameLengthKeepsTop(s: seq<Bigit>, t: seq<Bigit>)
    requires |s| == |t| && Nat(s) <= Nat(t)
    ensures TopNonZero(s) ==> TopNonZero(t)
  {
    if |s| > 0 {
      NatTop(s);
      NatTop(t);
    }
  }

  /** A carry loop over `was`, writing into `now`, has done its first i bigits. */
  ghost predicate Scaled(was: seq<Bigit>, now: seq<Bigit>, i: nat, carry: nat, value: nat) {
    && i <= |was| == |now|
    && now[i..] == was[i..]
    && Nat(now[..i]) + carry * Weight(i) == Nat(was[..i]) * value
  }

  lemma ScaledStep(was: seq<Bigit>, now: seq<Bigit>, i: nat, carry: nat, value: nat, lo: Bigit, hi: nat)
    requires i < |was| && Scaled(was, now, i, carry, value)
    requires was[i] * value + carry == lo + BASE * hi
    ensures Scaled(was, now[i := lo], i + 1, hi, value)
  {
    CarryStep(Nat(now[..i]), Nat(was[..i]), carry, was[i], value, Weight(i), lo, hi);
    NatPrefix(was, i);
    NatSnoc(now[..i], lo);
    assert now[i := lo][..i + 1] == now[..i] + [lo];
    assert now[i := lo][i + 1..] == now[i..][1..] == was[i + 1..];
  }

  /** At the end of the loop the last carry becomes a new top bigit. */
  lemma ScaledDone(was: seq<Bigit>, now: seq<Bigit>, carry: Bigit, value: nat)
    requires Scaled(was, now, |was|, carry, value)
    ensures Nat(if carry == 0 then now else now + [carry]) == Nat(was) * value
    ensures value > 0 && TopNonZero(was) ==> TopNonZero(if carry == 0 then now else now + [carry])
  {
    assert now[..|was|] == now && was[..|was|] == was;
    NatSnoc(now, carry);
    if value > 0 && carry == 0 { ProductKeepsTop(was, now, value); }
  }

  lemma ProductKeepsTop(was: seq<Bigit>, now: seq<Bigit>, value: nat)
    requires |was| == |now| && value > 0 && Nat(now) == Nat(was) * value
    ensures TopNonZero(was) ==> TopNonZero(now)
  {
    MulMonotone(1, value, Nat(was));
    SameLengthKeepsTop(was, now);
  }

  /** One step of the 64-bit multiplication: neither intermediate overflows 64 bits. */
  lemma WideStep(b: Bigit, lower: Bigit, upper: Bigit, carry: nat)
    requires carry < TWO_64
    ensures var result := b * lower + carry % BASE;
            var carry' := b * upper + result / BASE + carry / BASE;
            && 0 <= result < TWO_64 && 0 <= carry' < TWO_64
            && b * (upper * BASE + lower) + carry == result % BASE + BASE * carry'
  {
    BigitProduct(b, lower);
    BigitProduct(b, upper);
    MulDistribute(upper * BASE, lower, b);
    MulAssoc(b, upper, BASE);
  }

  lemma ScaleValue(n: nat, value: nat, w: nat)
    ensures (n * value) * w == (n * w) * value
  {
    MulAssoc(n, value, w);
    MulAssoc(n, w, value);
  }

  /** Whether the bigits of s facing t, and those below, are too small by themselves to subtract t. */
  ghost predicate Borrows(s: seq<Bigit>, e: nat, t: seq<Bigit>, f: nat)
    requires e <= f && |t| + f <= |s| + e
  {
    Nat(s[..f - e + |t|]) < Nat(t) * Weight(f - e)
  }

  /** Whether the bigit of s just above t, if there is one, is zero. */
  predicate NextIsZero(s: seq<Bigit>, e: nat, t: seq<Bigit>, f: nat)
    requires e <= f
  {
    |t| + f < |s| + e && s[f - e + |t|] == 0
  }

  /** By how much the in-place subtraction of t from s comes out too large. */
  ghost function Overshoot(s: seq<Bigit>, e: nat, t: seq<Bigit>, f: nat): nat
    requires e <= f && |t| + f <= |s| + e
  {
    if Borrows(s, e, t, f) && NextIsZero(s, e, t, f) then (BASE - 1) * Weight(|t| + f) else 0
  }

  /** The subtraction is exact if and only if nothing is borrowed from a zero bigit above the subtrahend. */
  lemma SubtractionExactIff(s: seq<Bigit>, e: nat, t: seq<Bigit>, f: nat)
    requires e <= f && |t| + f <= |s| + e
    ensures Overshoot(s, e, t, f) == 0 <==> !(Borrows(s, e, t, f) && NextIsZero(s, e, t, f))
  {
    MulMonotone(1, BASE - 1, Weight(|t| + f));
  }

  /** BASE squared minus one is such a failing subtraction. */
  lemma SubtractionFails()
    ensures Overshoot([0, 0, 1], 0, [1], 0) == (BASE - 1) * BASE
  {
    var s: seq<Bigit>, t: seq<Bigit> := [0, 0, 1], [1];
    assert s[..1] == [0] && t == [] + [1];
    NatZeros([0]);
    NatSnoc([], 1);
    assert Weight(1) == BASE * Weight(0);
  }

  /** One value, stored with exponent 1 and with exponent 0. */
  lemma TwoForms()
    ensures ValueOf([1], 1) == ValueOf([0, 1], 0) == BASE
  {
    var s: seq<Bigit>, t: seq<Bigit> := [1], [0, 1];
    assert s == [] + [1] && t == [0] + [1];
    NatSnoc([], 1);
    NatSnoc([0], 1);
    NatZeros([0]);
    assert Weight(1) == BASE * Weight(0);
  }

  class BigInt {
    var bigits: seq<Bigit>
    var exp: nat

    ghost function Value(): nat
      reads this
    {
      ValueOf(bigits, exp)
    }

    function NumBigits(): nat
      reads this
    {
      |bigits| + exp
    }

    constructor ()
      ensures bigits == [] && exp == 0
    {
      bigits, exp := [], 0;
    }

    method AssignFrom(other: BigInt)
      modifies this
      ensures bigits == old(other.bigits) && exp == old(other.exp)
    {
      bigits := other.bigits;
      exp := other.exp;
    }

    method Assign(n: nat)
      requires n < TWO_64
      modifies this
      ensures Value() == n && exp == 0 && |bigits| <= 2
      ensures if n > 0 then TopNonZero(bigits) else bigits == [0]
    {
      bigits := [n % BASE];
      var rest := n / BASE;
      assert bigits == [] + [n % BASE];
      NatSnoc([], n % BASE);
      while rest != 0
        invariant 0 <= rest < BASE && |bigits| == (if rest == 0 && n >= BASE then 2 else 1)
        invariant Nat(bigits) + rest * Weight(|bigits|) == n
        invariant rest == 0 ==> if n > 0 then TopNonZero(bigits) else bigits == [0]
        decreases rest
      {
        NatSnoc(bigits, rest % BASE);
        bigits := bigits + [rest % BASE];
        rest := rest / BASE;
      }
      exp := 0;
    }

    method RemoveLeadingZeros()
      modifies `bigits
      ensures Nat(bigits) == old(Nat(bigits))
      ensures |bigits| <= old(|bigits|) && bigits == old(bigits)[..|bigits|]
      ensures old(bigits) != [] ==> Canonical(bigits)
    {
      var n := |bigits|;
      assert bigits[..n] == bigits;
      while n > 1 && bigits[n - 1] == 0
        invariant 0 <= n <= |bigits| && (bigits != [] ==> n > 0)
        invariant bigits == old(bigits) && Nat(bigits[..n]) == Nat(bigits)
      {
        NatPrefix(bigits, n - 1);
        n := n - 1;
      }
      bigits := bigits[..n];
    }

    method MultiplyU32(value: Bigit)
      modifies `bigits
      ensures Value() == old(Value()) * value
      ensures |bigits| == old(|bigits|) || TopNonZero(bigits)
      ensures value > 0 && old(TopNonZero(bigits)) ==> TopNonZero(bigits)
      ensures old(|bigits|) <= |bigits| <= old(|bigits|) + 1
    {
      ghost var was := bigits;
      var carry: Bigit, i, n := 0, 0, |bigits|;
      while i < n
        invariant i <= n == |was| && Scaled(was, bigits, i, carry, value)
      {
        var b := bigits[i];
        assert b == bigits[i..][0] == was[i..][0];
        BigitProduct(b, value);
        var result := b * value + carry;
        ScaledStep(was, bigits, i, carry, value, result % BASE, result / BASE);
        bigits := bigits[i := result % BASE];
        carry := result / BASE;
        i := i + 1;
      }
      ScaledDone(was, bigits, carry, value);
      ScaleValue(Nat(was), value, Weight(exp));
      if carry != 0 { bigits := bigits + [carry]; }
    }

    method MultiplyU64(value: nat)
      requires value < TWO_64
      modifies `bigits
      ensures Value() == old(Value()) * value
      ensures value > 0 && old(TopNonZero(bigits)) ==> TopNonZero(bigits)
    {
      ghost var was := bigits;
      var lower: Bigit, upper: Bigit := value % BASE, value / BASE;
      var carry, i, n := 0, 0, |bigits|;
      while i < n
        invariant i <= n == |was| && 0 <= carry < TWO_64
        invariant Scaled(was, bigits, i, carry, upper * BASE + lower)
      {
        var b := bigits[i];
        assert b == bigits[i..][0] == was[i..][0];
        WideStep(b, lower, upper, carry);
        var result := b * lower + carry % BASE;
        var carry' := b * upper + result / BASE + carry / BASE;
        ScaledStep(was, bigits, i, carry, upper * BASE + lower, result % BASE, carry');
        bigits := bigits[i := result % BASE];
        carry := carry';
        i := i + 1;
      }
      assert bigits[..n] == bigits && was[..n] == was;
      PushCarry(carry);
      ScaleValue(Nat(was), value, Weight(exp));
      if value > 0 && |bigits| == n { ProductKeepsTop(was, bigits, value); }
    }

    /** The second loop of the 64-bit multiplication: appends the carry, low word first. */
    method PushCarry(c: nat)
      requires c < TWO_64
      modifies `bigits
      ensures Nat(bigits) == old(Nat(bigits)) + c * Weight(old(|bigits|))
      ensures c == 0 ==> bigits == old(bigits)
      ensures c != 0 ==> TopNonZero(bigits)
    {
      var carry := c;
      while carry != 0
        invariant 0 <= carry < TWO_64
        invariant Nat(bigits) + carry * Weight(|bigits|) == old(Nat(bigits)) + c * Weight(old(|bigits|))
        invariant if c == 0 then bigits == old(bigits) else (carry == 0 ==> TopNonZero(bigits))
        decreases carry
      {
        NatSnoc(bigits, carry % BASE);
        PushStep(Nat(bigits), carry, Weight(|bigits|));
        bigits := bigits + [carry % BASE];
        carry := carry / BASE;
      }
    }

    static lemma PushStep(v: int, carry: nat, w: int)
      ensures v + (carry % BASE) * w + (carry / BASE) * (BASE * w) == v + carry * w
    {
      MulAssoc(carry / BASE, BASE, w);
      MulDistribute(carry % BASE, (carry / BASE) * BASE, w);
    }

    method ShiftLeft(shift: nat)
      modifies this
      ensures Value() == old(Value()) * Pow(2, shift)
      ensures exp == old(exp) + shift / BIGIT_BITS
      ensures old(|bigits|) <= |bigits| <= old(|bigits|) + 1
      ensures old(TopNonZero(bigits)) ==> TopNonZero(bigits)
    {
      ShiftValue(Nat(bigits), exp, shift);
      exp := exp + shift / BIGIT_BITS;
      var s := shift % BIGIT_BITS;
      if s != 0 { ShiftBits(s); }
    }

    /** The bitwise part of the shift, by less than one bigit. */
    method ShiftBits(s: nat)
      requires 0 < s < BIGIT_BITS
      modifies `bigits
      ensures Nat(bigits) == old(Nat(bigits)) * Pow(2, s)
      ensures old(|bigits|) <= |bigits| <= old(|bigits|) + 1
      ensures old(TopNonZero(bigits)) ==> TopNonZero(bigits)
    {
      ghost var was := bigits;
      var p, q := Pow(2, s), Pow(2, BIGIT_BITS - s);
      SplitBase(s);
      var carry: Bigit, i, n := 0, 0, |bigits|;
      while i < n
        invariant i <= n == |was| && carry < p && Scaled(was, bigits, i, carry, p)
      {
        var b := bigits[i];
        assert b == bigits[i..][0] == was[i..][0];
        var low, c := ShiftDigit(b, p, q, carry);
        ScaledStep(was, bigits, i, carry, p, low, c);
        bigits := bigits[i := low];
        carry := c;
        i := i + 1;
      }
      ScaledDone(was, bigits, carry, p);
      if carry != 0 { bigits := bigits + [carry]; }
    }

    /** One bigit shifted left by log2 p bits: its low part with the incoming carry, and the bits shifted out. */
    static method ShiftDigit(b: Bigit, p: nat, q: nat, carry: nat) returns (low: Bigit, c: Bigit)
      requires 0 < p < BASE && q > 0 && p * q == BASE && carry < p
      ensures b * p + carry == low + BASE * c && c < p
    {
      ShiftStep(b, p, q, carry);
      low, c := b * p % BASE + carry, b / q;
    }

    static lemma SplitBase(s: nat)
      requires s < BIGIT_BITS
      ensures Pow(2, s) > 0 && Pow(2, BIGIT_BITS - s) > 0
      ensures Pow(2, s) * Pow(2, BIGIT_BITS - s) == BASE
      ensures s > 0 ==> Pow(2, s) < BASE
    {
      PowAdd(2, s, BIGIT_BITS - s);
      PowPositive(2, s);
      PowPositive(2, BIGIT_BITS - s);
      PowStrict(2, s, BIGIT_BITS);
      BaseIsPowerOfTwo();
    }

    static lemma BaseIsPowerOfTwo()
      ensures Pow(2, BIGIT_BITS) == BASE
    {
      assert Pow(2, 4) == 16;
      PowAdd(2, 4, 4);
      PowAdd(2, 8, 8);
      PowAdd(2, 16, 16);
    }

    static lemma ShiftValue(n: nat, exp: nat, shift: nat)
      ensures (n * Pow(2, shift % BIGIT_BITS)) * Weight(exp + shift / BIGIT_BITS)
              == (n * Weight(exp)) * Pow(2, shift)
    {
      var h, s := shift / BIGIT_BITS, shift % BIGIT_BITS;
      BaseIsPowerOfTwo();
      PowOfPow(2, BIGIT_BITS, h);
      PowAdd(2, BIGIT_BITS * h, s);
      WeightAdd(exp, h);
      Interchange(n, Pow(2, s), Weight(exp), Weight(h));
      assert Pow(2, shift) == Weight(h) * Pow(2, s);
      Interchange(n, Weight(exp), Pow(2, s), Weight(h));
      assert Weight(h) * Pow(2, s) == Pow(2, s) * Weight(h);
      Interchange(n, Pow(2, s), Weight(exp), Weight(h));
    }

    /**
     * Equal values stored with different exponents compare as different: the longer form wins.
     * Leading zero bigits matter only in an operand with more positions than the other.
     */
    static method Compare(lhs: BigInt, rhs: BigInt) returns (c: int)
      requires lhs.NumBigits() > rhs.NumBigits() ==> TopNonZero(lhs.bigits)
      requires rhs.NumBigits() > lhs.NumBigits() ==> TopNonZero(rhs.bigits)
      ensures lhs.Value() != rhs.Value() ==> c == Sign(lhs.Value() - rhs.Value())
      ensures lhs.Value() == rhs.Value() ==> c == Sign(rhs.exp - lhs.exp)
    {
      var l, r := lhs.bigits, rhs.bigits;
      if lhs.NumBigits() > rhs.NumBigits() {
        LongerIsLarger(l, lhs.exp, r, rhs.exp);
        return 1;
      }
      if lhs.NumBigits() < rhs.NumBigits() {
        LongerIsLarger(r, rhs.exp, l, lhs.exp);
        return -1;
      }
      var i, j := |l| - 1, |r| - 1;
      var end := if i - j < 0 then 0 else i - j;
      while i >= end
        invariant end - 1 <= i < |l| && -1 <= j < |r| && i - j == |l| - |r|
        invariant l[i + 1..] == r[j + 1..]
      {
        if l[i] > r[j] {
          DifferAt(r, rhs.exp, l, lhs.exp, j, i);
          return 1;
        }
        if l[i] < r[j] {
          DifferAt(l, lhs.exp, r, rhs.exp, i, j);
          return -1;
        }
        assert l[i..] == [l[i]] + l[i + 1..] && r[j..] == [r[j]] + r[j + 1..];
        i, j := i - 1, j - 1;
      }
      if lhs.exp <= rhs.exp {
        assert r[j + 1..] == r;
        SuffixOf(l, lhs.exp, r, rhs.exp);
      } else {
        assert l[i + 1..] == l;
        SuffixOf(r, rhs.exp, l, lhs.exp);
      }
      c := if i > j then 1 else if i < j then -1 else 0;
    }

    /** The sign of lhs1 + lhs2 - rhs, without computing the sum. */
    static method AddCompare(lhs1: BigInt, lhs2: BigInt, rhs: BigInt) returns (c: int)
      requires lhs1.NumBigits() > rhs.NumBigits() ==> TopNonZero(lhs1.bigits)
      requires lhs2.NumBigits() > rhs.NumBigits() ==> TopNonZero(lhs2.bigits)
      requires lhs1.NumBigits() + 1 < rhs.NumBigits() && lhs2.NumBigits() + 1 < rhs.NumBigits()
               ==> TopNonZero(rhs.bigits)
      ensures c == Sign(lhs1.Value() + lhs2.Value() - rhs.Value())
    {
      var maxLhs := if lhs1.NumBigits() > lhs2.NumBigits() then lhs1.NumBigits() else lhs2.NumBigits();
      var n := rhs.NumBigits();
      if maxLhs + 1 < n {
        SumTooShort(lhs1.bigits, lhs1.exp, lhs2.bigits, lhs2.exp, rhs.bigits, rhs.exp);
        return -1;
      }
      if maxLhs > n {
        if lhs1.NumBigits() > n {
          LongerIsLarger(lhs1.bigits, lhs1.exp, rhs.bigits, rhs.exp);
        } else {
          LongerIsLarger(lhs2.bigits, lhs2.exp, rhs.bigits, rhs.exp);
        }
        return 1;
      }
      var m := Min(Min(lhs1.exp, lhs2.exp), rhs.exp);
      WindowsKeepSign(lhs1.bigits, lhs1.exp, lhs2.bigits, lhs2.exp, rhs.bigits, rhs.exp, m, n);
      c := AddCompareBigits(lhs1, lhs2, rhs, m, n);
    }

    /** The loop of AddCompare, from the top bigit down to position m. */
    static method AddCompareBigits(lhs1: BigInt, lhs2: BigInt, rhs: BigInt, m: nat, n: nat) returns (c: int)
      requires m <= n
      ensures c == Sign(Nat(Window(lhs1.bigits, lhs1.exp, m, n)) + Nat(Window(lhs2.bigits, lhs2.exp, m, n))
                        - Nat(Window(rhs.bigits, rhs.exp, m, n)))
    {
      ghost var a := Window(lhs1.bigits, lhs1.exp, m, n);
      ghost var b := Window(lhs2.bigits, lhs2.exp, m, n);
      ghost var r := Window(rhs.bigits, rhs.exp, m, n);
      ghost var excess := 0;
      assert a[n - m..] == [] && b[n - m..] == [] && r[n - m..] == [];
      var borrow, i := 0, n;
      while i > m
        invariant m <= i <= n
        invariant excess == Excess(a, b, r, i - m) && 0 <= excess <= 1 && borrow == BASE * excess
      {
        i := i - 1;
        var sum: int := GetBigit(lhs1.bigits, lhs1.exp, i) + GetBigit(lhs2.bigits, lhs2.exp, i);
        var rhsBigit := GetBigit(rhs.bigits, rhs.exp, i);
        excess := rhsBigit + borrow - sum;
        ExcessAt(lhs1.bigits, lhs1.exp, lhs2.bigits, lhs2.exp, rhs.bigits, rhs.exp, m, n, i);
        ExcessDecides(a, b, r, i - m);
        if sum > rhsBigit + borrow { return 1; }
        borrow := rhsBigit + borrow - sum;
        if borrow > 1 { return -1; }
        borrow := borrow * BASE;
      }
      assert a[0..] == a && b[0..] == b && r[0..] == r;
      c := if borrow != 0 then -1 else 0;
    }

    static lemma ExcessAt(
        s: seq<Bigit>, e: nat, t: seq<Bigit>, f: nat, r: seq<Bigit>, g: nat, m: nat, n: nat, i: nat)
      requires m <= i < n
      ensures var a, b, c := Window(s, e, m, n), Window(t, f, m, n), Window(r, g, m, n);
              Excess(a, b, c, i - m)
              == GetBigit(r, g, i) + BASE * Excess(a, b, c, i - m + 1) - GetBigit(s, e, i) - GetBigit(t, f, i)
    {
      ExcessStep(Window(s, e, m, n), Window(t, f, m, n), Window(r, g, m, n), i - m);
    }

    static lemma WindowsKeepSign(
        s: seq<Bigit>, e: nat, t: seq<Bigit>, f: nat, r: seq<Bigit>, g: nat, m: nat, n: nat)
      requires m <= e && m <= f && m <= g && |s| + e <= n && |t| + f <= n && |r| + g <= n
      ensures Sign(ValueOf(s, e) + ValueOf(t, f) - ValueOf(r, g))
              == Sign(Nat(Window(s, e, m, n)) + Nat(Window(t, f, m, n)) - Nat(Window(r, g, m, n)))
    {
      WindowValue(s, e, m, n);
      WindowValue(t, f, m, n);
      WindowValue(r, g, m, n);
      var x, y, z := Nat(Window(s, e, m, n)), Nat(Window(t, f, m, n)), Nat(Window(r, g, m, n));
      MulDistribute(x, y, Weight(m));
      MulCancel(x + y, z, Weight(m));
    }

    static lemma SumTooShort(s: seq<Bigit>, e: nat, t: seq<Bigit>, f: nat, r: seq<Bigit>, g: nat)
      requires |s| + e + 1 < |r| + g && |t| + f + 1 < |r| + g && TopNonZero(r)
      ensures ValueOf(s, e) + ValueOf(t, f) < ValueOf(r, g)
    {
      ValueBound(s, e);
      ValueBound(t, f);
      ValueBound(r, g);
      var n := |r| + g - 2;
      PowMonotone(BASE, |s| + e, n);
      PowMonotone(BASE, |t| + f, n);
      assert Weight(n + 1) == BASE * Weight(n);
    }

    /** Adds column k of the product of n with itself, lower half: j runs down from k to 0. */
    static method AddLowerColumn(n: seq<Bigit>, k: nat, sum: Accumulator)
      requires sum.Valid() && k < |n| <= MAX_SIZE && sum.Value() <= |n| * BASE
      modifies sum
      ensures sum.Valid() && sum.Value() == old(sum.Value()) + Column(n, n, k, |n|)
    {
      var i, j := 0, k;
      while j >= 0
        invariant i + j == k && 0 <= i <= k + 1
        invariant sum.Valid() && sum.Value() == old(sum.Value()) + Column(n, n, k, i)
      {
        ColumnStep(n, k, i, j, old(sum.Value()));
        sum.Add((n[i] as int) * n[j]);
        i, j := i + 1, j - 1;
      }
      ColumnTail(n, n, k, k + 1, |n|);
    }

    /** Upper half: i runs up from k - (|n| - 1) to |n| - 1. */
    static method AddUpperColumn(n: seq<Bigit>, k: nat, sum: Accumulator)
      requires sum.Valid() && |n| <= k < 2 * |n| && |n| <= MAX_SIZE && sum.Value() <= |n| * BASE
      modifies sum
      ensures sum.Valid() && sum.Value() == old(sum.Value()) + Column(n, n, k, |n|)
    {
      var j := |n| - 1;
      var i := k - j;
      ColumnTail(n, n, k, 0, i);
      while i < |n|
        invariant i + j == k && 0 <= j && 0 <= i <= |n|
        invariant sum.Valid() && sum.Value() == old(sum.Value()) + Column(n, n, k, i)
      {
        ColumnStep(n, k, i, j, old(sum.Value()));
        sum.Add((n[i] as int) * n[j]);
        i, j := i + 1, j - 1;
      }
    }

    /** The next term of a column, and why adding it cannot overflow 128 bits. */
    static lemma ColumnStep(n: seq<Bigit>, k: nat, i: nat, j: nat, carry: nat)
      requires i < |n| <= MAX_SIZE && j < |n| && i + j == k && carry <= |n| * BASE
      ensures 0 <= (n[i] as int) * n[j] < TWO_64
      ensures Column(n, n, k, i + 1) == Column(n, n, k, i) + (n[i] as int) * n[j]
      ensures carry + Column(n, n, k, i) + (n[i] as int) * n[j] < TWO_128
    {
      BigitProduct(n[i], n[j]);
      ColumnBound(n, n, k, i);
    }

    /** Emitting one bigit of the square: the carry stays below the bound. */
    static lemma EmitStep(n: seq<Bigit>, k: nat, done: seq<Bigit>, carry: nat)
      requires |done| == k && carry <= |n| * BASE
      requires Nat(done) + carry * Weight(k) == Columns(n, n, k)
      ensures var total := carry + Column(n, n, k, |n|);
              && Nat(done + [total % BASE]) + (total / BASE) * Weight(k + 1) == Columns(n, n, k + 1)
              && total / BASE <= |n| * BASE
    {
      var total := carry + Column(n, n, k, |n|);
      ColumnBound(n, n, k, |n|);
      NatSnoc(done, total % BASE);
      PushStep(Nat(done), total, Weight(k));
      MulDistribute(carry, Column(n, n, k, |n|), Weight(k));
    }

    /** The low k bigits of the square of n are in place, and carry is what is left over for the next ones. */
    static ghost predicate SquaredTo(n: seq<Bigit>, s: seq<Bigit>, k: nat, carry: nat) {
      && k <= |s| == 2 * |n| && carry <= |n| * BASE
      && Nat(s[..k]) + carry * Weight(k) == Columns(n, n, k)
    }

    method EmitBigit(n: seq<Bigit>, k: nat, sum: Accumulator, ghost carry: nat)
      requires sum.Valid() && sum.Value() == carry + Column(n, n, k, |n|)
      requires k < |bigits| && SquaredTo(n, bigits, k, carry)
      modifies `bigits, sum
      ensures sum.Valid() && SquaredTo(n, bigits, k + 1, sum.Value())
    {
      EmitStep(n, k, bigits[..k], carry);
      ghost var before := bigits[..k];
      bigits := bigits[k := sum.ToBigit()];
      assert bigits[..k + 1] == before + [bigits[k]];
      sum.ShiftRight32();
    }

    method Square()
      requires |bigits| <= MAX_SIZE
      modifies this
      ensures Value() == old(Value() * Value()) && exp == 2 * old(exp)
      ensures old(TopNonZero(bigits)) ==> TopNonZero(bigits)
    {
      var n := bigits;
      bigits := Zeros(2 * |n|);
      var sum := new Accumulator();
      SquareLowerHalf(n, sum);
      SquareUpperHalf(n, sum);
      assert bigits[..2 * |n|] == bigits;
      FinishSquare(n, sum.Value());
    }

    method SquareLowerHalf(n: seq<Bigit>, sum: Accumulator)
      requires |n| <= MAX_SIZE && sum.Valid() && SquaredTo(n, bigits, 0, sum.Value())
      modifies `bigits, sum
      ensures sum.Valid() && SquaredTo(n, bigits, |n|, sum.Value())
    {
      var k := 0;
      while k < |n|
        invariant k <= |n| && sum.Valid() && SquaredTo(n, bigits, k, sum.Value())
      {
        ghost var carry := sum.Value();
        AddLowerColumn(n, k, sum);
        EmitBigit(n, k, sum, carry);
        k := k + 1;
      }
    }

    method SquareUpperHalf(n: seq<Bigit>, sum: Accumulator)
      requires |n| <= MAX_SIZE && sum.Valid() && SquaredTo(n, bigits, |n|, sum.Value())
      modifies `bigits, sum
      ensures sum.Valid() && SquaredTo(n, bigits, 2 * |n|, sum.Value())
    {
      var k := |n|;
      while k < 2 * |n|
        invariant |n| <= k <= 2 * |n| && sum.Valid() && SquaredTo(n, bigits, k, sum.Value())
      {
        ghost var carry := sum.Value();
        AddUpperColumn(n, k, sum);
        EmitBigit(n, k, sum, carry);
        k := k + 1;
      }
    }

    method FinishSquare(ghost n: seq<Bigit>, ghost carry: nat)
      requires |bigits| == 2 * |n| && Nat(bigits) + carry * Weight(|bigits|) == Columns(n, n, |bigits|)
      modifies this
      ensures Value() == ValueOf(n, old(exp)) * ValueOf(n, old(exp)) && exp == 2 * old(exp)
      ensures TopNonZero(n) ==> TopNonZero(bigits)
    {
      SquareDone(n, bigits, carry, exp);
      RemoveLeadingZeros();
      exp := 2 * exp;
      if |bigits| == 1 { NatZeros(bigits); }
    }

    static lemma SquareDone(n: seq<Bigit>, s: seq<Bigit>, carry: nat, exp: nat)
      requires |s| == 2 * |n| && Nat(s) + carry * Weight(|s|) == Columns(n, n, |s|)
      ensures ValueOf(s, 2 * exp) == ValueOf(n, exp) * ValueOf(n, exp)
      ensures TopNonZero(n) ==> Nat(s) > 0
    {
      ColumnsAreProduct(n, n, |s|);
      var v, w := Nat(n), Weight(exp);
      WeightAdd(exp, exp);
      Interchange(v, v, w, w);
      NatBound(n);
      WeightAdd(|n|, |n|);
      if carry > 0 {
        MulMonotone(1, carry, Weight(|s|));
        MulStrict(v, Weight(|n|), Weight(|n|));
        if v > 0 { MulStrict(v, Weight(|n|), v); }
        assert false;
      }
      if TopNonZero(n) {
        NatTop(n);
        MulMonotone(1, v, v);
      }
    }

    /** Assigns 10 to the power e; e is below the limit of the int bit mask. */
    method AssignPow10(e: nat)
      requires e < MAX_POWER
      modifies this
      ensures Value() == Pow(10, e) && exp == e / BIGIT_BITS && TopNonZero(bigits)
    {
      if e == 0 {
        Assign(1);
        return;
      }
      AssignPow5(e);
      ShiftLeft(e);
      PowProduct(5, 2, e);
    }

    /** The repeated squaring inside AssignPow10, one step for each bit of e below the top one. */
    method AssignPow5(e: nat)
      requires 0 < e < MAX_POWER
      modifies this
      ensures Value() == Pow(5, e) && exp == 0 && TopNonZero(bigits)
    {
      var bitmask, t := FindTopBit(e);
      Assign(5);
      TopBit(e, bitmask);
      ghost var k := 1;
      assert Pow(5, 1) == 5;
      bitmask := bitmask / 2;
      while bitmask != 0
        invariant t >= 0 && Pow(2, t) > 0 && bitmask == Pow(2, t) / 2 && k == e / Pow(2, t)
        invariant k <= e && Value() == Pow(5, k) && exp == 0 && TopNonZero(bigits)
        decreases t
      {
        k := NextBit(bitmask, e, t, k);
        bitmask := bitmask / 2;
        t := t - 1;
      }
      assert t == 0;
    }

    /** One iteration: square, and multiply by 5 if the bit under the mask is set. */
    method NextBit(bitmask: nat, e: nat, ghost t: nat, ghost k: nat) returns (ghost k': nat)
      requires 0 < bitmask == Pow(2, t) / 2 && k == e / Pow(2, t) && k <= e < MAX_POWER
      requires Value() == Pow(5, k) && exp == 0 && TopNonZero(bigits)
      modifies this
      ensures t > 0 && bitmask == Pow(2, t - 1) && k' == e / bitmask <= e
      ensures Value() == Pow(5, k') && exp == 0 && TopNonZero(bigits)
    {
      assert Pow(2, t) == 2 * bitmask;
      SizeOfPow5(bigits, k, e);
      HalvePower(e, t);
      k' := e / bitmask;
      assert k' <= e by { DivBelow(e, bitmask); }
      Square();
      if e / bitmask % 2 != 0 { MultiplyU32(5); }
    }

    static lemma DivBelow(e: nat, m: nat)
      requires m > 0
      ensures e / m <= e
    {
      MulMonotone(1, m, e / m);
    }

    static method FindTopBit(e: nat) returns (bitmask: nat, ghost t: nat)
      requires e > 0
      ensures bitmask == Pow(2, t) && bitmask <= e < 2 * bitmask
    {
      bitmask, t := 1, 0;
      while e >= bitmask
        invariant bitmask == Pow(2, t) && bitmask > 0 && (t > 0 ==> e >= Pow(2, t - 1))
        decreases e - bitmask
      {
        bitmask := bitmask * 2;
        t := t + 1;
      }
      bitmask := bitmask / 2;
      t := t - 1;
    }

    static lemma TopBit(e: nat, m: nat)
      requires 0 < m <= e < 2 * m
      ensures e / m == 1
    {
      var q, r := e / m, e % m;
      assert e == q * m + r;
      if q >= 2 { MulMonotone(2, q, m); }
      if q <= 0 { MulMonotone(q, 0, m); }
    }

    /** Shifting e one bit less far right appends one bit to the exponent of the power of 5. */
    static lemma HalvePower(e: nat, t: nat)
      requires t > 0 && Pow(2, t) > 0 && Pow(2, t - 1) > 0
      ensures var q, q' := e / Pow(2, t), e / Pow(2, t - 1);
              && q' == 2 * q + q' % 2
              && Pow(5, q') == Pow(5, q) * Pow(5, q) * (if q' % 2 != 0 then 5 else 1)
    {
      var m := Pow(2, t - 1);
      var q, q' := e / Pow(2, t), e / m;
      assert q == q' / 2 by { DivTwice(e, m); }
      PowAdd(5, q, q);
      if q' % 2 != 0 { assert Pow(5, q') == 5 * Pow(5, q + q); }
    }

    static lemma DivTwice(e: nat, m: nat)
      requires m > 0
      ensures e / (2 * m) == e / m / 2
    {
      var q, r := e / m, e % m;
      assert e == q * m + r;
      var h, b := q / 2, q % 2;
      assert q == 2 * h + b;
      assert e == h * (2 * m) + (b * m + r) by {
        MulDistribute(2 * h, b, m);
        MulAssoc(h, 2, m);
      }
      assert 0 <= b * m + r < 2 * m;
      var q2, r2 := e / (2 * m), e % (2 * m);
      assert e == q2 * (2 * m) + r2;
      if q2 > h { MulMonotone(h + 1, q2, 2 * m); MulDistribute(h, 1, 2 * m); }
      if q2 < h { MulMonotone(q2 + 1, h, 2 * m); MulDistribute(q2, 1, 2 * m); }
    }

    /** A power of 5 below the limit has few enough bigits to be squared. */
    static lemma SizeOfPow5(s: seq<Bigit>, k: nat, e: nat)
      requires TopNonZero(s) && ValueOf(s, 0) == Pow(5, k) && k <= e < MAX_POWER
      ensures |s| <= MAX_SIZE
    {
      NatTop(s);
      var n := |s| - 1;
      BaseIsPowerOfTwo();
      PowOfPow(2, BIGIT_BITS, n);
      FiveBelowEight(k);
      PowOfPow(2, 3, k);
      assert Pow(2, 3) == 8;
      if 3 * k < BIGIT_BITS * n {
        PowStrict(2, 3 * k, BIGIT_BITS * n);
        assert false;
      }
    }

    static lemma {:induction false} FiveBelowEight(k: nat)
      ensures Pow(5, k) <= Pow(8, k)
    {
      if k > 0 {
        FiveBelowEight(k - 1);
        MulMonotone(5, 8, Pow(8, k - 1));
      }
    }

    /** Trades a larger exponent for trailing zero bigits, moving the bigits up in place. */
    method Align(other: BigInt)
      modifies this
      ensures Value() == old(Value())
      ensures exp == Min(old(exp), old(other.exp)) && bigits == Zeros(old(exp) - exp) + old(bigits)
    {
      if exp <= other.exp {
        assert bigits == Zeros(0) + bigits;
        return;
      }
      var d := exp - other.exp;
      ValueAligned(bigits, exp, d);
      bigits := MoveUp(bigits, d);
      exp := exp - d;
    }

    /** Moves the bigits up by d places, from the top down, and clears the places below. */
    static method MoveUp(was: seq<Bigit>, d: nat) returns (s: seq<Bigit>)
      ensures s == Zeros(d) + was
    {
      var n := |was|;
      s := was + Zeros(d);
      var i := n - 1;
      while i >= 0
        invariant -1 <= i < n && |s| == n + d
        invariant forall k :: 0 <= k <= i ==> s[k] == was[k]
        invariant forall k :: i + d < k < n + d ==> s[k] == was[k - d]
      {
        s := s[i + d := s[i]];
        i := i - 1;
      }
      s := Zeros(d) + s[d..];
    }

    /** One 64-bit wrapping subtraction: what does not fit is borrowed from the next bigit. */
    method SubtractBigits(index: nat, other: Bigit, borrow: Bigit) returns (borrow': Bigit)
      requires index < |bigits| && borrow <= 1
      modifies `bigits
      ensures |bigits| == old(|bigits|) && bigits == old(bigits)[index := bigits[index]]
      ensures borrow' <= 1 && bigits[index] - BASE * borrow' == old(bigits[index]) - other - borrow
    {
      var result := (bigits[index] as int - other - borrow) % TWO_64;
      bigits := bigits[index := result % BASE];
      borrow' := result / 0x8000_0000_0000_0000;
    }

    /**
     * The final borrow loop stays on one bigit. If that bigit is zero the subtraction comes out too
     * large, by BASE - 1 units of that bigit; otherwise it is exact.
     */
    method SubtractAligned(other: BigInt)
      requires this != other && other.exp >= exp && other.NumBigits() <= NumBigits()
      requires Value() >= other.Value()
      modifies `bigits
      ensures |bigits| <= old(|bigits|) && (old(bigits) != [] ==> Canonical(bigits))
      ensures Value() == old(Value()) - other.Value() + old(Overshoot(bigits, exp, other.bigits, other.exp))
      ensures Value() == old(Value()) - other.Value()
              <==> !old(Borrows(bigits, exp, other.bigits, other.exp) && NextIsZero(bigits, exp, other.bigits, other.exp))
    {
      SubtractionExactIff(bigits, exp, other.bigits, other.exp);
      SubtractInPlace(other);
      RemoveLeadingZeros();
    }

    /** Both loops of the subtraction. */
    method SubtractInPlace(other: BigInt)
      requires this != other && other.exp >= exp && other.NumBigits() <= NumBigits() && Value() >= other.Value()
      modifies `bigits
      ensures |bigits| == old(|bigits|)
      ensures Value() == old(Value()) - other.Value() + old(Overshoot(bigits, exp, other.bigits, other.exp))
    {
      ghost var was := bigits;
      var d := other.exp - exp;
      var borrow := SubtractFacing(other);
      var i := d + |other.bigits|;
      SubtractDone(was, bigits, other.bigits, d, borrow, exp);
      SettleBorrow(i, borrow);
    }

    static lemma SubtractDone(was: seq<Bigit>, middle: seq<Bigit>, other: seq<Bigit>, d: nat, borrow: Bigit, exp: nat)
      requires d + |other| <= |was| == |middle| && middle[d + |other|..] == was[d + |other|..] && borrow <= 1
      requires Nat(middle[..d + |other|]) - borrow * Weight(d + |other|)
               == Nat(was[..d + |other|]) - Nat(other) * Weight(d)
      requires ValueOf(was, exp) >= ValueOf(other, exp + d)
      ensures borrow == 1 ==> d + |other| < |was|
      ensures ValueOf(Settled(middle, d + |other|, borrow), exp)
              == ValueOf(was, exp) - ValueOf(other, exp + d) + Overshoot(was, exp, other, exp + d)
    {
      var i := d + |other|;
      BorrowOut(was, middle, other, d, borrow, exp);
      FinishSubtract(was, middle, other, d, borrow);
      var extra := if borrow == 1 && was[i] == 0 then BASE - 1 else 0;
      OvershootIs(was, exp, other, d, extra);
      ScaleSubtract(was, Settled(middle, i, borrow), other, d, extra, exp);
    }

    static lemma OvershootIs(s: seq<Bigit>, e: nat, t: seq<Bigit>, d: nat, extra: nat)
      requires d + |t| <= |s|
      requires extra == if Borrows(s, e, t, e + d) && d + |t| < |s| && s[d + |t|] == 0 then BASE - 1 else 0
      ensures Overshoot(s, e, t, e + d) == extra * Weight(d + |t| + e)
    {
      var i := d + |t|;
      assert e + d - e + |t| == i && |t| + (e + d) == i + e;
    }

    /** The first loop: subtracts bigit by bigit where the subtrahend has bigits. */
    method SubtractFacing(other: BigInt) returns (borrow: Bigit)
      requires this != other && other.exp >= exp && other.NumBigits() <= NumBigits()
      modifies `bigits
      ensures |bigits| == old(|bigits|) && borrow <= 1
      ensures var i := other.NumBigits() - exp;
              && bigits[i..] == old(bigits)[i..]
              && Nat(bigits[..i]) - borrow * Weight(i)
                 == Nat(old(bigits)[..i]) - Nat(other.bigits) * Weight(other.exp - exp)
    {
      ghost var was := bigits;
      var d := other.exp - exp;
      var i, j, n := d, 0, |other.bigits|;
      borrow := 0;
      while j != n
        invariant 0 <= j <= n && i == d + j && borrow <= 1 && d + n <= |bigits| == |was|
        invariant bigits[i..] == was[i..]
        invariant Nat(bigits[..i]) - borrow * Weight(i) == Nat(was[..i]) - Nat(other.bigits[..j]) * Weight(d)
      {
        ghost var before, c := bigits, borrow;
        borrow := SubtractBigits(i, other.bigits[j], borrow);
        SubtractStep(was, before, other.bigits, d, j, c, bigits[i], borrow);
        i, j := i + 1, j + 1;
      }
      assert other.bigits[..n] == other.bigits;
    }

    /** The final borrow loop; its index does not move. */
    method SettleBorrow(i: nat, b: Bigit)
      requires b <= 1 && (b == 1 ==> i < |bigits|)
      modifies `bigits
      ensures bigits == Settled(old(bigits), i, b)
    {
      var borrow := b;
      ghost var was := bigits;
      while borrow > 0
        invariant 0 <= borrow <= b && |bigits| == |was|
        invariant borrow == 0 ==> bigits == Settled(was, i, b)
        invariant borrow == 1 ==> bigits == was || (was[i] == 0 && bigits == was[i := BASE - 1])
        decreases borrow, if bigits == was then 1 else 0
      {
        borrow := SubtractBigits(i, 0, borrow);
      }
    }

    static ghost function Settled(s: seq<Bigit>, i: nat, borrow: Bigit): seq<Bigit>
      requires borrow == 1 ==> i < |s|
    {
      if borrow != 1 then s else s[i := if s[i] == 0 then BASE - 2 else s[i] - 1]
    }

    static lemma SubtractStep(was: seq<Bigit>, now: seq<Bigit>, other: seq<Bigit>, d: nat, j: nat,
                              borrow: Bigit, z: Bigit, borrow': Bigit)
      requires j < |other| && d + |other| <= |was| == |now| && now[d + j..] == was[d + j..]
      requires Nat(now[..d + j]) - borrow * Weight(d + j) == Nat(was[..d + j]) - Nat(other[..j]) * Weight(d)
      requires z - BASE * borrow' == now[d + j] - other[j] - borrow
      ensures var next := now[d + j := z];
              && next[d + j + 1..] == was[d + j + 1..]
              && Nat(next[..d + j + 1]) - borrow' * Weight(d + j + 1)
                 == Nat(was[..d + j + 1]) - Nat(other[..j + 1]) * Weight(d)
    {
      var i := d + j;
      var next := now[i := z];
      assert next[..i + 1] == now[..i] + [z];
      assert next[i + 1..] == now[i..][1..] == was[i + 1..];
      assert now[i] == now[i..][0] == was[i..][0];
      NatSnoc(now[..i], z);
      NatPrefix(was, i);
      NatPrefix(other, j);
      MulDistribute(Nat(other[..j]), other[j] * Weight(j), Weight(d));
      WeightAdd(j, d);
      MulAssoc(other[j], Weight(j), Weight(d));
      BorrowStep(Nat(now[..i]), Nat(was[..i]), Nat(other[..j]) * Weight(d), borrow, borrow', Weight(i),
                 other[j] * Weight(i), was[i], other[j], z);
    }

    /** The first loop borrows exactly when the facing part is too small, and then a bigit is left above it. */
    static lemma BorrowOut(was: seq<Bigit>, now: seq<Bigit>, other: seq<Bigit>, d: nat, borrow: Bigit, exp: nat)
      requires d + |other| <= |was| == |now| && now[d + |other|..] == was[d + |other|..] && borrow <= 1
      requires Nat(now[..d + |other|]) - borrow * Weight(d + |other|)
               == Nat(was[..d + |other|]) - Nat(other) * Weight(d)
      requires ValueOf(was, exp) >= ValueOf(other, exp + d)
      ensures borrow == 1 <==> Borrows(was, exp, other, exp + d)
      ensures borrow == 1 ==> d + |other| < |was|
    {
      var i := d + |other|;
      NatBound(now[..i]);
      BorrowSign(Nat(now[..i]), borrow, Weight(i), Nat(was[..i]), Nat(other) * Weight(d));
      if borrow == 1 && i == |was| { TooSmall(was, other, d, exp); }
    }

    static lemma BorrowSign(x: nat, c: nat, w: nat, p: int, q: int)
      requires x < w && c <= 1 && x - c * w == p - q
      ensures c == 1 <==> p < q
    {
      if c == 1 { assert c * w == w; } else { assert c * w == 0; }
    }

    static lemma TooSmall(was: seq<Bigit>, other: seq<Bigit>, d: nat, exp: nat)
      requires Nat(was[..|was|]) < Nat(other) * Weight(d)
      ensures ValueOf(was, exp) < ValueOf(other, exp + d)
    {
      assert was[..|was|] == was;
      WeightAdd(d, exp);
      MulAssoc(Nat(other), Weight(d), Weight(exp));
      MulStrict(Nat(was), Nat(other) * Weight(d), Weight(exp));
    }

    static lemma FinishSubtract(was: seq<Bigit>, middle: seq<Bigit>, other: seq<Bigit>, d: nat, borrow: Bigit)
      requires d + |other| <= |was| == |middle| && middle[d + |other|..] == was[d + |other|..]
      requires Nat(middle[..d + |other|]) - borrow * Weight(d + |other|)
               == Nat(was[..d + |other|]) - Nat(other) * Weight(d)
      requires borrow <= 1 && (borrow == 1 ==> d + |other| < |was|)
      ensures var i := d + |other|;
              Nat(Settled(middle, i, borrow)) == Nat(was) - Nat(other) * Weight(d)
              + (if borrow == 1 && was[i] == 0 then BASE - 1 else 0) * Weight(i)
    {
      var i := d + |other|;
      var now := Settled(middle, i, borrow);
      SettledHigh(was, middle, i, borrow);
      SplitNat(was, i);
      SplitNat(now, i);
      assert now[..i] == middle[..i];
      JoinParts(Nat(middle[..i]), Nat(was[..i]), Nat(other) * Weight(d), borrow,
                if borrow == 1 && was[i] == 0 then BASE - 1 else 0, Nat(was[i..]), Weight(i));
    }

    static lemma ScaleSubtract(was: seq<Bigit>, now: seq<Bigit>, other: seq<Bigit>, d: nat, extra: nat, exp: nat)
      requires Nat(now) == Nat(was) - Nat(other) * Weight(d) + extra * Weight(d + |other|)
      ensures ValueOf(now, exp) == ValueOf(was, exp) - ValueOf(other, exp + d) + extra * Weight(d + |other| + exp)
    {
      ScaleDifference(Nat(now), Nat(was), Nat(other), Weight(d), extra, Weight(d + |other|), Weight(exp));
      WeightAdd(d, exp);
      WeightAdd(d + |other|, exp);
    }

    static lemma JoinParts(lo: int, lo': int, o: int, borrow: int, extra: int, h: int, w: int)
      requires lo - borrow * w == lo' - o
      ensures lo + (h - borrow + extra) * w == lo' + h * w - o + extra * w
    {
      MulDistribute(h - borrow, extra, w);
      MulDistribute(h, borrow, w);
    }

    static lemma SettledHigh(was: seq<Bigit>, middle: seq<Bigit>, i: nat, borrow: Bigit)
      requires i <= |was| == |middle| && middle[i..] == was[i..] && borrow <= 1 && (borrow == 1 ==> i < |was|)
      ensures Nat(Settled(middle, i, borrow)[i..])
              == Nat(was[i..]) - borrow + if borrow == 1 && was[i] == 0 then BASE - 1 else 0
    {
      var now := Settled(middle, i, borrow);
      if borrow == 1 {
        assert middle[i] == middle[i..][0] == was[i..][0];
        HighStep(was, i);
        HighStep(now, i);
        assert now[i + 1..] == middle[i..][1..] == was[i + 1..];
      }
    }

    static lemma ScaleDifference(x: int, y: int, z: int, w: int, e: int, u: int, v: int)
      requires x == y - z * w + e * u
      ensures x * v == y * v - z * (w * v) + e * (u * v)
    {
      MulDistribute(y - z * w, e * u, v);
      MulDistribute(y, z * w, v);
      MulAssoc(z, w, v);
      MulAssoc(e, u, v);
    }

    /**
     * Division by repeated subtraction. A dividend equal to the divisor but stored with a larger exponent
     * compares as smaller, and is left over whole; every other one is divided.
     */
    method DivmodAssign(divisor: BigInt) returns (quotient: nat)
      requires this != divisor && Canonical(bigits) && TopNonZero(divisor.bigits)
      requires NumBigits() > divisor.NumBigits() ==> TopNonZero(bigits)
      requires Value() < BASE * divisor.Value()
      modifies this
      ensures old(Value()) == quotient * divisor.Value() + Value() && Value() <= divisor.Value()
      ensures Value() < divisor.Value() <==> !(old(Value()) == divisor.Value() && old(exp) > divisor.exp)
      ensures Canonical(bigits)
      ensures if quotient == 0 then bigits == old(bigits) && exp == old(exp) else exp <= divisor.exp
    {
      var c := Compare(this, divisor);
      if c < 0 { return 0; }
      PositiveTop(bigits, exp, divisor.bigits, divisor.exp);
      Align(divisor);
      quotient := DivideAligned(divisor);
    }

    /** Such a dividend, made by this class: 2^32 shifted into place, divided by 2^32 as assigned. */
    static method DivisionFails() returns (quotient: nat, dividend: BigInt, divisor: BigInt)
      ensures fresh(dividend) && fresh(divisor) && dividend != divisor
      ensures dividend.exp == 1 && divisor.exp == 0
      ensures quotient == 0 && dividend.Value() == divisor.Value() == BASE
    {
      dividend := new BigInt();
      dividend.Assign(1);
      dividend.ShiftLeft(BIGIT_BITS);
      BaseIsPowerOfTwo();
      divisor := new BigInt();
      divisor.Assign(BASE);
      quotient := dividend.DivmodAssign(divisor);
    }

    /** The division loop; its body is entered at least once. */
    method DivideAligned(divisor: BigInt) returns (quotient: nat)
      requires this != divisor && Canonical(bigits) && TopNonZero(divisor.bigits) && exp <= divisor.exp
      requires divisor.Value() <= Value() < BASE * divisor.Value()
      modifies `bigits
      ensures old(Value()) == quotient * divisor.Value() + Value() && Value() < divisor.Value()
      ensures Canonical(bigits) && quotient > 0
    {
      ghost var total, dv := Value(), divisor.Value();
      var c := 0;
      quotient := 0;
      while c >= 0
        invariant total == quotient * dv + Value() && Value() < BASE * dv
        invariant Canonical(bigits)
        invariant c >= 0 <==> Value() >= dv
        decreases Value() + (if c >= 0 then 1 else 0)
      {
        c := SubtractOnce(divisor);
        MulDistribute(quotient, 1, dv);
        quotient := quotient + 1;
      }
    }

    /** One round of the division loop. */
    method SubtractOnce(divisor: BigInt) returns (c: int)
      requires this != divisor && Canonical(bigits) && TopNonZero(divisor.bigits) && exp <= divisor.exp
      requires divisor.Value() <= Value() < BASE * divisor.Value()
      modifies `bigits
      ensures Canonical(bigits) && Value() == old(Value()) - divisor.Value()
      ensures c >= 0 <==> Value() >= divisor.Value()
    {
      CanonicalTop(bigits, exp, divisor.bigits, divisor.exp);
      SubtractIsExact(bigits, exp, divisor.bigits, divisor.exp);
      SubtractAligned(divisor);
      CanonicalTop(bigits, exp, divisor.bigits, divisor.exp);
      c := Compare(this, divisor);
    }

    /** A minuend below BASE times the subtrahend has at most one bigit above it, which absorbs the borrow. */
    static lemma SubtractIsExact(s: seq<Bigit>, e: nat, t: seq<Bigit>, f: nat)
      requires e <= f && TopNonZero(t) && (|s| + e > |t| + f ==> TopNonZero(s))
      requires ValueOf(t, f) <= ValueOf(s, e) < BASE * ValueOf(t, f)
      ensures |t| + f <= |s| + e <= |t| + f + 1
      ensures |t| + f < |s| + e ==> s[|t| + f - e] != 0
    {
      if |s| + e < |t| + f { LongerIsLarger(t, f, s, e); }
      if |s| + e > |t| + f + 1 {
        ValueBound(s, e);
        ValueBound(t, f);
        PowMonotone(BASE, |t| + f + 1, |s| + e - 1);
        assert false;
      }
    }

    static lemma PositiveTop(s: seq<Bigit>, e: nat, t: seq<Bigit>, f: nat)
      requires Canonical(s) && TopNonZero(t) && ValueOf(s, e) >= ValueOf(t, f)
      ensures TopNonZero(s)
    {
      ValueBound(t, f);
      NatZeros(s);
      if s[|s| - 1] == 0 {
        assert false;
      }
    }

    static lemma CanonicalTop(s: seq<Bigit>, e: nat, t: seq<Bigit>, f: nat)
      requires Canonical(s) && e <= f && |t| > 0
      ensures |s| + e > |t| + f ==> TopNonZero(s)
    {}
  }
}

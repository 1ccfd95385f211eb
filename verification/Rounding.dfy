/** Exact decimal scaling and rounding to nearest, ties to even, of binary fractions. */
module Rounding {
  import opened Powers

  function Abs(x: int): nat {
    if x < 0 then -x else x
  }

  /** d is the integer nearest to p / q, the even one when two are equally near. */
  ghost predicate RoundsHalfEven(d: int, p: int, q: nat)
    requires q > 0
  {
    2 * Abs(p - d * q) <= q && (2 * Abs(p - d * q) == q ==> d % 2 == 0)
  }

  /** Rounding to nearest, ties to even, determines the integer. */
  lemma RoundingUnique(d: int, d': int, p: int, q: nat)
    requires q > 0 && RoundsHalfEven(d, p, q) && RoundsHalfEven(d', p, q)
    ensures d == d'
  {
    if d < d' { RoundingApart(d, d', p, q); }
    if d' < d { RoundingApart(d', d, p, q); }
  }

  lemma RoundingApart(d: int, d': int, p: int, q: nat)
    requires q > 0 && d < d' && RoundsHalfEven(d, p, q)
    ensures !RoundsHalfEven(d', p, q)
  {
    var gap := d' - d;
    MulDistribute(d', d, q);
    MulMonotone(1, gap, q);
    if gap > 1 { MulStrict(1, gap, q); }
  }

  /** Only the ratio matters. */
  lemma RoundingRatio(d: int, p: int, q: nat, p': int, q': nat)
    requires q > 0 && q' > 0 && p * q' == p' * q && RoundsHalfEven(d, p, q)
    ensures RoundsHalfEven(d, p', q')
  {
    var x, x' := p - d * q, p' - d * q';
    assert x * q' == x' * q by {
      MulDistribute(p, d * q, q');
      MulDistribute(p', d * q', q);
      MulAssoc(d, q, q');
      MulAssoc(d, q', q);
    }
    assert Abs(x) * q' == Abs(x') * q by {
      if x < 0 { MulStrict(x, 0, q'); }
      if x' < 0 { MulStrict(x', 0, q); }
      if x >= 0 && x' < 0 { MulMonotone(0, x, q'); assert false; }
      if x < 0 && x' >= 0 { MulMonotone(0, x', q); assert false; }
      MulDistribute(0, x, q');
      MulDistribute(0, x', q);
    }
    MulCancel(2 * Abs(x'), q', q);
    MulCancel(2 * Abs(x), q, q');
    MulCancel(q', 2 * Abs(x'), q);
    MulCancel(q, 2 * Abs(x), q');
    MulAssoc(2, Abs(x), q');
    MulAssoc(2, Abs(x'), q);
  }

  /** A division with remainder, rounded by comparing twice the remainder with the divisor. */
  lemma RoundQuotient(d: nat, r: nat, p: nat, q: nat, up: bool)
    requires q > 0 && p == d * q + r && r < q
    requires up <==> 2 * r > q || (2 * r == q && d % 2 != 0)
    ensures RoundsHalfEven(if up then d + 1 else d, p, q)
  {
    MulDistribute(d, 1, q);
  }

  /** b to the power k, or 1 for negative k. */
  function Up(b: nat, k: int): (p: nat)
    requires b > 0
    ensures p > 0
  {
    if k >= 0 then PowPositive(b, k); Pow(b, k) else 1
  }

  /** Numerator and denominator of f * 2^e / 10^k. */
  function ScaledNum(f: nat, e: int, k: int): nat {
    f * Up(2, e) * Up(10, -k)
  }

  function ScaledDen(e: int, k: int): (d: nat)
    ensures d > 0
  {
    MulStrict(0, Up(2, -e), Up(10, k));
    Up(2, -e) * Up(10, k)
  }

  lemma UpRatio(k: int, m: nat)
    ensures Up(10, -k) * Pow(10, m) * Up(10, k - m) == Up(10, m - k) * Up(10, k)
  {
    if k >= m {
      PowAdd(10, m, k - m);
    } else if k >= 0 {
      PowAdd(10, m - k, k);
    } else {
      PowAdd(10, -k, m);
    }
  }

  /** Moving the decimal point m places. */
  lemma ScaleByTen(f: nat, e: int, k: int, m: nat)
    ensures (ScaledNum(f, e, k) * Pow(10, m)) * ScaledDen(e, k - m) == ScaledNum(f, e, k - m) * ScaledDen(e, k)
  {
    UpRatio(k, m);
    var a, b := f * Up(2, e), Up(2, -e);
    var x, y, z, u, v := Up(10, -k), Pow(10, m), Up(10, k - m), Up(10, m - k), Up(10, k);
    calc {
      (a * x * y) * (b * z);
      { MulAssoc(a, x, y); }
      (a * (x * y)) * (b * z);
      { Interchange(a, x * y, b, z); }
      (a * b) * ((x * y) * z);
      (a * b) * (u * v);
      { Interchange(a, b, u, v); }
      (a * u) * (b * v);
    }
  }
}

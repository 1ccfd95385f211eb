/** The schoolbook product as a sum of weighted cross terms. */
module Convolution {
  import opened Powers
  import opened Bigits

  /** (BASE - 1) squared: the largest product of two bigits. */
  const MAX_PRODUCT: nat := 0xFFFF_FFFE_0000_0001

  function At(s: seq<Bigit>, i: int): Bigit {
    if 0 <= i < |s| then s[i] else 0
  }

  /** The terms s[i] * t[k - i] for i below hi: part of column k of the product. */
  function Column(s: seq<Bigit>, t: seq<Bigit>, k: int, hi: nat): nat {
    if hi == 0 then 0 else Column(s, t, k, hi - 1) + At(s, hi - 1) * At(t, k - (hi - 1))
  }

  /** The first m columns of the product, weighted. */
  function Columns(s: seq<Bigit>, t: seq<Bigit>, m: nat): nat {
    if m == 0 then 0 else Columns(s, t, m - 1) + Column(s, t, m - 1, |s|) * Weight(m - 1)
  }

  /** The first m weighted bigits of t moved up by d places. */
  function Shifted(t: seq<Bigit>, d: nat, m: nat): nat {
    if m == 0 then 0 else Shifted(t, d, m - 1) + At(t, m - 1 - d) * Weight(m - 1)
  }

  /** Every term beyond column k, or below its first non-zero term, vanishes. */
  lemma {:induction false} ColumnTail(s: seq<Bigit>, t: seq<Bigit>, k: int, lo: nat, hi: nat)
    requires lo <= hi
    requires k < lo || k - hi >= |t| - 1
    ensures Column(s, t, k, hi) == Column(s, t, k, lo)
  {
    if lo < hi { ColumnTail(s, t, k, lo, hi - 1); }
  }

  lemma {:induction false} ColumnPrefix(s: seq<Bigit>, x: Bigit, t: seq<Bigit>, k: int, hi: nat)
    requires hi <= |s|
    ensures Column(s + [x], t, k, hi) == Column(s, t, k, hi)
  {
    if hi > 0 { ColumnPrefix(s, x, t, k, hi - 1); }
  }

  lemma {:induction false} ColumnsSnoc(s: seq<Bigit>, x: Bigit, t: seq<Bigit>, m: nat)
    ensures Columns(s + [x], t, m) == Columns(s, t, m) + x * Shifted(t, |s|, m)
  {
    if m > 0 {
      ColumnsSnoc(s, x, t, m - 1);
      ColumnPrefix(s, x, t, m - 1, |s|);
      assert Column(s + [x], t, m - 1, |s| + 1) == Column(s, t, m - 1, |s|) + x * At(t, m - 1 - |s|);
      SnocStep(Columns(s, t, m - 1), Column(s, t, m - 1, |s|), At(t, m - 1 - |s|), Weight(m - 1),
               Shifted(t, |s|, m - 1), x);
    }
  }

  lemma SnocStep(sum: int, c: int, a: int, w: int, h: int, x: int)
    ensures sum + x * h + (c + x * a) * w == sum + c * w + x * (h + a * w)
  {
    MulDistribute(c, x * a, w);
    MulAssoc(x, a, w);
    MulDistribute(h, a * w, x);
  }

  lemma {:induction false} ShiftedValue(t: seq<Bigit>, d: nat, m: nat)
    ensures Shifted(t, d, m) == if m <= d then 0 else Nat(t[..if m - d <= |t| then m - d else |t|]) * Weight(d)
  {
    if m > 0 {
      ShiftedValue(t, d, m - 1);
      var i := m - 1 - d;
      if 0 <= i < |t| {
        NatPrefix(t, i);
        WeightAdd(i, d);
        MulDistribute(Nat(t[..i]), t[i] * Weight(i), Weight(d));
        MulAssoc(t[i], Weight(i), Weight(d));
      }
    }
  }

  lemma {:induction false} ColumnsOfEmpty(t: seq<Bigit>, m: nat)
    ensures Columns([], t, m) == 0
  {
    if m > 0 { ColumnsOfEmpty(t, m - 1); }
  }

  /** All the columns together are the product. */
  lemma {:induction false} ColumnsAreProduct(s: seq<Bigit>, t: seq<Bigit>, m: nat)
    requires m >= |s| + |t|
    ensures Columns(s, t, m) == Nat(s) * Nat(t)
  {
    if s == [] {
      ColumnsOfEmpty(t, m);
    } else {
      var n := |s| - 1;
      var p, x := s[..n], s[n];
      assert s == p + [x];
      ColumnsAreProduct(p, t, m);
      ColumnsSnoc(p, x, t, m);
      ShiftedValue(t, n, m);
      assert t[..|t|] == t;
      var w, v := Weight(n), Nat(t);
      assert m <= n ==> |t| == 0;
      assert Shifted(t, n, m) == v * w;
      calc {
        Nat(s) * v;
        (Nat(p) + x * w) * v;
        { MulDistribute(Nat(p), x * w, v); }
        Nat(p) * v + (x * w) * v;
        { MulAssoc(x, w, v); }
        Nat(p) * v + x * (w * v);
        Nat(p) * v + x * (v * w);
      }
    }
  }

  /** A column has at most n terms, each below BASE squared. */
  lemma {:induction false} ColumnBound(s: seq<Bigit>, t: seq<Bigit>, k: int, hi: nat)
    ensures Column(s, t, k, hi) <= hi * MAX_PRODUCT
  {
    if hi > 0 {
      ColumnBound(s, t, k, hi - 1);
      BigitProduct(At(s, hi - 1), At(t, k - (hi - 1)));
    }
  }

  lemma BigitProduct(x: Bigit, y: Bigit)
    ensures 0 <= x * y <= MAX_PRODUCT
  {
    MulMonotone(x, 0xFFFF_FFFF, y);
    assert 0xFFFF_FFFF * y <= 0xFFFF_FFFF * 0xFFFF_FFFF;
  }
}

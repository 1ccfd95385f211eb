/** Little-endian sequences of 32-bit big digits and the natural numbers they denote. */
module Bigits {
  import opened Powers

  const BASE: nat := 0x1_0000_0000

  type Bigit = x: int | 0 <= x < BASE

  /** The weight of the bigit at index k. */
  function Weight(k: nat): (w: nat)
    ensures w > 0
  {
    PowPositive(BASE, k);
    Pow(BASE, k)
  }

  function Nat(s: seq<Bigit>): nat {
    if s == [] then 0 else Nat(s[..|s| - 1]) + s[|s| - 1] * Weight(|s| - 1)
  }

  /** The natural number stored as bigits with a bigit exponent. */
  function ValueOf(s: seq<Bigit>, exp: nat): nat {
    Nat(s) * Weight(exp)
  }

  predicate TopNonZero(s: seq<Bigit>) {
    |s| > 0 && s[|s| - 1] != 0
  }

  /** What remove_leading_zeros leaves behind: no leading zero, except for zero itself. */
  predicate Canonical(s: seq<Bigit>) {
    |s| > 0 && (s[|s| - 1] != 0 || |s| == 1)
  }

  lemma NatSnoc(s: seq<Bigit>, x: Bigit)
    ensures Nat(s + [x]) == Nat(s) + x * Weight(|s|)
  {
    assert (s + [x])[..|s|] == s;
  }

  /** Nat of a prefix one bigit longer. */
  lemma NatPrefix(s: seq<Bigit>, i: nat)
    requires i < |s|
    ensures Nat(s[..i + 1]) == Nat(s[..i]) + s[i] * Weight(i)
  {
    assert s[..i + 1][..i] == s[..i];
  }

  lemma {:induction false} NatBound(s: seq<Bigit>)
    ensures Nat(s) < Weight(|s|)
  {
    if s != [] {
      var n := |s| - 1;
      NatBound(s[..n]);
      MulMonotone(s[n], BASE - 1, Weight(n));
    }
  }

  lemma NatTop(s: seq<Bigit>)
    requires |s| > 0
    ensures s[|s| - 1] != 0 <==> Nat(s) >= Weight(|s| - 1)
  {
    var n := |s| - 1;
    NatBound(s[..n]);
    if s[n] != 0 { MulMonotone(1, s[n], Weight(n)); }
  }

  lemma {:induction false} NatConcat(a: seq<Bigit>, b: seq<Bigit>)
    ensures Nat(a + b) == Nat(a) + Nat(b) * Weight(|a|)
  {
    if b == [] {
      assert a + b == a;
    } else {
      var n := |b| - 1;
      NatConcat(a, b[..n]);
      assert (a + b)[..|a| + n] == a + b[..n];
      PowAdd(BASE, n, |a|);
      MulDistribute(Nat(b[..n]), b[n] * Weight(n), Weight(|a|));
      MulAssoc(b[n], Weight(n), Weight(|a|));
    }
  }

  lemma {:induction false} NatZeros(s: seq<Bigit>)
    ensures Nat(s) == 0 <==> forall k :: 0 <= k < |s| ==> s[k] == 0
  {
    if s != [] {
      var n := |s| - 1;
      NatZeros(s[..n]);
      if s[n] != 0 {
        MulMonotone(1, s[n], Weight(n));
      } else {
        assert forall k :: 0 <= k < n ==> s[..n][k] == s[k];
        assert forall k :: 0 <= k < |s| ==> k == n || s[k] == s[..n][k];
      }
    }
  }

  lemma WeightAdd(m: nat, n: nat)
    ensures Weight(m + n) == Weight(m) * Weight(n)
  {
    PowAdd(BASE, m, n);
  }

  /** Equal-length numbers are ordered by the highest bigit in which they differ. */
  lemma {:induction false} NatLexicographic(a: seq<Bigit>, b: seq<Bigit>, i: nat)
    requires |a| == |b| && i < |a|
    requires a[i] < b[i] && forall k :: i < k < |a| ==> a[k] == b[k]
    ensures Nat(a) < Nat(b)
  {
    var n := |a| - 1;
    if i == n {
      NatBound(a[..n]);
      var x, y, w := a[n], b[n], Weight(n);
      assert (x + 1) * w <= y * w by { MulMonotone(x + 1, y, w); }
      assert (x + 1) * w == x * w + w by { MulDistribute(x, 1, w); }
    } else {
      var a', b' := a[..n], b[..n];
      assert a'[i] < b'[i];
      assert forall k :: i < k < n ==> a'[k] == b'[k];
      NatLexicographic(a', b', i);
      assert a[n] == b[n];
    }
  }

  /** A value with at least as many bigit positions as its top bigit shows. */
  lemma ValueBound(s: seq<Bigit>, exp: nat)
    ensures ValueOf(s, exp) < Weight(|s| + exp)
    ensures |s| > 0 && s[|s| - 1] != 0 ==> ValueOf(s, exp) >= Weight(|s| + exp - 1)
  {
    NatBound(s);
    WeightAdd(|s|, exp);
    MulStrict(Nat(s), Weight(|s|), Weight(exp));
    if |s| > 0 && s[|s| - 1] != 0 {
      NatTop(s);
      WeightAdd(|s| - 1, exp);
      MulMonotone(Weight(|s| - 1), Nat(s), Weight(exp));
    }
  }

  function Zeros(n: nat): (z: seq<Bigit>)
    ensures |z| == n && forall k :: 0 <= k < n ==> z[k] == 0
  {
    seq(n, _ => 0)
  }

  /** Prepending zero bigits trades exponent for length. */
  lemma ValueAligned(s: seq<Bigit>, exp: nat, d: nat)
    requires d <= exp
    ensures ValueOf(Zeros(d) + s, exp - d) == ValueOf(s, exp)
  {
    NatConcat(Zeros(d), s);
    NatZeros(Zeros(d));
    WeightAdd(d, exp - d);
    MulAssoc(Nat(s), Weight(d), Weight(exp - d));
  }
}

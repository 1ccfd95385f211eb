/** Deciding the order of stored numbers from their bigits. */
module BigitOrder {
  import opened Powers
  import opened Bigits

  function Sign(x: int): int {
    if x > 0 then 1 else if x < 0 then -1 else 0
  }

  /** More bigit positions mean a larger number, provided the top bigit counts. */
  lemma LongerIsLarger(s: seq<Bigit>, e: nat, t: seq<Bigit>, f: nat)
    requires |s| + e > |t| + f && TopNonZero(s)
    ensures ValueOf(s, e) > ValueOf(t, f)
  {
    ValueBound(s, e);
    ValueBound(t, f);
    PowMonotone(BASE, |t| + f, |s| + e - 1);
  }

  /** Numbers with equally many positions are ordered by the first bigit that differs, from the top. */
  lemma DifferAt(s: seq<Bigit>, e: nat, t: seq<Bigit>, f: nat, i: nat, j: nat)
    requires |s| + e == |t| + f && i < |s| && j < |t| && i + e == j + f
    requires s[i] < t[j] && s[i + 1..] == t[j + 1..]
    ensures ValueOf(s, e) < ValueOf(t, f)
  {
    var m := Min(e, f);
    var s', t' := Zeros(e - m) + s, Zeros(f - m) + t;
    ValueAligned(s, e, e - m);
    ValueAligned(t, f, f - m);
    var k := i + e - m;
    assert s'[k] == s[i] && t'[k] == t[j];
    assert s'[k + 1..] == s[i + 1..] && t'[k + 1..] == t[j + 1..];
    forall x | k < x < |s'|
      ensures s'[x] == t'[x]
    {
      assert s'[x] == s'[k + 1..][x - k - 1] && t'[x] == t'[k + 1..][x - k - 1];
    }
    NatLexicographic(s', t', k);
    MulStrict(Nat(s'), Nat(t'), Weight(m));
  }

  /** If the shorter number is a suffix of the longer, only the extra low bigits can separate them. */
  lemma SuffixOf(s: seq<Bigit>, e: nat, t: seq<Bigit>, f: nat)
    requires |s| + e == |t| + f && e <= f
    requires s[f - e..] == t
    ensures ValueOf(s, e) == ValueOf(t, f) + ValueOf(s[..f - e], e)
  {
    var d := f - e;
    assert s == s[..d] + t;
    NatConcat(s[..d], t);
    MulDistribute(Nat(s[..d]), Nat(t) * Weight(d), Weight(e));
    MulAssoc(Nat(t), Weight(d), Weight(e));
    WeightAdd(d, e);
  }

  /** The bigit at absolute position i. */
  function GetBigit(s: seq<Bigit>, e: nat, i: nat): Bigit {
    if e <= i < e + |s| then s[i - e] else 0
  }

  /** The bigits at absolute positions m to n, padded with zeros. */
  ghost function Window(s: seq<Bigit>, e: nat, m: nat, n: nat): seq<Bigit>
    requires m <= n
  {
    seq<Bigit>(n - m, k requires 0 <= k => GetBigit(s, e, m + k))
  }

  lemma WindowValue(s: seq<Bigit>, e: nat, m: nat, n: nat)
    requires m <= e && |s| + e <= n
    ensures Nat(Window(s, e, m, n)) * Weight(m) == ValueOf(s, e)
  {
    var w := Window(s, e, m, n);
    var hi := Zeros(n - e - |s|);
    var padded := (Zeros(e - m) + s) + hi;
    assert |w| == |padded|;
    forall k | 0 <= k < |w|
      ensures w[k] == padded[k]
    {
      assert w[k] == GetBigit(s, e, m + k);
    }
    assert w == padded;
    NatConcat(Zeros(e - m) + s, hi);
    NatZeros(hi);
    ValueAligned(s, e, e - m);
  }

  /** Splitting a number into low and high bigits. */
  lemma SplitNat(s: seq<Bigit>, k: nat)
    requires k <= |s|
    ensures Nat(s) == Nat(s[..k]) + Nat(s[k..]) * Weight(k)
    ensures Nat(s[..k]) < Weight(k)
  {
    assert s == s[..k] + s[k..];
    NatConcat(s[..k], s[k..]);
    NatBound(s[..k]);
  }

  lemma HighStep(s: seq<Bigit>, k: nat)
    requires k < |s|
    ensures Nat(s[k..]) == s[k] + BASE * Nat(s[k + 1..])
  {
    assert s[k..] == [s[k]] + s[k + 1..];
    NatConcat([s[k]], s[k + 1..]);
    NatSnoc([], s[k]);
    assert [] + [s[k]] == [s[k]];
    assert Weight(1) == BASE * Weight(0);
  }

  /** A number whose lowest stored bigit counts never equals one stored with a larger exponent. */
  lemma LowestBigitSeparates(s: seq<Bigit>, e: nat, t: seq<Bigit>, f: nat)
    requires e > f && |t| > 0 && t[0] != 0
    ensures ValueOf(s, e) != ValueOf(t, f)
  {
    var u := Zeros(e - f) + s;
    ValueAligned(s, e, e - f);
    assert Nat(u) != Nat(t) by { LowestDiffers(u, t); }
    MulCancel(Nat(u), Nat(t), Weight(f));
  }

  lemma LowestDiffers(u: seq<Bigit>, t: seq<Bigit>)
    requires |u| > 0 && |t| > 0 && u[0] != t[0]
    ensures Nat(u) != Nat(t)
  {
    assert u[0..] == u && t[0..] == t;
    HighStep(u, 0);
    HighStep(t, 0);
    Residues(u[0], t[0], Nat(u[1..]), Nat(t[1..]));
  }

  lemma Residues(a: Bigit, b: Bigit, x: int, y: int)
    requires a != b
    ensures a + BASE * x != b + BASE * y
  {}

  /** How far the high part of r exceeds the high parts of a and b together, from bigit k up. */
  ghost function Excess(a: seq<Bigit>, b: seq<Bigit>, r: seq<Bigit>, k: nat): int
    requires k <= |a| == |b| == |r|
  {
    Nat(r[k..]) - Nat(a[k..]) - Nat(b[k..])
  }

  lemma ExcessStep(a: seq<Bigit>, b: seq<Bigit>, r: seq<Bigit>, k: nat)
    requires k < |a| == |b| == |r|
    ensures Excess(a, b, r, k) == r[k] + BASE * Excess(a, b, r, k + 1) - a[k] - b[k]
  {
    HighStep(a, k);
    HighStep(b, k);
    HighStep(r, k);
  }

  /** A negative excess, or one above 1, can no longer be undone by the lower bigits. */
  lemma ExcessDecides(a: seq<Bigit>, b: seq<Bigit>, r: seq<Bigit>, k: nat)
    requires k <= |a| == |b| == |r|
    ensures Excess(a, b, r, k) < 0 ==> Nat(a) + Nat(b) > Nat(r)
    ensures Excess(a, b, r, k) > 1 ==> Nat(a) + Nat(b) < Nat(r)
  {
    SplitNat(a, k);
    SplitNat(b, k);
    SplitNat(r, k);
    HighPartsDecide(Nat(a[..k]), Nat(b[..k]), Nat(r[..k]), Nat(a[k..]), Nat(b[k..]), Nat(r[k..]), Weight(k));
  }

  lemma HighPartsDecide(p: nat, q: nat, t: nat, x: nat, y: nat, z: nat, w: nat)
    requires p < w && q < w && t < w
    ensures z < x + y ==> t + z * w < (p + x * w) + (q + y * w)
    ensures z > x + y + 1 ==> t + z * w > (p + x * w) + (q + y * w)
  {
    MulDistribute(x, y, w);
    if z < x + y {
      MulMonotone(z + 1, x + y, w);
      MulDistribute(z, 1, w);
    } else if z > x + y + 1 {
      MulMonotone(x + y + 2, z, w);
      MulDistribute(x + y, 2, w);
    }
  }
}

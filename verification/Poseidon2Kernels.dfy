/** Which matrices annihilate no state: the linear layers are injective exactly then. */
module Poseidon2Kernels {
  import opened Words
  import opened ModField
  import opened MatInverse
  import opened Poseidon2Naive
  import opened Poseidon2Linear

  predicate IsZero(s: seq<int>) {
    forall i :: 0 <= i < |s| ==> s[i] == 0
  }

  predicate FullAnnihilates(p: int, s: seq<int>)
    requires p > 1
  {
    IsZero(MulFull(p, s))
  }

  predicate PartialAnnihilates(p: int, diag: seq<int>, s: seq<int>)
    requires p > 1 && |diag| == |s|
  {
    IsZero(MulPartial(p, diag, s))
  }

  /** Only the zero state is mapped to zero by the external matrix. */
  ghost predicate FullKernelFree(p: int, t: nat)
    requires p > 1
  {
    forall s: seq<int> {:trigger FullAnnihilates(p, s)} ::
      |s| == t && InField(p, s) && FullAnnihilates(p, s) ==> IsZero(s)
  }

  /** Only the zero state is mapped to zero by the internal matrix. */
  ghost predicate PartialKernelFree(p: int, diag: seq<int>)
    requires p > 1
  {
    forall s: seq<int> {:trigger PartialAnnihilates(p, diag, s)} ::
      |s| == |diag| && InField(p, s) && PartialAnnihilates(p, diag, s) ==> IsZero(s)
  }

  // ----- linearity -----

  function Difference(p: int, x: seq<int>, y: seq<int>): (d: seq<int>)
    requires p > 1 && |x| == |y|
    ensures |d| == |x| && InField(p, d)
  {
    seq(|x|, i requires 0 <= i < |x| => Sub(p, x[i], y[i]))
  }

  lemma {:induction false} DotCommutes(u: seq<int>, v: seq<int>)
    requires |u| == |v|
    ensures Dot(u, v) == Dot(v, u)
  {
    if u != [] { DotCommutes(u[..|u| - 1], v[..|u| - 1]); }
  }

  lemma {:induction false} DotOfDifference(p: int, row: seq<int>, x: seq<int>, y: seq<int>)
    requires p > 1 && |row| == |x| == |y|
    ensures Dot(row, Difference(p, x, y)) % p == (Dot(row, x) - Dot(row, y)) % p
  {
    var d := Difference(p, x, y);
    forall k | 0 <= k < |d| ensures d[k] % p == (x[k] - y[k] * 1) % p { ModMod(p, x[k] - y[k]); }
    DotSubtracts(p, d, x, y, 1, row);
    DotCommutes(row, x);
    DotCommutes(row, y);
    DotCommutes(row, d);
  }

  lemma {:induction false} DifferenceZero(p: int, x: int, y: int)
    requires p > 1 && 0 <= x < p && 0 <= y < p && (x - y) % p == 0
    ensures x == y
  {
    DivisionIdentity(p, x - y);
    SmallMultiple(p, (x - y) / p, x - y);
  }

  lemma {:induction false} EqualResidues(p: int, a: int, b: int)
    requires p > 1 && a % p == b % p
    ensures (a - b) % p == 0
  {
    ModAdd(p, a, b, b, b);
  }

  lemma {:induction false} SameState(p: int, x: seq<int>, y: seq<int>)
    requires p > 1 && |x| == |y| && InField(p, x) && InField(p, y) && IsZero(Difference(p, x, y))
    ensures x == y
  {
    forall i | 0 <= i < |x| ensures x[i] == y[i] {
      assert Difference(p, x, y)[i] == 0;
      DifferenceZero(p, x[i], y[i]);
    }
  }

  lemma {:induction false} RowOfDifference(p: int, row: seq<int>, x: seq<int>, y: seq<int>)
    requires p > 1 && |row| == |x| == |y| && Dot(row, x) % p == Dot(row, y) % p
    ensures Dot(row, Difference(p, x, y)) % p == 0
  {
    EqualResidues(p, Dot(row, x), Dot(row, y));
    DotOfDifference(p, row, x, y);
  }

  lemma {:induction false} FullOfDifference(p: int, x: seq<int>, y: seq<int>)
    requires p > 1 && |x| == |y| && MulFull(p, x) == MulFull(p, y)
    ensures FullAnnihilates(p, Difference(p, x, y))
  {
    forall i: nat | i < |x| ensures MulFull(p, Difference(p, x, y))[i] == 0 {
      assert MulFull(p, x)[i] == MulFull(p, y)[i];
      RowOfDifference(p, FullRow(|x|, i), x, y);
    }
  }

  lemma {:induction false} FullLayerInjective(p: int, x: seq<int>, y: seq<int>)
    requires p > 1 && |x| == |y| && FullKernelFree(p, |x|) && InField(p, x) && InField(p, y)
    requires MulFull(p, x) == MulFull(p, y)
    ensures x == y
  {
    FullOfDifference(p, x, y);
    SameState(p, x, y);
  }

  lemma {:induction false} PartialOfDifference(p: int, diag: seq<int>, x: seq<int>, y: seq<int>)
    requires p > 1 && |x| == |y| == |diag| && MulPartial(p, diag, x) == MulPartial(p, diag, y)
    ensures PartialAnnihilates(p, diag, Difference(p, x, y))
  {
    forall i: nat | i < |x| ensures MulPartial(p, diag, Difference(p, x, y))[i] == 0 {
      assert MulPartial(p, diag, x)[i] == MulPartial(p, diag, y)[i];
      RowOfDifference(p, PartialRow(|x|, diag, i), x, y);
    }
  }

  lemma {:induction false} PartialLayerInjective(p: int, diag: seq<int>, x: seq<int>, y: seq<int>)
    requires p > 1 && |x| == |y| == |diag| && PartialKernelFree(p, diag) && InField(p, x) && InField(p, y)
    requires MulPartial(p, diag, x) == MulPartial(p, diag, y)
    ensures x == y
  {
    PartialOfDifference(p, diag, x, y);
    SameState(p, x, y);
  }

  function ZeroState(t: nat): (s: seq<int>)
    ensures |s| == t && IsZero(s)
  {
    seq(t, _ => 0)
  }

  /** The zero state goes to zero, so an annihilated state collides with it. */
  lemma {:induction false} FullLayerOfZero(p: int, t: nat, s: seq<int>)
    requires p > 1 && |s| == t && FullAnnihilates(p, s)
    ensures InField(p, ZeroState(t)) && MulFull(p, s) == MulFull(p, ZeroState(t))
  {
    var z := ZeroState(t);
    forall i: nat | i < t ensures MulFull(p, z)[i] == 0 {
      DotCommutes(FullRow(t, i), z);
      DotZero(z, FullRow(t, i));
    }
  }

  lemma {:induction false} PartialLayerOfZero(p: int, diag: seq<int>, s: seq<int>)
    requires p > 1 && |s| == |diag| && PartialAnnihilates(p, diag, s)
    ensures InField(p, ZeroState(|s|)) && MulPartial(p, diag, s) == MulPartial(p, diag, ZeroState(|s|))
  {
    var t, z := |s|, ZeroState(|s|);
    forall i: nat | i < t ensures MulPartial(p, diag, z)[i] == 0 {
      DotCommutes(PartialRow(t, diag, i), z);
      DotZero(z, PartialRow(t, diag, i));
    }
  }

  // ----- units -----

  ghost predicate IsUnit(p: int, k: int)
    requires p > 1
  {
    exists x: int :: Mul(p, k, x) == 1
  }

  lemma {:induction false} CancelUnit(p: int, k: int, d: int)
    requires p > 1 && IsUnit(p, k) && (k * d) % p == 0
    ensures d % p == 0
  {
    var x: int :| Mul(p, k, x) == 1;
    Cancel(p, k, d, x);
  }

  /** A combination of two multiples of `p` is one. */
  lemma {:induction false} CombineZero(p: int, a: int, b: int, m: int, n: int)
    requires p > 1 && a % p == 0 && b % p == 0
    ensures (m * a + n * b) % p == 0
  {
    assert 0 % p == 0;
    ModMul(p, m, a, m, 0);
    ModMul(p, n, b, n, 0);
    ModAdd(p, m * a, n * b, 0, 0);
  }

  /** A number written as such a combination. */
  lemma {:induction false} ZeroAs(p: int, r: int, a: int, b: int, m: int, n: int)
    requires p > 1 && a % p == 0 && b % p == 0 && r == m * a + n * b
    ensures r % p == 0
  {
    CombineZero(p, a, b, m, n);
  }

  /** A multiple of `d` by a unit that combines multiples of `p`. */
  lemma {:induction false} UnitMultiple(p: int, k: int, d: int, a: int, b: int, m: int, n: int)
    requires p > 1 && IsUnit(p, k) && a % p == 0 && b % p == 0 && m * a + n * b == k * d
    ensures d % p == 0
  {
    CombineZero(p, a, b, m, n);
    CancelUnit(p, k, d);
  }

  // ----- two and three words -----

  /** The factors of the determinants of the external matrices are units: 3, 4, 8, and the block count plus one. */
  ghost predicate FullUnits(p: int, t: nat)
    requires p > 1
  {
    if t == 2 then IsUnit(p, 3) else if t == 3 then IsUnit(p, 4)
    else IsUnit(p, 8) && (t > 4 ==> IsUnit(p, t / 4 + 1))
  }

  /** The determinants 5 and 7 of the two fixed internal matrices are units. */
  ghost predicate PartialUnits(p: int, t: nat)
    requires p > 1
  {
    if t == 2 then IsUnit(p, 5) else IsUnit(p, 7)
  }

  lemma {:induction false} Reduced(p: int, s: seq<int>)
    requires p > 1 && InField(p, s) && forall i :: 0 <= i < |s| ==> s[i] % p == 0
    ensures IsZero(s)
  {
    forall i | 0 <= i < |s| ensures s[i] == 0 { SmallMod(p, s[i]); }
  }

  /** A row of two entries, on a state it annihilates. */
  lemma {:induction false} ZeroRow2(p: int, row: seq<int>, s: seq<int>, a: int, b: int)
    requires p > 1 && |s| == 2 && row == [a, b] && Dot(row, s) % p == 0
    ensures (a * s[0] + b * s[1]) % p == 0
  {
    Dot2(row, s);
  }

  lemma {:induction false} ZeroRow3(p: int, row: seq<int>, s: seq<int>, a: int, b: int, c: int)
    requires p > 1 && |s| == 3 && row == [a, b, c] && Dot(row, s) % p == 0
    ensures (a * s[0] + b * s[1] + c * s[2]) % p == 0
  {
    Dot3(row, s);
  }

  lemma {:induction false} Kernel2(p: int, w: int, x: int, k: int)
    requires p > 1 && IsUnit(p, 2 * k - 1) && (2 * w + x) % p == 0 && (w + k * x) % p == 0
    ensures w % p == 0 && x % p == 0
  {
    UnitMultiple(p, 2 * k - 1, w, 2 * w + x, w + k * x, k, -1);
    UnitMultiple(p, 2 * k - 1, x, 2 * w + x, w + k * x, -1, 2);
  }

  lemma {:induction false} Full2(p: int, s: seq<int>)
    requires p > 1 && IsUnit(p, 3) && |s| == 2 && FullAnnihilates(p, s)
    ensures s[0] % p == 0 && s[1] % p == 0
  {
    assert MulFull(p, s)[0] == 0 && MulFull(p, s)[1] == 0;
    ZeroRow2(p, FullRow(2, 0), s, 2, 1);
    ZeroRow2(p, FullRow(2, 1), s, 1, 2);
    Kernel2(p, s[0], s[1], 2);
  }

  lemma {:induction false} Partial2(p: int, diag: seq<int>, s: seq<int>)
    requires p > 1 && IsUnit(p, 5) && |s| == |diag| == 2 && PartialAnnihilates(p, diag, s)
    ensures s[0] % p == 0 && s[1] % p == 0
  {
    assert MulPartial(p, diag, s)[0] == 0 && MulPartial(p, diag, s)[1] == 0;
    ZeroRow2(p, PartialRow(2, diag, 0), s, 2, 1);
    ZeroRow2(p, PartialRow(2, diag, 1), s, 1, 3);
    Kernel2(p, s[0], s[1], 3);
  }

  lemma {:induction false} UnitMultiple3(p: int, k: int, d: int, a: int, b: int, c: int, m: int, n: int, o: int)
    requires p > 1 && IsUnit(p, k) && a % p == 0 && b % p == 0 && c % p == 0 && m * a + n * b + o * c == k * d
    ensures d % p == 0
  {
    CombineZero(p, a, b, m, n);
    UnitMultiple(p, k, d, m * a + n * b, c, 1, o);
  }

  lemma {:induction false} Kernel3Full(p: int, w: int, x: int, y: int)
    requires p > 1 && IsUnit(p, 4)
    requires (2 * w + x + y) % p == 0 && (w + 2 * x + y) % p == 0 && (w + x + 2 * y) % p == 0
    ensures w % p == 0 && x % p == 0 && y % p == 0
  {
    var a, b, c := 2 * w + x + y, w + 2 * x + y, w + x + 2 * y;
    UnitMultiple3(p, 4, w, a, b, c, 3, -1, -1);
    UnitMultiple3(p, 4, x, a, b, c, -1, 3, -1);
    UnitMultiple3(p, 4, y, a, b, c, -1, -1, 3);
  }

  lemma {:induction false} Kernel3Partial(p: int, w: int, x: int, y: int)
    requires p > 1 && IsUnit(p, 7)
    requires (2 * w + x + y) % p == 0 && (w + 2 * x + y) % p == 0 && (w + x + 3 * y) % p == 0
    ensures w % p == 0 && x % p == 0 && y % p == 0
  {
    var a, b, c := 2 * w + x + y, w + 2 * x + y, w + x + 3 * y;
    UnitMultiple3(p, 7, w, a, b, c, 5, -2, -1);
    UnitMultiple3(p, 7, x, a, b, c, -2, 5, -1);
    UnitMultiple3(p, 7, y, a, b, c, -1, -1, 3);
  }

  lemma {:induction false} Full3(p: int, s: seq<int>)
    requires p > 1 && IsUnit(p, 4) && |s| == 3 && FullAnnihilates(p, s)
    ensures s[0] % p == 0 && s[1] % p == 0 && s[2] % p == 0
  {
    assert MulFull(p, s)[0] == 0 && MulFull(p, s)[1] == 0 && MulFull(p, s)[2] == 0;
    ZeroRow3(p, FullRow(3, 0), s, 2, 1, 1);
    ZeroRow3(p, FullRow(3, 1), s, 1, 2, 1);
    ZeroRow3(p, FullRow(3, 2), s, 1, 1, 2);
    Kernel3Full(p, s[0], s[1], s[2]);
  }

  lemma {:induction false} Partial3(p: int, diag: seq<int>, s: seq<int>)
    requires p > 1 && IsUnit(p, 7) && |s| == |diag| == 3 && PartialAnnihilates(p, diag, s)
    ensures s[0] % p == 0 && s[1] % p == 0 && s[2] % p == 0
  {
    var r := MulPartial(p, diag, s);
    assert r[0] == 0 && r[1] == 0 && r[2] == 0;
    ZeroRow3(p, PartialRow(3, diag, 0), s, 2, 1, 1);
    ZeroRow3(p, PartialRow(3, diag, 1), s, 1, 2, 1);
    ZeroRow3(p, PartialRow(3, diag, 2), s, 1, 1, 3);
    Kernel3Partial(p, s[0], s[1], s[2]);
  }

  /** Two and three words: the internal matrix annihilates nothing. */
  lemma {:induction false} SmallPartialKernel(p: int, diag: seq<int>)
    requires p > 1 && 2 <= |diag| <= 3 && PartialUnits(p, |diag|)
    ensures PartialKernelFree(p, diag)
  {
    forall s: seq<int> | |s| == |diag| && InField(p, s) && PartialAnnihilates(p, diag, s) ensures IsZero(s) {
      if |s| == 2 { Partial2(p, diag, s); } else { Partial3(p, diag, s); }
      Reduced(p, s);
    }
  }

  // ----- four words and more: the external matrix -----

  lemma {:induction false} UnitMultiple4(p: int, k: int, d: int, a: int, b: int, c: int, e: int,
                                         m: int, n: int, o: int, q: int)
    requires p > 1 && IsUnit(p, k) && a % p == 0 && b % p == 0 && c % p == 0 && e % p == 0
    requires m * a + n * b + o * c + q * e == k * d
    ensures d % p == 0
  {
    CombineZero(p, a, b, m, n);
    UnitMultiple3(p, k, d, m * a + n * b, c, e, 1, o, q);
  }

  /** M4 has a left inverse up to the factor 8. */
  lemma {:induction false} M4Kernel(p: int, w: int, x: int, y: int, z: int)
    requires p > 1 && IsUnit(p, 8)
    requires (5 * w + 7 * x + y + 3 * z) % p == 0 && (4 * w + 6 * x + y + z) % p == 0
    requires (w + 3 * x + 5 * y + 7 * z) % p == 0 && (w + x + 4 * y + 6 * z) % p == 0
    ensures w % p == 0 && x % p == 0 && y % p == 0 && z % p == 0
  {
    var a, b := 5 * w + 7 * x + y + 3 * z, 4 * w + 6 * x + y + z;
    var c, e := w + 3 * x + 5 * y + 7 * z, w + x + 4 * y + 6 * z;
    UnitMultiple4(p, 8, w, a, b, c, e, -1, 3, -6, 7);
    UnitMultiple4(p, 8, x, a, b, c, e, 1, -1, 4, -5);
    UnitMultiple4(p, 8, y, a, b, c, e, -6, 7, -1, 3);
    UnitMultiple4(p, 8, z, a, b, c, e, 4, -5, 1, -1);
  }

  lemma {:induction false} BlockKernel(p: int, s: seq<int>, b: nat)
    requires p > 1 && IsUnit(p, 8) && 4 * b + 4 <= |s|
    requires forall l: nat :: l < 4 ==> BlockDot(s, l, b) % p == 0
    ensures forall i :: 4 * b <= i < 4 * b + 4 ==> s[i] % p == 0
  {
    var w, x, y, z := s[4 * b], s[4 * b + 1], s[4 * b + 2], s[4 * b + 3];
    assert BlockDot(s, 0, b) == 5 * w + 7 * x + y + 3 * z;
    assert BlockDot(s, 1, b) == 4 * w + 6 * x + y + z;
    assert BlockDot(s, 2, b) == w + 3 * x + 5 * y + 7 * z;
    assert BlockDot(s, 3, b) == w + x + 4 * y + 6 * z;
    M4Kernel(p, w, x, y, z);
  }

  lemma {:induction false} SumsAdd(p: int, a: int, b: int, x: int, y: int)
    requires p > 1 && (a + b) % p == 0 && (x + y) % p == 0
    ensures (a + x + (b + y)) % p == 0
  {
    ZeroAs(p, a + x + (b + y), a + b, x + y, 1, 1);
  }

  /** Words that cancel pairwise have totals that cancel. */
  lemma {:induction false} OpposedTotals(p: int, s: seq<int>, u: seq<int>, k: nat)
    requires p > 1 && k <= |s| == |u| && forall i: nat :: i < |s| ==> (s[i] + u[i]) % p == 0
    ensures (Total(s, k) + Total(u, k)) % p == 0
    decreases k
  {
    if k > 0 {
      OpposedTotals(p, s, u, k - 1);
      SumsAdd(p, Total(s, k - 1), Total(u, k - 1), s[k - 1], u[k - 1]);
    }
  }

  function Constant(n: nat, x: int): (r: seq<int>)
    ensures |r| == n && forall i :: 0 <= i < n ==> r[i] == x
  {
    seq(n, _ => x)
  }

  lemma {:induction false} ConstantTotal(n: nat, x: int, k: nat)
    requires k <= n
    ensures Total(Constant(n, x), k) == k * x
    decreases k
  {
    if k > 0 { ConstantTotal(n, x, k - 1); }
  }

  /** Terms that all cancel a common number add up to as many times that number. */
  lemma {:induction false} TotalCancels(p: int, d: seq<int>, total: int)
    requires p > 1 && forall b: nat :: b < |d| ==> (total + d[b]) % p == 0
    ensures (Total(d, |d|) + |d| * total) % p == 0
  {
    OpposedTotals(p, d, Constant(|d|, total), |d|);
    ConstantTotal(|d|, total, |d|);
  }

  /** If the column total plus each block product vanishes, every block product vanishes. */
  lemma {:induction false} ColumnKernel(p: int, d: seq<int>)
    requires p > 1 && IsUnit(p, |d| + 1)
    requires forall b: nat :: b < |d| ==> (Total(d, |d|) + d[b]) % p == 0
    ensures forall b: nat :: b < |d| ==> d[b] % p == 0
  {
    var total := Total(d, |d|);
    TotalCancels(p, d, total);
    assert total + |d| * total == (|d| + 1) * total;
    CancelUnit(p, |d| + 1, total);
    forall b: nat | b < |d| ensures d[b] % p == 0 {
      CombineZero(p, total + d[b], total, 1, -1);
    }
  }

  lemma {:induction false} WideEntry(p: int, s: seq<int>, l: nat, b: nat)
    requires p > 1 && |s| > 4 && |s| % 4 == 0 && l < 4 && b < |s| / 4 && FullAnnihilates(p, s)
    ensures (Total(Blocks(s, l), |s| / 4) + Blocks(s, l)[b]) % p == 0
  {
    var i := 4 * b + l;
    SplitIndex(b, l);
    FullRowDot(|s|, i, s);
    assert MulFull(p, s)[i] == 0;
  }

  lemma {:induction false} WideColumn(p: int, s: seq<int>, l: nat)
    requires p > 1 && |s| > 4 && |s| % 4 == 0 && l < 4 && IsUnit(p, |s| / 4 + 1) && FullAnnihilates(p, s)
    ensures forall b: nat :: b < |s| / 4 ==> BlockDot(s, l, b) % p == 0
  {
    var d := Blocks(s, l);
    forall b: nat | b < |d| ensures (Total(d, |d|) + d[b]) % p == 0 { WideEntry(p, s, l, b); }
    ColumnKernel(p, d);
    forall b: nat | b < |s| / 4 ensures BlockDot(s, l, b) % p == 0 { assert d[b] % p == 0; }
  }

  lemma {:induction false} BlocksVanish(p: int, s: seq<int>, l: nat, b: nat)
    requires p > 1 && |s| >= 4 && |s| % 4 == 0 && l < 4 && b < |s| / 4
    requires |s| > 4 ==> IsUnit(p, |s| / 4 + 1)
    requires FullAnnihilates(p, s)
    ensures BlockDot(s, l, b) % p == 0
  {
    if |s| == 4 {
      SmallBlock(s, l);
      assert MulFull(p, s)[l] == 0;
    } else {
      WideColumn(p, s, l);
    }
  }

  lemma {:induction false} FullBlocks(p: int, s: seq<int>)
    requires p > 1 && |s| >= 4 && |s| % 4 == 0 && FullUnits(p, |s|) && FullAnnihilates(p, s)
    ensures forall i :: 0 <= i < |s| ==> s[i] % p == 0
  {
    forall i | 0 <= i < |s| ensures s[i] % p == 0 {
      var b: nat := i / 4;
      forall l: nat | l < 4 ensures BlockDot(s, l, b) % p == 0 { BlocksVanish(p, s, l, b); }
      BlockKernel(p, s, b);
    }
  }

  /** For every supported width the external matrix annihilates nothing, given that a few small numbers are units. */
  lemma {:induction false} FullKernel(p: int, t: nat)
    requires p > 1 && IsWidth(t) && FullUnits(p, t)
    ensures FullKernelFree(p, t)
  {
    forall s: seq<int> | |s| == t && InField(p, s) && FullAnnihilates(p, s) ensures IsZero(s) {
      if t == 2 { Full2(p, s); } else if t == 3 { Full3(p, s); } else { FullBlocks(p, s); }
      Reduced(p, s);
    }
  }

  // ----- four words and more: the internal matrix -----

  /** `inv` holds the inverses of the diagonal. */
  ghost predicate Inverses(p: int, diag: seq<int>, inv: seq<int>)
    requires p > 1
  {
    |inv| == |diag| && forall i :: 0 <= i < |diag| ==> (diag[i] * inv[i]) % p == 1
  }

  lemma {:induction false} InternalRow(p: int, diag: seq<int>, s: seq<int>, i: nat)
    requires p > 1 && |s| == |diag| >= 4 && i < |s|
    ensures MulPartial(p, diag, s)[i] == (Total(s, |s|) + s[i] * diag[i]) % p
  {
    PartialRowDot(diag, s, i, |s|);
    assert PartialRow(|s|, diag, i)[..|s|] == PartialRow(|s|, diag, i) && s[..|s|] == s;
  }

  lemma {:induction false} OneLess(p: int, x: int)
    requires p > 1 && x % p == 1
    ensures (x - 1) % p == 0
  {
    SmallMod(p, 1);
    ModAdd(p, x, 1, 1, 1);
  }

  lemma {:induction false} SolveIdentity(total: int, x: int, d: int, e: int)
    ensures e * (total + x * d) == e * total + x * (d * e)
  {
    assert e * (x * d) == x * (d * e);
  }

  lemma {:induction false} TimesZero(p: int, a: int, m: int)
    requires p > 1 && a % p == 0
    ensures (m * a) % p == 0
  {
    assert 0 % p == 0;
    ModMul(p, m, a, m, 0);
  }

  lemma {:induction false} TimesOne(p: int, x: int, k: int)
    requires p > 1 && k % p == 1
    ensures (x * k) % p == x % p
  {
    SmallMod(p, 1);
    ModMul(p, x, k, x, 1);
  }

  lemma {:induction false} Exchange(p: int, a: int, b: int, c: int)
    requires p > 1 && (a + b) % p == 0 && b % p == c % p
    ensures (a + c) % p == 0
  {
    ModAdd(p, a, b, a, c);
  }

  /** From `total + x * d == 0` and an inverse of `d`. */
  lemma {:induction false} SolveEntry(p: int, total: int, x: int, d: int, e: int)
    requires p > 1 && (total + x * d) % p == 0 && (d * e) % p == 1
    ensures (e * total + x) % p == 0
  {
    TimesZero(p, total + x * d, e);
    SolveIdentity(total, x, d, e);
    TimesOne(p, x, d * e);
    Exchange(p, e * total, x * (d * e), x);
  }

  function Scaled(inv: seq<int>, total: int): (r: seq<int>)
    ensures |r| == |inv| && forall i :: 0 <= i < |r| ==> r[i] == inv[i] * total
  {
    seq(|inv|, i requires 0 <= i < |inv| => inv[i] * total)
  }

  lemma {:induction false} ScaledTotal(inv: seq<int>, total: int, k: nat)
    requires k <= |inv|
    ensures Total(Scaled(inv, total), k) == Total(inv, k) * total
    decreases k
  {
    if k > 0 { ScaledTotal(inv, total, k - 1); }
  }

  lemma {:induction false} SolvedTotal(p: int, s: seq<int>, inv: seq<int>, total: int, k: nat)
    requires p > 1 && |s| == |inv| && k <= |s| && forall i: nat :: i < |s| ==> (inv[i] * total + s[i]) % p == 0
    ensures (Total(inv, k) * total + Total(s, k)) % p == 0
  {
    OpposedTotals(p, Scaled(inv, total), s, k);
    ScaledTotal(inv, total, k);
  }

  lemma {:induction false} SolvedEntry(p: int, diag: seq<int>, inv: seq<int>, s: seq<int>, i: nat)
    requires p > 1 && |s| == |diag| >= 4 && Inverses(p, diag, inv) && PartialAnnihilates(p, diag, s) && i < |s|
    ensures (inv[i] * Total(s, |s|) + s[i]) % p == 0
  {
    InternalRow(p, diag, s, i);
    assert MulPartial(p, diag, s)[i] == 0;
    SolveEntry(p, Total(s, |s|), s[i], diag[i], inv[i]);
  }

  lemma {:induction false} TotalVanishes(p: int, total: int, sum: int)
    requires IsPrime(p) && (1 + sum) % p != 0 && (sum * total + total) % p == 0
    ensures total % p == 0
  {
    assert sum * total + total == (1 + sum) * total;
    NoZeroDivisors(p, 1 + sum, total);
  }

  lemma {:induction false} WidePartialKernel(p: int, diag: seq<int>, inv: seq<int>, s: seq<int>)
    requires IsPrime(p) && |s| == |diag| >= 4 && Inverses(p, diag, inv) && (1 + Total(inv, |inv|)) % p != 0
    requires PartialAnnihilates(p, diag, s)
    ensures forall i :: 0 <= i < |s| ==> s[i] % p == 0
  {
    var total := Total(s, |s|);
    forall i: nat | i < |s| ensures (inv[i] * total + s[i]) % p == 0 { SolvedEntry(p, diag, inv, s, i); }
    SolvedTotal(p, s, inv, total, |s|);
    TotalVanishes(p, total, Total(inv, |inv|));
    forall i: nat | i < |s| ensures s[i] % p == 0 {
      ZeroAs(p, s[i], inv[i] * total + s[i], total, 1, -inv[i]);
    }
  }

  /** The state with the negated inverses as its words. */
  function Negated(p: int, inv: seq<int>): (s: seq<int>)
    requires p > 1
    ensures |s| == |inv| && InField(p, s)
  {
    seq(|inv|, i requires 0 <= i < |inv| => Sub(p, 0, inv[i]))
  }

  lemma {:induction false} NegatedEntry(p: int, x: int)
    requires p > 1
    ensures (Sub(p, 0, x) + x) % p == 0
  {
    ModMod(p, 0 - x);
    ModAdd(p, Sub(p, 0, x), x, 0 - x, x);
  }

  /** The total of the negated inverses is one when the inverses add up to minus one. */
  lemma {:induction false} AnnihilatedState(p: int, diag: seq<int>, inv: seq<int>)
    requires p > 1 && |diag| >= 4 && Inverses(p, diag, inv) && (1 + Total(inv, |inv|)) % p == 0
    ensures PartialAnnihilates(p, diag, Negated(p, inv)) && !IsZero(Negated(p, inv))
  {
    var s, sum := Negated(p, inv), Total(inv, |inv|);
    var total := Total(s, |s|);
    forall i: nat | i < |s| ensures (s[i] + inv[i]) % p == 0 { NegatedEntry(p, inv[i]); }
    OpposedTotals(p, s, inv, |inv|);
    CombineZero(p, total + sum, 1 + sum, 1, -1);
    assert (total - 1) % p == 0;
    forall i: nat | i < |s| ensures MulPartial(p, diag, s)[i] == 0 {
      InternalRow(p, diag, s, i);
      EntryCancels(p, total, s[i], diag[i], inv[i]);
    }
    if IsZero(s) {
      TotalOfZero(s, |s|);
      SmallMod(p, p - 1);
      ModShift(p, -1, 1);
    }
  }

  lemma {:induction false} EntryCancels(p: int, total: int, x: int, d: int, e: int)
    requires p > 1 && (total - 1) % p == 0 && (x + e) % p == 0 && (d * e) % p == 1
    ensures (total + x * d) % p == 0
  {
    var xd, de := x * d, d * e;
    OneLess(p, de);
    assert (xd + de) % p == 0 by {
      assert xd + de == d * (x + e) + 0 * (x + e);
      ZeroAs(p, xd + de, x + e, x + e, d, 0);
    }
    ZeroAs(p, total - 1 - (de - 1), total - 1, de - 1, 1, -1);
    ZeroAs(p, total + xd, total - de, xd + de, 1, 1);
  }

  lemma {:induction false} TotalOfZero(s: seq<int>, k: nat)
    requires k <= |s| && IsZero(s)
    ensures Total(s, k) == 0
    decreases k
  {
    if k > 0 { TotalOfZero(s, k - 1); }
  }

  /** No zero on the diagonal. */
  lemma {:induction false} InvertibleDiagonal(p: int, diag: seq<int>, inv: seq<int>)
    requires IsPrime(p) && |diag| >= 4 && Inverses(p, diag, inv)
    ensures PartialKernelFree(p, diag) <==> (1 + Total(inv, |inv|)) % p != 0
  {
    if (1 + Total(inv, |inv|)) % p != 0 {
      forall s: seq<int> | |s| == |diag| && InField(p, s) && PartialAnnihilates(p, diag, s) ensures IsZero(s) {
        WidePartialKernel(p, diag, inv, s);
        Reduced(p, s);
      }
    } else {
      AnnihilatedState(p, diag, inv);
    }
  }

  // ----- zeros on the diagonal -----

  lemma {:induction false} TotalOfOne(p: int, s: seq<int>, k: nat, n: nat)
    requires p > 1 && k < |s| && n <= |s| && forall i: nat :: i < |s| && i != k ==> s[i] % p == 0
    ensures (Total(s, n) - (if k < n then s[k] else 0)) % p == 0
    decreases n
  {
    if n > 0 {
      TotalOfOne(p, s, k, n - 1);
      var rest := Total(s, n - 1) - (if k < n - 1 then s[k] else 0);
      if n - 1 != k { ZeroAs(p, rest + s[n - 1], rest, s[n - 1], 1, 1); }
    }
  }

  /** In row `k`, whose diagonal entry vanishes, only the total remains. */
  lemma {:induction false} ZeroRowTotal(p: int, diag: seq<int>, s: seq<int>, k: nat)
    requires p > 1 && |s| == |diag| >= 4 && k < |s| && diag[k] % p == 0 && PartialAnnihilates(p, diag, s)
    ensures Total(s, |s|) % p == 0
  {
    InternalRow(p, diag, s, k);
    assert MulPartial(p, diag, s)[k] == 0;
    TimesZero(p, diag[k], s[k]);
    ZeroAs(p, Total(s, |s|), Total(s, |s|) + s[k] * diag[k], s[k] * diag[k], 1, -1);
  }

  lemma {:induction false} OtherRow(p: int, diag: seq<int>, s: seq<int>, i: nat)
    requires IsPrime(p) && |s| == |diag| >= 4 && i < |s| && diag[i] % p != 0
    requires PartialAnnihilates(p, diag, s) && Total(s, |s|) % p == 0
    ensures s[i] % p == 0
  {
    InternalRow(p, diag, s, i);
    assert MulPartial(p, diag, s)[i] == 0;
    var product := s[i] * diag[i];
    ZeroAs(p, product, Total(s, |s|) + product, Total(s, |s|), 1, -1);
    assert diag[i] * s[i] == product;
    NoZeroDivisors(p, diag[i], s[i]);
  }

  lemma {:induction false} OneZeroEntry(p: int, diag: seq<int>, k: nat)
    requires IsPrime(p) && |diag| >= 4 && k < |diag| && diag[k] % p == 0
    requires forall i: nat :: i < |diag| && i != k ==> diag[i] % p != 0
    ensures PartialKernelFree(p, diag)
  {
    forall s: seq<int> | |s| == |diag| && InField(p, s) && PartialAnnihilates(p, diag, s) ensures IsZero(s) {
      ZeroRowTotal(p, diag, s, k);
      forall i: nat | i < |s| && i != k ensures s[i] % p == 0 { OtherRow(p, diag, s, i); }
      TotalOfOne(p, s, k, |s|);
      ZeroAs(p, s[k], Total(s, |s|), Total(s, |s|) - s[k], 1, -1);
      Reduced(p, s);
    }
  }

  /** One in word `j`, minus one in word `k`. */
  function Opposed(p: int, t: nat, j: nat, k: nat): (s: seq<int>)
    requires p > 1 && j < t && k < t && j != k
    ensures |s| == t && InField(p, s) && s[j] == 1 && s[k] == p - 1
    ensures forall i :: 0 <= i < t && i != j && i != k ==> s[i] == 0
  {
    seq(t, i requires 0 <= i < t => if i == j then 1 else if i == k then p - 1 else 0)
  }

  lemma {:induction false} OpposedTotal(p: int, t: nat, j: nat, k: nat, n: nat)
    requires p > 1 && j < t && k < t && j != k && n <= t
    ensures Total(Opposed(p, t, j, k), n) == (if j < n then 1 else 0) + (if k < n then p - 1 else 0)
    decreases n
  {
    if n > 0 { OpposedTotal(p, t, j, k, n - 1); }
  }

  lemma {:induction false} TwoZeroEntries(p: int, diag: seq<int>, j: nat, k: nat)
    requires p > 1 && |diag| >= 4 && j < |diag| && k < |diag| && j != k && diag[j] % p == 0 && diag[k] % p == 0
    ensures !PartialKernelFree(p, diag)
  {
    var s := Opposed(p, |diag|, j, k);
    OpposedTotal(p, |diag|, j, k, |diag|);
    assert Total(s, |s|) == p;
    ModShift(p, 0, 1);
    forall i: nat | i < |s| ensures MulPartial(p, diag, s)[i] == 0 {
      InternalRow(p, diag, s, i);
      assert (s[i] * diag[i]) % p == 0 by {
        if i == j || i == k { TimesZero(p, diag[i], s[i]); } else { assert s[i] * diag[i] == 0; }
      }
      ZeroAs(p, p + s[i] * diag[i], p, s[i] * diag[i], 1, 1);
    }
    assert PartialAnnihilates(p, diag, s) && s[j] == 1;
  }

  /** The words whose diagonal entry is zero in the field. */
  function ZeroEntries(p: int, diag: seq<int>): set<int>
    requires p > 1
  {
    set i | 0 <= i < |diag| && diag[i] % p == 0
  }

  /** `inv` holds the inverses of the entries that are not zero. */
  ghost predicate InversesWhereSet(p: int, diag: seq<int>, inv: seq<int>)
    requires p > 1
  {
    |inv| == |diag| && forall i :: 0 <= i < |diag| && diag[i] % p != 0 ==> (diag[i] * inv[i]) % p == 1
  }

  /** One zero on the diagonal, or none and inverses that do not add up to minus one. */
  predicate GoodDiagonal(p: int, diag: seq<int>, inv: seq<int>)
    requires p > 1 && |inv| == |diag|
  {
    |ZeroEntries(p, diag)| == 1 || (ZeroEntries(p, diag) == {} && (1 + Total(inv, |inv|)) % p != 0)
  }

  /** Four words and more, any diagonal: exactly when the internal matrix annihilates nothing. */
  lemma {:induction false} PartialKernel(p: int, diag: seq<int>, inv: seq<int>)
    requires IsPrime(p) && |diag| >= 4 && InversesWhereSet(p, diag, inv)
    ensures PartialKernelFree(p, diag) <==> GoodDiagonal(p, diag, inv)
  {
    var zeros := ZeroEntries(p, diag);
    if zeros == {} {
      forall i | 0 <= i < |diag| ensures (diag[i] * inv[i]) % p == 1 { assert i !in zeros; }
      InvertibleDiagonal(p, diag, inv);
    } else {
      var k: nat :| k in zeros;
      if zeros == {k} {
        forall i: nat | i < |diag| && i != k ensures diag[i] % p != 0 { assert i !in zeros; }
        OneZeroEntry(p, diag, k);
      } else {
        var j: nat :| j in zeros && j != k;
        SubsetSize({j, k}, zeros);
        assert |{j, k}| == 2;
        TwoZeroEntries(p, diag, j, k);
      }
    }
  }
}

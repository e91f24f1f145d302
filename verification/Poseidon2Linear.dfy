/** Why the cheap linear layers compute the matrix products. */
module Poseidon2Linear {
  import opened ModField
  import opened MatInverse
  import opened Poseidon2Naive

  lemma {:induction false} AddReduces(p: int, a: int, b: int)
    requires p > 0
    ensures Add(p, a % p, b % p) == (a + b) % p
    ensures Add(p, a % p, b) == (a + b) % p && Add(p, a, b % p) == (a + b) % p
  {
    ModMod(p, a);
    ModMod(p, b);
    ModAdd(p, a % p, b % p, a, b);
    ModAdd(p, a % p, b, a, b);
    ModAdd(p, a, b % p, a, b);
  }

  lemma {:induction false} Dot2(u: seq<int>, v: seq<int>)
    requires |u| == |v| == 2
    ensures Dot(u, v) == u[0] * v[0] + u[1] * v[1]
  {
    assert Dot(u[..1], v[..1]) == Dot(u[..1][..0], v[..1][..0]) + u[0] * v[0];
  }

  lemma {:induction false} Dot3(u: seq<int>, v: seq<int>)
    requires |u| == |v| == 3
    ensures Dot(u, v) == u[0] * v[0] + u[1] * v[1] + u[2] * v[2]
  {
    Dot2(u[..2], v[..2]);
  }

  /** Four consecutive terms of a dot product. */
  function Quad(u: seq<int>, v: seq<int>, n: nat): int
    requires |u| == |v| && n + 4 <= |u|
  {
    u[n] * v[n] + u[n + 1] * v[n + 1] + u[n + 2] * v[n + 2] + u[n + 3] * v[n + 3]
  }

  lemma {:induction false} DotQuad(u: seq<int>, v: seq<int>, n: nat)
    requires |u| == |v| && n + 4 <= |u|
    ensures Dot(u[..n + 4], v[..n + 4]) == Dot(u[..n], v[..n]) + Quad(u, v, n)
  {
    DotNext(u, v, n);
    DotNext(u, v, n + 1);
    DotNext(u, v, n + 2);
    DotNext(u, v, n + 3);
  }

  lemma {:induction false} DotNext(u: seq<int>, v: seq<int>, k: nat)
    requires |u| == |v| && k < |u|
    ensures Dot(u[..k + 1], v[..k + 1]) == Dot(u[..k], v[..k]) + u[k] * v[k]
  {
    assert u[..k + 1][..k] == u[..k] && v[..k + 1][..k] == v[..k];
  }

  // ----- the 4x4 block -----

  /** The eight additions of the cheap 4x4 layer. */
  function CheapM4(p: int, a: int, b: int, c: int, d: int): (r: (int, int, int, int))
    requires p > 1
  {
    var t0 := Add(p, a, b);
    var t1 := Add(p, c, d);
    var t2 := Add(p, Add(p, b, b), t1);
    var t3 := Add(p, Add(p, d, d), t0);
    var t4 := Add(p, Add(p, Add(p, t1, t1), Add(p, t1, t1)), t3);
    var t5 := Add(p, Add(p, Add(p, t0, t0), Add(p, t0, t0)), t2);
    (Add(p, t3, t5), t5, Add(p, t2, t4), t4)
  }

  lemma {:induction false} CheapM4IsTheMatrix(p: int, a: int, b: int, c: int, d: int)
    requires p > 1
    ensures CheapM4(p, a, b, c, d) == ((5 * a + 7 * b + c + 3 * d) % p, (4 * a + 6 * b + c + d) % p,
                                       (a + 3 * b + 5 * c + 7 * d) % p, (a + b + 4 * c + 6 * d) % p)
  {
    var t0, t1 := a + b, c + d;
    var t2, t3 := b + b + t1, d + d + t0;
    var t4, t5 := 4 * t1 + t3, 4 * t0 + t2;
    AddReduces(p, b + b, t1);
    AddReduces(p, d + d, t0);
    AddReduces(p, t1, t1);
    AddReduces(p, t1 + t1, t1 + t1);
    AddReduces(p, 4 * t1, t3);
    AddReduces(p, t0, t0);
    AddReduces(p, t0 + t0, t0 + t0);
    AddReduces(p, 4 * t0, t2);
    AddReduces(p, t3, t5);
    AddReduces(p, t2, t4);
  }

  /** Row `l` of M4 against block `b` of the state. */
  function BlockDot(s: seq<int>, l: nat, b: nat): int
    requires l < 4 && 4 * b + 4 <= |s|
  {
    M4(l, 0) * s[4 * b] + M4(l, 1) * s[4 * b + 1] + M4(l, 2) * s[4 * b + 2] + M4(l, 3) * s[4 * b + 3]
  }

  /** Row `l` of M4 against every block. */
  function Blocks(s: seq<int>, l: nat): (r: seq<int>)
    requires l < 4 && |s| % 4 == 0
    ensures |r| == |s| / 4
  {
    seq(|s| / 4, b requires 0 <= b < |s| / 4 => BlockDot(s, l, b))
  }

  function Total(s: seq<int>, k: nat): int
    requires k <= |s|
  {
    if k == 0 then 0 else Total(s, k - 1) + s[k - 1]
  }

  lemma {:induction false} SplitIndex(b: nat, l: nat)
    requires l < 4
    ensures (4 * b + l) / 4 == b && (4 * b + l) % 4 == l
  {
  }

  lemma {:induction false} FullRowEntry(t: nat, i: nat, b: nat, l: nat)
    requires t > 4 && t % 4 == 0 && i < t && 4 * b + 4 <= t && l < 4
    ensures FullRow(t, i)[4 * b + l] == if i / 4 == b then 2 * M4(i % 4, l) else M4(i % 4, l)
  {
    SplitIndex(b, l);
  }

  lemma {:induction false} FullRowBlock(t: nat, i: nat, b: nat, s: seq<int>)
    requires t > 4 && t % 4 == 0 && |s| == t && i < t && 4 * b + 4 <= t
    ensures Quad(FullRow(t, i), s, 4 * b) == if i / 4 == b then 2 * BlockDot(s, i % 4, b) else BlockDot(s, i % 4, b)
  {
    FullRowEntry(t, i, b, 0);
    FullRowEntry(t, i, b, 1);
    FullRowEntry(t, i, b, 2);
    FullRowEntry(t, i, b, 3);
    var m := i % 4;
    DoubleQuad(M4(m, 0), M4(m, 1), M4(m, 2), M4(m, 3), s[4 * b], s[4 * b + 1], s[4 * b + 2], s[4 * b + 3]);
  }

  lemma {:induction false} DoubleQuad(a: int, b: int, c: int, d: int, w: int, x: int, y: int, z: int)
    ensures 2 * a * w + 2 * b * x + 2 * c * y + 2 * d * z == 2 * (a * w + b * x + c * y + d * z)
  {
  }

  /** A row whose own block counts twice: the sum of all block products plus that block's once more. */
  lemma {:induction false} DoubledBlockDot(r: seq<int>, s: seq<int>, d: seq<int>, own: nat, k: nat)
    requires |r| == |s| == 4 * |d| && k <= |d| && own < |d|
    requires forall b: nat :: b < |d| ==> Quad(r, s, 4 * b) == (if own == b then 2 * d[b] else d[b])
    ensures Dot(r[..4 * k], s[..4 * k]) == Total(d, k) + (if own < k then d[own] else 0)
    decreases k
  {
    if k > 0 {
      var n := 4 * (k - 1);
      DoubledBlockDot(r, s, d, own, k - 1);
      DotQuad(r, s, n);
      assert Quad(r, s, 4 * (k - 1)) == if own == k - 1 then 2 * d[k - 1] else d[k - 1];
      assert n + 4 == 4 * k;
    }
  }

  /** A row of circ(2*M4, M4, ..., M4) sums all blocks and counts its own block twice. */
  lemma {:induction false} FullRowDot(t: nat, i: nat, s: seq<int>)
    requires t > 4 && t % 4 == 0 && |s| == t && i < t
    ensures Dot(FullRow(t, i), s) == Total(Blocks(s, i % 4), t / 4) + Blocks(s, i % 4)[i / 4]
  {
    var r, d := FullRow(t, i), Blocks(s, i % 4);
    forall b: nat | b < |d| ensures Quad(r, s, 4 * b) == (if i / 4 == b then 2 * d[b] else d[b]) {
      FullRowBlock(t, i, b, s);
    }
    DoubledBlockDot(r, s, d, i / 4, t / 4);
    assert r[..t] == r && s[..t] == s;
  }

  lemma {:induction false} SmallBlock(s: seq<int>, i: nat)
    requires |s| == 4 && i < 4
    ensures Dot(FullRow(4, i), s) == BlockDot(s, i, 0)
  {
    var r := FullRow(4, i);
    DotQuad(r, s, 0);
    assert r[..4] == r && s[..4] == s;
    assert r[0] == M4(i, 0) && r[1] == M4(i, 1) && r[2] == M4(i, 2) && r[3] == M4(i, 3);
  }

  // ----- the internal layer -----

  /** A row of ones plus a diagonal entry is the sum of the state plus one product. */
  lemma {:induction false} PartialRowDot(diag: seq<int>, s: seq<int>, i: nat, k: nat)
    requires |s| == |diag| >= 4 && i < |s| && k <= |s|
    ensures Dot(PartialRow(|s|, diag, i)[..k], s[..k]) == Total(s, k) + (if i < k then s[i] * diag[i] else 0)
    decreases k
  {
    if k > 0 {
      var r := PartialRow(|s|, diag, i);
      PartialRowDot(diag, s, i, k - 1);
      assert r[..k][..k - 1] == r[..k - 1] && s[..k][..k - 1] == s[..k - 1];
      if i == k - 1 { assert (diag[i] + 1) * s[i] == s[i] * diag[i] + s[i]; }
    }
  }
}

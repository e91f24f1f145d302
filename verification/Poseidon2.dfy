/** The fast permutation, in place on the state, against the reference. */
module Poseidon2 {
  import opened ModField
  import opened MatInverse
  import opened Poseidon2Naive
  import opened Poseidon2Linear

  // ----- the power map -----

  function Exp(x: int, n: nat): int {
    if n == 0 then 1 else Exp(x, n - 1) * x
  }

  lemma {:induction false} MulReduces(p: int, a: int, b: int)
    requires p > 1
    ensures Mul(p, a % p, b % p) == (a * b) % p && Mul(p, a % p, b) == (a * b) % p
  {
    ModMod(p, a);
    ModMod(p, b);
    ModMul(p, a % p, b % p, a, b);
    ModMul(p, a % p, b, a, b);
  }

  lemma {:induction false} PowerIsExp(p: int, x: int, n: nat)
    requires p > 1
    ensures Power(p, x, n) == Exp(x, n) % p
  {
    if n > 0 {
      PowerIsExp(p, x, n - 1);
      MulReduces(p, Exp(x, n - 1), x);
    }
  }

  lemma {:induction false} ExpAdds(x: int, m: nat, n: nat)
    ensures Exp(x, m + n) == Exp(x, m) * Exp(x, n)
  {
    if n > 0 {
      ExpAdds(x, m, n - 1);
      assert m + n - 1 == m + (n - 1);
    }
  }

  lemma {:induction false} PowersMultiply(p: int, x: int, m: nat, n: nat)
    requires p > 1
    ensures Mul(p, Power(p, x, m), Power(p, x, n)) == Power(p, x, m + n)
  {
    PowerIsExp(p, x, m);
    PowerIsExp(p, x, n);
    PowerIsExp(p, x, m + n);
    ExpAdds(x, m, n);
    MulReduces(p, Exp(x, m), Exp(x, n));
  }

  /** `sbox_p`: a power by squarings, for the three supported degrees. */
  function SboxP(p: int, d: nat, x: int): (r: int)
    requires p > 1 && IsDegree(d) && 0 <= x < p
    ensures r == Power(p, x, d)
  {
    SquareIsPower(p, x);
    PowersMultiply(p, x, 2, 1);
    PowersMultiply(p, x, 2, 2);
    PowersMultiply(p, x, 4, 1);
    PowersMultiply(p, x, 4, 2);
    PowersMultiply(p, x, 6, 1);
    var x2 := Mul(p, x, x);
    if d == 3 then Mul(p, x2, x)
    else if d == 5 then Mul(p, Mul(p, x2, x2), x)
    else Mul(p, Mul(p, Mul(p, x2, x2), x2), x)
  }

  lemma {:induction false} SquareIsPower(p: int, x: int)
    requires p > 1 && 0 <= x < p
    ensures Power(p, x, 1) == x && Power(p, x, 2) == Mul(p, x, x)
  {
    assert Power(p, x, 0) == 1;
    assert Power(p, x, 1) == Mul(p, Power(p, x, 0), x) == x;
    assert Power(p, x, 2) == Mul(p, Power(p, x, 1), x);
  }

  // ----- linear layers -----

  /** One block of four words through the cheap layer. */
  method MixBlock(p: int, a: array<int>, b: nat)
    requires p > 1 && 4 * b + 4 <= a.Length
    modifies a
    ensures forall i :: 0 <= i < a.Length && !(4 * b <= i < 4 * b + 4) ==> a[i] == old(a[i])
    ensures forall l: nat :: l < 4 ==> a[4 * b + l] == BlockDot(old(a[..]), l, b) % p
  {
    var i := 4 * b;
    CheapM4IsTheMatrix(p, a[i], a[i + 1], a[i + 2], a[i + 3]);
    var (y0, y1, y2, y3) := CheapM4(p, a[i], a[i + 1], a[i + 2], a[i + 3]);
    a[i], a[i + 1], a[i + 2], a[i + 3] := y0, y1, y2, y3;
  }

  /** Blocks that agree have the same row products. */
  lemma {:induction false} SameBlock(s: seq<int>, u: seq<int>, l: nat, b: nat)
    requires l < 4 && |s| == |u| && 4 * b + 4 <= |s| && forall i :: 4 * b <= i < |s| ==> s[i] == u[i]
    ensures BlockDot(s, l, b) == BlockDot(u, l, b)
  {
  }

  method MatmulM4(p: int, a: array<int>)
    requires p > 1 && a.Length % 4 == 0
    modifies a
    ensures forall b: nat, l: nat :: 4 * b + 4 <= a.Length && l < 4 ==> a[4 * b + l] == BlockDot(old(a[..]), l, b) % p
  {
    ghost var s := a[..];
    for b := 0 to a.Length / 4
      invariant forall k: nat, l: nat :: k < b && l < 4 ==> a[4 * k + l] == BlockDot(s, l, k) % p
      invariant forall i :: 4 * b <= i < a.Length ==> a[i] == s[i]
    {
      forall l: nat | l < 4 ensures BlockDot(a[..], l, b) == BlockDot(s, l, b) { SameBlock(a[..], s, l, b); }
      MixBlock(p, a, b);
    }
  }

  /** The sum over one column of the blocks, which the second cheap matrix adds to that column. */
  method ColumnSum(p: int, a: array<int>, l: nat, ghost d: seq<int>) returns (sum: int)
    requires p > 1 && a.Length == 4 * |d| && |d| >= 1 && l < 4
    requires forall b: nat :: b < |d| ==> a[4 * b + l] == d[b] % p
    ensures sum == Total(d, |d|) % p
  {
    sum := a[l];
    assert a[4 * 0 + l] == d[0] % p;
    for j := 1 to a.Length / 4
      invariant sum == Total(d, j) % p
    {
      AddReduces(p, Total(d, j), d[j]);
      sum := Add(p, sum, a[4 * j + l]);
    }
  }

  method ColumnSums(p: int, a: array<int>, ghost s: seq<int>) returns (stored: array<int>)
    requires p > 1 && a.Length % 4 == 0 && a.Length >= 4 && |s| == a.Length
    requires forall b: nat, l: nat :: 4 * b + 4 <= a.Length && l < 4 ==> a[4 * b + l] == BlockDot(s, l, b) % p
    ensures fresh(stored) && stored.Length == 4
    ensures forall k: nat :: k < 4 ==> stored[k] == Total(Blocks(s, k), a.Length / 4) % p
  {
    stored := new int[4];
    for l := 0 to 4
      invariant forall k: nat :: k < l ==> stored[k] == Total(Blocks(s, k), a.Length / 4) % p
    {
      stored[l] := ColumnSum(p, a, l, Blocks(s, l));
    }
  }

  /** Adding the column sum to a word completes its row product. */
  lemma {:induction false} ExternalEntry(p: int, s: seq<int>, i: nat, y: int, sum: int)
    requires p > 1 && |s| > 4 && |s| % 4 == 0 && i < |s|
    requires y == Blocks(s, i % 4)[i / 4] % p && sum == Total(Blocks(s, i % 4), |s| / 4) % p
    ensures Add(p, y, sum) == MulFull(p, s)[i]
  {
    var own, all := Blocks(s, i % 4)[i / 4], Total(Blocks(s, i % 4), |s| / 4);
    FullRowDot(|s|, i, s);
    AddReduces(p, own, all);
    assert MulFull(p, s)[i] == Dot(FullRow(|s|, i), s) % p == (all + own) % p;
  }

  /** The second cheap matrix: every word gets the sum of its column. */
  method AddColumnSums(p: int, a: array<int>, stored: array<int>, ghost s: seq<int>)
    requires p > 1 && a.Length > 4 && a.Length % 4 == 0 && |s| == a.Length && a != stored && stored.Length == 4
    requires forall i: nat :: i < a.Length ==> a[i] == Blocks(s, i % 4)[i / 4] % p
    requires forall k: nat :: k < 4 ==> stored[k] == Total(Blocks(s, k), a.Length / 4) % p
    modifies a
    ensures a[..] == MulFull(p, s)
  {
    ghost var y := a[..];
    for i := 0 to a.Length
      invariant forall k: nat :: k < i ==> a[k] == MulFull(p, s)[k]
      invariant forall k :: i <= k < a.Length ==> a[k] == y[k]
    {
      ExternalEntry(p, s, i, a[i], stored[i % 4]);
      a[i] := Add(p, a[i], stored[i % 4]);
    }
  }

  /** The external layer for states of several blocks. */
  method MixBlocks(p: int, a: array<int>)
    requires p > 1 && a.Length > 4 && a.Length % 4 == 0
    modifies a
    ensures a[..] == MulFull(p, old(a[..]))
  {
    ghost var s := a[..];
    MatmulM4(p, a);
    var stored := ColumnSums(p, a, s);
    forall i: nat | i < a.Length ensures a[i] == Blocks(s, i % 4)[i / 4] % p {
      assert a[4 * (i / 4) + i % 4] == BlockDot(s, i % 4, i / 4) % p;
    }
    AddColumnSums(p, a, stored, s);
  }

  lemma {:induction false} External2(p: int, x: int, y: int)
    requires p > 1
    ensures var sum := Add(p, x, y);
            MulFull(p, [x, y]) == [Add(p, x, sum), Add(p, y, sum)]
  {
    Dot2(FullRow(2, 0), [x, y]);
    Dot2(FullRow(2, 1), [x, y]);
    AddReduces(p, x, x + y);
    AddReduces(p, y, x + y);
  }

  lemma {:induction false} External3(p: int, x: int, y: int, z: int)
    requires p > 1
    ensures var sum := Add(p, Add(p, x, y), z);
            MulFull(p, [x, y, z]) == [Add(p, x, sum), Add(p, y, sum), Add(p, z, sum)]
  {
    Dot3(FullRow(3, 0), [x, y, z]);
    Dot3(FullRow(3, 1), [x, y, z]);
    Dot3(FullRow(3, 2), [x, y, z]);
    AddReduces(p, x + y, z);
    AddReduces(p, x, x + y + z);
    AddReduces(p, y, x + y + z);
    AddReduces(p, z, x + y + z);
  }

  lemma {:induction false} Internal2(p: int, diag: seq<int>, x: int, y: int)
    requires p > 1 && |diag| == 2
    ensures var sum := Add(p, x, y);
            MulPartial(p, diag, [x, y]) == [Add(p, x, sum), Add(p, Add(p, y, y), sum)]
  {
    Dot2(PartialRow(2, diag, 0), [x, y]);
    Dot2(PartialRow(2, diag, 1), [x, y]);
    AddReduces(p, x, x + y);
    AddReduces(p, y + y, x + y);
  }

  lemma {:induction false} Internal3(p: int, diag: seq<int>, x: int, y: int, z: int)
    requires p > 1 && |diag| == 3
    ensures var sum := Add(p, Add(p, x, y), z);
            MulPartial(p, diag, [x, y, z]) == [Add(p, x, sum), Add(p, y, sum), Add(p, Add(p, z, z), sum)]
  {
    Dot3(PartialRow(3, diag, 0), [x, y, z]);
    Dot3(PartialRow(3, diag, 1), [x, y, z]);
    Dot3(PartialRow(3, diag, 2), [x, y, z]);
    AddReduces(p, x + y, z);
    AddReduces(p, x, x + y + z);
    AddReduces(p, y, x + y + z);
    AddReduces(p, z + z, x + y + z);
  }

  method MatmulExternal(p: int, a: array<int>)
    requires p > 1 && IsWidth(a.Length)
    modifies a
    ensures a[..] == MulFull(p, old(a[..]))
  {
    ghost var s := a[..];
    if a.Length == 2 {
      External2(p, a[0], a[1]);
      assert s == [a[0], a[1]];
      var sum := Add(p, a[0], a[1]);
      a[0] := Add(p, a[0], sum);
      a[1] := Add(p, a[1], sum);
    } else if a.Length == 3 {
      External3(p, a[0], a[1], a[2]);
      assert s == [a[0], a[1], a[2]];
      var sum := Add(p, Add(p, a[0], a[1]), a[2]);
      a[0] := Add(p, a[0], sum);
      a[1] := Add(p, a[1], sum);
      a[2] := Add(p, a[2], sum);
    } else if a.Length == 4 {
      MatmulM4(p, a);
      forall i: nat | i < 4 ensures a[i] == MulFull(p, s)[i] {
        SmallBlock(s, i);
        assert a[4 * 0 + i] == BlockDot(s, i, 0) % p;
      }
    } else {
      MixBlocks(p, a);
    }
  }

  /** The internal layer for states of one or more blocks. */
  method AddSumAndDiagonal(p: int, diag: seq<int>, a: array<int>)
    requires p > 1 && a.Length >= 4 && |diag| == a.Length
    modifies a
    ensures a[..] == MulPartial(p, diag, old(a[..]))
  {
    ghost var s := a[..];
    var sum := a[0];
    for i := 1 to a.Length
      invariant sum % p == Total(s, i) % p
      invariant a[..] == s
    {
      ModAdd(p, sum, a[i], Total(s, i), a[i]);
      ModMod(p, sum + a[i]);
      sum := Add(p, sum, a[i]);
    }
    for i := 0 to a.Length
      invariant forall k :: 0 <= k < i ==> a[k] == MulPartial(p, diag, s)[k]
      invariant forall k :: i <= k < a.Length ==> a[k] == s[k]
    {
      InternalEntry(p, diag, s, i, sum);
      a[i] := Mul(p, a[i], diag[i]);
      a[i] := Add(p, a[i], sum);
    }
  }

  lemma {:induction false} InternalEntry(p: int, diag: seq<int>, s: seq<int>, i: nat, sum: int)
    requires p > 1 && |s| == |diag| >= 4 && i < |s| && sum % p == Total(s, |s|) % p
    ensures Add(p, Mul(p, s[i], diag[i]), sum) == MulPartial(p, diag, s)[i]
  {
    PartialRowDot(diag, s, i, |s|);
    assert PartialRow(|s|, diag, i)[..|s|] == PartialRow(|s|, diag, i) && s[..|s|] == s;
    var x := s[i] * diag[i];
    ModMod(p, x);
    ModAdd(p, x % p, sum, x, Total(s, |s|));
  }

  method MatmulInternal(p: int, diag: seq<int>, a: array<int>)
    requires p > 1 && IsWidth(a.Length) && |diag| == a.Length
    modifies a
    ensures a[..] == MulPartial(p, diag, old(a[..]))
  {
    ghost var s := a[..];
    if a.Length == 2 {
      Internal2(p, diag, a[0], a[1]);
      assert s == [a[0], a[1]];
      var sum := Add(p, a[0], a[1]);
      a[0] := Add(p, a[0], sum);
      a[1] := Add(p, a[1], a[1]);
      a[1] := Add(p, a[1], sum);
    } else if a.Length == 3 {
      Internal3(p, diag, a[0], a[1], a[2]);
      assert s == [a[0], a[1], a[2]];
      var sum := Add(p, Add(p, a[0], a[1]), a[2]);
      a[0] := Add(p, a[0], sum);
      a[1] := Add(p, a[1], sum);
      a[2] := Add(p, a[2], a[2]);
      a[2] := Add(p, a[2], sum);
    } else {
      AddSumAndDiagonal(p, diag, a);
    }
  }

  // ----- rounds -----

  /** A fresh copy of the state through the external layer. */
  method External(p: int, s: seq<int>) returns (r: seq<int>)
    requires p > 1 && IsWidth(|s|)
    ensures r == MulFull(p, s)
  {
    var a := new int[|s|](i requires 0 <= i < |s| => s[i]);
    assert a[..] == s;
    MatmulExternal(p, a);
    r := a[..];
  }

  method Internal(p: int, diag: seq<int>, s: seq<int>) returns (r: seq<int>)
    requires p > 1 && IsWidth(|s|) && |diag| == |s|
    ensures r == MulPartial(p, diag, s)
  {
    var a := new int[|s|](i requires 0 <= i < |s| => s[i]);
    assert a[..] == s;
    MatmulInternal(p, diag, a);
    r := a[..];
  }

  method AddRc(p: int, s: seq<int>, rc: seq<int>) returns (r: seq<int>)
    requires p > 1 && |rc| == |s|
    ensures r == AddConstants(p, s, rc)
  {
    r := [];
    for i := 0 to |s|
      invariant |r| == i && forall k :: 0 <= k < i ==> r[k] == Add(p, s[k], rc[k])
    {
      r := r + [Add(p, s[i], rc[i])];
    }
  }

  method Sbox(p: int, d: nat, s: seq<int>) returns (r: seq<int>)
    requires p > 1 && IsDegree(d) && InField(p, s)
    ensures r == PowerAll(p, d, s)
  {
    r := [];
    for i := 0 to |s|
      invariant |r| == i && forall k :: 0 <= k < i ==> r[k] == Power(p, s[k], d)
    {
      r := r + [SboxP(p, d, s[i])];
    }
  }

  method FastFullRound(c: Params, r: nat, s: seq<int>) returns (out: seq<int>)
    requires ValidParams(c) && r < c.Rounds() && |s| == c.t && |c.rc[r]| == c.t
    ensures out == FullRound(c, r, s)
  {
    out := AddRc(c.p, s, c.rc[r]);
    out := Sbox(c.p, c.d, out);
    out := External(c.p, out);
  }

  lemma {:induction false} ZeroTail(p: int, s: seq<int>, rc: seq<int>)
    requires p > 1 && |s| == |rc| > 0 && InField(p, s) && forall i :: 1 <= i < |rc| ==> rc[i] == 0
    ensures AddConstants(p, s, rc) == s[0 := Add(p, s[0], rc[0])]
  {
    forall i | 1 <= i < |s| ensures Add(p, s[i], rc[i]) == s[i] { SmallMod(p, s[i]); }
  }

  /** Only the first word gets a constant and the power map, whatever else the table holds for this round. */
  method FastPartialRound(c: Params, r: nat, s: seq<int>) returns (out: seq<int>)
    requires ValidParams(c) && r < c.Rounds() && IsPartial(c, r) && |s| == c.t && |c.rc[r]| == c.t && InField(c.p, s)
    ensures out == PartialRound(Trimmed(c), r, s)
  {
    ZeroTail(c.p, s, HeadOnly(c.rc[r]));
    out := s[0 := Add(c.p, s[0], c.rc[r][0])];
    out := out[0 := SboxP(c.p, c.d, out[0])];
    out := Internal(c.p, c.diagMinus1, out);
  }

  lemma {:induction false} NextRound(c: Params, input: seq<int>, r: nat)
    requires ValidParams(c) && |input| == c.t && r < c.Rounds()
    ensures |c.rc[r]| == c.t
    ensures After(c, input, r + 1)
         == if IsPartial(c, r) then PartialRound(c, r, After(c, input, r)) else FullRound(c, r, After(c, input, r))
  {
  }

  /** `z` is the table the code effectively uses when it is given `c`. */
  ghost predicate Uses(c: Params, z: Params) {
    ValidParams(c) && z == Trimmed(c) && ValidParams(z)
  }

  /** The reference has come to state `s` after `r` rounds. */
  ghost predicate Reached(z: Params, input: seq<int>, r: nat, s: seq<int>) {
    ValidParams(z) && |input| == z.t && r <= z.Rounds() && s == After(z, input, r)
  }

  method OneFullRound(c: Params, ghost z: Params, ghost input: seq<int>, r: nat, s: seq<int>) returns (out: seq<int>)
    requires Uses(c, z) && r < c.Rounds() && !IsPartial(c, r) && Reached(z, input, r, s)
    ensures Reached(z, input, r + 1, out)
  {
    NextRound(z, input, r);
    out := FastFullRound(c, r, s);
    assert FullRound(c, r, s) == FullRound(z, r, s);
  }

  method OnePartialRound(c: Params, ghost z: Params, ghost input: seq<int>, r: nat, s: seq<int>) returns (out: seq<int>)
    requires Uses(c, z) && r < c.Rounds() && IsPartial(c, r) && Reached(z, input, r, s)
    ensures Reached(z, input, r + 1, out)
  {
    NextRound(z, input, r);
    AfterInField(z, input, r);
    out := FastPartialRound(c, r, s);
  }

  method FirstFullRounds(c: Params, ghost z: Params, ghost input: seq<int>, s: seq<int>) returns (out: seq<int>)
    requires Uses(c, z) && Reached(z, input, 0, s)
    ensures Reached(z, input, c.roundsF2, out)
  {
    out := s;
    for r := 0 to c.roundsF2
      invariant Reached(z, input, r, out)
    {
      out := OneFullRound(c, z, input, r, out);
    }
  }

  method PartialRounds(c: Params, ghost z: Params, ghost input: seq<int>, lo: nat, hi: nat, s: seq<int>)
    returns (out: seq<int>)
    requires Uses(c, z) && c.roundsF2 <= lo <= hi <= c.roundsF2 + c.roundsP && Reached(z, input, lo, s)
    ensures Reached(z, input, hi, out)
  {
    out := s;
    for r := lo to hi
      invariant Reached(z, input, r, out)
    {
      out := OnePartialRound(c, z, input, r, out);
    }
  }

  method LastFullRounds(c: Params, ghost z: Params, ghost input: seq<int>, lo: nat, hi: nat, s: seq<int>)
    returns (out: seq<int>)
    requires Uses(c, z) && c.roundsF2 + c.roundsP <= lo <= hi <= c.Rounds() && Reached(z, input, lo, s)
    ensures Reached(z, input, hi, out)
  {
    out := s;
    for r := lo to hi
      invariant Reached(z, input, r, out)
    {
      out := OneFullRound(c, z, input, r, out);
    }
  }

  /**
   The fast permutation computes the reference permutation of the trimmed table, for every input and every
   parameter set; with zero tails in the partial rounds that is the reference permutation of the table itself.
   */
  method Permutation(c: Params, input: seq<int>) returns (out: seq<int>)
    requires ValidParams(c) && |input| == c.t
    ensures out == Permute(Trimmed(c), input) == After(Trimmed(c), input, 2 * c.roundsF2 + c.roundsP)
    ensures ZeroTails(c) ==> out == Permute(c, input)
  {
    ghost var z := Trimmed(c);
    assert ValidParams(z);
    out := External(c.p, input);
    var pEnd := c.roundsF2 + c.roundsP;
    out := FirstFullRounds(c, z, input, out);
    out := PartialRounds(c, z, input, c.roundsF2, pEnd, out);
    out := LastFullRounds(c, z, input, pEnd, c.Rounds(), out);
    TrimmedIsSame(c);
  }
}

/** The reference permutation: explicit matrix products, every round constant added. */
module Poseidon2Naive {
  import opened ModField
  import opened MatInverse

  datatype Params = Params(p: int, t: nat, d: nat, roundsF2: nat, roundsP: nat,
                           diagMinus1: seq<int>, rc: seq<seq<int>>) {
    function Rounds(): nat {
      2 * roundsF2 + roundsP
    }
  }

  predicate InField(p: int, s: seq<int>) {
    forall i :: 0 <= i < |s| ==> 0 <= s[i] < p
  }

  /** 2, 3, 4, 8, 12, 16, 20 or 24 words. */
  predicate IsWidth(t: nat) {
    t == 2 || t == 3 || (t % 4 == 0 && 4 <= t <= 24)
  }

  predicate IsDegree(d: nat) {
    d == 3 || d == 5 || d == 7
  }

  /** Parameter sets the permutation is made for, with any round constants. */
  ghost predicate ValidParams(c: Params) {
    && c.p > 1 && IsWidth(c.t) && IsDegree(c.d)
    && |c.diagMinus1| == c.t
    && |c.rc| == c.Rounds()
    && (forall r :: 0 <= r < c.Rounds() ==> |c.rc[r]| == c.t)
  }

  function Power(p: int, x: int, d: nat): (r: int)
    requires p > 1
    ensures 0 <= r < p
  {
    if d == 0 then 1 else Mul(p, Power(p, x, d - 1), x)
  }

  /** The 4x4 matrix, entry by entry. */
  function M4(i: nat, j: nat): int
    requires i < 4 && j < 4
  {
    if i == 0 then (if j == 0 then 5 else if j == 1 then 7 else if j == 2 then 1 else 3)
    else if i == 1 then (if j == 0 then 4 else if j == 1 then 6 else 1)
    else if i == 2 then (if j == 0 then 1 else if j == 1 then 3 else if j == 2 then 5 else 7)
    else (if j <= 1 then 1 else if j == 2 then 4 else 6)
  }

  /** `generate_matrix_full`: circ(2,1), circ(2,1,1), M4, or circ(2*M4, M4, ..., M4). */
  function FullEntry(t: nat, i: nat, j: nat): int {
    if t == 2 || t == 3 then (if i == j then 2 else 1)
    else if t == 4 then M4(i % 4, j % 4)
    else if i / 4 == j / 4 then 2 * M4(i % 4, j % 4)
    else M4(i % 4, j % 4)
  }

  /** `generate_matrix_partial`: ones off the diagonal. */
  function PartialEntry(t: nat, diagMinus1: seq<int>, i: nat, j: nat): int
    requires |diagMinus1| == t && i < t
  {
    if i != j then 1
    else if t == 2 then (if i == 0 then 2 else 3)
    else if t == 3 then (if i < 2 then 2 else 3)
    else diagMinus1[i] + 1
  }

  function FullRow(t: nat, i: nat): (r: seq<int>)
    ensures |r| == t
  {
    seq(t, j requires 0 <= j < t => FullEntry(t, i, j))
  }

  function PartialRow(t: nat, diagMinus1: seq<int>, i: nat): (r: seq<int>)
    requires |diagMinus1| == t && i < t
    ensures |r| == t
  {
    seq(t, j requires 0 <= j < t => PartialEntry(t, diagMinus1, i, j))
  }

  function MulFull(p: int, s: seq<int>): (r: seq<int>)
    requires p > 1
    ensures |r| == |s| && InField(p, r)
  {
    seq(|s|, i requires 0 <= i < |s| => Dot(FullRow(|s|, i), s) % p)
  }

  function MulPartial(p: int, diagMinus1: seq<int>, s: seq<int>): (r: seq<int>)
    requires p > 1 && |diagMinus1| == |s|
    ensures |r| == |s| && InField(p, r)
  {
    seq(|s|, i requires 0 <= i < |s| => Dot(PartialRow(|s|, diagMinus1, i), s) % p)
  }

  function AddConstants(p: int, s: seq<int>, rc: seq<int>): (r: seq<int>)
    requires p > 1 && |rc| == |s|
    ensures |r| == |s| && InField(p, r)
  {
    seq(|s|, i requires 0 <= i < |s| => Add(p, s[i], rc[i]))
  }

  function PowerAll(p: int, d: nat, s: seq<int>): (r: seq<int>)
    requires p > 1
    ensures |r| == |s| && InField(p, r)
  {
    seq(|s|, i requires 0 <= i < |s| => Power(p, s[i], d))
  }

  function PowerFirst(p: int, d: nat, s: seq<int>): (r: seq<int>)
    requires p > 1 && |s| > 0 && InField(p, s)
    ensures |r| == |s| && InField(p, r)
  {
    s[0 := Power(p, s[0], d)]
  }

  function FullRound(c: Params, r: nat, s: seq<int>): (out: seq<int>)
    requires c.p > 1 && r < |c.rc| && |c.rc[r]| == |s|
    ensures |out| == |s| && InField(c.p, out)
  {
    MulFull(c.p, PowerAll(c.p, c.d, AddConstants(c.p, s, c.rc[r])))
  }

  function PartialRound(c: Params, r: nat, s: seq<int>): (out: seq<int>)
    requires c.p > 1 && r < |c.rc| && |c.rc[r]| == |s| == |c.diagMinus1| > 0
    ensures |out| == |s| && InField(c.p, out)
  {
    MulPartial(c.p, c.diagMinus1, PowerFirst(c.p, c.d, AddConstants(c.p, s, c.rc[r])))
  }

  predicate IsPartial(c: Params, r: nat) {
    c.roundsF2 <= r < c.roundsF2 + c.roundsP
  }

  /** Partial rounds have a constant for their first word only, as in the shipped tables. */
  ghost predicate ZeroTails(c: Params)
    requires ValidParams(c)
  {
    forall r, i :: 0 <= r < c.Rounds() && IsPartial(c, r) && 1 <= i < c.t ==> c.rc[r][i] == 0
  }

  /** A row of constants of which only the first is kept. */
  function HeadOnly(rc: seq<int>): (h: seq<int>)
    ensures |h| == |rc| && (rc != [] ==> h[0] == rc[0])
    ensures forall i :: 1 <= i < |h| ==> h[i] == 0
  {
    seq(|rc|, i requires 0 <= i < |rc| => if i == 0 then rc[i] else 0)
  }

  /** The same parameters with the tails of all partial rounds set to zero. */
  function Trimmed(c: Params): (z: Params)
    ensures z == c.(rc := z.rc) && |z.rc| == |c.rc|
    ensures forall r :: 0 <= r < |c.rc| ==> |z.rc[r]| == |c.rc[r]|
    ensures forall r :: 0 <= r < |c.rc| ==> z.rc[r] == (if IsPartial(c, r) then HeadOnly(c.rc[r]) else c.rc[r])
  {
    c.(rc := seq(|c.rc|, r requires 0 <= r < |c.rc| => if IsPartial(c, r) then HeadOnly(c.rc[r]) else c.rc[r]))
  }

  /** Trimming changes nothing exactly when the tails are zero already. */
  lemma {:induction false} TrimmedIsSame(c: Params)
    requires ValidParams(c)
    ensures ZeroTails(c) <==> Trimmed(c) == c
  {
    var z := Trimmed(c);
    if ZeroTails(c) {
      forall r | 0 <= r < |c.rc| ensures z.rc[r] == c.rc[r] {
        if IsPartial(c, r) { assert HeadOnly(c.rc[r]) == c.rc[r]; }
      }
      assert z.rc == c.rc;
    }
    if z == c {
      forall r, i | 0 <= r < c.Rounds() && IsPartial(c, r) && 1 <= i < c.t ensures c.rc[r][i] == 0 {
        assert z.rc[r] == HeadOnly(c.rc[r]);
      }
    }
  }

  /** The state after the first matrix and `r` rounds. */
  ghost function After(c: Params, input: seq<int>, r: nat): (out: seq<int>)
    requires ValidParams(c) && |input| == c.t && r <= c.Rounds()
    ensures |out| == c.t
  {
    if r == 0 then MulFull(c.p, input)
    else if IsPartial(c, r - 1) then PartialRound(c, r - 1, After(c, input, r - 1))
    else FullRound(c, r - 1, After(c, input, r - 1))
  }

  ghost function Permute(c: Params, input: seq<int>): (out: seq<int>)
    requires ValidParams(c) && |input| == c.t
    ensures |out| == c.t
  {
    After(c, input, c.Rounds())
  }

  /** Every intermediate state consists of field elements. */
  lemma {:induction false} AfterInField(c: Params, input: seq<int>, r: nat)
    requires ValidParams(c) && |input| == c.t && r <= c.Rounds()
    ensures InField(c.p, After(c, input, r))
  {
  }
}

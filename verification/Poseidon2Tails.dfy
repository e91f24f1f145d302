/** What the constants would do that the fast permutation leaves out: the tails of the partial rounds. */
module Poseidon2Tails {
  import opened ModField
  import opened MatInverse
  import opened Poseidon2Naive
  import opened Poseidon2Linear
  import opened Poseidon2Kernels
  import opened Poseidon2Injective

  /** All constants of round `r` but the first vanish in the field. */
  ghost predicate TailVanishes(c: Params, r: nat)
    requires ValidParams(c) && r < c.Rounds()
  {
    forall i :: 1 <= i < c.t ==> c.rc[r][i] % c.p == 0
  }

  lemma {:induction false} VanishingConstant(p: int, x: int, k: int)
    requires p > 1 && 0 <= x < p
    ensures Add(p, x, k) == Add(p, x, 0) <==> k % p == 0
  {
    if k % p == 0 {
      assert 0 % p == 0;
      ModAdd(p, x, k, x, 0);
    }
    if Add(p, x, k) == Add(p, x, 0) { EqualResidues(p, x + k, x + 0); }
  }

  lemma {:induction false} TailConstants(p: int, s: seq<int>, rc: seq<int>)
    requires p > 1 && |s| == |rc| > 0 && InField(p, s)
    ensures AddConstants(p, s, rc) == AddConstants(p, s, HeadOnly(rc)) <==> forall i :: 1 <= i < |rc| ==> rc[i] % p == 0
  {
    var a, b := AddConstants(p, s, rc), AddConstants(p, s, HeadOnly(rc));
    forall i | 1 <= i < |rc| ensures a[i] == b[i] <==> rc[i] % p == 0 { VanishingConstant(p, s[i], rc[i]); }
    assert a[0] == b[0];
  }

  /** A vanishing tail changes nothing. */
  lemma {:induction false} VanishingRound(c: Params, r: nat, s: seq<int>)
    requires ValidParams(c) && r < c.Rounds() && IsPartial(c, r) && |c.rc[r]| == c.t
    requires |s| == c.t && InField(c.p, s) && TailVanishes(c, r)
    ensures PartialRound(c, r, s) == PartialRound(Trimmed(c), r, s)
  {
    TailConstants(c.p, s, c.rc[r]);
  }

  lemma {:induction false} OtherWords(p: int, d: nat, a: seq<int>, b: seq<int>)
    requires p > 1 && |a| == |b| > 0 && InField(p, a) && InField(p, b) && a[0] == b[0]
    requires PowerFirst(p, d, a) == PowerFirst(p, d, b)
    ensures a == b
  {
    forall i | 1 <= i < |a| ensures a[i] == b[i] { assert PowerFirst(p, d, a)[i] == PowerFirst(p, d, b)[i]; }
  }

  /** On any one state, a partial round and the same round without its tail agree exactly when the tail vanishes. */
  lemma {:induction false} TailMatters(c: Params, r: nat, s: seq<int>)
    requires ValidParams(c) && r < c.Rounds() && IsPartial(c, r) && |c.rc[r]| == c.t
    requires PartialKernelFree(c.p, c.diagMinus1) && |s| == c.t && InField(c.p, s)
    ensures PartialRound(c, r, s) == PartialRound(Trimmed(c), r, s) <==> TailVanishes(c, r)
  {
    var a, b := AddConstants(c.p, s, c.rc[r]), AddConstants(c.p, s, HeadOnly(c.rc[r]));
    TailConstants(c.p, s, c.rc[r]);
    if PartialRound(c, r, s) == PartialRound(Trimmed(c), r, s) {
      PartialLayerInjective(c.p, c.diagMinus1, PowerFirst(c.p, c.d, a), PowerFirst(c.p, c.d, b));
      OtherWords(c.p, c.d, a, b);
    }
  }

  // ----- whole runs -----

  /** The reference and the trimmed reference have come to the same state after `r` rounds. */
  ghost predicate TrimmedAgrees(c: Params, x: seq<int>, r: nat)
    requires ValidParams(c) && |x| == c.t && r <= c.Rounds()
  {
    ValidParams(Trimmed(c)) && After(c, x, r) == After(Trimmed(c), x, r)
  }

  /** After how many rounds they agree. */
  ghost function AgreeTrace(c: Params, x: seq<int>): (t: seq<bool>)
    requires ValidParams(c) && |x| == c.t
    ensures |t| == c.Rounds() + 1
  {
    seq(c.Rounds() + 1, r requires 0 <= r <= c.Rounds() => TrimmedAgrees(c, x, r))
  }

  predicate Same(t: seq<bool>, i: nat)
    requires i + 1 < |t|
  {
    t[i] == t[i + 1]
  }

  lemma {:induction false} Flat(t: seq<bool>, q: nat, r: nat)
    requires q <= r < |t| && forall i: nat :: q <= i < r ==> Same(t, i)
    ensures t[q] == t[r]
    decreases r
  {
    if q < r {
      Flat(t, q, r - 1);
      assert Same(t, r - 1);
    }
  }

  /** A round whose tail vanishes, or that is a full round, makes no difference. */
  lemma {:induction false} QuietRound(c: Params, x: seq<int>, r: nat)
    requires ValidParams(c) && |x| == c.t && r < c.Rounds() && (IsPartial(c, r) ==> TailVanishes(c, r))
    requires TrimmedAgrees(c, x, r)
    ensures TrimmedAgrees(c, x, r + 1)
  {
    var s := After(c, x, r);
    assert |c.rc[r]| == c.t;
    AfterInField(c, x, r);
    if IsPartial(c, r) { VanishingRound(c, r, s); } else { assert FullRound(c, r, s) == FullRound(Trimmed(c), r, s); }
  }

  /** Nor does it mend one, if the layers are injective. */
  lemma {:induction false} NoMending(c: Params, x: seq<int>, r: nat)
    requires InjectiveLayers(c) && |x| == c.t && r < c.Rounds() && (IsPartial(c, r) ==> TailVanishes(c, r))
    requires TrimmedAgrees(c, x, r + 1)
    ensures TrimmedAgrees(c, x, r)
  {
    var z := Trimmed(c);
    var a, b := After(c, x, r), After(z, x, r);
    assert |c.rc[r]| == c.t && |z.rc[r]| == c.t;
    AfterInField(c, x, r);
    AfterInField(z, x, r);
    if IsPartial(c, r) {
      VanishingRound(c, r, a);
      PartialRoundInjective(z, r, a, b);
    } else {
      assert FullRound(c, r, a) == FullRound(z, r, a);
      FullRoundInjective(z, r, a, b);
    }
  }

  lemma {:induction false} QuietForth(c: Params, x: seq<int>, r: nat)
    requires ValidParams(c) && |x| == c.t && r < c.Rounds() && (IsPartial(c, r) ==> TailVanishes(c, r))
    ensures AgreeTrace(c, x)[r] ==> AgreeTrace(c, x)[r + 1]
  {
    if TrimmedAgrees(c, x, r) { QuietRound(c, x, r); }
  }

  lemma {:induction false} QuietBack(c: Params, x: seq<int>, r: nat)
    requires InjectiveLayers(c) && |x| == c.t && r < c.Rounds() && (IsPartial(c, r) ==> TailVanishes(c, r))
    ensures AgreeTrace(c, x)[r + 1] ==> AgreeTrace(c, x)[r]
  {
    if TrimmedAgrees(c, x, r + 1) { NoMending(c, x, r); }
  }

  lemma {:induction false} QuietTrace(c: Params, x: seq<int>, r: nat)
    requires InjectiveLayers(c) && |x| == c.t && r < c.Rounds() && (IsPartial(c, r) ==> TailVanishes(c, r))
    ensures Same(AgreeTrace(c, x), r)
  {
    QuietForth(c, x, r);
    QuietBack(c, x, r);
  }

  lemma {:induction false} LoudTrace(c: Params, x: seq<int>, q: nat)
    requires ValidParams(c) && PartialKernelFree(c.p, c.diagMinus1) && |x| == c.t && q < c.Rounds() && IsPartial(c, q)
    requires AgreeTrace(c, x)[q]
    ensures AgreeTrace(c, x)[q + 1] <==> TailVanishes(c, q)
  {
    assert |c.rc[q]| == c.t;
    AfterInField(c, x, q);
    TailMatters(c, q, After(c, x, q));
  }

  lemma {:induction false} EndsOfTrace(c: Params, x: seq<int>)
    requires ValidParams(c) && |x| == c.t
    ensures AgreeTrace(c, x)[0] && ValidParams(Trimmed(c))
    ensures AgreeTrace(c, x)[c.Rounds()] <==> Permute(c, x) == Permute(Trimmed(c), x)
  {
    assert After(c, x, 0) == After(Trimmed(c), x, 0);
  }

  lemma {:induction false} VanishingPrefix(c: Params, x: seq<int>, r: nat)
    requires ValidParams(c) && |x| == c.t && r <= c.Rounds()
    requires forall i: nat :: i < c.Rounds() && IsPartial(c, i) ==> TailVanishes(c, i)
    ensures AgreeTrace(c, x)[r]
    decreases r
  {
    if r == 0 {
      EndsOfTrace(c, x);
    } else {
      VanishingPrefix(c, x, r - 1);
      QuietRound(c, x, r - 1);
    }
  }

  /** If all tails vanish in the field, the fast permutation and the reference agree on every state. */
  lemma {:induction false} VanishingTails(c: Params, x: seq<int>)
    requires ValidParams(c) && |x| == c.t
    requires forall r: nat :: r < c.Rounds() && IsPartial(c, r) ==> TailVanishes(c, r)
    ensures ValidParams(Trimmed(c)) && Permute(c, x) == Permute(Trimmed(c), x)
  {
    VanishingPrefix(c, x, c.Rounds());
    EndsOfTrace(c, x);
  }

  /**
   If at most one partial round has a tail, the fast permutation and the reference agree, on any one state,
   exactly when that tail vanishes; so a single tail makes them differ on every state.
   */
  lemma {:induction false} SingleTailMatters(c: Params, q: nat, x: seq<int>)
    requires InjectiveLayers(c) && |x| == c.t && q < c.Rounds() && IsPartial(c, q)
    requires forall r: nat :: r < c.Rounds() && IsPartial(c, r) && r != q ==> TailVanishes(c, r)
    ensures ValidParams(Trimmed(c)) && (Permute(c, x) == Permute(Trimmed(c), x) <==> TailVanishes(c, q))
  {
    var t := AgreeTrace(c, x);
    forall i: nat | i < c.Rounds() && i != q ensures Same(t, i) { QuietTrace(c, x, i); }
    EndsOfTrace(c, x);
    Flat(t, 0, q);
    LoudTrace(c, x, q);
    Flat(t, q + 1, c.Rounds());
  }

  /** One partial round and nothing else: no injectivity of the power map is needed. */
  lemma {:induction false} LonelyRound(c: Params, x: seq<int>)
    requires ValidParams(c) && c.roundsF2 == 0 && c.roundsP == 1 && |x| == c.t && PartialKernelFree(c.p, c.diagMinus1)
    ensures ValidParams(Trimmed(c)) && (Permute(c, x) == Permute(Trimmed(c), x) <==> TailVanishes(c, 0))
  {
    EndsOfTrace(c, x);
    LoudTrace(c, x, 0);
  }

  /** A table of one round whose tail is one: over the field of seven elements the two differ on every state. */
  lemma {:induction false} TailIgnored(c: Params, x: seq<int>)
    requires c == Params(7, 2, 5, 0, 1, [1, 2], [[0, 1]]) && |x| == 2
    ensures ValidParams(c) && ValidParams(Trimmed(c)) && Permute(c, x) != Permute(Trimmed(c), x)
  {
    assert Mul(7, 5, 3) == 1;
    SmallPartialKernel(7, c.diagMinus1);
    LonelyRound(c, x);
    assert c.rc[0][1] % 7 == 1;
  }

  // ----- tails that cancel -----

  lemma {:induction false} ShiftedRow(p: int, row: seq<int>, u: seq<int>, v: seq<int>, k: int)
    requires p > 1 && |row| == |u| == |v| == 3 && u[0] == v[0]
    requires u[1] % p == (v[1] + 1) % p && u[2] % p == (v[2] - 1) % p && row[1] - row[2] == k
    ensures Dot(row, u) % p == (Dot(row, v) + k) % p
  {
    Dot3(row, u);
    Dot3(row, v);
    ModMul(p, row[1], u[1], row[1], v[1] + 1);
    ModMul(p, row[2], u[2], row[2], v[2] - 1);
    var y, z := row[1] * u[1], row[2] * u[2];
    var y', z' := row[1] * v[1] + row[1], row[2] * v[2] - row[2];
    assert row[1] * (v[1] + 1) == y' && row[2] * (v[2] - 1) == z';
    ModAdd(p, y, z, y', z');
    ModAdd(p, row[0] * u[0], y + z, row[0] * u[0], y' + z');
  }

  /** The internal matrix of three words maps the difference (0, 1, -1) to (0, 1, -2). */
  lemma {:induction false} ShiftedLayer(p: int, diag: seq<int>, u: seq<int>, v: seq<int>)
    requires p > 1 && |diag| == |u| == |v| == 3 && u[0] == v[0]
    requires u[1] % p == (v[1] + 1) % p && u[2] % p == (v[2] - 1) % p
    ensures var a, b := MulPartial(p, diag, u), MulPartial(p, diag, v);
            a[0] == b[0] && a[1] % p == (b[1] + 1) % p && a[2] % p == (b[2] - 2) % p
  {
    var a, b := MulPartial(p, diag, u), MulPartial(p, diag, v);
    var r0, r1, r2 := PartialRow(3, diag, 0), PartialRow(3, diag, 1), PartialRow(3, diag, 2);
    ShiftedRow(p, r0, u, v, 0);
    ShiftedRow(p, r1, u, v, 1);
    ShiftedRow(p, r2, u, v, -2);
    ModMod(p, Dot(r1, u));
    ModMod(p, Dot(r2, u));
    ModMod(p, Dot(r1, v));
    ModMod(p, Dot(r2, v));
    ModAdd(p, b[1], 1, Dot(r1, v), 1);
    ModAdd(p, b[2], 2, Dot(r2, v), 2);
  }

  lemma {:induction false} Unshift(p: int, a: int, b: int, k: int)
    requires p > 1 && a % p == (b + k) % p
    ensures Add(p, a, -k) == Add(p, b, 0)
  {
    ModAdd(p, a, k, b + k, k);
  }

  /** Two rounds whose tails are (1, -1) and (-1, 2). */
  ghost predicate CancellingTails(c: Params) {
    && ValidParams(c) && c.t == 3 && c.roundsF2 == 0 && c.roundsP == 2
    && c.rc[0][1..] == [1, -1] && c.rc[1][1..] == [-1, 2]
  }

  lemma {:induction false} FirstTail(c: Params, m: seq<int>)
    requires CancellingTails(c) && |m| == 3 && |c.rc[0]| == 3
    ensures var u := PowerFirst(c.p, c.d, AddConstants(c.p, m, c.rc[0]));
            var v := PowerFirst(c.p, c.d, AddConstants(c.p, m, HeadOnly(c.rc[0])));
            u[0] == v[0] && u[1] % c.p == (v[1] + 1) % c.p && u[2] % c.p == (v[2] - 1) % c.p
  {
    var p, rc := c.p, c.rc[0];
    assert rc[1] == rc[1..][0] == 1 && rc[2] == rc[1..][1] == -1;
    ModMod(p, m[1] + 1);
    ModMod(p, m[2] - 1);
    ModMod(p, m[1] + 0);
    ModMod(p, m[2] + 0);
    ModAdd(p, Add(p, m[1], 0), 1, m[1], 1);
    ModAdd(p, Add(p, m[2], 0), 1, m[2], 1);
  }

  lemma {:induction false} SecondTail(c: Params, a: seq<int>, b: seq<int>)
    requires CancellingTails(c) && |a| == |b| == 3 && |c.rc[1]| == 3
    requires a[0] == b[0] && a[1] % c.p == (b[1] + 1) % c.p && a[2] % c.p == (b[2] - 2) % c.p
    ensures AddConstants(c.p, a, c.rc[1]) == AddConstants(c.p, b, HeadOnly(c.rc[1]))
  {
    var rc := c.rc[1];
    assert rc[1] == rc[1..][0] == -1 && rc[2] == rc[1..][1] == 2;
    Unshift(c.p, a[1], b[1], 1);
    Unshift(c.p, a[2], b[2], -2);
  }

  /** Over several rounds tails can cancel: zero tails are not necessary for agreement on every state. */
  lemma {:induction false} TailsCancel(c: Params, x: seq<int>)
    requires CancellingTails(c) && |x| == 3
    ensures !TailVanishes(c, 0) && ValidParams(Trimmed(c)) && Permute(c, x) == Permute(Trimmed(c), x)
  {
    var z, m := Trimmed(c), MulFull(c.p, x);
    assert |c.rc[0]| == 3 && |c.rc[1]| == 3;
    var u := PowerFirst(c.p, c.d, AddConstants(c.p, m, c.rc[0]));
    var v := PowerFirst(c.p, c.d, AddConstants(c.p, m, HeadOnly(c.rc[0])));
    FirstTail(c, m);
    ShiftedLayer(c.p, c.diagMinus1, u, v);
    SecondTail(c, MulPartial(c.p, c.diagMinus1, u), MulPartial(c.p, c.diagMinus1, v));
    assert c.rc[0][1] == c.rc[0][1..][0] == 1;
    SmallMod(c.p, 1);
    TwoRounds(c, x);
    TwoRounds(z, x);
  }

  lemma {:induction false} TwoRounds(c: Params, x: seq<int>)
    requires ValidParams(c) && |x| == c.t && c.roundsF2 == 0 && c.roundsP == 2 && |c.rc[0]| == c.t && |c.rc[1]| == c.t
    ensures Permute(c, x) == PartialRound(c, 1, PartialRound(c, 0, MulFull(c.p, x)))
  {
    assert After(c, x, 1) == PartialRound(c, 0, After(c, x, 0));
  }
}

/** The permutation never maps two states to one, for any round constants. */
module Poseidon2Injective {
  import opened Words
  import opened ModField
  import opened Poseidon2Naive
  import opened Poseidon2Kernels
  import FiniteMaps

  /** The power map is injective on the field, which is how the degree is chosen. */
  ghost predicate PowerInjective(p: int, d: nat)
    requires p > 1
  {
    forall a, b :: 0 <= a < p && 0 <= b < p && Power(p, a, d) == Power(p, b, d) ==> a == b
  }

  /** Every layer of the first `r` rounds is injective; nothing is asked of the round constants. */
  ghost predicate LayersTo(c: Params, r: nat) {
    && ValidParams(c) && PowerInjective(c.p, c.d) && FullKernelFree(c.p, c.t)
    && (c.roundsP > 0 && r > c.roundsF2 ==> PartialKernelFree(c.p, c.diagMinus1))
  }

  /** Parameter sets for which every layer is injective. */
  ghost predicate InjectiveLayers(c: Params) {
    && ValidParams(c) && PowerInjective(c.p, c.d)
    && FullKernelFree(c.p, c.t) && (c.roundsP > 0 ==> PartialKernelFree(c.p, c.diagMinus1))
  }

  lemma {:induction false} ConstantsInjective(p: int, x: seq<int>, y: seq<int>, rc: seq<int>)
    requires p > 1 && |x| == |y| == |rc| && InField(p, x) && InField(p, y)
    requires AddConstants(p, x, rc) == AddConstants(p, y, rc)
    ensures x == y
  {
    forall i | 0 <= i < |x| ensures x[i] == y[i] {
      assert AddConstants(p, x, rc)[i] == AddConstants(p, y, rc)[i];
      EqualResidues(p, x[i] + rc[i], y[i] + rc[i]);
      DifferenceZero(p, x[i], y[i]);
    }
  }

  lemma {:induction false} PowersInjective(p: int, d: nat, x: seq<int>, y: seq<int>)
    requires p > 1 && PowerInjective(p, d) && |x| == |y| && InField(p, x) && InField(p, y)
    requires PowerAll(p, d, x) == PowerAll(p, d, y)
    ensures x == y
  {
    forall i | 0 <= i < |x| ensures x[i] == y[i] { assert PowerAll(p, d, x)[i] == PowerAll(p, d, y)[i]; }
  }

  lemma {:induction false} FullRoundInjective(c: Params, r: nat, x: seq<int>, y: seq<int>)
    requires LayersTo(c, r + 1) && r < c.Rounds() && |x| == |y| == c.t && InField(c.p, x) && InField(c.p, y)
    requires |c.rc[r]| == c.t && FullRound(c, r, x) == FullRound(c, r, y)
    ensures x == y
  {
    var ax, ay := AddConstants(c.p, x, c.rc[r]), AddConstants(c.p, y, c.rc[r]);
    FullLayerInjective(c.p, PowerAll(c.p, c.d, ax), PowerAll(c.p, c.d, ay));
    PowersInjective(c.p, c.d, ax, ay);
    ConstantsInjective(c.p, x, y, c.rc[r]);
  }

  lemma {:induction false} FirstPowerInjective(p: int, d: nat, x: seq<int>, y: seq<int>)
    requires p > 1 && PowerInjective(p, d) && |x| == |y| > 0 && InField(p, x) && InField(p, y)
    requires PowerFirst(p, d, x) == PowerFirst(p, d, y)
    ensures x == y
  {
    forall i | 0 <= i < |x| ensures x[i] == y[i] { assert PowerFirst(p, d, x)[i] == PowerFirst(p, d, y)[i]; }
  }

  lemma {:induction false} PartialRoundInjective(c: Params, r: nat, x: seq<int>, y: seq<int>)
    requires LayersTo(c, r + 1) && r < c.Rounds() && IsPartial(c, r)
    requires |x| == |y| == c.t && InField(c.p, x) && InField(c.p, y)
    requires |c.rc[r]| == c.t && PartialRound(c, r, x) == PartialRound(c, r, y)
    ensures x == y
  {
    var ax, ay := AddConstants(c.p, x, c.rc[r]), AddConstants(c.p, y, c.rc[r]);
    PartialLayerInjective(c.p, c.diagMinus1, PowerFirst(c.p, c.d, ax), PowerFirst(c.p, c.d, ay));
    FirstPowerInjective(c.p, c.d, ax, ay);
    ConstantsInjective(c.p, x, y, c.rc[r]);
  }

  /** Two inputs have come to the same state after `r` rounds. */
  ghost predicate Agree(c: Params, x: seq<int>, y: seq<int>, r: nat)
    requires ValidParams(c) && |x| == |y| == c.t && r <= c.Rounds()
  {
    After(c, x, r) == After(c, y, r)
  }

  lemma {:induction false} StartInjective(c: Params, x: seq<int>, y: seq<int>)
    requires LayersTo(c, 0) && |x| == |y| == c.t && InField(c.p, x) && InField(c.p, y) && Agree(c, x, y, 0)
    ensures x == y
  {
    FullLayerInjective(c.p, x, y);
  }

  lemma {:induction false} RoundInjective(c: Params, x: seq<int>, y: seq<int>, r: nat)
    requires LayersTo(c, r + 1) && |x| == |y| == c.t && r < c.Rounds() && Agree(c, x, y, r + 1)
    ensures Agree(c, x, y, r)
  {
    var sx, sy := After(c, x, r), After(c, y, r);
    assert |c.rc[r]| == c.t;
    AfterInField(c, x, r);
    AfterInField(c, y, r);
    if IsPartial(c, r) {
      assert PartialRound(c, r, sx) == PartialRound(c, r, sy);
      PartialRoundInjective(c, r, sx, sy);
    } else {
      assert FullRound(c, r, sx) == FullRound(c, r, sy);
      FullRoundInjective(c, r, sx, sy);
    }
  }

  lemma {:induction false} AfterInjective(c: Params, x: seq<int>, y: seq<int>, r: nat)
    requires LayersTo(c, r) && |x| == |y| == c.t && InField(c.p, x) && InField(c.p, y) && r <= c.Rounds()
    requires Agree(c, x, y, r)
    ensures x == y
    decreases r
  {
    if r == 0 {
      StartInjective(c, x, y);
    } else {
      RoundInjective(c, x, y, r - 1);
      AfterInjective(c, x, y, r - 1);
    }
  }

  /** Every width, any round constants: the permutation is injective on all states. */
  lemma {:induction false} PermutationInjective(c: Params, x: seq<int>, y: seq<int>)
    requires InjectiveLayers(c) && |x| == |y| == c.t && InField(c.p, x) && InField(c.p, y)
    ensures Permute(c, x) == Permute(c, y) <==> x == y
  {
    if Permute(c, x) == Permute(c, y) { AfterInjective(c, x, y, c.Rounds()); }
  }

  lemma {:induction false} AgreementLasts(c: Params, x: seq<int>, y: seq<int>, q: nat, r: nat)
    requires ValidParams(c) && |x| == |y| == c.t && q <= r <= c.Rounds() && Agree(c, x, y, q)
    ensures Agree(c, x, y, r)
    decreases r
  {
    if r > q { AgreementLasts(c, x, y, q, r - 1); }
  }

  /** If the external matrix annihilates a state, that state collides with the zero state. */
  lemma {:induction false} KernelCollides(c: Params, s: seq<int>)
    requires ValidParams(c) && |s| == c.t && InField(c.p, s) && FullAnnihilates(c.p, s) && !IsZero(s)
    ensures InField(c.p, ZeroState(c.t)) && s != ZeroState(c.t) && Permute(c, s) == Permute(c, ZeroState(c.t))
  {
    FullLayerOfZero(c.p, c.t, s);
    AgreementLasts(c, s, ZeroState(c.t), 0, c.Rounds());
  }

  // ----- the conditions are necessary -----

  /** All states of `t` field elements. */
  ghost function States(p: int, t: nat): (all: set<seq<int>>)
    requires p > 1
    ensures forall s :: s in all ==> |s| == t && InField(p, s)
  {
    if t == 0 then {[]} else set s, d | s in States(p, t - 1) && 0 <= d < p :: s + [d]
  }

  lemma {:induction false} StatesAreAll(p: int, t: nat, s: seq<int>)
    requires p > 1 && |s| == t && InField(p, s)
    ensures s in States(p, t)
    decreases t
  {
    if t > 0 {
      StatesAreAll(p, t - 1, s[..t - 1]);
      assert s == s[..t - 1] + [s[t - 1]];
    }
  }

  ghost function AfterTable(c: Params, r: nat): map<seq<int>, seq<int>>
    requires ValidParams(c) && r <= c.Rounds()
  {
    map s | s in States(c.p, c.t) :: After(c, s, r)
  }

  lemma {:induction false} AfterTableInjective(c: Params, r: nat)
    requires LayersTo(c, r) && r <= c.Rounds()
    ensures FiniteMaps.Injective(AfterTable(c, r))
  {
    var m := AfterTable(c, r);
    forall a, b | a in m && b in m && m[a] == m[b] ensures a == b { AfterInjective(c, a, b, r); }
  }

  lemma {:induction false} AfterTableStays(c: Params, r: nat)
    requires ValidParams(c) && r <= c.Rounds()
    ensures AfterTable(c, r).Values <= States(c.p, c.t)
  {
    var m := AfterTable(c, r);
    forall v | v in m.Values ensures v in States(c.p, c.t) {
      var s := FiniteMaps.Preimage(m, v);
      AfterInField(c, s, r);
      StatesAreAll(c.p, c.t, v);
    }
  }

  /** Every state is reached before round `r` if the layers so far are injective. */
  lemma {:induction false} AfterReaches(c: Params, r: nat, y: seq<int>) returns (x: seq<int>)
    requires LayersTo(c, r) && r <= c.Rounds() && |y| == c.t && InField(c.p, y)
    ensures |x| == c.t && InField(c.p, x) && After(c, x, r) == y
  {
    AfterTableInjective(c, r);
    AfterTableStays(c, r);
    StatesAreAll(c.p, c.t, y);
    x := FiniteMaps.ReachesAll(AfterTable(c, r), States(c.p, c.t), y);
  }

  /** What a partial round does before its matrix. */
  function BeforeMatrix(c: Params, r: nat, s: seq<int>): (out: seq<int>)
    requires c.p > 1 && r < |c.rc| && |c.rc[r]| == |s| > 0
    ensures |out| == |s| && InField(c.p, out)
  {
    PowerFirst(c.p, c.d, AddConstants(c.p, s, c.rc[r]))
  }

  lemma {:induction false} BeforeMatrixInjective(c: Params, r: nat, a: seq<int>, b: seq<int>)
    requires c.p > 1 && PowerInjective(c.p, c.d) && r < |c.rc| && |c.rc[r]| == |a| == |b| > 0
    requires InField(c.p, a) && InField(c.p, b) && BeforeMatrix(c, r, a) == BeforeMatrix(c, r, b)
    ensures a == b
  {
    FirstPowerInjective(c.p, c.d, AddConstants(c.p, a, c.rc[r]), AddConstants(c.p, b, c.rc[r]));
    ConstantsInjective(c.p, a, b, c.rc[r]);
  }

  ghost function BeforeTable(c: Params, r: nat): map<seq<int>, seq<int>>
    requires c.p > 1 && r < |c.rc| && |c.rc[r]| > 0
  {
    map s | s in States(c.p, |c.rc[r]|) :: BeforeMatrix(c, r, s)
  }

  lemma {:induction false} BeforeTableInjective(c: Params, r: nat)
    requires c.p > 1 && PowerInjective(c.p, c.d) && r < |c.rc| && |c.rc[r]| > 0
    ensures FiniteMaps.Injective(BeforeTable(c, r))
  {
    var m := BeforeTable(c, r);
    forall a, b | a in m && b in m && m[a] == m[b] ensures a == b { BeforeMatrixInjective(c, r, a, b); }
  }

  lemma {:induction false} BeforeTableStays(c: Params, r: nat)
    requires c.p > 1 && r < |c.rc| && |c.rc[r]| > 0
    ensures BeforeTable(c, r).Values <= States(c.p, |c.rc[r]|)
  {
    var m := BeforeTable(c, r);
    forall v | v in m.Values ensures v in States(c.p, |c.rc[r]|) {
      var s := FiniteMaps.Preimage(m, v);
      StatesAreAll(c.p, |c.rc[r]|, v);
    }
  }

  lemma {:induction false} BeforeMatrixReaches(c: Params, r: nat, y: seq<int>) returns (x: seq<int>)
    requires c.p > 1 && PowerInjective(c.p, c.d) && r < |c.rc| && |c.rc[r]| == |y| > 0 && InField(c.p, y)
    ensures |x| == |y| && InField(c.p, x) && BeforeMatrix(c, r, x) == y
  {
    BeforeTableInjective(c, r);
    BeforeTableStays(c, r);
    StatesAreAll(c.p, |y|, y);
    x := FiniteMaps.ReachesAll(BeforeTable(c, r), States(c.p, |y|), y);
  }

  /** Two states that the first partial round makes equal, from a state that the internal matrix annihilates. */
  lemma {:induction false} PartialCollision(c: Params, s: seq<int>) returns (a: seq<int>, b: seq<int>)
    requires ValidParams(c) && PowerInjective(c.p, c.d) && c.roundsP > 0 && |c.rc[c.roundsF2]| == c.t
    requires |s| == c.t && InField(c.p, s) && PartialAnnihilates(c.p, c.diagMinus1, s) && !IsZero(s)
    ensures |a| == |b| == c.t && InField(c.p, a) && InField(c.p, b) && a != b
    ensures PartialRound(c, c.roundsF2, a) == PartialRound(c, c.roundsF2, b)
  {
    var r := c.roundsF2;
    PartialLayerOfZero(c.p, c.diagMinus1, s);
    a := BeforeMatrixReaches(c, r, s);
    b := BeforeMatrixReaches(c, r, ZeroState(c.t));
  }

  lemma {:induction false} CollideNext(c: Params, x: seq<int>, y: seq<int>, a: seq<int>, b: seq<int>)
    requires ValidParams(c) && |x| == |y| == |a| == |b| == c.t && c.roundsP > 0 && |c.rc[c.roundsF2]| == c.t
    requires After(c, x, c.roundsF2) == a && After(c, y, c.roundsF2) == b
    requires PartialRound(c, c.roundsF2, a) == PartialRound(c, c.roundsF2, b)
    ensures Agree(c, x, y, c.roundsF2 + 1)
  {
  }

  /** If the internal matrix annihilates a state and there is a partial round, two inputs collide. */
  lemma {:induction false} PartialKernelCollides(c: Params, s: seq<int>) returns (x: seq<int>, y: seq<int>)
    requires ValidParams(c) && PowerInjective(c.p, c.d) && FullKernelFree(c.p, c.t) && c.roundsP > 0
    requires |s| == c.t && InField(c.p, s) && PartialAnnihilates(c.p, c.diagMinus1, s) && !IsZero(s)
    ensures |x| == |y| == c.t && InField(c.p, x) && InField(c.p, y) && x != y && Permute(c, x) == Permute(c, y)
  {
    var r := c.roundsF2;
    assert |c.rc[r]| == c.t;
    var a, b := PartialCollision(c, s);
    x := AfterReaches(c, r, a);
    y := AfterReaches(c, r, b);
    CollideNext(c, x, y, a, b);
    AgreementLasts(c, x, y, r + 1, c.Rounds());
  }

  /** No two states are permuted to the same state. */
  ghost predicate IsInjective(c: Params)
    requires ValidParams(c)
  {
    forall x, y :: |x| == |y| == c.t && InField(c.p, x) && InField(c.p, y) && Permute(c, x) == Permute(c, y) ==> x == y
  }

  /**
   With an injective power map the permutation is injective if and only if the external matrix, and the
   internal one if there are partial rounds, annihilate no state but zero; the round constants play no part.
   */
  lemma {:induction false} InjectiveExactly(c: Params)
    requires ValidParams(c) && PowerInjective(c.p, c.d)
    ensures IsInjective(c) <==> InjectiveLayers(c)
  {
    if InjectiveLayers(c) {
      forall x, y | |x| == |y| == c.t && InField(c.p, x) && InField(c.p, y) && Permute(c, x) == Permute(c, y)
        ensures x == y
      {
        PermutationInjective(c, x, y);
      }
    } else if !FullKernelFree(c.p, c.t) {
      var s :| |s| == c.t && InField(c.p, s) && FullAnnihilates(c.p, s) && !IsZero(s);
      KernelCollides(c, s);
    } else {
      var s :| |s| == |c.diagMinus1| && InField(c.p, s) && PartialAnnihilates(c.p, c.diagMinus1, s) && !IsZero(s);
      var x, y := PartialKernelCollides(c, s);
    }
  }

  /** The same for what the fast code computes, whatever tails its table has. */
  lemma {:induction false} FastInjectiveExactly(c: Params)
    requires ValidParams(c) && PowerInjective(c.p, c.d)
    ensures ValidParams(Trimmed(c)) && (IsInjective(Trimmed(c)) <==> InjectiveLayers(c))
  {
    InjectiveExactly(Trimmed(c));
  }

  /** Two and three words: invertible determinants and an injective power map are enough. */
  lemma {:induction false} SmallWidths(c: Params)
    requires ValidParams(c) && c.t <= 3 && PowerInjective(c.p, c.d) && FullUnits(c.p, c.t) && PartialUnits(c.p, c.t)
    ensures InjectiveLayers(c)
  {
    FullKernel(c.p, c.t);
    SmallPartialKernel(c.p, c.diagMinus1);
  }

  /** Four words and more: units for the external matrix and a good diagonal for the internal one. */
  lemma {:induction false} WideWidths(c: Params, inv: seq<int>)
    requires ValidParams(c) && c.t >= 4 && IsPrime(c.p) && PowerInjective(c.p, c.d) && FullUnits(c.p, c.t)
    requires InversesWhereSet(c.p, c.diagMinus1, inv) && GoodDiagonal(c.p, c.diagMinus1, inv)
    ensures InjectiveLayers(c)
  {
    FullKernel(c.p, c.t);
    PartialKernel(c.p, c.diagMinus1, inv);
  }

  lemma {:induction false} Bn254Unit(k: int, x: int)
    requires (k * x) % BN254_MODULUS == 1
    ensures IsUnit(BN254_MODULUS, k)
  {
    assert Mul(BN254_MODULUS, k, x) == 1;
  }

  /** In the BN254 scalar field all these numbers are units, for every supported width. */
  lemma {:induction false} Bn254Units(t: nat)
    requires IsWidth(t)
    ensures FullUnits(BN254_MODULUS, t) && PartialUnits(BN254_MODULUS, t)
  {
    Bn254Unit(3, 14592161914559516814830937163504850059032242933610689562465469457717205663745);
    Bn254Unit(4, 16416182153879456416684804308942956316411273300312025757773653139931856371713);
    Bn254Unit(5, 8755297148735710088898562298102910035419345760166413737479281674630323398247);
    Bn254Unit(6, 18240202393199396018538671454381062573790303667013361953081836822146507079681);
    Bn254Unit(7, 3126891838834182174606629392179610726935480628630862049099743455225115499374);
    Bn254Unit(8, 19152212512859365819465605027100115702479818850364030050735928663253832433665);
    assert t >= 4 ==> t == 4 || 3 <= t / 4 + 1 <= 7;
  }

  /** Two and three words over the BN254 scalar field: only the power map is left to ask for. */
  lemma {:induction false} Bn254Injective(c: Params)
    requires ValidParams(c) && c.p == BN254_MODULUS && c.t <= 3 && PowerInjective(c.p, c.d)
    ensures IsInjective(c) && ValidParams(Trimmed(c)) && IsInjective(Trimmed(c))
  {
    Bn254Units(c.t);
    SmallWidths(c);
    InjectiveExactly(c);
    FastInjectiveExactly(c);
  }

  /** Every state is the image of one, so the permutation permutes. */
  lemma {:induction false} PermutationOnto(c: Params, y: seq<int>) returns (x: seq<int>)
    requires InjectiveLayers(c) && |y| == c.t && InField(c.p, y)
    ensures |x| == c.t && InField(c.p, x) && Permute(c, x) == y
  {
    x := AfterReaches(c, c.Rounds(), y);
  }
}

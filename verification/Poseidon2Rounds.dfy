/** Every round word by word: sums of matrix entries times powers, and what each round constant does. */
module Poseidon2Rounds {
  import opened ModField
  import opened MatInverse
  import opened Poseidon2Naive
  import opened Poseidon2Linear
  import opened Poseidon2
  import opened Poseidon2Kernels
  import opened Poseidon2Injective

  // ----- the sums -----

  /** The first `n` terms of word `i` of the external matrix times the state. */
  function StartSum(t: nat, x: seq<int>, i: nat, n: nat): int
    requires n <= |x|
  {
    if n == 0 then 0 else StartSum(t, x, i, n - 1) + FullEntry(t, i, n - 1) * x[n - 1]
  }

  /** The same with a constant added to every word and every word raised to the power. */
  function FullSum(t: nat, d: nat, s: seq<int>, rc: seq<int>, i: nat, n: nat): int
    requires n <= |s| == |rc|
  {
    if n == 0 then 0
    else FullSum(t, d, s, rc, i, n - 1) + FullEntry(t, i, n - 1) * Exp(s[n - 1] + rc[n - 1], d)
  }

  /** The internal matrix, with the power on the first word only. */
  function PartialSum(diag: seq<int>, d: nat, s: seq<int>, rc: seq<int>, i: nat, n: nat): int
    requires n <= |s| == |rc| == |diag| && i < |diag|
  {
    if n == 0 then 0
    else PartialSum(diag, d, s, rc, i, n - 1)
         + PartialEntry(|diag|, diag, i, n - 1)
           * (if n == 1 then Exp(s[0] + rc[0], d) else s[n - 1] + rc[n - 1])
  }

  // ----- powers and products modulo p -----

  lemma {:induction false} PowerOfResidue(p: int, x: int, n: nat)
    requires p > 1
    ensures Power(p, x % p, n) == Exp(x, n) % p
  {
    if n > 0 {
      PowerOfResidue(p, x, n - 1);
      MulReduces(p, Exp(x, n - 1), x);
    }
  }

  lemma {:induction false} NextTerm(p: int, a: int, b: int, e: int, u: int, v: int)
    requires p > 1 && a % p == b % p && u % p == v % p
    ensures (a + e * u) % p == (b + e * v) % p
  {
    ModMul(p, e, u, e, v);
    ModAdd(p, a, e * u, b, e * v);
  }

  /** Word `i` of the external matrix times a state that is congruent to the powers. */
  lemma {:induction false} FullTerms(p: int, d: nat, s: seq<int>, rc: seq<int>, u: seq<int>, i: nat, n: nat)
    requires p > 1 && n <= |s| == |rc| == |u| && i < |s|
    requires forall j :: 0 <= j < |s| ==> u[j] % p == Exp(s[j] + rc[j], d) % p
    ensures Dot(FullRow(|s|, i)[..n], u[..n]) % p == FullSum(|s|, d, s, rc, i, n) % p
    decreases n
  {
    if n > 0 {
      var row := FullRow(|s|, i);
      FullTerms(p, d, s, rc, u, i, n - 1);
      DotNext(row, u, n - 1);
      NextTerm(p, Dot(row[..n - 1], u[..n - 1]), FullSum(|s|, d, s, rc, i, n - 1), row[n - 1],
               u[n - 1], Exp(s[n - 1] + rc[n - 1], d));
    }
  }

  lemma {:induction false} PartialTerms(p: int, d: nat, diag: seq<int>, s: seq<int>, rc: seq<int>, u: seq<int>,
                                        i: nat, n: nat)
    requires p > 1 && n <= |s| == |rc| == |u| == |diag| && i < |s|
    requires u[0] % p == Exp(s[0] + rc[0], d) % p
    requires forall j :: 1 <= j < |s| ==> u[j] % p == (s[j] + rc[j]) % p
    ensures Dot(PartialRow(|s|, diag, i)[..n], u[..n]) % p == PartialSum(diag, d, s, rc, i, n) % p
    decreases n
  {
    if n > 0 {
      var row := PartialRow(|s|, diag, i);
      PartialTerms(p, d, diag, s, rc, u, i, n - 1);
      DotNext(row, u, n - 1);
      NextTerm(p, Dot(row[..n - 1], u[..n - 1]), PartialSum(diag, d, s, rc, i, n - 1), row[n - 1],
               u[n - 1], if n == 1 then Exp(s[0] + rc[0], d) else s[n - 1] + rc[n - 1]);
    }
  }

  lemma {:induction false} StartTerms(t: nat, x: seq<int>, i: nat, n: nat)
    requires n <= |x| == t && i < t
    ensures Dot(FullRow(t, i)[..n], x[..n]) == StartSum(t, x, i, n)
    decreases n
  {
    if n > 0 {
      StartTerms(t, x, i, n - 1);
      DotNext(FullRow(t, i), x, n - 1);
    }
  }

  // ----- the words of each state -----

  /** Before the first round: the external matrix times the input. */
  lemma {:induction false} StartWord(c: Params, x: seq<int>, i: nat)
    requires ValidParams(c) && |x| == c.t && i < c.t
    ensures After(c, x, 0)[i] == StartSum(c.t, x, i, c.t) % c.p
  {
    StartTerms(c.t, x, i, c.t);
    assert FullRow(c.t, i)[..c.t] == FullRow(c.t, i) && x[..c.t] == x;
  }

  lemma {:induction false} FullWordOf(p: int, d: nat, s: seq<int>, rc: seq<int>, i: nat)
    requires p > 1 && |s| == |rc| && i < |s|
    ensures MulFull(p, PowerAll(p, d, AddConstants(p, s, rc)))[i] == FullSum(|s|, d, s, rc, i, |s|) % p
  {
    var u := PowerAll(p, d, AddConstants(p, s, rc));
    forall j | 0 <= j < |s| ensures u[j] % p == Exp(s[j] + rc[j], d) % p {
      PowerOfResidue(p, s[j] + rc[j], d);
      ModMod(p, Exp(s[j] + rc[j], d));
    }
    FullTerms(p, d, s, rc, u, i, |s|);
    assert FullRow(|s|, i)[..|s|] == FullRow(|s|, i) && u[..|s|] == u;
  }

  /** After a full round: the external matrix times the powers of the words with their constants. */
  lemma {:induction false} FullRoundWord(c: Params, x: seq<int>, r: nat, i: nat)
    requires ValidParams(c) && |x| == c.t && i < c.t
    requires r < c.roundsF2 || c.roundsF2 + c.roundsP <= r < 2 * c.roundsF2 + c.roundsP
    ensures |c.rc[r]| == c.t
    ensures After(c, x, r + 1)[i] == FullSum(c.t, c.d, After(c, x, r), c.rc[r], i, c.t) % c.p
  {
    FullWordOf(c.p, c.d, After(c, x, r), c.rc[r], i);
  }

  lemma {:induction false} PartialWordOf(p: int, d: nat, diag: seq<int>, s: seq<int>, rc: seq<int>, i: nat)
    requires p > 1 && |s| == |rc| == |diag| && i < |s|
    ensures MulPartial(p, diag, PowerFirst(p, d, AddConstants(p, s, rc)))[i] == PartialSum(diag, d, s, rc, i, |s|) % p
  {
    var a := AddConstants(p, s, rc);
    var u := PowerFirst(p, d, a);
    PowerOfResidue(p, s[0] + rc[0], d);
    ModMod(p, Exp(s[0] + rc[0], d));
    forall j | 1 <= j < |s| ensures u[j] % p == (s[j] + rc[j]) % p { ModMod(p, s[j] + rc[j]); }
    PartialTerms(p, d, diag, s, rc, u, i, |s|);
    assert PartialRow(|s|, diag, i)[..|s|] == PartialRow(|s|, diag, i) && u[..|s|] == u;
  }

  /** After a partial round: the internal matrix times the state, the power taken of the first word only. */
  lemma {:induction false} PartialRoundWord(c: Params, x: seq<int>, r: nat, i: nat)
    requires ValidParams(c) && |x| == c.t && i < c.t && c.roundsF2 <= r < c.roundsF2 + c.roundsP
    ensures |c.rc[r]| == c.t
    ensures After(c, x, r + 1)[i] == PartialSum(c.diagMinus1, c.d, After(c, x, r), c.rc[r], i, c.t) % c.p
  {
    PartialWordOf(c.p, c.d, c.diagMinus1, After(c, x, r), c.rc[r], i);
  }

  // ----- what the constants do -----

  predicate Congruent(p: int, a: seq<int>, b: seq<int>)
    requires p > 1
  {
    |a| == |b| && forall i :: 0 <= i < |a| ==> a[i] % p == b[i] % p
  }

  lemma {:induction false} AddedConstants(p: int, s: seq<int>, a: seq<int>, b: seq<int>)
    requires p > 1 && |s| == |a| == |b|
    ensures AddConstants(p, s, a) == AddConstants(p, s, b) <==> Congruent(p, a, b)
  {
    var u, v := AddConstants(p, s, a), AddConstants(p, s, b);
    forall i | 0 <= i < |s| ensures u[i] == v[i] <==> a[i] % p == b[i] % p {
      if a[i] % p == b[i] % p { ModAdd(p, s[i], a[i], s[i], b[i]); }
      if u[i] == v[i] { ModAdd(p, s[i] + a[i], s[i], s[i] + b[i], s[i]); }
    }
  }

  /** Two tables give the same full round, on any one state, exactly when their constants are congruent. */
  lemma {:induction false} FullConstantsMatter(c: Params, e: Params, r: nat, s: seq<int>)
    requires ValidParams(c) && ValidParams(e) && e == c.(rc := e.rc) && r < c.Rounds() && |s| == c.t
    requires PowerInjective(c.p, c.d) && FullKernelFree(c.p, c.t) && |c.rc[r]| == |e.rc[r]| == c.t
    ensures FullRound(c, r, s) == FullRound(e, r, s) <==> Congruent(c.p, c.rc[r], e.rc[r])
  {
    var u, v := AddConstants(c.p, s, c.rc[r]), AddConstants(c.p, s, e.rc[r]);
    AddedConstants(c.p, s, c.rc[r], e.rc[r]);
    if FullRound(c, r, s) == FullRound(e, r, s) {
      FullLayerInjective(c.p, PowerAll(c.p, c.d, u), PowerAll(c.p, c.d, v));
      PowersInjective(c.p, c.d, u, v);
    }
  }

  /** The same for a partial round, the first constant included. */
  lemma {:induction false} PartialConstantsMatter(c: Params, e: Params, r: nat, s: seq<int>)
    requires ValidParams(c) && ValidParams(e) && e == c.(rc := e.rc) && r < c.Rounds() && |s| == c.t
    requires PowerInjective(c.p, c.d) && PartialKernelFree(c.p, c.diagMinus1) && |c.rc[r]| == |e.rc[r]| == c.t
    ensures PartialRound(c, r, s) == PartialRound(e, r, s) <==> Congruent(c.p, c.rc[r], e.rc[r])
  {
    var u, v := AddConstants(c.p, s, c.rc[r]), AddConstants(c.p, s, e.rc[r]);
    AddedConstants(c.p, s, c.rc[r], e.rc[r]);
    if PartialRound(c, r, s) == PartialRound(e, r, s) {
      PartialLayerInjective(c.p, c.diagMinus1, PowerFirst(c.p, c.d, u), PowerFirst(c.p, c.d, v));
      FirstPowerInjective(c.p, c.d, u, v);
    }
  }

  /** In the code, which trims the table, only the first constant of a partial round counts. */
  lemma {:induction false} HeadConstantMatters(c: Params, e: Params, r: nat, s: seq<int>)
    requires ValidParams(c) && ValidParams(e) && e == c.(rc := e.rc) && r < c.Rounds() && IsPartial(c, r) && |s| == c.t
    requires PowerInjective(c.p, c.d) && PartialKernelFree(c.p, c.diagMinus1) && |c.rc[r]| == |e.rc[r]| == c.t
    ensures PartialRound(Trimmed(c), r, s) == PartialRound(Trimmed(e), r, s) <==> c.rc[r][0] % c.p == e.rc[r][0] % c.p
  {
    PartialConstantsMatter(Trimmed(c), Trimmed(e), r, s);
    var a, b := Trimmed(c).rc[r], Trimmed(e).rc[r];
    assert a[0] == c.rc[r][0] && b[0] == e.rc[r][0] && forall i :: 1 <= i < c.t ==> a[i] == b[i];
  }
}

/** Whose money moves: the balance of every address, over every run. */
module SystemLedger {
  import opened Words
  import opened PoolSpec
  import opened SystemRuns

  /** What an accepted transaction does to the balance of `a`: the sender pays the pool, or the pool the recipient. */
  function FlowTo(c: Setup, tx: Tx, a: Address): int {
    var ext: int := tx.ext.extAmount;
    if ext > 0 then Moved(tx.sender, c.self, ext, a) else Moved(c.self, tx.ext.recipient, -ext, a)
  }

  /** One accepted transaction: the sender pays a deposit to the pool, the pool pays a withdrawal to the recipient. */
  lemma {:induction false} EveryBalanceMoves(w: World, s: System, tx: Tx, a: Address)
    requires ValidWorld(w) && Outcome(w, s, tx).Ok?
    ensures var ext, self := tx.ext.extAmount, w.setup.self;
            Balance(Outcome(w, s, tx).value.ledger, a) == Balance(s.pool.ledger, a)
            + (if ext > 0 then Moved(tx.sender, self, ext, a) else Moved(self, tx.ext.recipient, -ext, a))
  {
  }

  /** The flows of the accepted transactions to and from `a`. */
  ghost function FlowsTo(w: World, ledger: Ledger, actions: seq<Action>, a: Address): int
    requires ValidWorld(w)
  {
    if actions == [] then 0 else
    FlowsTo(w, ledger, actions[..|actions| - 1], a) +
    if Accepted(w, ledger, actions, |actions| - 1) then FlowTo(w.setup, actions[|actions| - 1].tx, a) else 0
  }

  /** The plain transfers to and from `a` that went through. */
  ghost function TransfersTo(w: World, ledger: Ledger, actions: seq<Action>, a: Address): int
    requires ValidWorld(w)
  {
    if actions == [] then 0 else
    var before, last := actions[..|actions| - 1], actions[|actions| - 1];
    TransfersTo(w, ledger, before, a) +
    if last.MoveTokens? && Succeeds(w, Run(w, ledger, before), last)
    then Moved(last.from, last.to, last.amount, a) else 0
  }

  /** A step that is no accepted transaction. */
  lemma {:induction false} OtherStep(w: World, s: System, x: Action, a: Address)
    requires ValidWorld(w) && (x.Submit? ==> Outcome(w, s, x.tx).Err?)
    ensures Balance(Step(w, s, x).pool.ledger, a) == Balance(s.pool.ledger, a)
            + (if x.MoveTokens? && Succeeds(w, s, x) then Moved(x.from, x.to, x.amount, a) else 0)
  {
  }

  /** Everyone's balance is their first balance, their own flows and their own plain transfers; nothing else. */
  lemma {:induction false} EveryBalance(w: World, ledger: Ledger, actions: seq<Action>, a: Address)
    requires ValidWorld(w)
    ensures Balance(Run(w, ledger, actions).pool.ledger, a)
         == Balance(ledger, a) + FlowsTo(w, ledger, actions, a) + TransfersTo(w, ledger, actions, a)
  {
    if actions != [] {
      var n := |actions| - 1;
      var s := Run(w, ledger, actions[..n]);
      EveryBalance(w, ledger, actions[..n], a);
      if Accepted(w, ledger, actions, n) {
        EveryBalanceMoves(w, s, actions[n].tx, a);
      } else {
        OtherStep(w, s, actions[n], a);
      }
    }
  }

  /** Whoever neither sends, receives nor transfers keeps their balance. */
  lemma {:induction false} BystandersKeepTheirs(w: World, ledger: Ledger, actions: seq<Action>, a: Address)
    requires ValidWorld(w) && a != w.setup.self
    requires forall i: nat :: i < |actions| ==>
               (actions[i].Submit? ==> actions[i].tx.sender != a && actions[i].tx.ext.recipient != a)
               && (actions[i].MoveTokens? ==> actions[i].from != a && actions[i].to != a)
    ensures Balance(Run(w, ledger, actions).pool.ledger, a) == Balance(ledger, a)
  {
    if actions != [] {
      var n := |actions| - 1;
      var s := Run(w, ledger, actions[..n]);
      BystandersKeepTheirs(w, ledger, actions[..n], a);
      assert actions[n] == actions[n];
      if Accepted(w, ledger, actions, n) {
        EveryBalanceMoves(w, s, actions[n].tx, a);
      } else {
        OtherStep(w, s, actions[n], a);
      }
    }
  }
}

/** Which calls succeed and what they leave behind, said in terms of the history of calls alone. */
module SystemAcceptance {
  import opened Words
  import opened MerkleReference
  import opened IncrementalMerkle
  import opened SparseEdits
  import opened PoolSpec
  import opened SystemRuns
  import NonMembershipRuns
  import Groth16Verifier
  import PoolTree

  // ----- what the accepted transactions have brought -----

  ghost function AcceptedNullifiers(w: World, ledger: Ledger, actions: seq<Action>): seq<U256>
    requires ValidWorld(w)
  {
    if actions == [] then [] else
    AcceptedNullifiers(w, ledger, actions[..|actions| - 1]) +
    if Accepted(w, ledger, actions, |actions| - 1) then actions[|actions| - 1].tx.proof.inputNullifiers else []
  }

  ghost function AcceptedCommitments(w: World, ledger: Ledger, actions: seq<Action>): seq<U256>
    requires ValidWorld(w)
  {
    if actions == [] then [] else
    var tx := actions[|actions| - 1];
    AcceptedCommitments(w, ledger, actions[..|actions| - 1]) +
    if Accepted(w, ledger, actions, |actions| - 1)
    then [tx.tx.proof.outputCommitment0, tx.tx.proof.outputCommitment1] else []
  }

  ghost function AcceptedOutputs(w: World, ledger: Ledger, actions: seq<Action>): seq<Bytes>
    requires ValidWorld(w)
  {
    if actions == [] then [] else
    var tx := actions[|actions| - 1];
    AcceptedOutputs(w, ledger, actions[..|actions| - 1]) +
    if Accepted(w, ledger, actions, |actions| - 1)
    then [tx.tx.ext.encryptedOutput0, tx.tx.ext.encryptedOutput1] else []
  }

  function LoggedNullifiers(events: seq<Event>): seq<U256> {
    if events == [] then []
    else LoggedNullifiers(events[..|events| - 1]) +
         (if events[|events| - 1].NewNullifier? then [events[|events| - 1].nullifier] else [])
  }

  function LoggedOutputs(events: seq<Event>): seq<Bytes> {
    if events == [] then []
    else LoggedOutputs(events[..|events| - 1]) +
         (if events[|events| - 1].NewCommitment? then [events[|events| - 1].encryptedOutput] else [])
  }

  lemma {:induction false} LogOfNullifiers(events: seq<Event>, ns: seq<U256>)
    ensures LoggedNullifiers(events + NullifierEvents(ns)) == LoggedNullifiers(events) + ns
    ensures LoggedOutputs(events + NullifierEvents(ns)) == LoggedOutputs(events)
    decreases |ns|
  {
    var all := events + NullifierEvents(ns);
    if ns == [] {
      assert all == events;
    } else {
      var front := ns[..|ns| - 1];
      LogOfNullifiers(events, front);
      assert all[..|all| - 1] == events + NullifierEvents(front);
      assert all[|all| - 1] == NewNullifier(ns[|ns| - 1]);
      assert ns == front + [ns[|ns| - 1]];
    }
  }

  lemma {:induction false} LogOfCommitments(events: seq<Event>, leaves: seq<U256>, tx: Tx)
    ensures LoggedNullifiers(events + CommitmentEvents(leaves, tx)) == LoggedNullifiers(events)
    ensures LoggedOutputs(events + CommitmentEvents(leaves, tx))
         == LoggedOutputs(events) + [tx.ext.encryptedOutput0, tx.ext.encryptedOutput1]
  {
    var c := CommitmentEvents(leaves, tx);
    var one, two := events + [c[0]], events + [c[0]] + [c[1]];
    assert events + c == two && two[..|two| - 1] == one && one[..|one| - 1] == events;
    assert LoggedNullifiers(one) == LoggedNullifiers(events);
    assert LoggedOutputs(one) == LoggedOutputs(events) + [tx.ext.encryptedOutput0];
  }

  lemma {:induction false} LogOfTransaction(events: seq<Event>, leaves: seq<U256>, tx: Tx)
    ensures var all := events + NullifierEvents(tx.proof.inputNullifiers) + CommitmentEvents(leaves, tx);
            && LoggedNullifiers(all) == LoggedNullifiers(events) + tx.proof.inputNullifiers
            && LoggedOutputs(all) == LoggedOutputs(events) + [tx.ext.encryptedOutput0, tx.ext.encryptedOutput1]
  {
    LogOfNullifiers(events, tx.proof.inputNullifiers);
    LogOfCommitments(events + NullifierEvents(tx.proof.inputNullifiers), leaves, tx);
  }

  /** The pool's state is what the accepted transactions brought. */
  ghost predicate Matches(p: State, ns: seq<U256>, cs: seq<U256>, outputs: seq<Bytes>) {
    && p.spent == Elements(ns) && p.leaves == cs
    && LoggedNullifiers(p.events) == ns && LoggedOutputs(p.events) == outputs
  }

  lemma {:induction false} ElementsOfBoth(a: seq<U256>, b: seq<U256>)
    ensures Elements(a + b) == Elements(a) + Elements(b)
  {
    if b == [] {
      assert a + b == a;
      assert Elements(b) == {};
    } else {
      var front, last := b[..|b| - 1], b[|b| - 1];
      assert b == front + [last] && a + b == a + front + [last];
      ElementsOfBoth(a, front);
      ElementsSplit(a + front, last);
      ElementsSplit(front, last);
    }
  }

  lemma {:induction false} AcceptedStep(w: World, s: System, tx: Tx, ns: seq<U256>, cs: seq<U256>, outputs: seq<Bytes>)
    requires ValidWorld(w) && Outcome(w, s, tx).Ok? && Matches(s.pool, ns, cs, outputs)
    ensures Matches(Outcome(w, s, tx).value, ns + tx.proof.inputNullifiers,
                    cs + [tx.proof.outputCommitment0, tx.proof.outputCommitment1],
                    outputs + [tx.ext.encryptedOutput0, tx.ext.encryptedOutput1])
  {
    AcceptedEffect(w.setup, s.pool, MemberRoot(w, s), w.word(s.blocked.root), tx);
    LogOfTransaction(s.pool.events, s.pool.leaves, tx);
    ElementsOfBoth(ns, tx.proof.inputNullifiers);
    assert Nullifiers(tx.proof) == Elements(tx.proof.inputNullifiers);
  }

  lemma {:induction false} OtherStep(w: World, s: System, a: Action, ns: seq<U256>, cs: seq<U256>, outputs: seq<Bytes>)
    requires ValidWorld(w) && (a.Submit? ==> Outcome(w, s, a.tx).Err?) && Matches(s.pool, ns, cs, outputs)
    ensures Matches(Step(w, s, a).pool, ns, cs, outputs)
  {
    var p := Step(w, s, a).pool;
    assert p.spent == s.pool.spent && p.leaves == s.pool.leaves && p.events == s.pool.events;
  }

  lemma {:induction false} HistoryStep(w: World, ledger: Ledger, actions: seq<Action>, n: nat)
    requires ValidWorld(w) && |actions| == n + 1
    ensures var before := actions[..n];
            if Accepted(w, ledger, actions, n) then
              var p, ext := actions[n].tx.proof, actions[n].tx.ext;
              && AcceptedNullifiers(w, ledger, actions) == AcceptedNullifiers(w, ledger, before) + p.inputNullifiers
              && AcceptedCommitments(w, ledger, actions)
                 == AcceptedCommitments(w, ledger, before) + [p.outputCommitment0, p.outputCommitment1]
              && AcceptedOutputs(w, ledger, actions)
                 == AcceptedOutputs(w, ledger, before) + [ext.encryptedOutput0, ext.encryptedOutput1]
            else
              && AcceptedNullifiers(w, ledger, actions) == AcceptedNullifiers(w, ledger, before)
              && AcceptedCommitments(w, ledger, actions) == AcceptedCommitments(w, ledger, before)
              && AcceptedOutputs(w, ledger, actions) == AcceptedOutputs(w, ledger, before)
  {
  }

  /**
   After any run: spent is exactly what accepted transactions listed, the tree holds exactly their commitments in
   order, and the log gives back the nullifiers and the encrypted outputs in order.
   */
  lemma {:induction false} StateIsHistory(w: World, ledger: Ledger, actions: seq<Action>)
    requires ValidWorld(w)
    ensures Matches(Run(w, ledger, actions).pool, AcceptedNullifiers(w, ledger, actions),
                    AcceptedCommitments(w, ledger, actions), AcceptedOutputs(w, ledger, actions))
  {
    if actions == [] {
      assert Elements([]) == {};
    } else {
      var n := |actions| - 1;
      var before := actions[..n];
      var ns, cs, outputs := AcceptedNullifiers(w, ledger, before), AcceptedCommitments(w, ledger, before),
                             AcceptedOutputs(w, ledger, before);
      StateIsHistory(w, ledger, before);
      HistoryStep(w, ledger, actions, n);
      if Accepted(w, ledger, actions, n) {
        AcceptedStep(w, Run(w, ledger, before), actions[n].tx, ns, cs, outputs);
      } else {
        OtherStep(w, Run(w, ledger, before), actions[n], ns, cs, outputs);
      }
    }
  }

  // ----- acceptance -----

  /** The token can make this transfer. */
  predicate CanMove(l: Ledger, from: Address, to: Address, amount: int) {
    Balance(l, from) >= amount && Balance(l, to) + Moved(from, to, amount, to) <= I128_MAX
  }

  predicate DepositInLimits(c: Setup, tx: Tx) {
    tx.ext.extAmount > 0 ==> tx.ext.extAmount <= c.maximumDeposit && tx.ext.extAmount <= I128_MAX
  }

  predicate AmountsAreCanonical(p: Proof) {
    && p.root < BN254_MODULUS && p.publicAmount < BN254_MODULUS
    && p.outputCommitment0 < BN254_MODULUS && p.outputCommitment1 < BN254_MODULUS
    && p.aspMembershipRoot < BN254_MODULUS && p.aspNonMembershipRoot < BN254_MODULUS
    && forall n :: n in p.inputNullifiers ==> n < BN254_MODULUS
  }

  /**
   The first reason to refuse `tx`, none if there is none, for ledger `l` and `count` commitments: `known` tells
   whether its root is, `seen` whether a nullifier is spent, and the list roots are the current ones.
   */
  function FirstReason(c: Setup, l: Ledger, tx: Tx, known: bool, seen: bool, memberRoot: U256, listRoot: U256,
                       count: nat): Option<Error>
  {
    var p, ext: int := tx.proof, tx.ext.extAmount;
    if !tx.authorized then Some(HostTrap)
    else if !DepositInLimits(c, tx) then Some(WrongExtAmount)
    else if ext > 0 && !CanMove(l, tx.sender, c.self, ext) then Some(HostTrap)
    else if !known then Some(UnknownRoot)
    else if seen then Some(AlreadySpentNullifier)
    else if p.extDataHash != c.keccak(tx.ext) % BN254_MODULUS then Some(WrongExtHash)
    else if ext == -(TWO_256 / 2) then Some(HostTrap)
    else if ext <= -TWO_248 || p.publicAmount != ext % BN254_MODULUS then Some(WrongExtAmount)
    else if p.aspMembershipRoot != memberRoot || p.aspNonMembershipRoot != listRoot then Some(InvalidProof)
    else if p.proof.a == [] || p.proof.b == [] || p.proof.c == [] then Some(InvalidProof)
    else if !AmountsAreCanonical(p) then Some(NonCanonicalPublicInput)
    else if Groth16Verifier.Verdict(c.curve, c.vk, p.proof, PublicInputs(p)).Err? then Some(HostTrap)
    else if ext < 0 && -ext > I128_MAX then Some(WrongExtAmount)
    else if ext < 0 && !CanMove(l, c.self, tx.ext.recipient, -ext) then Some(HostTrap)
    else if count + 2 > Pow2(c.levels) then Some(MerkleTreeFull)
    else None
  }

  /** A nullifier of `p` was listed by a transaction accepted before. */
  ghost predicate Seen(w: World, ledger: Ledger, actions: seq<Action>, p: Proof)
    requires ValidWorld(w)
  {
    exists n :: n in p.inputNullifiers && n in AcceptedNullifiers(w, ledger, actions)
  }

  /** Why the pool refuses `tx` after the given calls: everything but the ledger is told by the calls themselves. */
  ghost function Refusal(w: World, ledger: Ledger, actions: seq<Action>, tx: Tx): Option<Error>
    requires ValidWorld(w) && IsPowerOfTwo(Pow2(w.aspLevels))
  {
    var c, root, commitments := w.setup, tx.proof.root, AcceptedCommitments(w, ledger, actions);
    FirstReason(c, Run(w, ledger, actions).pool.ledger, tx,
                root != 0 && PoolTree.IsRootOfRecentPrefix(c.H, c.zeros[0], c.levels, commitments, root),
                Seen(w, ledger, actions, tx.proof),
                RootOfLevel(c.H, Padded(Members(w, actions), c.zeros[0], Pow2(w.aspLevels))),
                w.word(RootOf(Blocked(actions))), |commitments|)
  }

  lemma {:induction false} SameCanonical(p: Proof)
    ensures CanonicalInputs(p) <==> AmountsAreCanonical(p)
  {
    if AmountsAreCanonical(p) {
      forall i | 0 <= i < |p.inputNullifiers| ensures p.inputNullifiers[i] < BN254_MODULUS {
        assert p.inputNullifiers[i] in p.inputNullifiers;
      }
    }
  }

  lemma {:induction false} SameSpent(p: Proof, spent: set<U256>, ns: seq<U256>)
    requires spent == Elements(ns)
    ensures Nullifiers(p) !! spent <==> !exists n :: n in p.inputNullifiers && n in ns
  {
    forall n ensures n in spent <==> n in ns {
      if n in ns { var i :| 0 <= i < |ns| && ns[i] == n; }
    }
    forall n ensures n in Nullifiers(p) <==> n in p.inputNullifiers {
      if n in p.inputNullifiers { var i :| 0 <= i < |p.inputNullifiers| && p.inputNullifiers[i] == n; }
    }
    if n :| n in p.inputNullifiers && n in ns { assert n in Nullifiers(p) && n in spent; }
  }

  lemma {:induction false} SameAmount(ext: I256, publicAmount: U256)
    ensures ext == -(TWO_256 / 2) ==> CalculatePublicAmount(ext) == Err(HostTrap)
    ensures ext != -(TWO_256 / 2) && (ext <= -TWO_248 || ext >= TWO_248) ==>
              CalculatePublicAmount(ext) == Err(WrongExtAmount)
    ensures -TWO_248 < ext < TWO_248 ==> CalculatePublicAmount(ext) == Ok(ext % BN254_MODULUS)
  {
  }

  /** The facts that the abstract state gives about the history, where the checks need them. */
  lemma {:induction false} HistoryFacts(w: World, ledger: Ledger, actions: seq<Action>, tx: Tx)
    requires ValidWorld(w)
    ensures IsPowerOfTwo(Pow2(w.aspLevels))
    ensures var s, c, p := Run(w, ledger, actions), w.setup, tx.proof;
            && s.pool.leaves == AcceptedCommitments(w, ledger, actions)
            && (KnownRoot(c, s.pool.leaves, p.root) <==>
                  p.root != 0 && PoolTree.IsRootOfRecentPrefix(c.H, c.zeros[0], c.levels, s.pool.leaves, p.root))
            && (Nullifiers(p) !! s.pool.spent <==> !Seen(w, ledger, actions, p))
            && MemberRoot(w, s) == RootOfLevel(c.H, Padded(Members(w, actions), c.zeros[0], Pow2(w.aspLevels)))
            && s.blocked.root == RootOf(Blocked(actions))
  {
    var s, c, p := Run(w, ledger, actions), w.setup, tx.proof;
    StateIsHistory(w, ledger, actions);
    PoolTree.RecentRootsExactly(c.H, c.zeros[0], c.levels, s.pool.leaves, p.root);
    SameSpent(p, s.pool.spent, AcceptedNullifiers(w, ledger, actions));
    RunTracksLists(w, ledger, actions);
    TopNodeIsMerkleRoot(c.H, c.zeros[0], Members(w, actions), w.aspLevels);
  }

  lemma {:induction false} StateRefused(c: Setup, s: State, memberRoot: U256, listRoot: U256, tx: Tx)
    requires ValidSetup(c)
    ensures var reason := FirstReason(c, s.ledger, tx, KnownRoot(c, s.leaves, tx.proof.root),
                                      !(Nullifiers(tx.proof) !! s.spent), memberRoot, listRoot, |s.leaves|);
            match Transact(c, s, memberRoot, listRoot, tx)
            case Ok(_) => reason == None
            case Err(e) => reason == Some(e)
  {
    SameCanonical(tx.proof);
    SameAmount(tx.ext.extAmount, tx.proof.publicAmount);
  }

  /** After any calls, a transaction is refused with exactly the error that the history gives, or accepted. */
  lemma {:induction false} RefusedExactly(w: World, ledger: Ledger, actions: seq<Action>, tx: Tx)
    requires ValidWorld(w)
    ensures IsPowerOfTwo(Pow2(w.aspLevels))
    ensures match Outcome(w, Run(w, ledger, actions), tx)
            case Ok(_) => Refusal(w, ledger, actions, tx) == None
            case Err(e) => Refusal(w, ledger, actions, tx) == Some(e)
  {
    var s := Run(w, ledger, actions);
    StateRefused(w.setup, s.pool, MemberRoot(w, s), w.word(s.blocked.root), tx);
    HistoryFacts(w, ledger, actions, tx);
  }

  /** Over a run: transaction `i` is accepted exactly when the calls before it give no reason to refuse it. */
  lemma {:induction false} AcceptedExactly(w: World, ledger: Ledger, actions: seq<Action>, i: nat)
    requires ValidWorld(w) && i < |actions| && actions[i].Submit?
    ensures IsPowerOfTwo(Pow2(w.aspLevels))
    ensures Accepted(w, ledger, actions, i) <==> Refusal(w, ledger, actions[..i], actions[i].tx) == None
  {
    RefusedExactly(w, ledger, actions[..i], actions[i].tx);
  }

  /** What any accepted transaction has in common: it is authorised and within the limits on amounts. */
  lemma {:induction false} AcceptedWithinLimits(w: World, ledger: Ledger, actions: seq<Action>, i: nat)
    requires ValidWorld(w) && i < |actions| && Accepted(w, ledger, actions, i)
    ensures var tx := actions[i].tx;
            tx.authorized && tx.ext.extAmount <= w.setup.maximumDeposit && -I128_MAX <= tx.ext.extAmount <= I128_MAX
  {
    AcceptedExactly(w, ledger, actions, i);
  }

  // ----- the list contracts -----

  /** Calls that need an authorisation they do not have. */
  predicate Unauthorized(actions: seq<Action>, a: Action) {
    match a
    case AddMember(auth, _) => !auth && AdminOnly(actions)
    case SetAdminOnly(auth, _) => !auth
    case Block(op) => !op.authorized
    case Submit(tx) => !tx.authorized
    case MoveTokens(_, _, _) => false
  }

  /** An unauthorised call is answered with an error and changes nothing at all. */
  lemma {:induction false} UnauthorizedChangesNothing(w: World, ledger: Ledger, actions: seq<Action>, a: Action)
    requires ValidWorld(w) && Unauthorized(actions, a)
    ensures !Succeeds(w, Run(w, ledger, actions), a)
    ensures Run(w, ledger, actions + [a]) == Run(w, ledger, actions)
  {
    RunTracksLists(w, ledger, actions);
    assert (actions + [a])[..|actions + [a]| - 1] == actions;
  }

  /** When calls of the list contracts succeed, in terms of the calls before. */
  lemma {:induction false} ListCallsSucceedExactly(w: World, ledger: Ledger, actions: seq<Action>, a: Action)
    requires ValidWorld(w)
    ensures var s := Run(w, ledger, actions);
            && (a.AddMember? ==> (Succeeds(w, s, a) <==>
                  (a.authorized || !AdminOnly(actions)) && |Members(w, actions)| < Pow2(w.aspLevels)
                  && a.leaf < BN254_MODULUS))
            && (a.SetAdminOnly? ==> (Succeeds(w, s, a) <==> a.authorized))
            && (a.Block? && a.op.Insert? ==> (Succeeds(w, s, a) <==>
                  a.op.authorized && a.op.key !in Blocked(actions)
                  && a.op.key < BN254_MODULUS && a.op.value < BN254_MODULUS))
            && (a.Block? && a.op.Delete? ==> (Succeeds(w, s, a) <==> a.op.authorized && a.op.key in Blocked(actions)))
  {
    RunTracksLists(w, ledger, actions);
    NonMembershipRuns.RunRefinesMap(BlockOps(actions));
  }

  function Opens(actions: seq<Action>): (r: seq<bool>)
    ensures |r| == |actions|
  {
    seq(|actions|, i requires 0 <= i < |actions| => actions[i] == SetAdminOnly(true, false))
  }

  function Closes(actions: seq<Action>): (r: seq<bool>)
    ensures |r| == |actions|
  {
    seq(|actions|, i requires 0 <= i < |actions| => actions[i] == SetAdminOnly(true, true))
  }

  /** Insertion is open to everyone exactly when an authorised call opened it and none has closed it since. */
  lemma {:induction false} OpenExactly(actions: seq<Action>)
    ensures !AdminOnly(actions) <==> exists i: nat :: NonMembershipRuns.Lingers(Opens(actions), Closes(actions), i)
  {
    if actions != [] {
      var n := |actions| - 1;
      var before := actions[..n];
      OpenExactly(before);
      assert Opens(actions)[..n] == Opens(before) && Closes(actions)[..n] == Closes(before);
      NonMembershipRuns.LingersStep(Opens(actions), Closes(actions), n);
    }
  }
}

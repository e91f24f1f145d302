/** The three contracts and the token together: every interleaving of their calls. */
module SystemRuns {
  import opened Words
  import opened MerkleReference
  import opened IncrementalMerkle
  import opened SparseTree
  import opened SparseEdits
  import opened PoolSpec
  import NonMembershipRuns
  import AspMembership
  import PoolTree
  import Groth16Verifier

  /** The deployment: the pool's setup, the depth of the membership tree, and digests as field elements. */
  datatype World = World(setup: Setup, aspLevels: nat, word: Digest -> U256)

  datatype System = System(members: seq<U256>, adminOnly: bool, blocked: Snapshot, pool: State)

  datatype Action =
    | AddMember(authorized: bool, leaf: U256)
    | SetAdminOnly(authorized: bool, adminOnly: bool)
    | Block(op: NonMembershipRuns.Op)
    | Submit(tx: Tx)
    | MoveTokens(from: Address, to: Address, amount: int)

  ghost predicate ValidWorld(w: World) {
    ValidSetup(w.setup) && 1 <= w.aspLevels <= 32
  }

  ghost function MemberRoot(w: World, s: System): U256
    requires ValidWorld(w)
  {
    NodeAt(w.setup.H, w.setup.zeros[0], s.members, w.aspLevels, 0)
  }

  ghost function Outcome(w: World, s: System, tx: Tx): Result<State, Error>
    requires ValidWorld(w)
  {
    Transact(w.setup, s.pool, MemberRoot(w, s), w.word(s.blocked.root), tx)
  }

  /** Token transfers that do not spend the pool's money; the pool only pays out through `transact`. */
  function TokensAfter(w: World, l: Ledger, from: Address, to: Address, amount: int): Ledger {
    if from == w.setup.self then l else
    match Transfer(l, from, to, amount)
    case None => l
    case Some(l') => l'
  }

  /** The members after one more call, whatever else happens in the system. */
  function MembersAfter(w: World, members: seq<U256>, adminOnly: bool, a: Action): seq<U256> {
    if a.AddMember? && AspMembership.InsertVerdict(w.aspLevels, |members|, adminOnly, a.authorized, a.leaf).Ok?
    then members + [a.leaf] else members
  }

  /** Whether only the admin may add members, after one more call. */
  function AdminOnlyAfter(adminOnly: bool, a: Action): bool {
    if a.SetAdminOnly? && a.authorized then a.adminOnly else adminOnly
  }

  ghost function Step(w: World, s: System, a: Action): System
    requires ValidWorld(w)
  {
    match a
    case AddMember(_, _) => s.(members := MembersAfter(w, s.members, s.adminOnly, a))
    case SetAdminOnly(_, _) => s.(adminOnly := AdminOnlyAfter(s.adminOnly, a))
    case Block(op) => s.(blocked := NonMembershipRuns.Step(s.blocked, op))
    case Submit(tx) => (match Outcome(w, s, tx) case Ok(p) => s.(pool := p) case Err(_) => s)
    case MoveTokens(from, to, amount) =>
      s.(pool := s.pool.(ledger := TokensAfter(w, s.pool.ledger, from, to, amount)))
  }

  /** Whether the contract that action `a` addresses answers without an error. */
  ghost predicate Succeeds(w: World, s: System, a: Action)
    requires ValidWorld(w)
  {
    match a
    case AddMember(auth, leaf) =>
      AspMembership.InsertVerdict(w.aspLevels, |s.members|, s.adminOnly, auth, leaf).Ok?
    case SetAdminOnly(auth, _) => auth
    case Block(op) => NonMembershipRuns.MapVerdict(Contents(s.blocked.root), op).Ok?
    case Submit(tx) => Outcome(w, s, tx).Ok?
    case MoveTokens(from, to, amount) => from != w.setup.self && Transfer(s.pool.ledger, from, to, amount).Some?
  }

  ghost function Run(w: World, ledger: Ledger, actions: seq<Action>): System
    requires ValidWorld(w)
  {
    if actions == [] then System([], true, Snapshot(Zero, {}), State([], {}, ledger, []))
    else Step(w, Run(w, ledger, actions[..|actions| - 1]), actions[|actions| - 1])
  }

  /** Action `i` is a transaction that the pool accepts when its turn comes. */
  ghost predicate Accepted(w: World, ledger: Ledger, actions: seq<Action>, i: nat)
    requires ValidWorld(w) && i < |actions|
  {
    actions[i].Submit? && Outcome(w, Run(w, ledger, actions[..i]), actions[i].tx).Ok?
  }

  /** The facts that acceptance of action `i` guarantees. */
  lemma {:induction false} FactsOf(w: World, ledger: Ledger, actions: seq<Action>, i: nat)
    requires ValidWorld(w) && i < |actions| && Accepted(w, ledger, actions, i)
    ensures var s, p := Run(w, ledger, actions[..i]), actions[i].tx.proof;
            && KnownRoot(w.setup, s.pool.leaves, p.root)
            && p.aspMembershipRoot == MemberRoot(w, s) && p.aspNonMembershipRoot == w.word(s.blocked.root)
            && w.setup.keccak(actions[i].tx.ext) % BN254_MODULUS == p.extDataHash
            && CalculatePublicAmount(actions[i].tx.ext.extAmount) == Ok(p.publicAmount)
            && Groth16Verifier.Verdict(w.setup.curve, w.setup.vk, p.proof, PublicInputs(p)).Ok?
            && Nullifiers(p) !! s.pool.spent && CanonicalInputs(p)
  {
    var s := Run(w, ledger, actions[..i]);
    AcceptedFacts(w.setup, s.pool, MemberRoot(w, s), w.word(s.blocked.root), actions[i].tx);
  }

  // ----- what the lists should be, computed from the actions alone -----

  function AdminOnly(actions: seq<Action>): bool {
    actions == [] || AdminOnlyAfter(AdminOnly(actions[..|actions| - 1]), actions[|actions| - 1])
  }

  function Members(w: World, actions: seq<Action>): seq<U256> {
    if actions == [] then [] else
    var before := actions[..|actions| - 1];
    MembersAfter(w, Members(w, before), AdminOnly(before), actions[|actions| - 1])
  }

  function BlockOps(actions: seq<Action>): seq<NonMembershipRuns.Op> {
    if actions == [] then []
    else BlockOps(actions[..|actions| - 1]) +
         (if actions[|actions| - 1].Block? then [actions[|actions| - 1].op] else [])
  }

  function Blocked(actions: seq<Action>): map<U256, U256> {
    NonMembershipRuns.MapRun(BlockOps(actions))
  }

  lemma {:induction false} RunTracksLists(w: World, ledger: Ledger, actions: seq<Action>)
    requires ValidWorld(w)
    ensures Run(w, ledger, actions).members == Members(w, actions)
    ensures Run(w, ledger, actions).adminOnly == AdminOnly(actions)
    ensures Run(w, ledger, actions).blocked == NonMembershipRuns.Run(BlockOps(actions))
    ensures Run(w, ledger, actions).blocked.root == RootOf(Blocked(actions))
  {
    if actions != [] {
      var before, a := actions[..|actions| - 1], actions[|actions| - 1];
      RunTracksLists(w, ledger, before);
      if a.Block? {
        assert BlockOps(actions)[..|BlockOps(actions)| - 1] == BlockOps(before);
      } else {
        assert BlockOps(actions) == BlockOps(before);
      }
    }
    NonMembershipRuns.RunRefinesMap(BlockOps(actions));
  }

  /**
   Every accepted transaction proves membership against the padded root of exactly the members added
   so far, and non-membership against the canonical root of the current blocklist.
   */
  lemma {:induction false} AcceptedTransactionsSeeCurrentLists(w: World, ledger: Ledger, actions: seq<Action>, i: nat)
    requires ValidWorld(w) && i < |actions| && Accepted(w, ledger, actions, i)
    ensures IsPowerOfTwo(Pow2(w.aspLevels))
    ensures var p := actions[i].tx.proof;
            && p.aspMembershipRoot
               == RootOfLevel(w.setup.H, Padded(Members(w, actions[..i]), w.setup.zeros[0], Pow2(w.aspLevels)))
            && p.aspNonMembershipRoot == w.word(RootOf(Blocked(actions[..i])))
  {
    var s, p := Run(w, ledger, actions[..i]), actions[i].tx.proof;
    assert p.aspMembershipRoot == MemberRoot(w, s) && p.aspNonMembershipRoot == w.word(s.blocked.root) by {
      FactsOf(w, ledger, actions, i);
    }
    RunTracksLists(w, ledger, actions[..i]);
    TopNodeIsMerkleRoot(w.setup.H, w.setup.zeros[0], Members(w, actions[..i]), w.aspLevels);
  }

  /** Every accepted transaction quotes the root of an even prefix of the commitments, at most 89 insertions old. */
  lemma {:induction false} AcceptedTransactionsQuoteARecentRoot(w: World, ledger: Ledger, actions: seq<Action>, i: nat)
    returns (n: nat)
    requires ValidWorld(w) && i < |actions| && Accepted(w, ledger, actions, i)
    ensures var leaves, c := Run(w, ledger, actions[..i]).pool.leaves, w.setup;
            && 2 * n <= |leaves| && |leaves| / 2 - n <= 89
            && IsPowerOfTwo(Pow2(c.levels))
            && actions[i].tx.proof.root == RootOfLevel(c.H, Padded(leaves[..2 * n], c.zeros[0], Pow2(c.levels)))
  {
    var leaves, c := Run(w, ledger, actions[..i]).pool.leaves, w.setup;
    assert KnownRoot(c, leaves, actions[i].tx.proof.root) by { FactsOf(w, ledger, actions, i); }
    n :| PoolTree.Recent(n, |leaves| / 2) && 2 * n <= |leaves|
         && PoolTree.RootAfter(c.H, c.zeros[0], c.levels, leaves, n) == actions[i].tx.proof.root;
    TopNodeIsMerkleRoot(c.H, c.zeros[0], leaves[..2 * n], c.levels);
  }

  /** With the deployed twelve-point key every accepted transaction spends exactly two notes. */
  lemma {:induction false} AcceptedTransactionsSpendTwoNotes(w: World, ledger: Ledger, actions: seq<Action>, i: nat)
    requires ValidWorld(w) && i < |actions| && Accepted(w, ledger, actions, i) && |w.setup.vk.ic| == 12
    ensures |actions[i].tx.proof.inputNullifiers| == 2
  {
    FactsOf(w, ledger, actions, i);
    TwelvePointsMeanTwoNullifiers(w.setup.curve, w.setup.vk, actions[i].tx.proof);
  }

  /** The public amount of an accepted transaction is the residue of its external amount, and determines it. */
  lemma {:induction false} AcceptedAmountsAreResidues(w: World, ledger: Ledger, actions: seq<Action>, i: nat,
                                                      other: I256)
    requires ValidWorld(w) && i < |actions| && Accepted(w, ledger, actions, i)
    ensures var tx := actions[i].tx;
            && -TWO_248 < tx.ext.extAmount < TWO_248
            && tx.proof.publicAmount == tx.ext.extAmount % BN254_MODULUS
            && (-TWO_248 < other < TWO_248 && tx.proof.publicAmount == other % BN254_MODULUS ==>
                  other == tx.ext.extAmount)
  {
    var ext := actions[i].tx.ext.extAmount;
    FactsOf(w, ledger, actions, i);
    if -TWO_248 < other < TWO_248 && actions[i].tx.proof.publicAmount == other % BN254_MODULUS {
      PublicAmountInjective(ext, other);
    }
  }

  /** No two transactions of the run have different external data with the same digest. */
  ghost predicate NoCollisions(w: World, actions: seq<Action>) {
    forall i, j :: 0 <= i < |actions| && 0 <= j < |actions| && actions[i].Submit? && actions[j].Submit?
      && w.setup.keccak(actions[i].tx.ext) % BN254_MODULUS == w.setup.keccak(actions[j].tx.ext) % BN254_MODULUS
      ==> actions[i].tx.ext == actions[j].tx.ext
  }

  /** One statement, one effect: accepted transactions with the same public inputs agree on amount and digest. */
  lemma {:induction false} PublicInputsBindExternalData(w: World, ledger: Ledger, actions: seq<Action>, i: nat, j: nat)
    requires ValidWorld(w) && i < |actions| && j < |actions|
    requires Accepted(w, ledger, actions, i) && Accepted(w, ledger, actions, j)
    requires PublicInputs(actions[i].tx.proof) == PublicInputs(actions[j].tx.proof)
    ensures var a, b := actions[i].tx.ext, actions[j].tx.ext;
            && w.setup.keccak(a) % BN254_MODULUS == w.setup.keccak(b) % BN254_MODULUS
            && a.extAmount == b.extAmount
            && (NoCollisions(w, actions) ==> a == b)
  {
    PublicInputsLayout(actions[i].tx.proof);
    PublicInputsLayout(actions[j].tx.proof);
    FactsOf(w, ledger, actions, i);
    FactsOf(w, ledger, actions, j);
    PublicAmountInjective(actions[i].tx.ext.extAmount, actions[j].tx.ext.extAmount);
  }

  // ----- no double spend -----

  lemma {:induction false} PrefixStep(w: World, ledger: Ledger, actions: seq<Action>, i: nat)
    requires ValidWorld(w) && i < |actions|
    ensures Run(w, ledger, actions[..i + 1]) == Step(w, Run(w, ledger, actions[..i]), actions[i])
  {
    assert actions[..i + 1][..|actions[..i + 1]| - 1] == actions[..i];
  }

  lemma {:induction false} StepKeepsSpent(w: World, s: System, a: Action)
    requires ValidWorld(w)
    ensures s.pool.spent <= Step(w, s, a).pool.spent
    ensures a.Submit? && Outcome(w, s, a.tx).Ok? ==> Nullifiers(a.tx.proof) <= Step(w, s, a).pool.spent
  {
    if a.Submit? && Outcome(w, s, a.tx).Ok? {
      AcceptedEffect(w.setup, s.pool, MemberRoot(w, s), w.word(s.blocked.root), a.tx);
    }
  }

  lemma {:induction false} SpentGrows(w: World, ledger: Ledger, actions: seq<Action>, i: nat, j: nat)
    requires ValidWorld(w) && i <= j <= |actions|
    ensures Run(w, ledger, actions[..i]).pool.spent <= Run(w, ledger, actions[..j]).pool.spent
    decreases j
  {
    if i < j {
      SpentGrows(w, ledger, actions, i, j - 1);
      PrefixStep(w, ledger, actions, j - 1);
      StepKeepsSpent(w, Run(w, ledger, actions[..j - 1]), actions[j - 1]);
    }
  }

  lemma {:induction false} SpentAfterAcceptance(w: World, ledger: Ledger, actions: seq<Action>, i: nat)
    requires ValidWorld(w) && i < |actions| && Accepted(w, ledger, actions, i)
    ensures Nullifiers(actions[i].tx.proof) <= Run(w, ledger, actions[..i + 1]).pool.spent
  {
    PrefixStep(w, ledger, actions, i);
    StepKeepsSpent(w, Run(w, ledger, actions[..i]), actions[i]);
  }

  /** Over any run, no nullifier of one accepted transaction equals one of another, not even modulo the field order. */
  lemma {:induction false} NoDoubleSpend(w: World, ledger: Ledger, actions: seq<Action>, i: nat, j: nat,
                                         a: U256, b: U256)
    requires ValidWorld(w) && i < j < |actions|
    requires Accepted(w, ledger, actions, i) && Accepted(w, ledger, actions, j)
    requires a in Nullifiers(actions[i].tx.proof) && b in Nullifiers(actions[j].tx.proof)
    ensures a % BN254_MODULUS != b % BN254_MODULUS
  {
    assert a in Run(w, ledger, actions[..j]).pool.spent by {
      SpentAfterAcceptance(w, ledger, actions, i);
      SpentGrows(w, ledger, actions, i + 1, j);
    }
    assert a < BN254_MODULUS by {
      FactsOf(w, ledger, actions, i);
      CanonicalNullifiers(actions[i].tx.proof, a);
    }
    assert b < BN254_MODULUS && a != b by {
      FactsOf(w, ledger, actions, j);
      CanonicalNullifiers(actions[j].tx.proof, b);
    }
    DistinctResidues(a, b);
  }

  // ----- value conservation -----

  /** The party on the other side of the pool: the sender of a deposit, the recipient of a withdrawal. */
  function CounterParty(tx: Tx): Address {
    if tx.ext.extAmount > 0 then tx.sender else tx.ext.recipient
  }

  /** What an accepted transaction moves into (or out of) the pool's balance. */
  function Flow(c: Setup, tx: Tx): int {
    Moved(CounterParty(tx), c.self, tx.ext.extAmount, c.self)
  }

  lemma {:induction false} TransactionFlow(w: World, s: System, tx: Tx)
    requires ValidWorld(w) && Outcome(w, s, tx).Ok?
    ensures Balance(Outcome(w, s, tx).value.ledger, w.setup.self)
         == Balance(s.pool.ledger, w.setup.self) + Flow(w.setup, tx)
  {
  }

  /** Plain token transfers can only add to the pool's balance. */
  ghost function Donations(w: World, ledger: Ledger, actions: seq<Action>): int
    requires ValidWorld(w)
  {
    if actions == [] then 0 else
    var before, a := actions[..|actions| - 1], actions[|actions| - 1];
    Donations(w, ledger, before) +
    if a.MoveTokens? && a.from != w.setup.self
       && Transfer(Run(w, ledger, before).pool.ledger, a.from, a.to, a.amount).Some?
    then Moved(a.from, a.to, a.amount, w.setup.self) else 0
  }

  /** The sum of the flows of the accepted transactions. */
  ghost function AcceptedFlows(w: World, ledger: Ledger, actions: seq<Action>): int
    requires ValidWorld(w)
  {
    if actions == [] then 0 else
    AcceptedFlows(w, ledger, actions[..|actions| - 1]) +
    if Accepted(w, ledger, actions, |actions| - 1) then Flow(w.setup, actions[|actions| - 1].tx) else 0
  }

  /** The sum of the external amounts of the accepted transactions. */
  ghost function AcceptedAmounts(w: World, ledger: Ledger, actions: seq<Action>): int
    requires ValidWorld(w)
  {
    if actions == [] then 0 else
    AcceptedAmounts(w, ledger, actions[..|actions| - 1]) +
    if Accepted(w, ledger, actions, |actions| - 1) then actions[|actions| - 1].tx.ext.extAmount else 0
  }

  /** The pool's balance is its first balance, plus the flows of all accepted transactions, plus direct gifts. */
  lemma {:induction false} ValueConservation(w: World, ledger: Ledger, actions: seq<Action>)
    requires ValidWorld(w)
    ensures Balance(Run(w, ledger, actions).pool.ledger, w.setup.self)
         == Balance(ledger, w.setup.self) + AcceptedFlows(w, ledger, actions) + Donations(w, ledger, actions)
    ensures Donations(w, ledger, actions) >= 0
  {
    if actions != [] {
      var n := |actions| - 1;
      ValueConservation(w, ledger, actions[..n]);
      if Accepted(w, ledger, actions, n) { TransactionFlow(w, Run(w, ledger, actions[..n]), actions[n].tx); }
    }
  }

  /** The pool's balance moves by the external amount unless the pool deals with itself. */
  predicate NoSelfDealing(c: Setup, tx: Tx) {
    tx.ext.extAmount == 0 || CounterParty(tx) != c.self
  }

  /** An accepted transaction changes the pool's balance by its external amount if and only if it is no self-dealing. */
  lemma {:induction false} BalanceMovesByTheAmount(w: World, s: System, tx: Tx)
    requires ValidWorld(w) && Outcome(w, s, tx).Ok?
    ensures Balance(Outcome(w, s, tx).value.ledger, w.setup.self)
            == Balance(s.pool.ledger, w.setup.self) + tx.ext.extAmount
            <==> NoSelfDealing(w.setup, tx)
  {
    TransactionFlow(w, s, tx);
  }

  /** Without self-dealing the balance changes by exactly the sum of the accepted external amounts, and direct gifts. */
  lemma {:induction false} BalanceIsSumOfAmounts(w: World, ledger: Ledger, actions: seq<Action>)
    requires ValidWorld(w)
    requires forall i: nat :: i < |actions| && Accepted(w, ledger, actions, i) ==> NoSelfDealing(w.setup, actions[i].tx)
    ensures Balance(Run(w, ledger, actions).pool.ledger, w.setup.self)
         == Balance(ledger, w.setup.self) + AcceptedAmounts(w, ledger, actions) + Donations(w, ledger, actions)
  {
    ValueConservation(w, ledger, actions);
    SumOfFlows(w, ledger, actions);
  }

  lemma {:induction false} SumOfFlows(w: World, ledger: Ledger, actions: seq<Action>)
    requires ValidWorld(w)
    requires forall i: nat :: i < |actions| && Accepted(w, ledger, actions, i) ==> NoSelfDealing(w.setup, actions[i].tx)
    ensures AcceptedFlows(w, ledger, actions) == AcceptedAmounts(w, ledger, actions)
  {
    if actions != [] {
      var n := |actions| - 1;
      var before := actions[..n];
      forall i: nat | i < |before| && Accepted(w, ledger, before, i)
        ensures NoSelfDealing(w.setup, before[i].tx)
      {
        assert before[..i] == actions[..i];
        assert Accepted(w, ledger, actions, i);
      }
      SumOfFlows(w, ledger, before);
    }
  }

  // ----- two transactions that the pool accepts -----

  /** A pool of two commitments, a twelve-point key and a verifier that accepts; its own address is 0. */
  function SampleWorld(): World {
    World(Setup((a, b) => 1, seq(33, _ => 1), 1, 0, 100,
                Groth16Verifier.Curve((a, b) => [], (a, k) => [], a => [], (a, b) => true),
                Groth16Verifier.VerificationKey([], [], [], [], seq(12, _ => [])), e => 0),
          1, d => 0)
  }

  /** User 7 spends the two nullifiers and moves `amount` to or from `recipient`. */
  function SampleTx(n0: U256, n1: U256, recipient: Address, amount: I256, publicAmount: U256): Tx {
    Tx(true, 7, Proof(Groth16Verifier.Groth16Proof([0], [0], [0]), 1, [n0, n1], 2, 3, publicAmount, 0, 1, 0),
       ExtData(recipient, amount, [], []))
  }

  lemma {:induction false} SampleChecks(n0: U256, n1: U256, recipient: Address, amount: I256, publicAmount: U256)
    requires n0 < BN254_MODULUS && n1 < BN254_MODULUS && CalculatePublicAmount(amount) == Ok(publicAmount)
    ensures var w, tx := SampleWorld(), SampleTx(n0, n1, recipient, amount, publicAmount);
            && ValidWorld(w) && NodeAt(w.setup.H, 1, [], 1, 0) == 1
            && Checks(w.setup, [], {}, 1, 0, tx).Ok?
  {
    var w, tx := SampleWorld(), SampleTx(n0, n1, recipient, amount, publicAmount);
    var c := w.setup;
    assert NodeAt(c.H, 1, [], 1, 0) == 1;
    assert PoolTree.RootAfter(c.H, 1, 1, [], 0) == 1 && PoolTree.Recent(0, 0);
    PublicInputsLayout(tx.proof);
  }

  /** A withdrawal of five to the pool itself is accepted and leaves the pool's balance at ten. */
  lemma {:induction false} SelfDealingMovesNothing()
    ensures var w, ledger := SampleWorld(), map[0 := 10];
            var tx := SampleTx(8, 9, 0, -5, BN254_MODULUS - 5);
            && ValidWorld(w) && Accepted(w, ledger, [Submit(tx)], 0)
            && tx.sender != w.setup.self && |w.setup.vk.ic| == 12
            && tx.ext.extAmount == -5 && CounterParty(tx) == w.setup.self
            && Balance(Run(w, ledger, [Submit(tx)]).pool.ledger, w.setup.self) == 10 == Balance(ledger, w.setup.self)
  {
    var w, ledger := SampleWorld(), map[0 := 10];
    var tx := SampleTx(8, 9, 0, -5, BN254_MODULUS - 5);
    var s, actions := Run(w, ledger, []), [Submit(tx)];
    assert actions[..0] == [];
    SampleChecks(8, 9, 0, -5, BN254_MODULUS - 5);
    assert Pow2(1) == 2;
    assert Outcome(w, s, tx).Ok?;
    TransactionFlow(w, s, tx);
  }

  // ----- nullifiers within one transaction -----

  /** No nullifier occurs twice. */
  predicate Distinct(ns: seq<U256>) {
    forall i, j :: 0 <= i < j < |ns| ==> ns[i] != ns[j]
  }

  function Elements(ns: seq<U256>): set<U256> {
    set i | 0 <= i < |ns| :: ns[i]
  }

  lemma {:induction false} ElementsSplit(front: seq<U256>, last: U256)
    ensures Elements(front + [last]) == Elements(front) + {last}
  {
    var ns, n := front + [last], |front|;
    forall x | x in Elements(ns) ensures x in Elements(front) + {last} {
      var i :| 0 <= i < |ns| && ns[i] == x;
      if i < n { assert front[i] == x; }
    }
    forall x | x in Elements(front) ensures x in Elements(ns) {
      var i :| 0 <= i < n && front[i] == x;
      assert ns[i] == x;
    }
    assert ns[n] == last;
  }

  lemma {:induction false} DistinctSplit(front: seq<U256>, last: U256)
    ensures Distinct(front + [last]) <==> Distinct(front) && last !in Elements(front)
  {
    var ns, n := front + [last], |front|;
    if last in Elements(front) {
      var i :| 0 <= i < n && front[i] == last;
      assert ns[i] == ns[n];
    } else if Distinct(ns) {
      forall i, j | 0 <= i < j < n ensures front[i] != front[j] { assert ns[i] != ns[j]; }
    }
  }

  lemma {:induction false} CountElements(ns: seq<U256>)
    ensures |Elements(ns)| <= |ns| && (|Elements(ns)| == |ns| <==> Distinct(ns))
  {
    if ns == [] {
      assert Elements(ns) == {};
    } else {
      var front, last := ns[..|ns| - 1], ns[|ns| - 1];
      assert ns == front + [last];
      CountElements(front);
      ElementsSplit(front, last);
      DistinctSplit(front, last);
      if last in Elements(front) { assert Elements(ns) == Elements(front); }
    }
  }

  /** An accepted transaction spends as many nullifiers as it lists exactly when it lists none twice. */
  lemma {:induction false} SpendsOneEach(w: World, s: System, tx: Tx)
    requires ValidWorld(w) && Outcome(w, s, tx).Ok?
    ensures |Outcome(w, s, tx).value.spent| == |s.pool.spent| + |tx.proof.inputNullifiers|
            <==> Distinct(tx.proof.inputNullifiers)
  {
    var memberRoot, listRoot := MemberRoot(w, s), w.word(s.blocked.root);
    AcceptedFacts(w.setup, s.pool, memberRoot, listRoot, tx);
    AcceptedEffect(w.setup, s.pool, memberRoot, listRoot, tx);
    CountElements(tx.proof.inputNullifiers);
    assert Nullifiers(tx.proof) == Elements(tx.proof.inputNullifiers);
  }

  /** The contract does not look for repetitions: this transaction lists nullifier 8 twice and is accepted. */
  lemma {:induction false} RepeatedNullifierAccepted()
    ensures var w, ledger, tx := SampleWorld(), map[0 := 10], SampleTx(8, 8, 7, 0, 0);
            && ValidWorld(w) && Accepted(w, ledger, [Submit(tx)], 0) && |w.setup.vk.ic| == 12
            && !Distinct(tx.proof.inputNullifiers) && Run(w, ledger, [Submit(tx)]).pool.spent == {8}
  {
    var w, ledger, tx := SampleWorld(), map[0 := 10], SampleTx(8, 8, 7, 0, 0);
    var s, actions := Run(w, ledger, []), [Submit(tx)];
    assert actions[..0] == [];
    SampleChecks(8, 8, 7, 0, 0);
    assert Pow2(1) == 2;
    assert Outcome(w, s, tx).Ok?;
    assert tx.proof.inputNullifiers[0] == tx.proof.inputNullifiers[1] == 8;
    assert Nullifiers(tx.proof) == {8};
  }

  // ----- the event log -----

  function Commitments(events: seq<Event>): seq<U256> {
    if events == [] then []
    else Commitments(events[..|events| - 1]) +
         (if events[|events| - 1].NewCommitment? then [events[|events| - 1].commitment] else [])
  }

  /** Each commitment event carries its own position among the commitments. */
  predicate Indexed(events: seq<Event>) {
    events == [] ||
    (Indexed(events[..|events| - 1]) &&
     (events[|events| - 1].NewCommitment? ==> events[|events| - 1].index == |Commitments(events[..|events| - 1])|))
  }

  lemma {:induction false} LogNullifiers(events: seq<Event>, ns: seq<U256>)
    ensures Commitments(events + NullifierEvents(ns)) == Commitments(events)
    ensures Indexed(events + NullifierEvents(ns)) == Indexed(events)
    decreases |ns|
  {
    var all := events + NullifierEvents(ns);
    if ns == [] {
      assert all == events;
    } else {
      LogNullifiers(events, ns[..|ns| - 1]);
      assert all[..|all| - 1] == events + NullifierEvents(ns[..|ns| - 1]);
      assert all[|all| - 1] == NewNullifier(ns[|ns| - 1]);
    }
  }

  lemma {:induction false} LogCommitment(events: seq<Event>, c: U256, index: nat, output: Bytes)
    ensures Commitments(events + [NewCommitment(c, index, output)]) == Commitments(events) + [c]
    ensures Indexed(events + [NewCommitment(c, index, output)]) <==> Indexed(events) && index == |Commitments(events)|
  {
    var all := events + [NewCommitment(c, index, output)];
    assert all[..|all| - 1] == events;
  }

  lemma {:induction false} LogTransaction(events: seq<Event>, leaves: seq<U256>, tx: Tx)
    requires Indexed(events) && Commitments(events) == leaves
    ensures var all := events + NullifierEvents(tx.proof.inputNullifiers) + CommitmentEvents(leaves, tx);
            Indexed(all) && Commitments(all) == leaves + [tx.proof.outputCommitment0, tx.proof.outputCommitment1]
  {
    var marked := events + NullifierEvents(tx.proof.inputNullifiers);
    var c0 := NewCommitment(tx.proof.outputCommitment0, |leaves|, tx.ext.encryptedOutput0);
    var c1 := NewCommitment(tx.proof.outputCommitment1, |leaves| + 1, tx.ext.encryptedOutput1);
    LogNullifiers(events, tx.proof.inputNullifiers);
    LogCommitment(marked, c0.commitment, c0.index, c0.encryptedOutput);
    LogCommitment(marked + [c0], c1.commitment, c1.index, c1.encryptedOutput);
    assert marked + [c0, c1] == marked + [c0] + [c1];
    assert leaves + [c0.commitment] + [c1.commitment] == leaves + [c0.commitment, c1.commitment];
  }

  lemma {:induction false} LoggedStep(w: World, s: System, tx: Tx)
    requires ValidWorld(w) && Outcome(w, s, tx).Ok?
    requires Indexed(s.pool.events) && Commitments(s.pool.events) == s.pool.leaves
    ensures Indexed(Outcome(w, s, tx).value.events)
    ensures Commitments(Outcome(w, s, tx).value.events) == Outcome(w, s, tx).value.leaves
  {
    AcceptedEffect(w.setup, s.pool, MemberRoot(w, s), w.word(s.blocked.root), tx);
    LogTransaction(s.pool.events, s.pool.leaves, tx);
  }

  /** Replaying the commitment events in index order through `merkle_root` gives the pool's current root. */
  lemma {:induction false} EventsReplayToTheRoot(w: World, ledger: Ledger, actions: seq<Action>)
    requires ValidWorld(w)
    ensures var s, c := Run(w, ledger, actions).pool, w.setup;
            && Indexed(s.events) && Commitments(s.events) == s.leaves
            && IsPowerOfTwo(Pow2(c.levels))
            && NodeAt(c.H, c.zeros[0], s.leaves, c.levels, 0)
               == RootOfLevel(c.H, Padded(Commitments(s.events), c.zeros[0], Pow2(c.levels)))
  {
    var s, c := Run(w, ledger, actions).pool, w.setup;
    if actions != [] {
      var before, a := actions[..|actions| - 1], actions[|actions| - 1];
      EventsReplayToTheRoot(w, ledger, before);
      var p := Run(w, ledger, before).pool;
      if a.Submit? && Outcome(w, Run(w, ledger, before), a.tx).Ok? {
        LoggedStep(w, Run(w, ledger, before), a.tx);
      }
    }
    TopNodeIsMerkleRoot(c.H, c.zeros[0], s.leaves, c.levels);
  }
}

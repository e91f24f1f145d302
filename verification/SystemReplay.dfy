/** The contract objects themselves, driven through a run of the whole system. */
module SystemReplay {
  import opened Words
  import opened MerkleReference
  import opened IncrementalMerkle
  import opened PoolSpec
  import opened SystemRuns
  import NonMembership
  import SparseTree
  import NonMembershipRuns
  import AspMembership
  import PoolTree
  import Pool

  datatype Contracts = Contracts(pool: Pool.PoolContract, tree: PoolTree.CommitmentTree, token: Pool.Token,
                                 asp: AspMembership.MembershipTree, blocklist: NonMembership.Blocklist)

  /** The objects are wired as deployed and hold the abstract state `s`. */
  ghost predicate Represents(k: Contracts, w: World, s: System)
    reads k.pool, k.tree, k.token, k.asp, k.blocklist
  {
    && ValidWorld(w)
    && k.pool.setup == w.setup && k.pool.word == w.word && k.pool.tree == k.tree && k.pool.token == k.token
    && k.pool.membership == k.asp && k.pool.blocklist == k.blocklist
    && k.pool.Valid() && k.pool.View() == s.pool
    && k.asp.H == w.setup.H && k.asp.levels == w.aspLevels && k.asp.Holds(w.setup.zeros, s.members)
    && k.asp.adminInsertOnly == s.adminOnly
    && k.blocklist.Valid() && k.blocklist.Snap() == s.blocked
  }

  /** Deployment succeeds exactly for the depths that both trees take. */
  method Deploy(w: World, ledger: Ledger) returns (r: Option<Contracts>)
    requires ZeroChain(w.setup.H, w.setup.zeros)
    ensures r.Some? <==> ValidWorld(w)
    ensures r.Some? ==> var k := r.value;
                        && fresh(k.pool) && fresh(k.tree) && fresh(k.token) && fresh(k.asp) && fresh(k.blocklist)
                        && Represents(k, w, Run(w, ledger, []))
  {
    var tree := new PoolTree.CommitmentTree(w.setup.H);
    var token := new Pool.Token(ledger);
    var asp := AspMembership.MembershipTree.Deploy(w.setup.H, w.setup.zeros, w.aspLevels);
    if asp.Err? { return None; }
    var blocklist := new NonMembership.Blocklist();
    var pool := new Pool.PoolContract(w.setup, w.word, tree, token, asp.value, blocklist);
    var made := pool.Initialize();
    if made.Err? { return None; }
    r := Some(Contracts(pool, tree, token, asp.value, blocklist));
  }

  method AddOneMember(k: Contracts, w: World, authorized: bool, leaf: U256, ghost s: System)
    returns (r: Result<(), AspMembership.Error>)
    requires Represents(k, w, s)
    modifies k.asp
    ensures Represents(k, w, Step(w, s, AddMember(authorized, leaf)))
    ensures r == AspMembership.InsertVerdict(w.aspLevels, |s.members|, s.adminOnly, authorized, leaf)
  {
    r := k.asp.InsertLeaf(authorized, leaf, w.setup.zeros, s.members);
  }

  method SwitchAdminOnly(k: Contracts, w: World, authorized: bool, adminOnly: bool, ghost s: System)
    returns (r: Result<(), AspMembership.Error>)
    requires Represents(k, w, s)
    modifies k.asp
    ensures Represents(k, w, Step(w, s, SetAdminOnly(authorized, adminOnly)))
    ensures r.Ok? <==> authorized
  {
    r := k.asp.SetAdminInsertOnly(authorized, adminOnly);
  }

  method ChangeBlocklist(k: Contracts, w: World, op: NonMembershipRuns.Op, ghost s: System)
    returns (r: Result<(), NonMembership.Error>)
    requires Represents(k, w, s)
    modifies k.blocklist
    ensures Represents(k, w, Step(w, s, Block(op)))
    ensures r == NonMembershipRuns.MapVerdict(SparseTree.Contents(s.blocked.root), op)
  {
    r := NonMembershipRuns.Call(k.blocklist, op);
  }

  method SubmitOne(k: Contracts, w: World, tx: Tx, ghost s: System) returns (r: Result<(), Error>)
    requires Represents(k, w, s)
    modifies k.pool, k.tree, k.token
    ensures Represents(k, w, Step(w, s, Submit(tx)))
    ensures r == match Outcome(w, s, tx) case Ok(_) => Ok(()) case Err(e) => Err(e)
  {
    assert k.asp.root == MemberRoot(w, s);
    r := k.pool.Invoke(tx);
  }

  method MoveSome(k: Contracts, w: World, from: Address, to: Address, amount: int, ghost s: System) returns (ok: bool)
    requires Represents(k, w, s)
    modifies k.token
    ensures Represents(k, w, Step(w, s, MoveTokens(from, to, amount)))
    ensures ok <==> Succeeds(w, s, MoveTokens(from, to, amount))
  {
    ok := false;
    if from != w.setup.self { ok := k.token.Transfer(from, to, amount); }
  }

  method Perform(k: Contracts, w: World, a: Action, ghost s: System) returns (ok: bool)
    requires Represents(k, w, s)
    modifies k.pool, k.tree, k.token, k.asp, k.blocklist
    ensures Represents(k, w, Step(w, s, a))
    ensures ok <==> Succeeds(w, s, a)
  {
    match a {
      case AddMember(authorized, leaf) =>
        var added := AddOneMember(k, w, authorized, leaf, s);
        ok := added.Ok?;
      case SetAdminOnly(authorized, adminOnly) =>
        var switched := SwitchAdminOnly(k, w, authorized, adminOnly, s);
        ok := switched.Ok?;
      case Block(op) =>
        var changed := ChangeBlocklist(k, w, op, s);
        ok := changed.Ok?;
      case Submit(tx) =>
        var accepted := SubmitOne(k, w, tx, s);
        ok := accepted.Ok?;
      case MoveTokens(from, to, amount) =>
        ok := MoveSome(k, w, from, to, amount, s);
    }
  }

  /** The root that is stored as the current one is `merkle_root` of the commitments in the stored event log. */
  ghost predicate LogGivesRoot(k: Contracts, w: World)
    reads k.pool, k.tree
  {
    && Indexed(k.pool.events)
    && |w.setup.zeros| > 0 && IsPowerOfTwo(Pow2(w.setup.levels))
    && k.tree.currentRootIndex.Some? && k.tree.currentRootIndex.value in k.tree.roots
    && k.tree.roots[k.tree.currentRootIndex.value]
       == RootOfLevel(w.setup.H, Padded(Commitments(k.pool.events), w.setup.zeros[0], Pow2(w.setup.levels)))
  }

  lemma {:induction false} StoredRoot(k: Contracts, w: World, ledger: Ledger, actions: seq<Action>)
    requires ValidWorld(w) && Represents(k, w, Run(w, ledger, actions))
    ensures LogGivesRoot(k, w)
  {
    var leaves := k.pool.leaves;
    EventsReplayToTheRoot(w, ledger, actions);
    k.tree.LastRootIsMerkleRoot(w.setup.zeros, leaves);
  }

  /** The answers are those of the abstract run; for transactions, Ok means accepted. */
  ghost predicate AnswersMatch(w: World, ledger: Ledger, actions: seq<Action>, answers: seq<bool>)
    requires ValidWorld(w)
  {
    && |answers| == |actions|
    && (forall i: nat :: i < |actions| ==> (answers[i] <==> Succeeds(w, Run(w, ledger, actions[..i]), actions[i])))
  }

  lemma {:induction false} OneMoreAnswer(w: World, ledger: Ledger, actions: seq<Action>, i: nat, answers: seq<bool>,
                                         ok: bool)
    requires ValidWorld(w) && i < |actions| && AnswersMatch(w, ledger, actions[..i], answers)
    requires ok <==> Succeeds(w, Run(w, ledger, actions[..i]), actions[i])
    ensures AnswersMatch(w, ledger, actions[..i + 1], answers + [ok])
  {
    var now, all := actions[..i + 1], answers + [ok];
    forall j: nat | j < |now| ensures all[j] <==> Succeeds(w, Run(w, ledger, now[..j]), now[j]) {
      assert now[..j] == actions[..j] && (j < i ==> actions[..i][..j] == actions[..j]);
    }
  }

  /** A submission was answered Ok exactly when it is accepted in the abstract run. */
  lemma {:induction false} OkMeansAccepted(w: World, ledger: Ledger, actions: seq<Action>, answers: seq<bool>, i: nat)
    requires ValidWorld(w) && AnswersMatch(w, ledger, actions, answers) && i < |actions| && actions[i].Submit?
    ensures answers[i] <==> Accepted(w, ledger, actions, i)
  {
  }

  /**
   After any interleaving the contracts hold exactly what the abstract run says, every answer on the way was
   the abstract run's, and the stored log gives the stored root.
   */
  method Drive(w: World, ledger: Ledger, actions: seq<Action>) returns (r: Option<Contracts>, answers: seq<bool>)
    requires ZeroChain(w.setup.H, w.setup.zeros)
    ensures r.Some? <==> ValidWorld(w)
    ensures r.Some? ==> Represents(r.value, w, Run(w, ledger, actions)) && LogGivesRoot(r.value, w)
    ensures r.Some? ==> AnswersMatch(w, ledger, actions, answers)
    ensures r.Some? ==> forall i: nat :: i < |actions| && actions[i].Submit? ==>
                          (answers[i] <==> Accepted(w, ledger, actions, i))
  {
    answers := [];
    r := Deploy(w, ledger);
    if r.None? { return; }
    var k := r.value;
    for i := 0 to |actions|
      invariant fresh(k.pool) && fresh(k.tree) && fresh(k.token) && fresh(k.asp) && fresh(k.blocklist)
      invariant Represents(k, w, Run(w, ledger, actions[..i]))
      invariant AnswersMatch(w, ledger, actions[..i], answers)
    {
      PrefixStep(w, ledger, actions, i);
      var ok := Perform(k, w, actions[i], Run(w, ledger, actions[..i]));
      OneMoreAnswer(w, ledger, actions, i, answers, ok);
      answers := answers + [ok];
    }
    assert actions[..|actions|] == actions;
    StoredRoot(k, w, ledger, actions);
    forall i: nat | i < |actions| && actions[i].Submit? ensures answers[i] <==> Accepted(w, ledger, actions, i) {
      OkMeansAccepted(w, ledger, actions, answers, i);
    }
  }
}

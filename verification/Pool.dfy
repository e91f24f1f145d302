/** The pool contract: checks, nullifier marking, token movements and tree insertion, under the host's rollback. */
module Pool {
  import opened Words
  import opened PoolSpec
  import PoolTree
  import AspMembership
  import NonMembership
  import SparseTree
  import Groth16Verifier
  import IncrementalMerkle

  class Token {
    var balances: Ledger

    constructor (balances: Ledger)
      ensures this.balances == balances
    {
      this.balances := balances;
    }

    method Transfer(from: Address, to: Address, amount: int) returns (ok: bool)
      modifies this
      ensures ok == PoolSpec.Transfer(old(balances), from, to, amount).Some?
      ensures balances == if ok then PoolSpec.Transfer(old(balances), from, to, amount).value else old(balances)
      ensures forall a :: Balance(balances, a)
                          == Balance(old(balances), a) + (if ok then Moved(from, to, amount, a) else 0)
    {
      var r := PoolSpec.Transfer(balances, from, to, amount);
      ok := r.Some?;
      if ok { balances := r.value; }
    }
  }

  method BuildPublicInputs(p: Proof) returns (inputs: seq<U256>)
    ensures inputs == PublicInputs(p)
  {
    inputs := [p.root, p.publicAmount, p.extDataHash];
    var n := |p.inputNullifiers|;
    for i := 0 to n
      invariant inputs == [p.root, p.publicAmount, p.extDataHash] + p.inputNullifiers[..i]
    {
      inputs := inputs + [p.inputNullifiers[i]];
    }
    inputs := inputs + [p.outputCommitment0] + [p.outputCommitment1];
    ghost var head := inputs;
    for i := 0 to n
      invariant inputs == head + Repeat(p.aspMembershipRoot, i)
    {
      inputs := inputs + [p.aspMembershipRoot];
    }
    ghost var body := inputs;
    for i := 0 to n
      invariant inputs == body + Repeat(p.aspNonMembershipRoot, i)
    {
      inputs := inputs + [p.aspNonMembershipRoot];
    }
    assert head == [p.root, p.publicAmount, p.extDataHash] + p.inputNullifiers
                   + [p.outputCommitment0, p.outputCommitment1];
  }

  method ValidatePublicInputs(p: Proof) returns (ok: bool)
    ensures ok == CanonicalInputs(p)
  {
    if p.root >= BN254_MODULUS || p.publicAmount >= BN254_MODULUS { return false; }
    for i := 0 to |p.inputNullifiers|
      invariant forall j :: 0 <= j < i ==> p.inputNullifiers[j] < BN254_MODULUS
    {
      if p.inputNullifiers[i] >= BN254_MODULUS { return false; }
    }
    ok := p.outputCommitment0 < BN254_MODULUS && p.outputCommitment1 < BN254_MODULUS
          && p.aspMembershipRoot < BN254_MODULUS && p.aspNonMembershipRoot < BN254_MODULUS;
  }

  /** `verify_proof`; an error of the verifier contract traps the caller. */
  method VerifyProof(c: Setup, p: Proof) returns (r: Result<(), Error>)
    ensures r == if p.proof.IsEmpty() then Err(InvalidProof)
                 else if !CanonicalInputs(p) then Err(NonCanonicalPublicInput)
                 else if Groth16Verifier.Verdict(c.curve, c.vk, p.proof, PublicInputs(p)).Err? then Err(HostTrap)
                 else Ok(())
  {
    if p.proof.IsEmpty() { return Err(InvalidProof); }
    var canonical := ValidatePublicInputs(p);
    if !canonical { return Err(NonCanonicalPublicInput); }
    var inputs := BuildPublicInputs(p);
    var verdict := Groth16Verifier.VerifyWithVk(c.curve, c.vk, p.proof, inputs);
    r := if verdict.Err? then Err(HostTrap) else Ok(());
  }

  class PoolContract {
    const setup: Setup
    const word: SparseTree.Digest -> U256
    const tree: PoolTree.CommitmentTree
    const token: Token
    const membership: AspMembership.MembershipTree
    const blocklist: NonMembership.Blocklist
    var nullifiers: Option<map<U256, bool>>
    var events: seq<Event>
    ghost var leaves: seq<U256>

    ghost predicate Valid()
      reads this, tree
    {
      && ValidSetup(setup)
      && tree.H == setup.H && tree.Holds(setup.zeros, leaves) && tree.levels == Some(setup.levels)
      && nullifiers.Some? && forall n :: n in nullifiers.value ==> nullifiers.value[n]
    }

    /** Nothing has been stored yet. */
    ghost predicate Blank()
      reads this, tree
    {
      nullifiers.None? && tree.Blank() && tree.H == setup.H && leaves == []
    }

    ghost function Spent(): set<U256>
      reads this
    {
      if nullifiers.Some? then nullifiers.value.Keys else {}
    }

    ghost function View(): State
      reads this, token
    {
      State(leaves, Spent(), token.balances, events)
    }

    constructor (setup: Setup, word: SparseTree.Digest -> U256, tree: PoolTree.CommitmentTree, token: Token,
                 membership: AspMembership.MembershipTree, blocklist: NonMembership.Blocklist)
      requires tree.H == setup.H && tree.Blank()
      ensures Blank() && events == []
      ensures this.setup == setup && this.word == word && this.tree == tree && this.token == token
      ensures this.membership == membership && this.blocklist == blocklist
    {
      this.setup, this.word, this.tree, this.token := setup, word, tree, token;
      this.membership, this.blocklist := membership, blocklist;
      nullifiers, events, leaves := None, [], [];
    }

    /** The contract's own constructor: it fails for the levels that the tree refuses. */
    method Initialize() returns (r: Result<(), Error>)
      requires Blank() && events == [] && IncrementalMerkle.ZeroChain(setup.H, setup.zeros)
      modifies this`nullifiers, tree
      ensures r == if 1 <= setup.levels <= 32 then Ok(()) else Err(WrongLevels)
      ensures r.Ok? ==> Valid() && View() == State([], {}, token.balances, [])
      ensures r.Err? ==> unchanged(tree)
    {
      nullifiers := Some(map[]);
      var made := tree.Init(setup.zeros, setup.levels);
      r := if made.Err? then Err(WrongLevels) else Ok(());
    }

    /** Both read the map of nullifiers and fail when it is not there. */
    function IsSpent(n: U256): (r: Result<bool, Error>)
      reads this
      ensures r.Err? <==> nullifiers.None?
      ensures Valid() ==> r == Ok(n in Spent())
    {
      if nullifiers.None? then Err(NotInitialized) else Ok(n in nullifiers.value && nullifiers.value[n])
    }

    method MarkSpent(n: U256) returns (r: Result<(), Error>)
      modifies this`nullifiers
      ensures r == if old(nullifiers).None? then Err(NotInitialized) else Ok(())
      ensures nullifiers == if r.Ok? then Some(old(nullifiers).value[n := true]) else None
    {
      if nullifiers.None? { return Err(NotInitialized); }
      nullifiers := Some(nullifiers.value[n := true]);
      r := Ok(());
    }

    /** The checks before anything is marked. */
    method RunChecks(tx: Tx) returns (r: Result<(), Error>)
      requires Valid()
      ensures r == Checks(setup, leaves, Spent(), membership.root, word(blocklist.root), tx)
    {
      var p := tx.proof;
      var known := tree.IsKnownRoot(p.root, setup.zeros, leaves);
      assert known == Ok(KnownRoot(setup, leaves, p.root));
      if !known.value { return Err(UnknownRoot); }
      for i := 0 to |p.inputNullifiers|
        invariant forall j :: 0 <= j < i ==> p.inputNullifiers[j] !in Spent()
      {
        var spent := IsSpent(p.inputNullifiers[i]);
        if spent.Err? { return Err(NotInitialized); }
        if spent.value {
          assert p.inputNullifiers[i] in Nullifiers(p);
          return Err(AlreadySpentNullifier);
        }
      }
      assert Nullifiers(p) !! Spent();
      if setup.keccak(tx.ext) % BN254_MODULUS != p.extDataHash { return Err(WrongExtHash); }
      var amount := CalculatePublicAmount(tx.ext.extAmount);
      if amount.Err? { return Err(amount.error); }
      if p.publicAmount != amount.value { return Err(WrongExtAmount); }
      if membership.root != p.aspMembershipRoot || word(blocklist.root) != p.aspNonMembershipRoot {
        return Err(InvalidProof);
      }
      r := VerifyProof(setup, p);
    }

    /** The loop drops the results of marking; none of them is ever an error. */
    method MarkAll(ns: seq<U256>)
      requires Valid()
      modifies this`nullifiers, this`events
      ensures Valid()
      ensures Spent() == old(Spent()) + (set i | 0 <= i < |ns| :: ns[i])
      ensures events == old(events) + NullifierEvents(ns)
    {
      for i := 0 to |ns|
        invariant Valid() && leaves == old(leaves)
        invariant Spent() == old(Spent()) + (set j | 0 <= j < i :: ns[j])
        invariant events == old(events) + NullifierEvents(ns[..i])
      {
        var dropped := MarkSpent(ns[i]);
        assert dropped == Ok(());
        events := events + [NewNullifier(ns[i])];
        assert NullifierEvents(ns[..i + 1]) == NullifierEvents(ns[..i]) + [NewNullifier(ns[i])];
      }
      assert ns[..|ns|] == ns;
    }

    /** The deposit of `transact`, before any check of the proof. */
    method TakeDeposit(tx: Tx) returns (r: Result<(), Error>)
      modifies token
      ensures match Deposit(setup, old(token.balances), tx)
              case Ok(l) => r == Ok(()) && token.balances == l
              case Err(e) => r == Err(e)
    {
      var ext: int := tx.ext.extAmount;
      if ext > 0 {
        if ext > setup.maximumDeposit { return Err(WrongExtAmount); }
        if ext > I128_MAX { return Err(WrongExtAmount); }
        var ok := token.Transfer(tx.sender, setup.self, ext);
        if !ok { return Err(HostTrap); }
      }
      r := Ok(());
    }

    method PayOut(tx: Tx) returns (r: Result<(), Error>)
      modifies token
      ensures match Withdraw(setup, old(token.balances), tx)
              case Ok(l) => r == Ok(()) && token.balances == l
              case Err(e) => r == Err(e)
    {
      var ext: int := tx.ext.extAmount;
      if ext < 0 {
        if -ext > I128_MAX { return Err(WrongExtAmount); }
        var ok := token.Transfer(setup.self, tx.ext.recipient, -ext);
        if !ok { return Err(HostTrap); }
      }
      r := Ok(());
    }

    /** Insert the two commitments and publish them with their indices. */
    method AddCommitments(tx: Tx) returns (r: Result<(), Error>)
      requires Valid()
      modifies tree, this`events, this`leaves
      ensures r == if |old(leaves)| + 2 > Pow2(setup.levels) then Err(MerkleTreeFull)
                   else if tx.proof.outputCommitment0 >= BN254_MODULUS || tx.proof.outputCommitment1 >= BN254_MODULUS
                   then Err(HostTrap) else Ok(())
      ensures r.Ok? ==> Valid() && leaves == old(leaves) + [tx.proof.outputCommitment0, tx.proof.outputCommitment1]
                        && events == old(events) + CommitmentEvents(old(leaves), tx)
      ensures r.Err? ==> unchanged(tree) && unchanged(this)
    {
      var inserted := tree.InsertTwoLeaves(tx.proof.outputCommitment0, tx.proof.outputCommitment1, setup.zeros, leaves);
      if inserted.Err? { return Err(if inserted.error.MerkleTreeFull? then MerkleTreeFull else HostTrap); }
      events := events + [NewCommitment(tx.proof.outputCommitment0, inserted.value.0, tx.ext.encryptedOutput0)]
                       + [NewCommitment(tx.proof.outputCommitment1, inserted.value.1, tx.ext.encryptedOutput1)];
      leaves := leaves + [tx.proof.outputCommitment0, tx.proof.outputCommitment1];
      r := Ok(());
    }

    /** The contract's own code; on an error it may leave changes behind for the host to undo. */
    method Execute(tx: Tx) returns (r: Result<(), Error>)
      requires Valid()
      modifies this, tree, token
      ensures var v := Transact(setup, old(View()), old(membership.root), word(old(blocklist.root)), tx);
              if v.Ok? then r == Ok(()) && View() == v.value && Valid()
              else r == Err(v.error) && unchanged(tree) && unchanged(this`leaves)
    {
      if !tx.authorized { return Err(HostTrap); }
      r := TakeDeposit(tx);
      if r.Err? { return; }
      r := RunChecks(tx);
      if r.Err? { return; }
      MarkAll(tx.proof.inputNullifiers);
      r := PayOut(tx);
      if r.Err? { return; }
      r := AddCommitments(tx);
    }

    /** One invocation as the host runs it: an error undoes every storage change. */
    method Invoke(tx: Tx) returns (r: Result<(), Error>)
      requires Valid()
      modifies this, tree, token
      ensures Valid()
      ensures var v := Transact(setup, old(View()), old(membership.root), word(old(blocklist.root)), tx);
              if v.Ok? then r == Ok(()) && View() == v.value else r == Err(v.error) && View() == old(View())
    {
      var savedNullifiers, savedEvents, savedBalances := nullifiers, events, token.balances;
      r := Execute(tx);
      if r.Err? {
        nullifiers, events, token.balances := savedNullifiers, savedEvents, savedBalances;
      }
    }
  }
}

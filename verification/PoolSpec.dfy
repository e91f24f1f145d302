/** One pool transaction: which inputs are accepted, what an accepted one changes, and why. */
module PoolSpec {
  import opened Words
  import opened IncrementalMerkle
  import PoolTree
  import Groth16Verifier

  datatype Error =
    | MerkleTreeFull | WrongExtAmount | InvalidProof | UnknownRoot | AlreadySpentNullifier | WrongExtHash
    | NotInitialized | NonCanonicalPublicInput | WrongLevels
    | HostTrap

  type Address = nat

  datatype ExtData = ExtData(recipient: Address, extAmount: I256, encryptedOutput0: Bytes, encryptedOutput1: Bytes)

  datatype Proof = Proof(proof: Groth16Verifier.Groth16Proof, root: U256, inputNullifiers: seq<U256>,
                         outputCommitment0: U256, outputCommitment1: U256, publicAmount: U256, extDataHash: U256,
                         aspMembershipRoot: U256, aspNonMembershipRoot: U256)

  datatype Tx = Tx(authorized: bool, sender: Address, proof: Proof, ext: ExtData)

  datatype Event = NewNullifier(nullifier: U256) | NewCommitment(commitment: U256, index: nat, encryptedOutput: Bytes)

  /** What is fixed when the pool is deployed, and the host functions it calls. */
  datatype Setup = Setup(H: (U256, U256) -> U256, zeros: seq<U256>, levels: nat, self: Address, maximumDeposit: U256,
                         curve: Groth16Verifier.Curve, vk: Groth16Verifier.VerificationKey, keccak: ExtData -> U256)

  ghost predicate ValidSetup(c: Setup) {
    1 <= c.levels <= 32 && ZeroChain(c.H, c.zeros)
  }

  // ----- amounts -----

  /** `calculate_public_amount`; negating the smallest 256-bit integer traps in the host. */
  function CalculatePublicAmount(ext: I256): (r: Result<U256, Error>)
    ensures r.Ok? <==> -TWO_248 < ext < TWO_248
    ensures r.Ok? ==> r.value == ext % BN254_MODULUS && r.value < BN254_MODULUS
  {
    if ext == -(TWO_256 / 2) then Err(HostTrap)
    else if (if ext >= 0 then ext else -ext) >= TWO_248 then Err(WrongExtAmount)
    else if ext >= 0 then Ok(ext)
    else Ok(BN254_MODULUS - (-ext))
  }

  /** Distinct external amounts have distinct public amounts: the sign cannot be confused. */
  lemma PublicAmountInjective(a: I256, b: I256)
    requires CalculatePublicAmount(a).Ok? && CalculatePublicAmount(a) == CalculatePublicAmount(b)
    ensures a == b
  {
  }

  // ----- public inputs -----

  function Repeat(x: U256, n: nat): (r: seq<U256>)
    ensures |r| == n && forall i :: 0 <= i < n ==> r[i] == x
  {
    seq(n, _ => x)
  }

  /** The verifier's input vector, in the order the circuit declares. */
  function PublicInputs(p: Proof): seq<U256> {
    var n := |p.inputNullifiers|;
    [p.root, p.publicAmount, p.extDataHash] + p.inputNullifiers + [p.outputCommitment0, p.outputCommitment1]
    + Repeat(p.aspMembershipRoot, n) + Repeat(p.aspNonMembershipRoot, n)
  }

  lemma PublicInputsLayout(p: Proof)
    ensures var n, v := |p.inputNullifiers|, PublicInputs(p);
            && |v| == 5 + 3 * n
            && v[0] == p.root && v[1] == p.publicAmount && v[2] == p.extDataHash
            && v[3..3 + n] == p.inputNullifiers
            && v[3 + n] == p.outputCommitment0 && v[4 + n] == p.outputCommitment1
            && v[5 + n..5 + 2 * n] == Repeat(p.aspMembershipRoot, n)
            && v[5 + 2 * n..] == Repeat(p.aspNonMembershipRoot, n)
  {
  }

  /** Unless there are no nullifiers, the vector determines the whole statement, the number of nullifiers included. */
  lemma PublicInputsInjective(p: Proof, q: Proof)
    requires p.inputNullifiers != [] && PublicInputs(p) == PublicInputs(q)
    ensures p == q.(proof := p.proof)
  {
    var n, v := |p.inputNullifiers|, PublicInputs(p);
    PublicInputsLayout(p);
    PublicInputsLayout(q);
    assert v[5 + n..5 + 2 * n][0] == p.aspMembershipRoot == q.aspMembershipRoot;
    assert v[5 + 2 * n..][0] == p.aspNonMembershipRoot == q.aspNonMembershipRoot;
  }

  /** Without nullifiers the two list roots are not in the vector at all. */
  lemma NoNullifiersNoRoots(p: Proof, memberRoot: U256, nonMemberRoot: U256)
    requires p.inputNullifiers == []
    ensures PublicInputs(p.(aspMembershipRoot := memberRoot, aspNonMembershipRoot := nonMemberRoot)) == PublicInputs(p)
  {
    assert Repeat(memberRoot, 0) == Repeat(p.aspMembershipRoot, 0) == [];
    assert Repeat(nonMemberRoot, 0) == Repeat(p.aspNonMembershipRoot, 0) == [];
  }

  /** A key with twelve points accepts transactions with exactly two nullifiers. */
  lemma TwelvePointsMeanTwoNullifiers(curve: Groth16Verifier.Curve, vk: Groth16Verifier.VerificationKey, p: Proof)
    requires |vk.ic| == 12 && Groth16Verifier.Verdict(curve, vk, p.proof, PublicInputs(p)).Ok?
    ensures |p.inputNullifiers| == 2
  {
    PublicInputsLayout(p);
    Groth16Verifier.AcceptedInputsFitTheKey(curve, vk, p.proof, PublicInputs(p));
  }

  predicate CanonicalInputs(p: Proof) {
    && p.root < BN254_MODULUS && p.publicAmount < BN254_MODULUS
    && (forall i :: 0 <= i < |p.inputNullifiers| ==> p.inputNullifiers[i] < BN254_MODULUS)
    && p.outputCommitment0 < BN254_MODULUS && p.outputCommitment1 < BN254_MODULUS
    && p.aspMembershipRoot < BN254_MODULUS && p.aspNonMembershipRoot < BN254_MODULUS
  }

  // ----- the token -----

  type Ledger = map<Address, int>

  function Balance(l: Ledger, a: Address): int {
    if a in l then l[a] else 0
  }

  /** What a transfer does to the balance of `a`; paying oneself does nothing. */
  function Moved(from: Address, to: Address, amount: int, a: Address): int {
    (if a == to then amount else 0) - (if a == from then amount else 0)
  }

  /** A token transfer moves exactly `amount`, or traps: a negative amount, too little money, too large a balance. */
  function Transfer(l: Ledger, from: Address, to: Address, amount: int): (r: Option<Ledger>)
    ensures r.None? <==> amount < 0 || Balance(l, from) < amount
                         || Balance(l, to) + Moved(from, to, amount, to) > I128_MAX
    ensures r.Some? ==> forall a :: Balance(r.value, a) == Balance(l, a) + Moved(from, to, amount, a)
  {
    if amount < 0 || Balance(l, from) < amount then None else
    var taken := l[from := Balance(l, from) - amount];
    if Balance(taken, to) + amount > I128_MAX then None else
    Some(taken[to := Balance(taken, to) + amount])
  }

  // ----- one transaction -----

  /** The part of the state a transaction may change. */
  datatype State = State(leaves: seq<U256>, spent: set<U256>, ledger: Ledger, events: seq<Event>)

  function Nullifiers(p: Proof): set<U256> {
    set i | 0 <= i < |p.inputNullifiers| :: p.inputNullifiers[i]
  }

  /** The deposit step of `transact`: the ledger it leaves behind. */
  function Deposit(c: Setup, l: Ledger, tx: Tx): Result<Ledger, Error> {
    if tx.ext.extAmount <= 0 then Ok(l)
    else if tx.ext.extAmount > c.maximumDeposit || tx.ext.extAmount > I128_MAX then Err(WrongExtAmount)
    else match Transfer(l, tx.sender, c.self, tx.ext.extAmount)
      case None => Err(HostTrap)
      case Some(l') => Ok(l')
  }

  /** The withdrawal step of `internal_transact`. */
  function Withdraw(c: Setup, l: Ledger, tx: Tx): Result<Ledger, Error> {
    var amount: int := tx.ext.extAmount;
    if amount >= 0 then Ok(l)
    else if -amount > I128_MAX then Err(WrongExtAmount)
    else match Transfer(l, c.self, tx.ext.recipient, -amount)
      case None => Err(HostTrap)
      case Some(l') => Ok(l')
  }

  ghost predicate KnownRoot(c: Setup, leaves: seq<U256>, root: U256)
    requires ValidSetup(c)
  {
    root != 0 && PoolTree.IsRecentRoot(c.H, c.zeros[0], c.levels, leaves, root)
  }

  /** The checks of `internal_transact` before it changes anything, in their order. */
  ghost function Checks(c: Setup, leaves: seq<U256>, spent: set<U256>, memberRoot: U256, nonMemberRoot: U256, tx: Tx):
    Result<(), Error>
    requires ValidSetup(c)
  {
    var p := tx.proof;
    if !KnownRoot(c, leaves, p.root) then Err(UnknownRoot)
    else if Nullifiers(p) !! spent then
      if c.keccak(tx.ext) % BN254_MODULUS != p.extDataHash then Err(WrongExtHash) else
      match CalculatePublicAmount(tx.ext.extAmount)
        case Err(e) => Err(e)
        case Ok(amount) =>
          if p.publicAmount != amount then Err(WrongExtAmount)
          else if memberRoot != p.aspMembershipRoot || nonMemberRoot != p.aspNonMembershipRoot then Err(InvalidProof)
          else if p.proof.IsEmpty() then Err(InvalidProof)
          else if !CanonicalInputs(p) then Err(NonCanonicalPublicInput)
          else if Groth16Verifier.Verdict(c.curve, c.vk, p.proof, PublicInputs(p)).Err? then Err(HostTrap)
          else Ok(())
    else Err(AlreadySpentNullifier)
  }

  function NullifierEvents(ns: seq<U256>): seq<Event> {
    seq(|ns|, i requires 0 <= i < |ns| => NewNullifier(ns[i]))
  }

  function CommitmentEvents(leaves: seq<U256>, tx: Tx): seq<Event> {
    [NewCommitment(tx.proof.outputCommitment0, |leaves|, tx.ext.encryptedOutput0),
     NewCommitment(tx.proof.outputCommitment1, |leaves| + 1, tx.ext.encryptedOutput1)]
  }

  /** `transact`: the new state, or the error that makes the host roll everything back. */
  ghost function Transact(c: Setup, s: State, memberRoot: U256, nonMemberRoot: U256, tx: Tx): Result<State, Error>
    requires ValidSetup(c)
  {
    if !tx.authorized then Err(HostTrap) else
    match Deposit(c, s.ledger, tx)
    case Err(e) => Err(e)
    case Ok(funded) =>
      var checks := Checks(c, s.leaves, s.spent, memberRoot, nonMemberRoot, tx);
      if checks.Err? then Err(checks.error) else
      match Withdraw(c, funded, tx)
      case Err(e) => Err(e)
      case Ok(paid) =>
        if |s.leaves| + 2 > Pow2(c.levels) then Err(MerkleTreeFull)
        else Ok(State(s.leaves + [tx.proof.outputCommitment0, tx.proof.outputCommitment1],
                      s.spent + Nullifiers(tx.proof), paid,
                      s.events + NullifierEvents(tx.proof.inputNullifiers) + CommitmentEvents(s.leaves, tx)))
  }

  /** What acceptance says: known root, current list roots, bound external data, canonical and unspent nullifiers. */
  lemma {:induction false} AcceptedFacts(c: Setup, s: State, memberRoot: U256, nonMemberRoot: U256, tx: Tx)
    requires ValidSetup(c) && Transact(c, s, memberRoot, nonMemberRoot, tx).Ok?
    ensures KnownRoot(c, s.leaves, tx.proof.root)
    ensures tx.proof.aspMembershipRoot == memberRoot && tx.proof.aspNonMembershipRoot == nonMemberRoot
    ensures c.keccak(tx.ext) % BN254_MODULUS == tx.proof.extDataHash
    ensures CalculatePublicAmount(tx.ext.extAmount) == Ok(tx.proof.publicAmount)
    ensures Groth16Verifier.Verdict(c.curve, c.vk, tx.proof.proof, PublicInputs(tx.proof)).Ok?
    ensures Nullifiers(tx.proof) !! s.spent && CanonicalInputs(tx.proof)
  {
    assert Checks(c, s.leaves, s.spent, memberRoot, nonMemberRoot, tx).Ok?;
  }

  /** What acceptance does to the state. */
  lemma {:induction false} AcceptedEffect(c: Setup, s: State, memberRoot: U256, nonMemberRoot: U256, tx: Tx)
    requires ValidSetup(c) && Transact(c, s, memberRoot, nonMemberRoot, tx).Ok?
    ensures var s' := Transact(c, s, memberRoot, nonMemberRoot, tx).value;
            && s'.spent == s.spent + Nullifiers(tx.proof)
            && s'.leaves == s.leaves + [tx.proof.outputCommitment0, tx.proof.outputCommitment1]
            && s'.events == s.events + NullifierEvents(tx.proof.inputNullifiers) + CommitmentEvents(s.leaves, tx)
  {
  }

  lemma {:induction false} CanonicalNullifiers(p: Proof, n: U256)
    requires CanonicalInputs(p) && n in Nullifiers(p)
    ensures n < BN254_MODULUS
  {
  }

  lemma {:induction false} DistinctResidues(a: U256, b: U256)
    requires a < BN254_MODULUS && b < BN254_MODULUS && a != b
    ensures a % BN254_MODULUS != b % BN254_MODULUS
  {
  }
}

/** Whole runs of the blocklist against the plain map it stands for. */
module NonMembershipRuns {
  import opened Words
  import opened KeyPaths
  import opened SparseTree
  import opened SparsePaths
  import opened SparseNodes
  import opened SparseEdits
  import opened NonMembership

  datatype Op = Insert(authorized: bool, key: U256, value: U256) | Delete(authorized: bool, key: U256)

  /** What a map answers to one call. */
  function MapVerdict(m: map<U256, U256>, op: Op): Result<(), Error> {
    match op
    case Insert(a, k, v) => InsertVerdict(m, a, k, v)
    case Delete(a, k) => DeleteVerdict(m, a, k)
  }

  function MapStep(m: map<U256, U256>, op: Op): map<U256, U256> {
    if MapVerdict(m, op).Err? then m
    else match op
      case Insert(_, k, v) => m[k := v]
      case Delete(_, k) => m - {k}
  }

  function MapRun(ops: seq<Op>): map<U256, U256> {
    if ops == [] then map[] else MapStep(MapRun(ops[..|ops| - 1]), ops[|ops| - 1])
  }

  function MapVerdicts(ops: seq<Op>): seq<Result<(), Error>> {
    if ops == [] then []
    else MapVerdicts(ops[..|ops| - 1]) + [MapVerdict(MapRun(ops[..|ops| - 1]), ops[|ops| - 1])]
  }

  /** The contract's storage after one call; a failed call changes nothing. */
  ghost function Step(s: Snapshot, op: Op): Snapshot {
    if MapVerdict(Contents(s.root), op).Err? then s
    else match op
      case Insert(_, k, v) => Inserted(s, k, v)
      case Delete(_, k) => Deleted(s, k)
  }

  ghost function Run(ops: seq<Op>): Snapshot {
    if ops == [] then Snapshot(Zero, {}) else Step(Run(ops[..|ops| - 1]), ops[|ops| - 1])
  }

  /** No call in the run promoted a leaf. */
  ghost predicate NoPromotion(ops: seq<Op>) {
    ops == [] ||
    (NoPromotion(ops[..|ops| - 1]) &&
     var op := ops[|ops| - 1];
     (op.Delete? && MapVerdict(MapRun(ops[..|ops| - 1]), op).Ok? ==>
        !Promotes(RootOf(MapRun(ops[..|ops| - 1])), op.key)))
  }

  lemma {:induction false} StepIsSound(s: Snapshot, op: Op)
    requires Sound(s)
    ensures Sound(Step(s, op))
    ensures Contents(Step(s, op).root) == MapStep(Contents(s.root), op)
  {
    if MapVerdict(Contents(s.root), op).Ok? {
      match op {
        case Insert(_, k, v) => InsertKeepsSound(s, k, v);
        case Delete(_, k) => DeleteKeepsSound(s, k);
      }
    }
  }

  /**
   After every run the storage is sound, holds exactly the map's contents, and its root is the
   canonical tree of that map: the order of the calls has left no trace in it.
   */
  lemma {:induction false} RunRefinesMap(ops: seq<Op>)
    ensures Sound(Run(ops))
    ensures Contents(Run(ops).root) == MapRun(ops)
    ensures Run(ops).root == RootOf(MapRun(ops))
  {
    if ops != [] {
      RunRefinesMap(ops[..|ops| - 1]);
      StepIsSound(Run(ops[..|ops| - 1]), ops[|ops| - 1]);
    }
    CanonicalIsUnique(Run(ops).root, []);
  }

  /** Two runs end at the same root exactly when they end at the same map. */
  lemma {:induction false} RootDependsOnContentsOnly(a: seq<Op>, b: seq<Op>)
    ensures Run(a).root == Run(b).root <==> MapRun(a) == MapRun(b)
  {
    RunRefinesMap(a);
    RunRefinesMap(b);
  }

  /** Inserting an absent key and deleting it again gives back the exact previous root. */
  lemma {:induction false} InsertThenDelete(ops: seq<Op>, key: U256, value: U256)
    requires InsertVerdict(MapRun(ops), true, key, value).Ok?
    ensures Run(ops + [Insert(true, key, value)] + [Delete(true, key)]).root == Run(ops).root
  {
    var once := ops + [Insert(true, key, value)];
    var twice := once + [Delete(true, key)];
    assert once[..|once| - 1] == ops && twice[..|twice| - 1] == once;
    assert MapRun(twice) == MapRun(ops)[key := value] - {key} == MapRun(ops);
    RootDependsOnContentsOnly(twice, ops);
  }

  // ----- what is stored besides the tree -----

  /** What becomes of garbage `g` when an accepted call turns tree `t` into tree `root`. */
  ghost function CarryOver(g: set<Digest>, t: Digest, root: Digest, op: Op): set<Digest> {
    match op
    case Insert(_, _, _) => g - Nodes(root)
    case Delete(_, k) => g - DeletedSpine(t, k) - Nodes(root) + LeftBehind(t, k)
  }

  /** The garbage after a run, computed from the maps alone. */
  ghost function Leftover(ops: seq<Op>): set<Digest> {
    if ops == [] then {} else
    var before, op := ops[..|ops| - 1], ops[|ops| - 1];
    if MapVerdict(MapRun(before), op).Err? then Leftover(before)
    else CarryOver(Leftover(before), RootOf(MapRun(before)), RootOf(MapRun(ops)), op)
  }

  lemma {:induction false} StepGarbage(s: Snapshot, op: Op)
    requires Sound(s) && MapVerdict(Contents(s.root), op).Ok?
    ensures Garbage(Step(s, op)) == CarryOver(Garbage(s), s.root, Step(s, op).root, op)
  {
    match op {
      case Insert(_, k, v) => InsertGarbage(s, k, v);
      case Delete(_, k) => DeleteGarbage(s, k);
    }
  }

  lemma {:induction false} GarbageIsLeftover(ops: seq<Op>)
    ensures Garbage(Run(ops)) == Leftover(ops)
  {
    if ops != [] {
      var before, op := ops[..|ops| - 1], ops[|ops| - 1];
      var s := Run(before);
      GarbageIsLeftover(before);
      RunRefinesMap(before);
      RunRefinesMap(ops);
      if MapVerdict(MapRun(before), op).Ok? { StepGarbage(s, op); }
    }
  }

  /** After every run the storage is the current tree and the leftover, which have no node in common. */
  lemma {:induction false} StorageIsTreeAndLeftover(ops: seq<Op>)
    ensures Run(ops).nodes == Nodes(RootOf(MapRun(ops))) + Leftover(ops)
    ensures Nodes(RootOf(MapRun(ops))) !! Leftover(ops)
    ensures Exact(Run(ops)) <==> Leftover(ops) == {}
  {
    RunRefinesMap(ops);
    GarbageIsLeftover(ops);
  }

  /** Call `i` was a deletion that promoted a leaf and left node `d` behind. */
  ghost predicate Leaves(ops: seq<Op>, i: nat, d: Digest)
    requires i < |ops|
  {
    && ops[i].Delete? && MapVerdict(MapRun(ops[..i]), ops[i]).Ok?
    && d in LeftBehind(RootOf(MapRun(ops[..i])), ops[i].key)
  }

  /** Call `i` took node `d` back into the tree, or removed it. */
  ghost predicate Clears(ops: seq<Op>, i: nat, d: Digest)
    requires i < |ops|
  {
    && MapVerdict(MapRun(ops[..i]), ops[i]).Ok?
    && (d in Nodes(RootOf(MapRun(ops[..i + 1])))
        || (ops[i].Delete? && d in DeletedSpine(RootOf(MapRun(ops[..i])), ops[i].key)))
  }

  ghost function LeaveTrace(ops: seq<Op>, d: Digest): (r: seq<bool>)
    ensures |r| == |ops|
  {
    seq(|ops|, i requires 0 <= i < |ops| => Leaves(ops, i, d))
  }

  ghost function ClearTrace(ops: seq<Op>, d: Digest): (r: seq<bool>)
    ensures |r| == |ops|
  {
    seq(|ops|, i requires 0 <= i < |ops| => Clears(ops, i, d))
  }

  /** It happens at `i`, and no later event undoes it. */
  predicate Lingers(happens: seq<bool>, undoes: seq<bool>, i: nat) {
    i < |happens| && happens[i] && forall j :: i < j < |undoes| ==> !undoes[j]
  }

  lemma {:induction false} LingersStep(happens: seq<bool>, undoes: seq<bool>, n: nat)
    requires |happens| == |undoes| == n + 1
    ensures (exists i: nat :: Lingers(happens, undoes, i)) <==>
            happens[n] || ((exists i: nat :: Lingers(happens[..n], undoes[..n], i)) && !undoes[n])
  {
    if happens[n] { assert Lingers(happens, undoes, n); }
    forall i: nat | i < n
      ensures Lingers(happens, undoes, i) <==> Lingers(happens[..n], undoes[..n], i) && !undoes[n]
    {
      assert forall j :: 0 <= j < n ==> undoes[..n][j] == undoes[j];
    }
  }

  lemma {:induction false} TracePrefix(ops: seq<Op>, n: nat, d: Digest)
    requires |ops| == n + 1
    ensures LeaveTrace(ops, d)[..n] == LeaveTrace(ops[..n], d)
    ensures ClearTrace(ops, d)[..n] == ClearTrace(ops[..n], d)
  {
    forall i: nat | i < n
      ensures Leaves(ops, i, d) == Leaves(ops[..n], i, d) && Clears(ops, i, d) == Clears(ops[..n], i, d)
    {
      assert ops[..n][..i] == ops[..i] && ops[..n][..i + 1] == ops[..i + 1];
    }
  }

  lemma {:induction false} LeftoverStep(ops: seq<Op>, n: nat, d: Digest)
    requires |ops| == n + 1
    ensures d in Leftover(ops) <==> Leaves(ops, n, d) || (d in Leftover(ops[..n]) && !Clears(ops, n, d))
  {
    assert ops[..n + 1] == ops;
  }

  /** Exactly those nodes are garbage that a promoting deletion left behind and no later call cleared. */
  lemma {:induction false} LeftoverHistory(ops: seq<Op>, d: Digest)
    ensures d in Leftover(ops) <==> exists i: nat :: Lingers(LeaveTrace(ops, d), ClearTrace(ops, d), i)
  {
    if ops != [] {
      var n := |ops| - 1;
      LeftoverHistory(ops[..n], d);
      LeftoverStep(ops, n, d);
      TracePrefix(ops, n, d);
      LingersStep(LeaveTrace(ops, d), ClearTrace(ops, d), n);
    }
  }

  /** A run without promotions leaves nothing behind. */
  lemma {:induction false} NoGarbageWithoutPromotion(ops: seq<Op>)
    requires NoPromotion(ops)
    ensures Exact(Run(ops))
  {
    NothingLeft(ops);
    StorageIsTreeAndLeftover(ops);
  }

  lemma {:induction false} NothingLeft(ops: seq<Op>)
    requires NoPromotion(ops)
    ensures Leftover(ops) == {}
  {
    if ops != [] { NothingLeft(ops[..|ops| - 1]); }
  }

  lemma {:induction false} TwoLeaves(v0: U256, v1: U256)
    ensures Canonical(Inner(Leaf(0, v0), Leaf(1, v1)), [])
    ensures RootOf(map[0 := v0, 1 := v1]) == Inner(Leaf(0, v0), Leaf(1, v1))
    ensures Promotes(Inner(Leaf(0, v0), Leaf(1, v1)), 0)
  {
    var t := Inner(Leaf(0, v0), Leaf(1, v1));
    assert KeyBits(0)[0] == false && KeyBits(1)[0] == true;
    assert Contents(t) == map[0 := v0, 1 := v1];
    CanonicalIsUnique(t, []);
    assert Siblings(t, KeyBits(0), 0) == [Leaf(1, v1)] + Siblings(Leaf(0, v0), KeyBits(0), 1);
  }

  lemma {:induction false} TwoInsertions(two: seq<Op>)
    requires two == [Insert(true, 0, 5), Insert(true, 1, 7)]
    ensures MapRun(two) == map[0 := 5, 1 := 7]
  {
    var one := [Insert(true, 0, 5)];
    assert one[..0] == [] && two[..1] == one;
    assert MapRun(one) == map[0 := 5];
  }

  /** Two insertions and one deletion are enough to leave an unreachable node behind. */
  lemma {:induction false} PromotionLeavesGarbage()
    ensures !Exact(Run([Insert(true, 0, 5), Insert(true, 1, 7), Delete(true, 0)]))
  {
    var two := [Insert(true, 0, 5), Insert(true, 1, 7)];
    var three := [Insert(true, 0, 5), Insert(true, 1, 7), Delete(true, 0)];
    assert three[..2] == two;
    TwoInsertions(two);
    RunRefinesMap(two);
    TwoLeaves(5, 7);
    DeleteGarbage(Run(two), 0);
  }

  /** Key 2 is absent from the list after key 1 got the value zero, and still its non-membership cannot be proved. */
  lemma {:induction false} ZeroValueBlocksProofs()
    ensures var root := Run([Insert(true, 1, 0)]).root;
            2 !in Contents(root) && forall siblings, k, v :: ProofVerdict(root, 2, siblings, k, v) != Ok(true)
  {
    var one := [Insert(true, 1, 0)];
    assert one[..0] == [];
    RunRefinesMap(one);
    assert MapRun(one) == map[1 := 0];
    CanonicalIsUnique(Leaf(1, 0), []);
    assert Contents(Leaf(1, 0)) == map[1 := 0];
  }

  // ----- the event log -----

  /** The events of a run: one for each accepted call, with the root it led to. */
  ghost function MapEvents(ops: seq<Op>): seq<Event> {
    if ops == [] then [] else
    var before, op := ops[..|ops| - 1], ops[|ops| - 1];
    if MapVerdict(MapRun(before), op).Err? then MapEvents(before)
    else MapEvents(before) + [match op
                              case Insert(_, k, v) => LeafInserted(k, v, RootOf(MapRun(ops)))
                              case Delete(_, k) => LeafDeleted(k, RootOf(MapRun(ops)))]
  }

  /** What a reader of the log takes the list to be. */
  function ReadEvents(events: seq<Event>): map<U256, U256> {
    if events == [] then map[] else
    var m := ReadEvents(events[..|events| - 1]);
    match events[|events| - 1]
    case LeafInserted(k, v, _) => m[k := v]
    case LeafDeleted(k, _) => m - {k}
  }

  /** Reading the log of any run gives the list as it is. */
  lemma {:induction false} EventsReadBack(ops: seq<Op>)
    ensures ReadEvents(MapEvents(ops)) == MapRun(ops)
  {
    if ops != [] {
      var before := ops[..|ops| - 1];
      EventsReadBack(before);
      if MapVerdict(MapRun(before), ops[|ops| - 1]).Ok? {
        assert MapEvents(ops)[..|MapEvents(ops)| - 1] == MapEvents(before);
      }
    }
  }

  /** One call of the contract is one step of the run. */
  method Call(c: Blocklist, op: Op) returns (r: Result<(), Error>)
    requires c.Valid()
    modifies c
    ensures c.Valid() && r == MapVerdict(old(c.Entries()), op)
    ensures c.Snap() == Step(old(c.Snap()), op) && c.Entries() == MapStep(old(c.Entries()), op)
    ensures c.events == if r.Err? then old(c.events)
                        else old(c.events) + [if op.Insert? then LeafInserted(op.key, op.value, c.root)
                                              else LeafDeleted(op.key, c.root)]
  {
    match op {
      case Insert(a, k, v) => r := c.InsertLeaf(a, k, v);
      case Delete(a, k) => r := c.DeleteLeaf(a, k);
    }
  }

  /** The contract itself, driven through a run: the map's verdicts, call by call, its root and its events. */
  method Replay(ops: seq<Op>) returns (c: Blocklist, verdicts: seq<Result<(), Error>>)
    ensures fresh(c) && c.Valid()
    ensures verdicts == MapVerdicts(ops)
    ensures c.Entries() == MapRun(ops) && c.root == RootOf(MapRun(ops)) && c.Snap() == Run(ops)
    ensures c.events == MapEvents(ops) && ReadEvents(c.events) == c.Entries()
  {
    c := new Blocklist();
    verdicts := [];
    for i := 0 to |ops|
      invariant fresh(c) && c.Valid()
      invariant verdicts == MapVerdicts(ops[..i])
      invariant c.Entries() == MapRun(ops[..i]) && c.Snap() == Run(ops[..i])
      invariant c.events == MapEvents(ops[..i])
    {
      assert ops[..i + 1][..|ops[..i + 1]| - 1] == ops[..i];
      var r := Call(c, ops[i]);
      RunRefinesMap(ops[..i + 1]);
      verdicts := verdicts + [r];
    }
    assert ops[..|ops|] == ops;
    RunRefinesMap(ops);
    EventsReadBack(ops);
  }
}

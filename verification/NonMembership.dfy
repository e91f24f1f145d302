/** The blocklist contract: a sparse Merkle tree kept node by node in a content-addressed store. */
module NonMembership {
  import opened Words
  import opened KeyPaths
  import opened SparseTree
  import opened SparsePaths
  import opened SparseNodes
  import opened SparseEdits

  /** `HostTrap` is a panic: a missing authorisation or a hash input outside the field. */
  datatype Error = KeyNotFound | KeyAlreadyExists | InvalidProof | HostTrap

  datatype NodeData =
    | LeafData(key: U256, value: U256)
    | InnerData(left: Digest, right: Digest)
    | MalformedData

  datatype FindResult = FindResult(found: bool, siblings: seq<Digest>, foundValue: U256,
                                   notFoundKey: U256, notFoundValue: U256, isOld0: bool)

  function DataOf(d: Digest): NodeData {
    match d
    case Leaf(k, v) => LeafData(k, v)
    case Inner(l, r) => InnerData(l, r)
    case Zero => MalformedData
    case Raw(_) => MalformedData
  }

  /** Content addressing: every entry is filed under the hash of its data. */
  ghost predicate Addressed(store: map<Digest, NodeData>) {
    forall d :: d in store ==> store[d] == DataOf(d)
  }

  /** Only field elements were ever hashed. */
  ghost predicate FieldMap(m: map<U256, U256>) {
    forall k :: k in m ==> k < BN254_MODULUS && m[k] < BN254_MODULUS
  }

  // ----- lookup -----

  function FindIn(store: map<Digest, NodeData>, key: U256, bits: seq<bool>, node: Digest, level: nat):
    Result<FindResult, Error>
    requires level <= |bits|
    decreases |bits| - level
  {
    if node.Zero? then Ok(FindResult(false, [], 0, key, 0, true))
    else if node !in store then Err(KeyNotFound)
    else match store[node]
      case LeafData(k, v) =>
        if k == key then Ok(FindResult(true, [], v, 0, 0, false)) else Ok(FindResult(false, [], 0, k, v, false))
      case InnerData(l, r) =>
        if level == |bits| then Err(KeyNotFound) else
        var next := FindIn(store, key, bits, if bits[level] then r else l, level + 1);
        if next.Err? then next else
        Ok(next.value.(siblings := [if bits[level] then l else r] + next.value.siblings))
      case MalformedData => Err(KeyNotFound)
  }

  /** What a lookup that ends at `end` reports. */
  function Report(key: U256, siblings: seq<Digest>, end: Digest): FindResult {
    if !end.Leaf? then FindResult(false, siblings, 0, key, 0, true)
    else if end.key == key then FindResult(true, siblings, end.value, 0, 0, false)
    else FindResult(false, siblings, 0, end.key, end.value, false)
  }

  lemma {:induction false} FindWalks(store: map<Digest, NodeData>, key: U256, bits: seq<bool>, t: Digest, level: nat)
    requires level <= |bits| == 256 && Addressed(store) && Nodes(t) <= store.Keys && Canonical(t, bits[..level])
    ensures FindIn(store, key, bits, t, level) == Ok(Report(key, Siblings(t, bits, level), End(t, bits, level)))
    decreases t
  {
    CanonicalContents(t, bits[..level]);
    if t.Inner? {
      assert bits[..level + 1] == bits[..level] + [bits[level]];
      assert t in Nodes(t);
      FindWalks(store, key, bits, Child(t, bits[level]), level + 1);
    } else if t.Leaf? {
      assert t in Nodes(t);
    }
  }

  /** A lookup in sound storage never fails and answers as the plain map would. */
  lemma {:induction false} FindRefinesMap(store: map<Digest, NodeData>, key: U256, root: Digest)
    requires Addressed(store) && Sound(Snapshot(root, store.Keys))
    ensures var r := FindIn(store, key, KeyBits(key), root, 0);
            && r == Ok(Report(key, PathSiblings(root, key), PathEnd(root, key)))
            && (r.value.found <==> key in Contents(root))
            && (r.value.found ==> r.value.foundValue == Contents(root)[key])
            && (!r.value.found && !r.value.isOld0 ==>
                  r.value.notFoundKey in Contents(root) && Contents(root)[r.value.notFoundKey] == r.value.notFoundValue)
            && (r.value.isOld0 ==> PathEnd(root, key).Zero?)
            && (r.value.isOld0 ==> !r.value.found && r.value.notFoundKey == key && r.value.notFoundValue == 0)
            && (!r.value.found && !r.value.isOld0 ==> r.value.notFoundKey != key)
  {
    var bits := KeyBits(key);
    assert bits[..0] == [];
    FindWalks(store, key, bits, root, 0);
    WalkFacts(root, bits, 0);
    WalkFinds(root, key);
    var end := PathEnd(root, key);
    if end.Leaf? { assert end.key in Contents(end); }
  }

  /** `store.set` of a node under its own hash. */
  function Filed(store: map<Digest, NodeData>, d: Digest): (r: map<Digest, NodeData>)
    ensures r.Keys == store.Keys + {d}
    ensures Addressed(store) ==> Addressed(r)
  {
    store[d := DataOf(d)]
  }

  /** `store.remove` of a node. */
  function Dropped(store: map<Digest, NodeData>, d: Digest): (r: map<Digest, NodeData>)
    ensures r.Keys == store.Keys - {d}
    ensures Addressed(store) ==> Addressed(r)
  {
    store - {d}
  }

  // ----- partial folds, as the loops build them -----

  lemma {:induction false} SuffixStep(bits: seq<bool>, i: nat, sibs: seq<Digest>, x: Digest)
    requires i < |sibs| <= |bits|
    ensures Fold(bits, i, sibs[i..], x) == Join(bits[i], Fold(bits, i + 1, sibs[i + 1..], x), sibs[i])
    ensures Spine(bits, i, sibs[i..], x) == {Fold(bits, i, sibs[i..], x)} + Spine(bits, i + 1, sibs[i + 1..], x)
  {
    assert sibs[i..][1..] == sibs[i + 1..];
  }

  lemma {:induction false} SpineSuffix(bits: seq<bool>, i: nat, sibs: seq<Digest>, x: Digest)
    requires i <= |sibs| <= |bits|
    ensures Spine(bits, i, sibs[i..], x) <= Spine(bits, 0, sibs, x)
    decreases i
  {
    if i == 0 {
      assert sibs[0..] == sibs;
    } else {
      SuffixStep(bits, i - 1, sibs, x);
      SpineSuffix(bits, i - 1, sibs, x);
    }
  }

  lemma {:induction false} OldNodeIsNotNew(bits: seq<bool>, i: nat, oldSibs: seq<Digest>, oldEnd: Digest,
                                           sibs: seq<Digest>, leaf: Digest)
    requires i < |oldSibs| <= |bits| && i < |sibs| <= |bits|
    requires Spine(bits, 0, oldSibs, oldEnd) !! {leaf} + Spine(bits, 0, sibs, leaf)
    ensures Fold(bits, i, oldSibs[i..], oldEnd)
         == Join(bits[i], Fold(bits, i + 1, oldSibs[i + 1..], oldEnd), oldSibs[i])
    ensures Spine(bits, i, oldSibs[i..], oldEnd)
         == {Fold(bits, i, oldSibs[i..], oldEnd)} + Spine(bits, i + 1, oldSibs[i + 1..], oldEnd)
    ensures Fold(bits, i, oldSibs[i..], oldEnd) !in {leaf} + Spine(bits, i + 1, sibs[i + 1..], leaf)
  {
    SuffixStep(bits, i, oldSibs, oldEnd);
    SpineSuffix(bits, i, oldSibs, oldEnd);
    SpineSuffix(bits, i + 1, sibs, leaf);
  }

  lemma {:induction false} DropStep(before: set<Digest>, removed: set<Digest>, added: set<Digest>, out: Digest)
    requires out !in added
    ensures before - removed + added - {out} == before - (removed + {out}) + added
  {
  }

  lemma {:induction false} FileStep(before: set<Digest>, removed: set<Digest>, added: set<Digest>, filed: Digest)
    ensures before - removed + added + {filed} == before - removed + (added + {filed})
  {
  }

  /** How the siblings of an insertion relate to those the lookup returned. */
  ghost predicate RebuildReady(bits: seq<bool>, oldSibs: seq<Digest>, sibs: seq<Digest>,
                               mixed: bool, rtOld: Digest, addedOne: bool, leaf: Digest)
  {
    && |oldSibs| <= |sibs| <= |bits| == 256
    && (if addedOne then !mixed && |oldSibs| < |sibs| else sibs == oldSibs && mixed == (sibs != []))
    && (forall j :: |oldSibs| <= j < |sibs| - 1 ==> sibs[j].Zero?)
    && (oldSibs != [] ==> !Last(oldSibs).Zero? && Last(oldSibs) == sibs[|oldSibs| - 1])
    && Spine(bits, 0, oldSibs, rtOld) !! {leaf} + Spine(bits, 0, sibs, leaf)
  }

  /** Below the old siblings only zeros and the pushed leaf follow, so the old path is dropped from its own end on. */
  lemma {:induction false} DropsExactlyTheOldPath(bits: seq<bool>, i: nat, oldSibs: seq<Digest>, sibs: seq<Digest>,
                                                  mixed: bool, rtOld: Digest, addedOne: bool, leaf: Digest)
    requires RebuildReady(bits, oldSibs, sibs, mixed, rtOld, addedOne, leaf) && i < |sibs|
    ensures var last := addedOne && i == |sibs| - 1;
            var mixed' := mixed || i + 1 < |oldSibs| || (!last && i < |sibs| - 1 && sibs[i] != Zero);
            && mixed' == (mixed || i < |oldSibs|)
            && (mixed' && !last <==> i < |oldSibs|)
  {
  }

  /** Where the rebuild stands once levels `i` and deeper are done. */
  ghost predicate Rebuilt(bits: seq<bool>, i: nat, oldSibs: seq<Digest>, oldEnd: Digest,
                          sibs: seq<Digest>, leaf: Digest, rt: Digest, rtOld: Digest,
                          removed: set<Digest>, added: set<Digest>)
    requires |oldSibs| <= |sibs| <= |bits| && i <= |sibs|
  {
    && rt == Fold(bits, i, sibs[i..], leaf)
    && added == {leaf} + Spine(bits, i, sibs[i..], leaf)
    && (if i <= |oldSibs|
        then rtOld == Fold(bits, i, oldSibs[i..], oldEnd) && removed == Spine(bits, i, oldSibs[i..], oldEnd)
        else rtOld == oldEnd && removed == {})
  }

  lemma {:induction false} RebuiltStep(bits: seq<bool>, i: nat, oldSibs: seq<Digest>, oldEnd: Digest,
                                       sibs: seq<Digest>, leaf: Digest,
                                       rt: Digest, rtOld: Digest, removed: set<Digest>, added: set<Digest>)
    requires |oldSibs| <= |sibs| <= |bits| && i < |sibs|
    requires Spine(bits, 0, oldSibs, oldEnd) !! {leaf} + Spine(bits, 0, sibs, leaf)
    requires Rebuilt(bits, i + 1, oldSibs, oldEnd, sibs, leaf, rt, rtOld, removed, added)
    ensures var rt' := Join(bits[i], rt, sibs[i]);
            if i < |oldSibs| then
              var rtOld' := Join(bits[i], rtOld, oldSibs[i]);
              && rtOld' !in added
              && Rebuilt(bits, i, oldSibs, oldEnd, sibs, leaf, rt', rtOld', removed + {rtOld'}, added + {rt'})
            else Rebuilt(bits, i, oldSibs, oldEnd, sibs, leaf, rt', rtOld, removed, added + {rt'})
    ensures Join(bits[i], rt, sibs[i]) !in removed
  {
    SuffixStep(bits, i, sibs, leaf);
    SpineSuffix(bits, i, sibs, leaf);
    if i < |oldSibs| {
      SpineSuffix(bits, i + 1, oldSibs, oldEnd);
      OldNodeIsNotNew(bits, i, oldSibs, oldEnd, sibs, leaf);
    } else {
      assert oldSibs[|oldSibs|..] == [];
    }
  }

  /** One level of the insertion loop, with every decision the loop makes at that level. */
  lemma {:induction false} InsertLevel(bits: seq<bool>, i: nat, oldSibs: seq<Digest>, sibs: seq<Digest>,
                                       mixed: bool, oldEnd: Digest, addedOne: bool, leaf: Digest,
                                       rt: Digest, rtOld: Digest, removed: set<Digest>, added: set<Digest>)
    requires RebuildReady(bits, oldSibs, sibs, mixed, oldEnd, addedOne, leaf) && i < |sibs|
    requires Rebuilt(bits, i + 1, oldSibs, oldEnd, sibs, leaf, rt, rtOld, removed, added)
    ensures var last := addedOne && i == |sibs| - 1;
            var mixed' := mixed || i + 1 < |oldSibs| || (!last && i < |sibs| - 1 && sibs[i] != Zero);
            mixed' == (mixed || i < |oldSibs|) && (mixed' && !last <==> i < |oldSibs|)
    ensures var rt' := Join(bits[i], rt, sibs[i]);
            if i < |oldSibs| then
              var rtOld' := Join(bits[i], rtOld, oldSibs[i]);
              && rtOld' !in added
              && Rebuilt(bits, i, oldSibs, oldEnd, sibs, leaf, rt', rtOld', removed + {rtOld'}, added + {rt'})
            else Rebuilt(bits, i, oldSibs, oldEnd, sibs, leaf, rt', rtOld, removed, added + {rt'})
  {
    DropsExactlyTheOldPath(bits, i, oldSibs, sibs, mixed, oldEnd, addedOne, leaf);
    RebuiltStep(bits, i, oldSibs, oldEnd, sibs, leaf, rt, rtOld, removed, added);
  }

  lemma {:induction false} InsertIsReady(t: Digest, key: U256, value: U256)
    requires Canonical(t, []) && key !in Contents(t)
    ensures RebuildReady(KeyBits(key), PathSiblings(t, key), InsertSiblings(t, key),
                         PathEnd(t, key).Zero? && PathSiblings(t, key) != [], PathEnd(t, key), PathEnd(t, key).Leaf?,
                         Leaf(key, value))
  {
    assert KeyBits(key)[..0] == [];
    WalkFacts(t, KeyBits(key), 0);
    InsertPathsApart(t, key, value);
  }

  /** The levels a deletion works through, and those where it files a new node. */
  function WorkSiblings(t: Digest, key: U256): seq<Digest> {
    if Promotes(t, key) then DropLast(PathSiblings(t, key)) else PathSiblings(t, key)
  }

  /** From the deepest level with a non-zero sibling on, and only from there, the new path is filed. */
  ghost predicate CollapseReady(bits: seq<bool>, sibs: seq<Digest>, kept: seq<Digest>, end: Digest, leaf: Digest) {
    && |kept| <= |sibs| <= |bits| == 256
    && kept == sibs[..|kept|]
    && (kept != [] ==> !Last(kept).Zero?)
    && (forall j :: |kept| <= j < |sibs| ==> sibs[j].Zero?)
    && Spine(bits, 0, kept, end) !! {leaf} + Spine(bits, 0, sibs, leaf)
  }

  lemma {:induction false} DeleteIsReady(t: Digest, key: U256)
    requires Canonical(t, []) && key in Contents(t)
    ensures CollapseReady(KeyBits(key), WorkSiblings(t, key), DeleteSiblings(t, key), DeleteEnd(t, key),
                          PathEnd(t, key))
  {
    assert KeyBits(key)[..0] == [];
    WalkFacts(t, KeyBits(key), 0);
    DeletePathsApart(t, key);
  }

  lemma {:induction false} DeletedByPaths(s: Snapshot, key: U256)
    requires Sound(s) && key in Contents(s.root)
    ensures |WorkSiblings(s.root, key)| <= 256 && |DeleteSiblings(s.root, key)| <= 256
    ensures var bits, leaf := KeyBits(key), PathEnd(s.root, key);
            var added := Spine(bits, 0, DeleteSiblings(s.root, key), DeleteEnd(s.root, key));
            Deleted(s, key) == Snapshot(Fold(bits, 0, DeleteSiblings(s.root, key), DeleteEnd(s.root, key)),
                                        s.nodes - ({leaf} + Spine(bits, 0, WorkSiblings(s.root, key), leaf)) + added)
  {
    DeleteTree(s.root, key);
  }

  /** The last sibling survives the removal of the leaf, and its entry tells whether it is a leaf. */
  lemma {:induction false} LastSiblingStored(store: map<Digest, NodeData>, t: Digest, key: U256)
    requires Addressed(store) && Sound(Snapshot(t, store.Keys)) && key in Contents(t) && PathSiblings(t, key) != []
    ensures Last(PathSiblings(t, key)) in store && Last(PathSiblings(t, key)) != PathEnd(t, key)
    ensures Promotes(t, key) <==> store[Last(PathSiblings(t, key))].LeafData?
    ensures !Promotes(t, key) <==> store[Last(PathSiblings(t, key))].InnerData?
  {
    var sibs := PathSiblings(t, key);
    assert KeyBits(key)[..0] == [];
    WalkFacts(t, KeyBits(key), 0);
    WalkFinds(t, key);
    LastCanonical(KeyBits(key), 0, sibs);
    PathNodes(t, key);
    assert sibs == DropLast(sibs) + [Last(sibs)];
    SibContentsAppend(DropLast(sibs), [Last(sibs)]);
    SingleSibling(Last(sibs));
    assert Last(sibs) in Nodes(Last(sibs));
  }

  lemma {:induction false} FieldMapGrows(m: map<U256, U256>, key: U256, value: U256)
    requires FieldMap(m) && key < BN254_MODULUS && value < BN254_MODULUS
    ensures FieldMap(m[key := value])
  {
  }

  lemma {:induction false} InsertedByPaths(s: Snapshot, key: U256, value: U256)
    requires Sound(s) && key !in Contents(s.root)
    requires FieldMap(Contents(s.root)) && key < BN254_MODULUS && value < BN254_MODULUS
    ensures var bits, leaf, sibs := KeyBits(key), Leaf(key, value), InsertSiblings(s.root, key);
            && |sibs| <= 256
            && Inserted(s, key, value)
               == Snapshot(Fold(bits, 0, sibs, leaf),
                           s.nodes - PathSpine(s.root, key) + {leaf} + Spine(bits, 0, sibs, leaf))
    ensures Sound(Inserted(s, key, value)) && FieldMap(Contents(Inserted(s, key, value).root))
    ensures Contents(Inserted(s, key, value).root) == Contents(s.root)[key := value]
  {
    InsertTree(s.root, key, value);
    InsertKeepsSound(s, key, value);
    FieldMapGrows(Contents(s.root), key, value);
  }

  /** The old path of an insertion never holds a node of the new path. */
  lemma {:induction false} InsertPathsApart(t: Digest, key: U256, value: U256)
    requires Canonical(t, []) && key !in Contents(t)
    ensures |InsertSiblings(t, key)| <= 256
    ensures PathSpine(t, key) !! {Leaf(key, value)} + Spine(KeyBits(key), 0, InsertSiblings(t, key), Leaf(key, value))
  {
    InsertTree(t, key, value);
    var root := RootOf(Contents(t)[key := value]);
    InsertRemovesOnlyThePath(t, key, value, root);
    PathNodes(root, key);
  }

  /** The paths a deletion removes and adds never meet. */
  lemma {:induction false} DeletePathsApart(t: Digest, key: U256)
    requires Canonical(t, []) && key in Contents(t)
    ensures |DeleteSiblings(t, key)| <= 256
    ensures DeletedSpine(t, key) + {PathEnd(t, key)}
         !! Spine(KeyBits(key), 0, DeleteSiblings(t, key), DeleteEnd(t, key))
  {
    DeleteTree(t, key);
    var root := RootOf(Contents(t) - {key});
    DeleteSafe(t, key, root, Nodes(t));
    DeleteNodes(t, key, root);
  }

  // ----- verdicts on the plain map -----

  function InsertVerdict(m: map<U256, U256>, authorized: bool, key: U256, value: U256): Result<(), Error> {
    if !authorized then Err(HostTrap)
    else if key in m then Err(KeyAlreadyExists)
    else if key >= BN254_MODULUS || value >= BN254_MODULUS then Err(HostTrap)
    else Ok(())
  }

  function DeleteVerdict(m: map<U256, U256>, authorized: bool, key: U256): Result<(), Error> {
    if !authorized then Err(HostTrap) else if key !in m then Err(KeyNotFound) else Ok(())
  }

  /** When a non-membership proof is accepted: it is the lookup's own answer, and a colliding leaf has a value. */
  function ProofVerdict(root: Digest, key: U256, siblings: seq<Digest>, notFoundKey: U256, notFoundValue: U256):
    Result<bool, Error>
  {
    var end := PathEnd(root, key);
    var answer := Report(key, PathSiblings(root, key), end);
    if key in Contents(root) then Ok(false)
    else if siblings == answer.siblings && notFoundKey == answer.notFoundKey && notFoundValue == answer.notFoundValue
            && (end.Leaf? ==> end.value != 0) then Ok(true)
    else Err(InvalidProof)
  }

  /** Where the verifier starts its fold: at the colliding leaf, unless its value is zero. */
  function ProofStart(key: U256, notFoundKey: U256, notFoundValue: U256): Digest {
    if notFoundKey != key && notFoundValue != 0 then Leaf(notFoundKey, notFoundValue) else Zero
  }

  /**
   Completeness of the verifier's fold: for an absent key, folding the lookup's own answer reaches the root
   exactly when no leaf of value zero stands in the key's place.
   */
  lemma {:induction false} OwnAnswerFoldsToRoot(root: Digest, key: U256)
    requires Canonical(root, []) && key !in Contents(root)
    ensures var end := PathEnd(root, key);
            var answer := Report(key, PathSiblings(root, key), end);
            Fold(KeyBits(key), 0, answer.siblings, ProofStart(key, answer.notFoundKey, answer.notFoundValue)) == root
            <==> (end.Leaf? ==> end.value != 0)
  {
    var bits, sibs, end := KeyBits(key), PathSiblings(root, key), PathEnd(root, key);
    var answer := Report(key, sibs, end);
    var start := ProofStart(key, answer.notFoundKey, answer.notFoundValue);
    assert bits[..0] == [];
    WalkFacts(root, bits, 0);
    WalkFinds(root, key);
    WalkOfFold(bits, 0, sibs, start);
  }

  /** Whoever folds zero or another key's leaf along the bits of `key` up to the root proves that `key` is absent. */
  lemma {:induction false} FoldProvesAbsence(root: Digest, key: U256, siblings: seq<Digest>, end: Digest)
    requires Canonical(root, []) && |siblings| <= 256 && Fold(KeyBits(key), 0, siblings, end) == root
    requires end.Zero? || (end.Leaf? && end.key != key)
    ensures key !in Contents(root)
    ensures siblings == PathSiblings(root, key) && end == PathEnd(root, key)
  {
    WalkOfFold(KeyBits(key), 0, siblings, end);
    WalkFinds(root, key);
  }

  /**
   What the verdict demands of the caller, said by the fold alone: a proof is accepted exactly when its siblings
   fold zero, or another key's leaf with a value, along the bits of the key to the root.
   */
  lemma {:induction false} ProofAcceptedExactly(root: Digest, key: U256, siblings: seq<Digest>, k: U256, v: U256)
    requires Canonical(root, [])
    ensures var start := if k != key && v != 0 then Leaf(k, v) else Zero;
            ProofVerdict(root, key, siblings, k, v) == Ok(true) <==>
            && |siblings| <= 256 && Fold(KeyBits(key), 0, siblings, start) == root
            && (start.Zero? ==> k == key && v == 0)
    ensures ProofVerdict(root, key, siblings, k, v) == Ok(false) <==> key in Contents(root)
  {
    var start := if k != key && v != 0 then Leaf(k, v) else Zero;
    WalkFinds(root, key);
    if |siblings| <= 256 && Fold(KeyBits(key), 0, siblings, start) == root {
      FoldProvesAbsence(root, key, siblings, start);
    }
    if key !in Contents(root) { OwnAnswerFoldsToRoot(root, key); }
  }

  datatype Event = LeafInserted(key: U256, value: U256, root: Digest) | LeafDeleted(key: U256, root: Digest)

  class Blocklist {
    var root: Digest
    var store: map<Digest, NodeData>
    var events: seq<Event>

    ghost function Snap(): Snapshot
      reads this
    {
      Snapshot(root, store.Keys)
    }

    ghost function Entries(): map<U256, U256>
      reads this
    {
      Contents(root)
    }

    ghost predicate Valid()
      reads this
    {
      Addressed(store) && Sound(Snap()) && FieldMap(Entries())
    }

    constructor ()
      ensures Valid() && Entries() == map[] && Snap() == Snapshot(Zero, {}) && events == []
    {
      root := Zero;
      store := map[];
      events := [];
    }

    method FindKey(key: U256) returns (r: Result<FindResult, Error>)
      requires Valid()
      ensures r == Ok(Report(key, PathSiblings(root, key), PathEnd(root, key)))
      ensures r.value.found <==> key in Entries()
      ensures r.value.found ==> r.value.foundValue == Entries()[key]
    {
      var bits := SplitBits(key);
      r := FindIn(store, key, bits, root, 0);
      FindRefinesMap(store, key, root);
    }

    method InsertLeaf(authorized: bool, key: U256, value: U256) returns (r: Result<(), Error>)
      requires Valid()
      modifies this
      ensures Valid()
      ensures r == InsertVerdict(old(Entries()), authorized, key, value)
      ensures r.Ok? ==> Entries() == old(Entries())[key := value] && Snap() == Inserted(old(Snap()), key, value)
      ensures r.Ok? ==> events == old(events) + [LeafInserted(key, value, root)]
      ensures r.Err? ==> unchanged(this)
    {
      if !authorized { return Err(HostTrap); }
      var bits := SplitBits(key);
      var lookup := FindIn(store, key, bits, root, 0);
      FindRefinesMap(store, key, root);
      var found := lookup.value;
      if found.found { return Err(KeyAlreadyExists); }

      ghost var t, before := root, store.Keys;
      var siblings, mixed, rtOld, addedOne := CollisionSiblings(bits, key, found);
      if key >= BN254_MODULUS || value >= BN254_MODULUS { return Err(HostTrap); }

      InsertIsReady(t, key, value);
      RebuildInserted(bits, found.siblings, siblings, mixed, rtOld, addedOne, key, value);
      InsertedByPaths(Snapshot(t, before), key, value);
      events := events + [LeafInserted(key, value, root)];
      r := Ok(());
    }

    /** The collision branch: the siblings of the new leaf, and where the old path starts. */
    method CollisionSiblings(bits: seq<bool>, key: U256, found: FindResult)
      returns (siblings: seq<Digest>, mixed: bool, rtOld: Digest, addedOne: bool)
      requires Valid() && key !in Entries() && bits == KeyBits(key)
      requires found == Report(key, PathSiblings(root, key), PathEnd(root, key))
      ensures siblings == InsertSiblings(root, key) && rtOld == PathEnd(root, key)
      ensures addedOne == PathEnd(root, key).Leaf?
      ensures mixed == (PathEnd(root, key).Zero? && PathSiblings(root, key) != [])
    {
      assert bits[..0] == [];
      WalkFacts(root, bits, 0);
      WalkFinds(root, key);
      siblings, mixed, rtOld, addedOne := found.siblings, false, Zero, false;
      if !found.isOld0 {
        siblings := ExtendSiblings(bits, found.siblings, found.notFoundKey);
        assert found.notFoundKey in Entries();
        assert found.notFoundKey < BN254_MODULUS && found.notFoundValue < BN254_MODULUS;
        rtOld := Leaf(found.notFoundKey, found.notFoundValue);
        siblings, addedOne := siblings + [rtOld], true;
      } else if siblings != [] {
        mixed := true;
      }
    }

    /** Zeros for the bits the new key shares with the colliding one. */
    method ExtendSiblings(bits: seq<bool>, siblings: seq<Digest>, otherKey: U256) returns (r: seq<Digest>)
      requires |siblings| <= |bits| == 256
      ensures r == siblings + Zeros(Shared(bits, KeyBits(otherKey), |siblings|))
    {
      var otherBits := SplitBits(otherKey);
      r := siblings;
      var i := |siblings|;
      while i < |otherBits| && i < |bits| && otherBits[i] == bits[i]
        invariant |siblings| <= i <= 256
        invariant r == siblings + Zeros(i - |siblings|)
        invariant Shared(bits, otherBits, |siblings|) == i - |siblings| + Shared(bits, otherBits, i)
      {
        r := r + [Zero];
        i := i + 1;
      }
    }

    /** The bottom-up loop of an insertion: file the new path, drop the old one. */
    method RebuildInserted(bits: seq<bool>, oldSiblings: seq<Digest>, siblings: seq<Digest>,
                           mixed0: bool, rtOld0: Digest, addedOne: bool, key: U256, value: U256)
      requires RebuildReady(bits, oldSiblings, siblings, mixed0, rtOld0, addedOne, Leaf(key, value))
      requires Addressed(store)
      modifies this`root, this`store
      ensures Addressed(store)
      ensures root == Fold(bits, 0, siblings, Leaf(key, value))
      ensures store.Keys == old(store.Keys) - Spine(bits, 0, oldSiblings, rtOld0)
                            + {Leaf(key, value)} + Spine(bits, 0, siblings, Leaf(key, value))
    {
      ghost var leaf, n, before := Leaf(key, value), |oldSiblings|, store.Keys;
      ghost var removed: set<Digest>, added: set<Digest> := {}, {leaf};
      var mixed, rtOld := mixed0, rtOld0;
      var rt := Leaf(key, value);
      store := Filed(store, rt);
      var i := |siblings|;
      while i > 0
        invariant 0 <= i <= |siblings|
        invariant Addressed(store) && store.Keys == before - removed + added
        invariant mixed == (mixed0 || i < n)
        invariant Rebuilt(bits, i, oldSiblings, rtOld0, siblings, leaf, rt, rtOld, removed, added)
      {
        i := i - 1;
        InsertLevel(bits, i, oldSiblings, siblings, mixed0, rtOld0, addedOne, leaf, rt, rtOld, removed, added);
        var sibling := siblings[i];
        var isLastAddedLeaf := addedOne && i == |siblings| - 1;
        if !isLastAddedLeaf && i < |siblings| - 1 && sibling != Zero {
          mixed := true;
        }
        if mixed && !isLastAddedLeaf {
          var oldSibling := if i < |oldSiblings| then oldSiblings[i] else Zero;
          rtOld := if bits[i] then Inner(oldSibling, rtOld) else Inner(rtOld, oldSibling);
          store := Dropped(store, rtOld);
          DropStep(before, removed, added, rtOld);
          removed := removed + {rtOld};
        }
        rt := if bits[i] then Inner(sibling, rt) else Inner(rt, sibling);
        store := Filed(store, rt);
        FileStep(before, removed, added, rt);
        added := added + {rt};
      }
      assert siblings[0..] == siblings && oldSiblings[0..] == oldSiblings;
      root := rt;
    }

    method DeleteLeaf(authorized: bool, key: U256) returns (r: Result<(), Error>)
      requires Valid()
      modifies this
      ensures Valid()
      ensures r == DeleteVerdict(old(Entries()), authorized, key)
      ensures r.Ok? ==> Entries() == old(Entries()) - {key} && Snap() == Deleted(old(Snap()), key)
      ensures r.Ok? ==> events == old(events) + [LeafDeleted(key, root)]
      ensures r.Err? ==> unchanged(this)
    {
      if !authorized { return Err(HostTrap); }
      var bits := SplitBits(key);
      var lookup := FindIn(store, key, bits, root, 0);
      FindRefinesMap(store, key, root);
      var found := lookup.value;
      if !found.found { return Err(KeyNotFound); }

      ghost var t, before := root, store.Keys;
      WalkFinds(t, key);
      DeleteIsReady(t, key);
      DeletedByPaths(Snapshot(t, before), key);
      DeleteKeepsSound(Snapshot(t, before), key);
      if found.siblings != [] { LastSiblingStored(store, t, key); }
      store := Dropped(store, Leaf(key, found.foundValue));
      var siblings, rtNew := found.siblings, Zero;
      if siblings != [] && store[Last(siblings)].LeafData? {
        siblings, rtNew := DropLast(siblings), Last(siblings);
      }
      RebuildDeleted(bits, siblings, rtNew, Leaf(key, found.foundValue), DeleteSiblings(t, key), before);
      events := events + [LeafDeleted(key, root)];
      r := Ok(());
    }

    /** The bottom-up loop of a deletion: drop the path of the leaf, file what is left of it. */
    method RebuildDeleted(bits: seq<bool>, siblings: seq<Digest>, end: Digest, leaf: Digest,
                          ghost kept: seq<Digest>, ghost before: set<Digest>)
      requires CollapseReady(bits, siblings, kept, end, leaf)
      requires Addressed(store) && store.Keys == before - {leaf}
      modifies this`root, this`store
      ensures Addressed(store)
      ensures root == Fold(bits, 0, kept, end)
      ensures store.Keys == before - ({leaf} + Spine(bits, 0, siblings, leaf)) + Spine(bits, 0, kept, end)
    {
      ghost var removed: set<Digest>, added: set<Digest> := {leaf}, {};
      var mixed, rtNew, rtOld := false, end, leaf;
      var i := |siblings|;
      while i > 0
        invariant 0 <= i <= |siblings|
        invariant Addressed(store) && store.Keys == before - removed + added
        invariant mixed == (i < |kept|)
        invariant Rebuilt(bits, i, kept, end, siblings, leaf, rtOld, rtNew, added, removed)
      {
        i := i - 1;
        RebuiltStep(bits, i, kept, end, siblings, leaf, rtOld, rtNew, added, removed);
        var sibling := siblings[i];
        rtOld := if bits[i] then Inner(sibling, rtOld) else Inner(rtOld, sibling);
        store := Dropped(store, rtOld);
        DropStep(before, removed, added, rtOld);
        removed := removed + {rtOld};
        if sibling != Zero { mixed := true; }
        if mixed {
          rtNew := if bits[i] then Inner(sibling, rtNew) else Inner(rtNew, sibling);
          store := Filed(store, rtNew);
          FileStep(before, removed, added, rtNew);
          added := added + {rtNew};
        }
      }
      assert siblings[0..] == siblings && kept[0..] == kept;
      root := rtNew;
    }

    method VerifyNonMembership(key: U256, siblings: seq<Digest>, notFoundKey: U256, notFoundValue: U256)
      returns (r: Result<bool, Error>)
      requires Valid()
      ensures r == ProofVerdict(root, key, siblings, notFoundKey, notFoundValue)
      ensures var start := if notFoundKey != key && notFoundValue != 0 then Leaf(notFoundKey, notFoundValue) else Zero;
              r == Ok(true) <==>
              && |siblings| <= 256 && Fold(KeyBits(key), 0, siblings, start) == root
              && (start.Zero? ==> notFoundKey == key && notFoundValue == 0)
      ensures r == Ok(false) <==> key in Entries()
    {
      ProofAcceptedExactly(root, key, siblings, notFoundKey, notFoundValue);
      var bits := SplitBits(key);
      var lookup := FindIn(store, key, bits, root, 0);
      FindRefinesMap(store, key, root);
      var found := lookup.value;
      if found.found { return Ok(false); }
      if |found.siblings| != |siblings| { return Err(InvalidProof); }
      for i := 0 to |siblings|
        invariant forall j :: 0 <= j < i ==> siblings[j] == found.siblings[j]
      {
        if siblings[i] != found.siblings[i] { return Err(InvalidProof); }
      }
      if found.notFoundKey != notFoundKey || found.notFoundValue != notFoundValue { return Err(InvalidProof); }
      assert siblings == found.siblings;

      var start := ProofStart(key, notFoundKey, notFoundValue);
      var computed := FoldUp(bits, siblings, start);
      OwnAnswerFoldsToRoot(root, key);
      r := if computed != root then Err(InvalidProof) else Ok(true);
    }

    /** Hash the start of a proof with its siblings, from the leaf end to the root. */
    method FoldUp(bits: seq<bool>, siblings: seq<Digest>, start: Digest) returns (computed: Digest)
      requires |siblings| <= |bits|
      ensures computed == Fold(bits, 0, siblings, start)
    {
      computed := start;
      var level := |siblings|;
      while level > 0
        invariant 0 <= level <= |siblings|
        invariant computed == Fold(bits, level, siblings[level..], start)
      {
        level := level - 1;
        SuffixStep(bits, level, siblings, start);
        computed := if bits[level] then Inner(siblings[level], computed) else Inner(computed, siblings[level]);
      }
      assert siblings[0..] == siblings;
    }
  }
}

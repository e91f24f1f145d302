/**
 What an insertion and a deletion do to the stored tree, said without the loops: the new root is
 the canonical tree of the new map, and the storage loses one path and gains another.
 */
module SparseEdits {
  import opened Words
  import opened KeyPaths
  import opened SparseTree
  import opened SparsePaths
  import opened SparseNodes

  /** The contract's storage: the root and the digests that have an entry. */
  datatype Snapshot = Snapshot(root: Digest, nodes: set<Digest>)

  /** Canonical root, and every node a lookup can reach is stored. */
  ghost predicate Sound(s: Snapshot) {
    && Canonical(s.root, [])
    && Nodes(s.root) <= s.nodes
    && forall d :: d in s.nodes ==> d.Leaf? || d.Inner?
  }

  /** Nothing but the current tree is stored. */
  ghost predicate Exact(s: Snapshot) {
    s.nodes == Nodes(s.root)
  }

  /** What is stored besides the current tree. */
  ghost function Garbage(s: Snapshot): set<Digest> {
    s.nodes - Nodes(s.root)
  }

  /** The root every tree with these contents must have. */
  ghost function RootOf(m: map<U256, U256>): Digest {
    CanonicalTree(m, [])
  }

  function PathSiblings(t: Digest, key: U256): (r: seq<Digest>)
    ensures |r| <= 256
  {
    Siblings(t, KeyBits(key), 0)
  }

  function PathEnd(t: Digest, key: U256): Digest {
    End(t, KeyBits(key), 0)
  }

  function PathSpine(t: Digest, key: U256): set<Digest> {
    Spine(KeyBits(key), 0, PathSiblings(t, key), PathEnd(t, key))
  }

  function Last<T>(s: seq<T>): T
    requires s != []
  {
    s[|s| - 1]
  }

  function DropLast<T>(s: seq<T>): seq<T>
    requires s != []
  {
    s[..|s| - 1]
  }

  ghost function Inserted(s: Snapshot, key: U256, value: U256): Snapshot {
    var root := RootOf(Contents(s.root)[key := value]);
    Snapshot(root, s.nodes - PathSpine(s.root, key) + {Leaf(key, value)} + PathSpine(root, key))
  }

  /** The leaf next to the deleted one takes over: the branch of `delete_leaf` that pops a sibling. */
  predicate Promotes(t: Digest, key: U256) {
    PathSiblings(t, key) != [] && Last(PathSiblings(t, key)).Leaf?
  }

  /** The path entries a deletion removes; after a promotion they are computed one level too short. */
  function DeletedSpine(t: Digest, key: U256): set<Digest> {
    if Promotes(t, key)
    then Spine(KeyBits(key), 0, DropLast(PathSiblings(t, key)), PathEnd(t, key))
    else PathSpine(t, key)
  }

  ghost function Deleted(s: Snapshot, key: U256): Snapshot {
    var root := RootOf(Contents(s.root) - {key});
    Snapshot(root, s.nodes - {PathEnd(s.root, key)} - DeletedSpine(s.root, key) + PathSpine(root, key))
  }

  // ----- walking a folded tree -----

  lemma {:induction false} WalkOfFold(bits: seq<bool>, i: nat, sibs: seq<Digest>, x: Digest)
    requires i + |sibs| <= |bits| && !x.Inner?
    ensures Siblings(Fold(bits, i, sibs, x), bits, i) == sibs
    ensures End(Fold(bits, i, sibs, x), bits, i) == x
    decreases |sibs|
  {
    if sibs != [] { WalkOfFold(bits, i + 1, sibs[1..], x); }
  }

  /** A fold along a key's bits that is canonical is the canonical root of its contents. */
  lemma {:induction false} FoldIsRoot(key: U256, sibs: seq<Digest>, x: Digest)
    requires |sibs| <= 256 && !x.Inner?
    requires SibsCanonical(KeyBits(key), 0, sibs) && Canonical(x, KeyBits(key)[..|sibs|]) && Anchored(sibs, x)
    ensures Fold(KeyBits(key), 0, sibs, x) == RootOf(SibContents(sibs) + Contents(x))
    ensures Canonical(RootOf(SibContents(sibs) + Contents(x)), [])
    ensures Contents(RootOf(SibContents(sibs) + Contents(x))) == SibContents(sibs) + Contents(x)
    ensures PathSiblings(RootOf(SibContents(sibs) + Contents(x)), key) == sibs
    ensures PathEnd(RootOf(SibContents(sibs) + Contents(x)), key) == x
  {
    var bits := KeyBits(key);
    assert bits[..0] == [];
    FoldCanonical(bits, 0, sibs, x);
    CanonicalIsUnique(Fold(bits, 0, sibs, x), []);
    WalkOfFold(bits, 0, sibs, x);
  }

  // ----- insertion -----

  /** How many bits two paths share from level `i` on. */
  function Shared(a: seq<bool>, b: seq<bool>, i: nat): (n: nat)
    requires i <= |a| == |b|
    ensures i + n <= |a|
    ensures forall j :: i <= j < i + n ==> a[j] == b[j]
    ensures i + n < |a| ==> a[i + n] != b[i + n]
    decreases |a| - i
  {
    if i < |a| && a[i] == b[i] then 1 + Shared(a, b, i + 1) else 0
  }

  function Zeros(n: nat): (r: seq<Digest>)
    ensures |r| == n && forall j :: 0 <= j < n ==> r[j] == Zero
  {
    seq(n, _ => Zero)
  }

  /** The siblings of the new leaf: a colliding leaf is pushed down past the shared bits. */
  function InsertSiblings(t: Digest, key: U256): seq<Digest> {
    var sibs, end := PathSiblings(t, key), PathEnd(t, key);
    if end.Leaf? then sibs + Zeros(Shared(KeyBits(key), KeyBits(end.key), |sibs|)) + [end] else sibs
  }

  lemma {:induction false} SibsCanonicalAppend(bits: seq<bool>, i: nat, a: seq<Digest>, b: seq<Digest>)
    requires i + |a| + |b| <= |bits| == 256
    ensures SibsCanonical(bits, i, a + b) <==> SibsCanonical(bits, i, a) && SibsCanonical(bits, i + |a|, b)
    decreases |a|
  {
    if a == [] {
      assert a + b == b;
    } else {
      assert (a + b)[1..] == a[1..] + b;
      SibsCanonicalAppend(bits, i + 1, a[1..], b);
    }
  }

  lemma {:induction false} SibContentsAppend(a: seq<Digest>, b: seq<Digest>)
    ensures SibContents(a + b) == SibContents(a) + SibContents(b)
    ensures SibNodes(a + b) == SibNodes(a) + SibNodes(b)
  {
    if a == [] {
      assert a + b == b;
    } else {
      assert (a + b)[1..] == a[1..] + b;
      SibContentsAppend(a[1..], b);
      MapAssoc(Contents(a[0]), SibContents(a[1..]), SibContents(b));
    }
  }

  lemma {:induction false} ZerosAreNeutral(bits: seq<bool>, i: nat, n: nat)
    requires i + n <= |bits| == 256
    ensures SibsCanonical(bits, i, Zeros(n)) && SibContents(Zeros(n)) == map[] && SibNodes(Zeros(n)) == {}
    decreases n
  {
    if n > 0 {
      assert Zeros(n)[1..] == Zeros(n - 1);
      ZerosAreNeutral(bits, i + 1, n - 1);
    }
  }

  /** The colliding leaf, pushed down to the first level where its key leaves the new key's path. */
  lemma {:induction false} PushedLeaf(bits: seq<bool>, n: nat, leaf: Digest)
    requires n <= |bits| == 256 && leaf.Leaf? && OnPath(bits[..n], leaf.key) && KeyBits(leaf.key) != bits
    ensures n + Shared(bits, KeyBits(leaf.key), n) < 256
    ensures var k := n + Shared(bits, KeyBits(leaf.key), n);
            Canonical(leaf, bits[..k] + [!bits[k]])
  {
    var other := KeyBits(leaf.key);
    var m := n + Shared(bits, other, n);
    forall j | 0 <= j < m ensures bits[j] == other[j] {
      if j < n { assert bits[..n][j] == other[j]; }
    }
    assert m == 256 ==> bits == other;
  }

  lemma {:induction false} SingleSibling(leaf: Digest)
    ensures SibContents([leaf]) == Contents(leaf) && SibNodes([leaf]) == Nodes(leaf)
  {
    assert [leaf][1..] == [];
    assert Contents(leaf) + map[] == Contents(leaf);
  }

  /** Zeros between the siblings and a deeper one add neither contents nor nodes. */
  lemma {:induction false} PaddedContents(sibs: seq<Digest>, n: nat, leaf: Digest)
    requires n <= 256
    ensures SibContents(sibs + Zeros(n) + [leaf]) == SibContents(sibs) + Contents(leaf)
    ensures SibNodes(sibs + Zeros(n) + [leaf]) == SibNodes(sibs) + Nodes(leaf)
  {
    ZerosAreNeutral(seq(256, _ => false), 0, n);
    SibContentsAppend(sibs, Zeros(n));
    SibContentsAppend(sibs + Zeros(n), [leaf]);
    SingleSibling(leaf);
    assert SibContents(sibs) + map[] == SibContents(sibs);
  }

  lemma {:induction false} PaddedCanonical(bits: seq<bool>, sibs: seq<Digest>, n: nat, leaf: Digest)
    requires |sibs| + n < |bits| == 256 && SibsCanonical(bits, 0, sibs)
    requires Canonical(leaf, bits[..|sibs| + n] + [!bits[|sibs| + n]])
    ensures SibsCanonical(bits, 0, sibs + Zeros(n) + [leaf])
  {
    ZerosAreNeutral(bits, |sibs|, n);
    SibsCanonicalAppend(bits, 0, sibs, Zeros(n));
    SibsCanonicalAppend(bits, 0, sibs + Zeros(n), [leaf]);
  }

  lemma {:induction false} CollidingLeaf(t: Digest, key: U256)
    requires Canonical(t, []) && key !in Contents(t) && PathEnd(t, key).Leaf?
    ensures var n, end := |PathSiblings(t, key)|, PathEnd(t, key);
            && OnPath(KeyBits(key)[..n], end.key) && KeyBits(end.key) != KeyBits(key)
            && SibsCanonical(KeyBits(key), 0, PathSiblings(t, key))
  {
    var bits, end := KeyBits(key), PathEnd(t, key);
    assert bits[..0] == [];
    WalkFacts(t, bits, 0);
    WalkFinds(t, key);
    if KeyBits(end.key) == bits { KeyBitsInjective(end.key, key); }
  }

  lemma {:induction false} InsertSiblingsFacts(t: Digest, key: U256)
    requires Canonical(t, []) && key !in Contents(t)
    ensures |InsertSiblings(t, key)| <= 256
    ensures SibsCanonical(KeyBits(key), 0, InsertSiblings(t, key))
    ensures Anchored(InsertSiblings(t, key), Leaf(key, 0))
    ensures SibContents(InsertSiblings(t, key)) == Contents(t)
    ensures SibNodes(InsertSiblings(t, key)) == SibNodes(PathSiblings(t, key)) + Nodes(PathEnd(t, key))
  {
    var bits, sibs, end := KeyBits(key), PathSiblings(t, key), PathEnd(t, key);
    if end.Leaf? {
      var n := Shared(bits, KeyBits(end.key), |sibs|);
      CollidingLeaf(t, key);
      PushedLeaf(bits, |sibs|, end);
      PaddedCanonical(bits, sibs, n, end);
      PaddedContents(sibs, n, end);
    } else {
      assert bits[..0] == [];
      WalkFacts(t, bits, 0);
      assert SibContents(sibs) + map[] == SibContents(sibs);
    }
    WalkFinds(t, key);
  }

  lemma {:induction false} LeafOnPath(key: U256, value: U256, n: nat)
    requires n <= 256
    ensures Canonical(Leaf(key, value), KeyBits(key)[..n])
  {
  }

  /** The bottom-up rebuild of an insertion reaches the canonical root of the extended map. */
  lemma {:induction false} InsertTree(t: Digest, key: U256, value: U256)
    requires Canonical(t, []) && key !in Contents(t)
    ensures |InsertSiblings(t, key)| <= 256
    ensures var root := RootOf(Contents(t)[key := value]);
            && Fold(KeyBits(key), 0, InsertSiblings(t, key), Leaf(key, value)) == root
            && Canonical(root, []) && Contents(root) == Contents(t)[key := value]
            && PathSiblings(root, key) == InsertSiblings(t, key) && PathEnd(root, key) == Leaf(key, value)
  {
    InsertSiblingsFacts(t, key);
    var sibs := InsertSiblings(t, key);
    LeafOnPath(key, value, |sibs|);
    assert SibContents(sibs) + Contents(Leaf(key, value)) == Contents(t)[key := value];
    FoldIsRoot(key, sibs, Leaf(key, value));
  }

  /** The nodes of a canonical tree, split along one path. */
  lemma {:induction false} PathNodes(t: Digest, key: U256)
    requires Canonical(t, [])
    ensures Nodes(t) == PathSpine(t, key) + SibNodes(PathSiblings(t, key)) + Nodes(PathEnd(t, key))
    ensures PathSpine(t, key) !! SibNodes(PathSiblings(t, key)) + Nodes(PathEnd(t, key))
    ensures forall d :: d in PathSpine(t, key) ==> d.Inner? && Contents(d).Keys <= Contents(t).Keys
    ensures forall d :: d in PathSpine(t, key) ==> Contents(PathEnd(t, key)).Keys <= Contents(d).Keys
  {
    var bits, sibs, end := KeyBits(key), PathSiblings(t, key), PathEnd(t, key);
    assert bits[..0] == [];
    WalkFacts(t, bits, 0);
    NodesOfFold(bits, 0, sibs, end);
    SpineApart(bits, 0, sibs, end);
    SpineKeys(bits, 0, sibs, end);
    FoldKeys(bits, 0, sibs, end);
  }

  /** `root` is `t` with the leaf of `key` put in. */
  ghost predicate Extension(t: Digest, key: U256, value: U256, root: Digest) {
    && Canonical(t, []) && key !in Contents(t) && Canonical(root, [])
    && PathSiblings(root, key) == InsertSiblings(t, key) && PathEnd(root, key) == Leaf(key, value)
  }

  /** The old path holds no node of the new tree. */
  lemma {:induction false} InsertRemovesOnlyThePath(t: Digest, key: U256, value: U256, root: Digest)
    requires Extension(t, key, value, root)
    ensures Nodes(root) == (Nodes(t) - PathSpine(t, key)) + {Leaf(key, value)} + PathSpine(root, key)
    ensures PathSpine(t, key) !! Nodes(root)
  {
    PathNodes(t, key);
    InsertSiblingsFacts(t, key);
    PathNodes(root, key);
    assert key in Contents(Leaf(key, value)).Keys;
    assert Nodes(Leaf(key, value)) == {Leaf(key, value)};
  }

  /** Insertion keeps storage sound, and free of garbage when it was. */
  lemma {:induction false} InsertKeepsSound(s: Snapshot, key: U256, value: U256)
    requires Sound(s) && key !in Contents(s.root)
    ensures Sound(Inserted(s, key, value))
    ensures Contents(Inserted(s, key, value).root) == Contents(s.root)[key := value]
    ensures Exact(s) ==> Exact(Inserted(s, key, value))
    ensures PathSpine(s.root, key) !! Nodes(Inserted(s, key, value).root)
  {
    InsertTree(s.root, key, value);
    var root := RootOf(Contents(s.root)[key := value]);
    InsertRemovesOnlyThePath(s.root, key, value, root);
    PathNodes(root, key);
  }

  lemma {:induction false} Exchanged<T>(nodes: set<T>, tree: set<T>, removed: set<T>, leaf: T, added: set<T>,
                                        after: set<T>)
    requires tree <= nodes && removed <= tree && after == tree - removed + {leaf} + added
    ensures nodes - removed + {leaf} + added == after + (nodes - tree)
    ensures (after + (nodes - tree)) - after == nodes - tree - after
  {
  }

  /** Insertion adds no garbage; it only takes old garbage back into use. */
  lemma {:induction false} InsertGarbage(s: Snapshot, key: U256, value: U256)
    requires Sound(s) && key !in Contents(s.root)
    ensures Inserted(s, key, value).nodes == Nodes(Inserted(s, key, value).root) + Garbage(s)
    ensures Garbage(Inserted(s, key, value)) == Garbage(s) - Nodes(Inserted(s, key, value).root)
  {
    var root := Inserted(s, key, value).root;
    assert Nodes(root) == Nodes(s.root) - PathSpine(s.root, key) + {Leaf(key, value)} + PathSpine(root, key) by {
      InsertTree(s.root, key, value);
      InsertRemovesOnlyThePath(s.root, key, value, root);
    }
    assert PathSpine(s.root, key) <= Nodes(s.root) by { PathNodes(s.root, key); }
    Exchanged(s.nodes, Nodes(s.root), PathSpine(s.root, key), Leaf(key, value), PathSpine(root, key), Nodes(root));
  }

  // ----- deletion -----

  /** Siblings without the zeros at the deep end. */
  function Trim(sibs: seq<Digest>): (r: seq<Digest>)
    ensures |r| <= |sibs| && r == sibs[..|r|]
    ensures r != [] ==> !Last(r).Zero?
    ensures forall j :: |r| <= j < |sibs| ==> sibs[j].Zero?
  {
    if sibs == [] then [] else if Last(sibs).Zero? then Trim(DropLast(sibs)) else sibs
  }

  /** The siblings and the end of the path once the key is gone. */
  function DeleteSiblings(t: Digest, key: U256): (r: seq<Digest>) {
    var sibs := PathSiblings(t, key);
    if Promotes(t, key) then Trim(DropLast(sibs)) else sibs
  }

  function DeleteEnd(t: Digest, key: U256): Digest {
    if Promotes(t, key) then Last(PathSiblings(t, key)) else Zero
  }

  lemma {:induction false} TrimSplit(sibs: seq<Digest>)
    ensures sibs == Trim(sibs) + Zeros(|sibs| - |Trim(sibs)|)
  {
  }

  lemma {:induction false} PromotedLeaf(bits: seq<bool>, n: nat, m: nat, leaf: Digest)
    requires m <= n < |bits| == 256 && leaf.Leaf? && Canonical(leaf, bits[..n] + [!bits[n]])
    ensures Canonical(leaf, bits[..m])
  {
    var q := bits[..n] + [!bits[n]];
    forall j | 0 <= j < m ensures bits[..m][j] == KeyBits(leaf.key)[j] { assert q[j] == KeyBits(leaf.key)[j]; }
  }

  lemma {:induction false} PromotedSiblings(bits: seq<bool>, sibs: seq<Digest>)
    requires sibs != [] && |sibs| <= |bits| == 256 && SibsCanonical(bits, 0, sibs) && Last(sibs).Leaf?
    ensures var kept := Trim(DropLast(sibs));
            && SibsCanonical(bits, 0, kept) && Canonical(Last(sibs), bits[..|kept|])
            && SibContents(sibs) == SibContents(kept) + Contents(Last(sibs))
            && SibNodes(sibs) == SibNodes(kept) + Nodes(Last(sibs))
  {
    var leaf, kept := Last(sibs), Trim(DropLast(sibs));
    var n := |sibs| - 1 - |kept|;
    var tail := Zeros(n) + [leaf];
    assert sibs == kept + tail && sibs == kept + Zeros(n) + [leaf] by { TrimSplit(DropLast(sibs)); }
    assert SibsCanonical(bits, 0, kept) by { SibsCanonicalAppend(bits, 0, kept, tail); }
    PaddedContents(kept, n, leaf);
    assert Canonical(leaf, bits[..|kept|]) by {
      LastCanonical(bits, 0, sibs);
      PromotedLeaf(bits, |sibs| - 1, |kept|, leaf);
    }
  }

  lemma {:induction false} DeleteSiblingsFacts(t: Digest, key: U256)
    requires Canonical(t, []) && key in Contents(t)
    ensures var sibs, end := DeleteSiblings(t, key), DeleteEnd(t, key);
            && |sibs| <= 256 && !end.Inner?
            && SibsCanonical(KeyBits(key), 0, sibs) && Canonical(end, KeyBits(key)[..|sibs|]) && Anchored(sibs, end)
            && SibContents(sibs) + Contents(end) == SibContents(PathSiblings(t, key))
            && SibNodes(sibs) + Nodes(end) == SibNodes(PathSiblings(t, key))
  {
    var bits, sibs := KeyBits(key), PathSiblings(t, key);
    assert bits[..0] == [];
    WalkFacts(t, bits, 0);
    if Promotes(t, key) {
      PromotedSiblings(bits, sibs);
    } else {
      if sibs != [] { LastCanonical(bits, 0, sibs); }
      assert SibContents(sibs) + map[] == SibContents(sibs);
    }
  }

  lemma {:induction false} LastCanonical(bits: seq<bool>, i: nat, sibs: seq<Digest>)
    requires i + |sibs| <= |bits| == 256 && sibs != [] && SibsCanonical(bits, i, sibs)
    ensures Canonical(Last(sibs), bits[..i + |sibs| - 1] + [!bits[i + |sibs| - 1]])
    decreases |sibs|
  {
    if |sibs| > 1 { LastCanonical(bits, i + 1, sibs[1..]); }
  }

  /** Promotion and collapse reach the canonical root of the smaller map. */
  lemma {:induction false} DeleteTree(t: Digest, key: U256)
    requires Canonical(t, []) && key in Contents(t)
    ensures |DeleteSiblings(t, key)| <= 256
    ensures var root := RootOf(Contents(t) - {key});
            && Fold(KeyBits(key), 0, DeleteSiblings(t, key), DeleteEnd(t, key)) == root
            && Canonical(root, []) && Contents(root) == Contents(t) - {key}
            && PathSiblings(root, key) == DeleteSiblings(t, key) && PathEnd(root, key) == DeleteEnd(t, key)
  {
    DeleteSiblingsFacts(t, key);
    WalkFinds(t, key);
    assert SibContents(PathSiblings(t, key)) == Contents(t) - {key};
    FoldIsRoot(key, DeleteSiblings(t, key), DeleteEnd(t, key));
  }

  lemma {:induction false} DeletedSpineHoldsKey(t: Digest, key: U256)
    requires Canonical(t, []) && key in Contents(t)
    ensures PathEnd(t, key) == Leaf(key, Contents(t)[key])
    ensures forall d :: d in DeletedSpine(t, key) ==> key in Contents(d)
    ensures forall d :: d in PathSpine(t, key) ==> key in Contents(d)
  {
    var sibs, end := PathSiblings(t, key), PathEnd(t, key);
    WalkFinds(t, key);
    assert key in Contents(end).Keys;
    SpineKeys(KeyBits(key), 0, sibs, end);
    if Promotes(t, key) { SpineKeys(KeyBits(key), 0, DropLast(sibs), end); }
  }

  lemma {:induction false} KeylessNodes(t: Digest, key: U256)
    requires key !in Contents(t)
    ensures forall d :: d in Nodes(t) ==> key !in Contents(d)
  {
    forall d | d in Nodes(t) ensures key !in Contents(d) { NodeBelow(t, d); }
  }

  /** `root` is what is left of `t` without `key`. */
  ghost predicate Remainder(t: Digest, key: U256, root: Digest) {
    && Canonical(t, []) && key in Contents(t)
    && Canonical(root, []) && Contents(root) == Contents(t) - {key}
    && PathSiblings(root, key) == DeleteSiblings(t, key) && PathEnd(root, key) == DeleteEnd(t, key)
  }

  lemma {:induction false} DeleteNodes(t: Digest, key: U256, root: Digest)
    requires Remainder(t, key, root)
    ensures Nodes(root) == PathSpine(root, key) + SibNodes(PathSiblings(t, key))
    ensures forall d :: d in Nodes(root) ==> key !in Contents(d)
    ensures Nodes(t) == PathSpine(t, key) + SibNodes(PathSiblings(t, key)) + {PathEnd(t, key)}
  {
    DeleteSiblingsFacts(t, key);
    PathNodes(t, key);
    DeletedSpineHoldsKey(t, key);
    PathNodes(root, key);
    KeylessNodes(root, key);
  }

  lemma {:induction false} DeleteSafe(t: Digest, key: U256, root: Digest, nodes: set<Digest>)
    requires Remainder(t, key, root) && Nodes(t) <= nodes
    ensures Nodes(root) <= nodes - {PathEnd(t, key)} - DeletedSpine(t, key) + PathSpine(root, key)
    ensures DeletedSpine(t, key) + {PathEnd(t, key)} !! Nodes(root)
    ensures forall d :: d in PathSpine(root, key) ==> d.Inner?
  {
    DeleteNodes(t, key, root);
    DeletedSpineHoldsKey(t, key);
    PathNodes(root, key);
    assert key in Contents(PathEnd(t, key));
  }

  /** Deletion keeps storage sound: everything it removes still mentions the key, nothing it needs does. */
  lemma {:induction false} DeleteKeepsSound(s: Snapshot, key: U256)
    requires Sound(s) && key in Contents(s.root)
    ensures Sound(Deleted(s, key))
    ensures Contents(Deleted(s, key).root) == Contents(s.root) - {key}
    ensures DeletedSpine(s.root, key) + {PathEnd(s.root, key)} !! Nodes(Deleted(s, key).root)
  {
    DeleteTree(s.root, key);
    DeleteSafe(s.root, key, Deleted(s, key).root, s.nodes);
  }

  /** The last sibling's key is nowhere else on the path. */
  lemma {:induction false} LastKeyIsNew(bits: seq<bool>, sibs: seq<Digest>)
    requires sibs != [] && |sibs| <= |bits| == 256 && SibsCanonical(bits, 0, sibs) && Last(sibs).Leaf?
    ensures Last(sibs).key !in SibContents(DropLast(sibs))
    ensures KeyBits(Last(sibs).key)[|sibs| - 1] != bits[|sibs| - 1]
  {
    var leaf, upper := Last(sibs), DropLast(sibs);
    var n := |upper|;
    assert sibs == upper + [leaf];
    SibsCanonicalAppend(bits, 0, upper, [leaf]);
    LastCanonical(bits, 0, sibs);
    OffPath(bits, n, leaf.key);
    if leaf.key in SibContents(upper) {
      SibKeysLeave(bits, 0, upper, leaf.key);
    }
  }

  lemma {:induction false} PromotedKeyMarksThePath(t: Digest, key: U256)
    requires Canonical(t, []) && key in Contents(t) && Promotes(t, key)
    ensures DeletedSpine(t, key) !! PathSpine(t, key)
  {
    var bits, sibs, end := KeyBits(key), PathSiblings(t, key), PathEnd(t, key);
    var pk := Last(sibs).key;
    assert bits[..0] == [];
    WalkFacts(t, bits, 0);
    WalkFinds(t, key);
    LastKeyIsNew(bits, sibs);
    SpineHoldsLast(bits, 0, sibs, end);
    SpineKeys(bits, 0, DropLast(sibs), end);
    assert pk in Contents(Last(sibs)).Keys && pk !in Contents(end).Keys;
  }

  lemma {:induction false} SpineHoldsLast(bits: seq<bool>, i: nat, sibs: seq<Digest>, x: Digest)
    requires i + |sibs| <= |bits| && sibs != []
    ensures forall s :: s in Spine(bits, i, sibs, x) ==> Contents(Last(sibs)).Keys <= Contents(s).Keys
    decreases |sibs|
  {
    FoldKeys(bits, i, sibs, x);
    assert sibs == DropLast(sibs) + [Last(sibs)];
    SibContentsAppend(DropLast(sibs), [Last(sibs)]);
    if |sibs| > 1 { SpineHoldsLast(bits, i + 1, sibs[1..], x); }
  }

  lemma {:induction false} GarbageOfDelete(t: Digest, key: U256, root: Digest)
    requires Remainder(t, key, root)
    ensures Nodes(t) - {PathEnd(t, key)} - DeletedSpine(t, key) + PathSpine(root, key)
         == Nodes(root) + (if Promotes(t, key) then PathSpine(t, key) else {})
    ensures PathSpine(t, key) !! Nodes(root)
    ensures Promotes(t, key) ==> PathSpine(t, key) != {}
  {
    DeleteNodes(t, key, root);
    DeletedSpineHoldsKey(t, key);
    PathNodes(t, key);
    assert key in Contents(PathEnd(t, key));
    if Promotes(t, key) {
      PromotedKeyMarksThePath(t, key);
      assert Fold(KeyBits(key), 0, PathSiblings(t, key), PathEnd(t, key)) in PathSpine(t, key);
    }
  }

  /** The entries a deletion leaves behind: the whole old path when a leaf was promoted. */
  function LeftBehind(t: Digest, key: U256): set<Digest> {
    if Promotes(t, key) then PathSpine(t, key) else {}
  }

  lemma {:induction false} SplitOff<T>(nodes: set<T>, tree: set<T>, end: T, removed: set<T>, added: set<T>,
                                       after: set<T>, left: set<T>)
    requires tree <= nodes && end in tree && tree - {end} - removed + added == after + left
    ensures nodes - {end} - removed + added == after + (nodes - tree - removed) + left
  {
    var g := nodes - tree;
    assert nodes == tree + g;
    assert (tree + g) - {end} - removed + added == (tree - {end} - removed + added) + (g - removed);
  }

  lemma {:induction false} Remains<T>(nodes: set<T>, after: set<T>, kept: set<T>, removed: set<T>, left: set<T>)
    requires nodes == after + (kept - removed) + left && left !! after
    ensures nodes - after == (kept - removed - after) + left
    ensures nodes == after <==> left == {} && kept <= removed + after
  {
  }

  lemma {:induction false} DeletedParts(s: Snapshot, key: U256, root: Digest)
    requires Sound(s) && Remainder(s.root, key, root) && root == Deleted(s, key).root
    ensures Deleted(s, key).nodes
         == Nodes(root) + (Garbage(s) - DeletedSpine(s.root, key)) + LeftBehind(s.root, key)
    ensures LeftBehind(s.root, key) !! Nodes(root) && (Promotes(s.root, key) <==> LeftBehind(s.root, key) != {})
  {
    GarbageOfDelete(s.root, key, root);
    assert PathEnd(s.root, key) in Nodes(s.root) by { DeleteNodes(s.root, key, root); }
    SplitOff(s.nodes, Nodes(s.root), PathEnd(s.root, key), DeletedSpine(s.root, key), PathSpine(root, key),
             Nodes(root), LeftBehind(s.root, key));
  }

  /**
   What deletion leaves behind, from any sound storage.  The result is the new tree, the garbage that was
   there before as far as the loop does not hit it, and the whole old path when a leaf was promoted; so
   storage ends exact if and only if no leaf was promoted and all old garbage is removed or used again.
   */
  lemma {:induction false} DeleteGarbage(s: Snapshot, key: U256)
    requires Sound(s) && key in Contents(s.root)
    ensures var root := Deleted(s, key).root;
            && Deleted(s, key).nodes
               == Nodes(root) + (Garbage(s) - DeletedSpine(s.root, key)) + LeftBehind(s.root, key)
            && Garbage(Deleted(s, key))
               == (Garbage(s) - DeletedSpine(s.root, key) - Nodes(root)) + LeftBehind(s.root, key)
            && (Exact(Deleted(s, key)) <==>
                  !Promotes(s.root, key) && Garbage(s) <= DeletedSpine(s.root, key) + Nodes(root))
  {
    var root := Deleted(s, key).root;
    DeleteTree(s.root, key);
    DeletedParts(s, key, root);
    Remains(Deleted(s, key).nodes, Nodes(root), Garbage(s), DeletedSpine(s.root, key), LeftBehind(s.root, key));
  }
}

/** The plain Merkle tree: roots and proofs computed level by level from a full list of leaves. */
module MerkleReference {
  import opened Words

  predicate IsPowerOfTwo(n: nat) {
    n == 1 || (n > 0 && n % 2 == 0 && IsPowerOfTwo(n / 2))
  }

  function Log2(n: nat): nat
    requires IsPowerOfTwo(n)
  {
    if n == 1 then 0 else 1 + Log2(n / 2)
  }

  /** One level up: hash neighbours pairwise. */
  function Parents<T>(H: (T, T) -> T, nodes: seq<T>): (r: seq<T>)
    ensures |r| == |nodes| / 2
  {
    seq(|nodes| / 2, i requires 0 <= i < |nodes| / 2 => H(nodes[2 * i], nodes[2 * i + 1]))
  }

  function RootOfLevel<T>(H: (T, T) -> T, nodes: seq<T>): T
    requires IsPowerOfTwo(|nodes|)
    decreases |nodes|
  {
    if |nodes| == 1 then nodes[0] else RootOfLevel(H, Parents(H, nodes))
  }

  function SiblingIndex(i: nat): nat {
    if i % 2 == 0 then i + 1 else i - 1
  }

  /** The indices `merkle_proof` takes: a single leaf has no siblings to read, so any index will do. */
  predicate InRange(size: nat, index: nat) {
    size == 1 || index < size
  }

  function ProofPath<T>(H: (T, T) -> T, nodes: seq<T>, index: nat): seq<T>
    requires IsPowerOfTwo(|nodes|) && InRange(|nodes|, index)
    decreases |nodes|
  {
    if |nodes| == 1 then [] else [nodes[SiblingIndex(index)]] + ProofPath(H, Parents(H, nodes), index / 2)
  }

  /** The verifier's side: hash a leaf with its siblings, taking left and right from the bits of the index. */
  function FoldPath<T>(H: (T, T) -> T, x: T, path: seq<T>, index: nat): T
    decreases |path|
  {
    if path == [] then x else FoldPath(H, JoinAt(H, index, x, path[0]), path[1..], index / 2)
  }

  method BuildParents<T>(H: (T, T) -> T, nodes: seq<T>) returns (next: seq<T>)
    ensures next == Parents(H, nodes)
  {
    next := [];
    for i := 0 to |nodes| / 2
      invariant next == Parents(H, nodes)[..i]
    {
      next := next + [H(nodes[2 * i], nodes[2 * i + 1])];
    }
  }

  method MerkleRoot<T>(H: (T, T) -> T, leaves: seq<T>) returns (root: T)
    requires IsPowerOfTwo(|leaves|)
    ensures root == RootOfLevel(H, leaves)
  {
    var nodes := leaves;
    while |nodes| > 1
      invariant IsPowerOfTwo(|nodes|)
      invariant RootOfLevel(H, nodes) == RootOfLevel(H, leaves)
      decreases |nodes|
    {
      nodes := BuildParents(H, nodes);
    }
    root := nodes[0];
  }

  /** The number with the given bits, least significant first. */
  function FromBits(bits: seq<nat>): nat {
    if bits == [] then 0 else bits[0] + 2 * FromBits(bits[1..])
  }

  function IndexBits(index: nat, n: nat): (r: seq<nat>)
    ensures |r| == n
    decreases n
  {
    if n == 0 then [] else [index % 2] + IndexBits(index / 2, n - 1)
  }

  lemma {:induction false} BitsOfIndex(index: nat, size: nat)
    requires IsPowerOfTwo(size) && InRange(size, index)
    ensures FromBits(IndexBits(index, Log2(size))) == (if size == 1 then 0 else index)
    decreases size
  {
    if size > 1 { BitsOfIndex(index / 2, size / 2); }
  }

  lemma {:induction false} FromBitsSnoc(bits: seq<nat>, b: nat)
    ensures FromBits(bits + [b]) == FromBits(bits) + b * Pow2(|bits|)
  {
    if bits == [] {
      assert [b][1..] == [];
      assert FromBits([b]) == b;
    } else {
      assert (bits + [b])[1..] == bits[1..] + [b];
      FromBitsSnoc(bits[1..], b);
      assert 2 * (b * Pow2(|bits| - 1)) == b * Pow2(|bits|);
    }
  }

  method PackBits(bits: seq<nat>) returns (packed: nat)
    ensures packed == FromBits(bits)
  {
    packed := 0;
    var weight: nat := 1;
    for k := 0 to |bits|
      invariant weight == Pow2(k)
      invariant packed == FromBits(bits[..k])
    {
      assert bits[..k + 1] == bits[..k] + [bits[k]];
      FromBitsSnoc(bits[..k], bits[k]);
      packed := packed + bits[k] * weight;
      weight := 2 * weight;
    }
    assert bits[..|bits|] == bits;
  }

  /** What the proof loop has collected, together with what is still to come, is the whole proof. */
  ghost predicate Collected<T(!new)>(H: (T, T) -> T, leaves: seq<T>, index: nat, nodes: seq<T>, i: nat,
                                     path: seq<T>, bits: seq<nat>)
    requires IsPowerOfTwo(|leaves|) && InRange(|leaves|, index) && IsPowerOfTwo(|nodes|) && InRange(|nodes|, i)
  {
    && path + ProofPath(H, nodes, i) == ProofPath(H, leaves, index)
    && bits + IndexBits(i, Log2(|nodes|)) == IndexBits(index, Log2(|leaves|))
  }

  lemma {:induction false} Reassociate<T>(a: seq<T>, x: T, b: seq<T>)
    ensures a + ([x] + b) == a + [x] + b
  {
  }

  lemma {:induction false} CollectOne<T(!new)>(H: (T, T) -> T, leaves: seq<T>, index: nat, nodes: seq<T>, i: nat,
                                               path: seq<T>, bits: seq<nat>)
    requires IsPowerOfTwo(|leaves|) && InRange(|leaves|, index) && IsPowerOfTwo(|nodes|) && i < |nodes| && |nodes| > 1
    requires Collected(H, leaves, index, nodes, i, path, bits)
    ensures SiblingIndex(i) < |nodes| && i / 2 < |nodes| / 2 && Log2(|nodes|) == 1 + Log2(|nodes| / 2)
    ensures Collected(H, leaves, index, Parents(H, nodes), i / 2, path + [nodes[SiblingIndex(i)]], bits + [i % 2])
  {
    var up, x := Parents(H, nodes), nodes[SiblingIndex(i)];
    Reassociate(path, x, ProofPath(H, up, i / 2));
    Reassociate(bits, i % 2, IndexBits(i / 2, Log2(|nodes| / 2)));
    assert ProofPath(H, nodes, i) == [x] + ProofPath(H, up, i / 2);
    assert IndexBits(i, Log2(|nodes|)) == [i % 2] + IndexBits(i / 2, Log2(|nodes| / 2));
  }

  lemma {:induction false} CollectDone<T(!new)>(H: (T, T) -> T, leaves: seq<T>, index: nat, nodes: seq<T>, i: nat,
                                                path: seq<T>, bits: seq<nat>)
    requires IsPowerOfTwo(|leaves|) && InRange(|leaves|, index) && IsPowerOfTwo(|nodes|) && InRange(|nodes|, i)
    requires Log2(|nodes|) == 0 && Collected(H, leaves, index, nodes, i, path, bits)
    ensures path == ProofPath(H, leaves, index) && bits == IndexBits(index, Log2(|leaves|))
  {
    assert path + [] == path && bits + [] == bits;
  }

  /** The level loop of `merkle_proof`. */
  method CollectProof<T(!new)>(H: (T, T) -> T, leaves: seq<T>, index: nat) returns (path: seq<T>, bits: seq<nat>)
    requires IsPowerOfTwo(|leaves|) && InRange(|leaves|, index)
    ensures path == ProofPath(H, leaves, index) && bits == IndexBits(index, Log2(|leaves|))
  {
    path, bits := [], [];
    var nodes, i: nat := leaves, index;
    for level := 0 to Log2(|leaves|)
      invariant IsPowerOfTwo(|nodes|) && InRange(|nodes|, i) && level + Log2(|nodes|) == Log2(|leaves|)
      invariant Collected(H, leaves, index, nodes, i, path, bits)
    {
      CollectOne(H, leaves, index, nodes, i, path, bits);
      var sibling := if i % 2 == 0 then i + 1 else i - 1;
      path := path + [nodes[sibling]];
      bits := bits + [i % 2];
      nodes := BuildParents(H, nodes);
      i := i / 2;
    }
    CollectDone(H, leaves, index, nodes, i, path, bits);
  }

  /** `merkle_proof`: the siblings, the path bits packed into a number, and the number of levels. */
  method MerkleProof<T(!new)>(H: (T, T) -> T, leaves: seq<T>, index: nat)
    returns (path: seq<T>, indices: nat, levels: nat)
    requires IsPowerOfTwo(|leaves|) && InRange(|leaves|, index)
    ensures levels == Log2(|leaves|) && |path| == levels
    ensures path == ProofPath(H, leaves, index)
    ensures indices == if |leaves| == 1 then 0 else index
    ensures FoldPath(H, leaves[indices], path, indices) == RootOfLevel(H, leaves)
  {
    levels := Log2(|leaves|);
    var bits;
    path, bits := CollectProof(H, leaves, index);
    indices := PackBits(bits);
    BitsOfIndex(index, |leaves|);
    ProofFolds(H, leaves, indices);
  }

  function JoinAt<T>(H: (T, T) -> T, index: nat, x: T, sibling: T): T {
    if index % 2 == 1 then H(sibling, x) else H(x, sibling)
  }

  lemma {:induction false} ParentOf<T>(H: (T, T) -> T, nodes: seq<T>, index: nat)
    requires |nodes| % 2 == 0 && index < |nodes|
    ensures index / 2 < |nodes| / 2 && SiblingIndex(index) < |nodes|
    ensures Parents(H, nodes)[index / 2] == JoinAt(H, index, nodes[index], nodes[SiblingIndex(index)])
  {
    var k := index / 2;
    assert Parents(H, nodes)[k] == H(nodes[2 * k], nodes[2 * k + 1]);
    if index % 2 == 1 { assert index == 2 * k + 1; } else { assert index == 2 * k; }
  }

  lemma {:induction false} ParentsOfBoth<T>(H: (T, T) -> T, l: seq<T>, r: seq<T>)
    requires |l| % 2 == 0 && |r| % 2 == 0
    ensures Parents(H, l + r) == Parents(H, l) + Parents(H, r)
  {
    var all := l + r;
    forall i | 0 <= i < |all| / 2 ensures Parents(H, all)[i] == (Parents(H, l) + Parents(H, r))[i] {
      if i < |l| / 2 {
        assert all[2 * i] == l[2 * i] && all[2 * i + 1] == l[2 * i + 1];
      } else {
        var j := i - |l| / 2;
        assert all[2 * i] == r[2 * j] && all[2 * i + 1] == r[2 * j + 1];
      }
    }
  }

  /** The root of a tree hashes the root of its left half with the root of its right half, in this order. */
  lemma {:induction false} RootOfHalves<T>(H: (T, T) -> T, l: seq<T>, r: seq<T>)
    requires |l| == |r| && IsPowerOfTwo(|l|)
    ensures IsPowerOfTwo(|l + r|) && RootOfLevel(H, l + r) == H(RootOfLevel(H, l), RootOfLevel(H, r))
    decreases |l|
  {
    var all := l + r;
    assert |all| / 2 == |l|;
    if |l| == 1 {
      assert Parents(H, all)[0] == H(all[0], all[1]);
    } else {
      ParentsOfBoth(H, l, r);
      RootOfHalves(H, Parents(H, l), Parents(H, r));
    }
  }

  /** Every proof folds to the root. */
  lemma {:induction false} ProofFolds<T>(H: (T, T) -> T, nodes: seq<T>, index: nat)
    requires IsPowerOfTwo(|nodes|) && index < |nodes|
    ensures FoldPath(H, nodes[index], ProofPath(H, nodes, index), index) == RootOfLevel(H, nodes)
    ensures |ProofPath(H, nodes, index)| == Log2(|nodes|)
    decreases |nodes|
  {
    if |nodes| > 1 {
      var path := ProofPath(H, nodes, index);
      assert path[1..] == ProofPath(H, Parents(H, nodes), index / 2);
      ProofFolds(H, Parents(H, nodes), index / 2);
      ParentOf(H, nodes, index);
    }
  }

  ghost predicate Injective<T(!new)>(H: (T, T) -> T) {
    forall a, b, c, d :: H(a, b) == H(c, d) ==> a == c && b == d
  }

  /** Two different pairs with the same hash. */
  predicate Collides<T(==)>(H: (T, T) -> T, a: T, b: T, c: T, d: T) {
    (a != c || b != d) && H(a, b) == H(c, d)
  }

  lemma {:induction false} JoinBinds<T(!new)>(H: (T, T) -> T, index: nat, x: T, sibling: T, y: T, other: T)
    returns (a: T, b: T, c: T, d: T)
    requires JoinAt(H, index, x, sibling) == JoinAt(H, index, y, other)
    ensures (x == y && sibling == other) || Collides(H, a, b, c, d)
  {
    if index % 2 == 1 { a, b, c, d := sibling, x, other, y; } else { a, b, c, d := x, sibling, y, other; }
  }

  /** One level: whoever hashes to the parent has the node and its sibling, or a collision. */
  lemma {:induction false} BindsOneLevel<T(!new)>(H: (T, T) -> T, index: nat, x: T, path: seq<T>,
                                                  node: T, sibling: T, rest: seq<T>)
    returns (a: T, b: T, c: T, d: T)
    requires path != [] && path[1..] == rest && JoinAt(H, index, x, path[0]) == JoinAt(H, index, node, sibling)
    ensures (x == node && path == [sibling] + rest) || Collides(H, a, b, c, d)
  {
    a, b, c, d := JoinBinds(H, index, x, path[0], node, sibling);
    assert path == [path[0]] + path[1..];
  }

  /** A proof of more than one leaf, one level up. */
  lemma {:induction false} ProofOneUp<T>(H: (T, T) -> T, nodes: seq<T>, index: nat)
    requires IsPowerOfTwo(|nodes|) && 1 < |nodes| && index < |nodes|
    ensures var up, i := Parents(H, nodes), SiblingIndex(index);
            && IsPowerOfTwo(|up|) && |up| < |nodes| && index / 2 < |up| && i < |nodes|
            && Log2(|nodes|) == 1 + Log2(|up|) && RootOfLevel(H, nodes) == RootOfLevel(H, up)
            && up[index / 2] == JoinAt(H, index, nodes[index], nodes[i])
            && ProofPath(H, nodes, index) == [nodes[i]] + ProofPath(H, up, index / 2)
  {
    ParentOf(H, nodes, index);
  }

  /**
   Binding: whoever folds another value, or another path, to the root at an index has found a collision of the
   hash, and here it is.
   */
  lemma {:induction false} ProofBindsOrCollides<T(!new)>(H: (T, T) -> T, nodes: seq<T>, index: nat, x: T, path: seq<T>)
    returns (a: T, b: T, c: T, d: T)
    requires IsPowerOfTwo(|nodes|) && index < |nodes| && |path| == Log2(|nodes|)
    requires FoldPath(H, x, path, index) == RootOfLevel(H, nodes)
    ensures (x == nodes[index] && path == ProofPath(H, nodes, index)) || Collides(H, a, b, c, d)
    decreases |nodes|
  {
    if |nodes| == 1 {
      a, b, c, d := x, x, x, x;
    } else {
      var up := Parents(H, nodes);
      ProofOneUp(H, nodes, index);
      a, b, c, d := ProofBindsOrCollides(H, up, index / 2, JoinAt(H, index, x, path[0]), path[1..]);
      if !Collides(H, a, b, c, d) {
        a, b, c, d := BindsOneLevel(H, index, x, path, nodes[index], nodes[SiblingIndex(index)], path[1..]);
      }
    }
  }

  /** Under an injective hash only the leaf itself, with its own path, folds to the root at an index. */
  lemma {:induction false} ProofBinds<T(!new)>(H: (T, T) -> T, nodes: seq<T>, index: nat, x: T, path: seq<T>)
    requires Injective(H)
    requires IsPowerOfTwo(|nodes|) && index < |nodes| && |path| == Log2(|nodes|)
    requires FoldPath(H, x, path, index) == RootOfLevel(H, nodes)
    ensures x == nodes[index] && path == ProofPath(H, nodes, index)
  {
    var a, b, c, d := ProofBindsOrCollides(H, nodes, index, x, path);
  }
}

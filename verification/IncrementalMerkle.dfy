/** Append-only trees: what the cached left siblings must be, and how one append moves up the levels. */
module IncrementalMerkle {
  import opened Words
  import opened KeyPaths
  import opened MerkleReference

  /** The node at level `j`, position `i`, of the tree whose leaves are padded with `zero` forever. */
  function NodeAt<T>(H: (T, T) -> T, zero: T, leaves: seq<T>, j: nat, i: nat): T
    decreases j
  {
    if j == 0 then (if i < |leaves| then leaves[i] else zero)
    else H(NodeAt(H, zero, leaves, j - 1, 2 * i), NodeAt(H, zero, leaves, j - 1, 2 * i + 1))
  }

  /** The precomputed hashes of empty subtrees, as the contracts read them from their constant table. */
  ghost predicate ZeroChain<T>(H: (T, T) -> T, zeros: seq<T>) {
    |zeros| == 33 && forall i :: 0 <= i < 32 ==> Doubled(H, zeros, i)
  }

  ghost predicate Doubled<T>(H: (T, T) -> T, zeros: seq<T>, i: int)
    requires 0 <= i < |zeros| - 1
  {
    zeros[i + 1] == H(zeros[i], zeros[i])
  }

  function Padded<T>(leaves: seq<T>, zero: T, n: nat): (r: seq<T>)
    ensures |r| == n
  {
    seq(n, i requires 0 <= i < n => if i < |leaves| then leaves[i] else zero)
  }

  /** Subtrees to the right of the last leaf are empty. */
  lemma {:induction false} EmptyNode<T>(H: (T, T) -> T, zeros: seq<T>, leaves: seq<T>, j: nat, i: nat)
    requires ZeroChain(H, zeros) && j <= 32
    requires leaves == [] || i > Halved(|leaves| - 1, j)
    ensures NodeAt(H, zeros[0], leaves, j, i) == zeros[j]
    decreases j
  {
    if j > 0 {
      if leaves != [] { HalvedOnce(|leaves| - 1, j - 1); }
      EmptyNode(H, zeros, leaves, j - 1, 2 * i);
      EmptyNode(H, zeros, leaves, j - 1, 2 * i + 1);
      assert Doubled(H, zeros, j - 1);
    }
  }

  /** Complete subtrees do not change when leaves are appended. */
  lemma {:induction false} CompleteNode<T>(H: (T, T) -> T, zero: T, leaves: seq<T>, more: seq<T>, j: nat, i: nat)
    requires i < Halved(|leaves|, j)
    ensures NodeAt(H, zero, leaves + more, j, i) == NodeAt(H, zero, leaves, j, i)
    decreases j
  {
    if j > 0 {
      HalvedOnce(|leaves|, j - 1);
      CompleteNode(H, zero, leaves, more, j - 1, 2 * i);
      CompleteNode(H, zero, leaves, more, j - 1, 2 * i + 1);
    }
  }

  lemma {:induction false} HalvedSucc(n: nat, j: nat)
    ensures Halved(n + 1, j) == Halved(n, j) || Halved(n + 1, j) == Halved(n, j) + 1
    decreases j
  {
    if j > 0 {
      HalvedOnce(n, j - 1);
      HalvedOnce(n + 1, j - 1);
      HalvedSucc(n, j - 1);
    }
  }

  lemma {:induction false} HalvedToZero(n: nat, j: nat)
    requires n < Pow2(j)
    ensures Halved(n, j) == 0
    decreases j
  {
    if j > 0 { HalvedToZero(n / 2, j - 1); }
  }

  /** The cache: at each level whose count of complete nodes is odd, the left sibling waiting for its partner. */
  ghost predicate Cached<T(!new)>(H: (T, T) -> T, zero: T, leaves: seq<T>, filled: map<nat, T>, lo: nat, hi: nat) {
    forall l: nat :: lo <= l < hi ==>
      l in filled && (Halved(|leaves|, l) % 2 == 1 ==> filled[l] == NodeAt(H, zero, leaves, l, Halved(|leaves|, l) - 1))
  }

  /** One level of an append whose new leaves all lie below node `Halved(n, l)` of that level. */
  lemma {:induction false} ClimbStep<T>(H: (T, T) -> T, zeros: seq<T>, leaves: seq<T>, more: seq<T>, l: nat)
    requires ZeroChain(H, zeros) && l < 32 && more != []
    requires Halved(|leaves| + |more| - 1, l) == Halved(|leaves|, l)
    ensures var idx, all := Halved(|leaves|, l), leaves + more;
            && Halved(|leaves|, l + 1) == idx / 2
            && Halved(|leaves| + |more| - 1, l + 1) == idx / 2
            && (idx % 2 == 1 ==>
                  NodeAt(H, zeros[0], all, l + 1, idx / 2)
                  == H(NodeAt(H, zeros[0], leaves, l, idx - 1), NodeAt(H, zeros[0], all, l, idx)))
            && (idx % 2 == 0 ==>
                  NodeAt(H, zeros[0], all, l + 1, idx / 2) == H(NodeAt(H, zeros[0], all, l, idx), zeros[l]))
  {
    var idx, all := Halved(|leaves|, l), leaves + more;
    HalvedOnce(|leaves|, l);
    HalvedOnce(|leaves| + |more| - 1, l);
    if idx % 2 == 1 {
      CompleteNode(H, zeros[0], leaves, more, l, idx - 1);
    } else {
      EmptyNode(H, zeros, all, l, idx + 1);
    }
  }

  /** The cache is repaired level by level: an even node is stored at its level, an odd one leaves it alone. */
  lemma {:induction false} CacheStep<T(!new)>(H: (T, T) -> T, zero: T, leaves: seq<T>, more: seq<T>,
                                              lo: nat, l: nat, hi: nat, filled: map<nat, T>)
    requires lo <= l < hi
    requires Cached(H, zero, leaves + more, filled, lo, l) && Cached(H, zero, leaves, filled, l, hi)
    requires Halved(|leaves| + |more|, l) == Halved(|leaves|, l)
             || Halved(|leaves| + |more|, l) == Halved(|leaves|, l) + 1
    ensures var idx := Halved(|leaves|, l);
            var now := if idx % 2 == 1 then filled else filled[l := NodeAt(H, zero, leaves + more, l, idx)];
            Cached(H, zero, leaves + more, now, lo, l + 1) && Cached(H, zero, leaves, now, l + 1, hi)
  {
    if Halved(|leaves|, l) % 2 == 1 {
      CompleteNode(H, zero, leaves, more, l, Halved(|leaves|, l) - 1);
    }
  }

  /** An append on its way up: levels below `l` are done, the node to place at level `l` is `hash`. */
  ghost predicate Climbing<T(!new)>(H: (T, T) -> T, zeros: seq<T>, leaves: seq<T>, more: seq<T>,
                                    lo: nat, l: nat, hi: nat, filled: map<nat, T>, hash: T)
    requires ZeroChain(H, zeros)
  {
    && hash == NodeAt(H, zeros[0], leaves + more, l, Halved(|leaves|, l))
    && Cached(H, zeros[0], leaves + more, filled, lo, l) && Cached(H, zeros[0], leaves, filled, l, hi)
  }

  /** One level: pair with the cached left sibling, or be cached and pair with the empty subtree. */
  lemma {:induction false} ClimbOnce<T(!new)>(H: (T, T) -> T, zeros: seq<T>, leaves: seq<T>, more: seq<T>,
                                              lo: nat, l: nat, hi: nat, filled: map<nat, T>, hash: T)
    requires ZeroChain(H, zeros) && lo <= l < hi <= 32 && more != []
    requires Climbing(H, zeros, leaves, more, lo, l, hi, filled, hash)
    requires Halved(|leaves| + |more| - 1, l) == Halved(|leaves|, l)
    requires Halved(|leaves| + |more|, l) == Halved(|leaves|, l)
             || Halved(|leaves| + |more|, l) == Halved(|leaves|, l) + 1
    ensures l in filled && Halved(|leaves|, l + 1) == Halved(|leaves|, l) / 2
    ensures if Halved(|leaves|, l) % 2 == 1
            then Climbing(H, zeros, leaves, more, lo, l + 1, hi, filled, H(filled[l], hash))
            else Climbing(H, zeros, leaves, more, lo, l + 1, hi, filled[l := hash], H(hash, zeros[l]))
  {
    ClimbStep(H, zeros, leaves, more, l);
    CacheStep(H, zeros[0], leaves, more, lo, l, hi, filled);
  }

  // ----- the reference root -----

  function Level<T>(H: (T, T) -> T, zero: T, leaves: seq<T>, j: nat, n: nat): (r: seq<T>)
    ensures |r| == n
  {
    seq(n, i requires 0 <= i < n => NodeAt(H, zero, leaves, j, i))
  }

  lemma {:induction false} Pow2IsPowerOfTwo(k: nat)
    ensures IsPowerOfTwo(Pow2(k)) && Log2(Pow2(k)) == k
  {
    if k > 0 { Pow2IsPowerOfTwo(k - 1); }
  }

  lemma {:induction false} LevelUp<T>(H: (T, T) -> T, zero: T, leaves: seq<T>, j: nat, n: nat)
    ensures Parents(H, Level(H, zero, leaves, j, 2 * n)) == Level(H, zero, leaves, j + 1, n)
  {
    var low := Level(H, zero, leaves, j, 2 * n);
    assert |low| / 2 == n;
    forall i | 0 <= i < n
      ensures Parents(H, low)[i] == Level(H, zero, leaves, j + 1, n)[i]
    {
      assert Parents(H, low)[i] == H(low[2 * i], low[2 * i + 1]);
    }
  }

  lemma {:induction false} RootOneUp<T>(H: (T, T) -> T, low: seq<T>, up: seq<T>)
    requires IsPowerOfTwo(|low|) && |low| > 1 && up == Parents(H, low)
    ensures IsPowerOfTwo(|up|) && RootOfLevel(H, low) == RootOfLevel(H, up)
  {
  }

  lemma {:induction false} RootOfNodes<T>(H: (T, T) -> T, zero: T, leaves: seq<T>, j: nat, n: nat)
    requires IsPowerOfTwo(n)
    ensures RootOfLevel(H, Level(H, zero, leaves, j, n)) == NodeAt(H, zero, leaves, j + Log2(n), 0)
    decreases n
  {
    var low := Level(H, zero, leaves, j, n);
    if n == 1 {
      assert low[0] == NodeAt(H, zero, leaves, j, 0);
    } else {
      var k := n / 2;
      assert n == 2 * k;
      var up := Level(H, zero, leaves, j + 1, k);
      assert up == Parents(H, low) by { LevelUp(H, zero, leaves, j, k); }
      RootOneUp(H, low, up);
      RootOfNodes(H, zero, leaves, j + 1, k);
      assert j + 1 + Log2(k) == j + Log2(n);
    }
  }

  /** The padded tree's top node is what `merkle_root` computes from the full list of leaves. */
  lemma {:induction false} TopNodeIsMerkleRoot<T>(H: (T, T) -> T, zero: T, leaves: seq<T>, levels: nat)
    ensures IsPowerOfTwo(Pow2(levels))
    ensures NodeAt(H, zero, leaves, levels, 0) == RootOfLevel(H, Padded(leaves, zero, Pow2(levels)))
  {
    Pow2IsPowerOfTwo(levels);
    RootOfNodes(H, zero, leaves, 0, Pow2(levels));
    assert Padded(leaves, zero, Pow2(levels)) == Level(H, zero, leaves, 0, Pow2(levels));
  }
}

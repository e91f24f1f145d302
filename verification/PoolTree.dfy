/** The pool's commitment tree: pairs of leaves, and a ring buffer of the last 90 roots. */
module PoolTree {
  import opened Words
  import opened KeyPaths
  import opened MerkleReference
  import opened IncrementalMerkle

  const ROOT_HISTORY_SIZE: nat := 90

  /** `HostTrap` is a panic: the compression function takes field elements only. */
  datatype Error =
    | AlreadyInitialized | WrongLevels | MerkleTreeFull | NextIndexNotEven | NotInitialized | Overflow
    | HostTrap

  /** The root after the first `n` pairs. */
  function RootAfter(H: (U256, U256) -> U256, zero: U256, levels: nat, leaves: seq<U256>, n: nat): U256
    requires 2 * n <= |leaves|
  {
    NodeAt(H, zero, leaves[..2 * n], levels, 0)
  }

  /** Root number `n` is still within the last 90, the initial root being number 0. */
  predicate Recent(n: nat, count: nat) {
    n <= count && count < n + ROOT_HISTORY_SIZE
  }

  /** Some root of the last 90 equals `r`. */
  ghost predicate IsRecentRoot(H: (U256, U256) -> U256, zero: U256, levels: nat, leaves: seq<U256>, r: U256) {
    exists n: nat :: Recent(n, |leaves| / 2) && 2 * n <= |leaves| && RootAfter(H, zero, levels, leaves, n) == r
  }

  /** The window written out: `r` is the root of an even prefix of the leaves, at most 89 insertions old. */
  ghost predicate IsRootOfRecentPrefix(H: (U256, U256) -> U256, zero: U256, levels: nat, leaves: seq<U256>, r: U256) {
    IsPowerOfTwo(Pow2(levels)) &&
    exists n: nat :: 2 * n <= |leaves| && |leaves| / 2 - n <= 89
                     && r == RootOfLevel(H, Padded(leaves[..2 * n], zero, Pow2(levels)))
  }

  lemma {:induction false} RecentRootsExactly(H: (U256, U256) -> U256, zero: U256, levels: nat, leaves: seq<U256>,
                                              r: U256)
    ensures IsRecentRoot(H, zero, levels, leaves, r) <==> IsRootOfRecentPrefix(H, zero, levels, leaves, r)
  {
    Pow2IsPowerOfTwo(levels);
    if IsRecentRoot(H, zero, levels, leaves, r) {
      var n: nat :| Recent(n, |leaves| / 2) && 2 * n <= |leaves| && RootAfter(H, zero, levels, leaves, n) == r;
      TopNodeIsMerkleRoot(H, zero, leaves[..2 * n], levels);
    }
    if IsRootOfRecentPrefix(H, zero, levels, leaves, r) {
      var n: nat :| 2 * n <= |leaves| && |leaves| / 2 - n <= 89
                    && r == RootOfLevel(H, Padded(leaves[..2 * n], zero, Pow2(levels)));
      TopNodeIsMerkleRoot(H, zero, leaves[..2 * n], levels);
      assert Recent(n, |leaves| / 2) && RootAfter(H, zero, levels, leaves, n) == r;
    }
  }

  lemma {:induction false} PairedHalves(n: nat, l: nat)
    requires n % 2 == 0 && l >= 1
    ensures Halved(n + 1, l) == Halved(n, l)
    ensures Halved(n + 2, l) == Halved(n, l) || Halved(n + 2, l) == Halved(n, l) + 1
  {
    assert (n + 1) / 2 == n / 2 && (n + 2) / 2 == n / 2 + 1;
    HalvedSucc(n / 2, l - 1);
  }

  /** Slot `i` of the ring holds the newest root whose number is `i` modulo 90. */
  ghost predicate Ring(H: (U256, U256) -> U256, zero: U256, levels: nat, leaves: seq<U256>, roots: map<nat, U256>) {
    && (forall n: nat :: Recent(n, |leaves| / 2) && 2 * n <= |leaves| ==>
          n % ROOT_HISTORY_SIZE in roots && roots[n % ROOT_HISTORY_SIZE] == RootAfter(H, zero, levels, leaves, n))
    && (forall i :: i in roots ==> i < ROOT_HISTORY_SIZE && i <= |leaves| / 2)
  }

  lemma {:induction false} SameSlot(a: nat, b: nat, count: nat)
    requires Recent(a, count) && Recent(b, count) && a % ROOT_HISTORY_SIZE == b % ROOT_HISTORY_SIZE
    ensures a == b
  {
  }

  /** The number of the root that slot `i` holds. */
  function SlotNumber(i: nat, count: nat): (n: nat)
    requires i < ROOT_HISTORY_SIZE && i <= count
    ensures Recent(n, count) && n % ROOT_HISTORY_SIZE == i
  {
    count - (count - i) % ROOT_HISTORY_SIZE
  }

  lemma {:induction false} RingPush(H: (U256, U256) -> U256, zero: U256, levels: nat, leaves: seq<U256>,
                                    a: U256, b: U256, roots: map<nat, U256>)
    requires |leaves| % 2 == 0 && Ring(H, zero, levels, leaves, roots)
    ensures var slot := (|leaves| / 2 + 1) % ROOT_HISTORY_SIZE;
            Ring(H, zero, levels, leaves + [a, b], roots[slot := NodeAt(H, zero, leaves + [a, b], levels, 0)])
  {
    var all, count := leaves + [a, b], |leaves| / 2;
    var slot := (count + 1) % ROOT_HISTORY_SIZE;
    assert all[..2 * (count + 1)] == all;
    forall n: nat | Recent(n, count + 1) && 2 * n <= |all|
      ensures n <= count ==> Recent(n, count) && n % ROOT_HISTORY_SIZE != slot
      ensures n <= count ==> RootAfter(H, zero, levels, all, n) == RootAfter(H, zero, levels, leaves, n)
    {
      if n <= count {
        assert all[..2 * n] == leaves[..2 * n];
        if n % ROOT_HISTORY_SIZE == slot { SameSlot(n, count + 1, count + 1); }
      }
    }
  }

  /** How many slots after `current` slot `j` comes on the way round. */
  function Offset(current: nat, j: nat): int {
    if j >= current then j - current else j + ROOT_HISTORY_SIZE - current
  }

  lemma {:induction false} PairCount(n: nat)
    requires n % 2 == 0
    ensures (n + 2) % 2 == 0 && (n + 2) / 2 == n / 2 + 1
  {
  }

  lemma {:induction false} NextSlot(count: nat)
    ensures (count % ROOT_HISTORY_SIZE + 1) % ROOT_HISTORY_SIZE == (count + 1) % ROOT_HISTORY_SIZE
  {
  }

  /** The zero hashes of the levels up to `lv`; the cache starts with the same ones. */
  method LevelZeros(zeros: seq<U256>, lv: nat) returns (zs: map<nat, U256>)
    requires lv < |zeros|
    ensures forall k: nat :: k <= lv ==> k in zs && zs[k] == zeros[k]
  {
    zs := map[];
    for l := 0 to lv + 1
      invariant forall k: nat :: k < l ==> k in zs && zs[k] == zeros[k]
    {
      zs := zs[l := zeros[l]];
    }
  }

  class CommitmentTree {
    const H: (U256, U256) -> U256
    var levels: Option<nat>
    var currentRootIndex: Option<nat>
    var nextIndex: Option<nat>
    var filledSubtree: map<nat, U256>
    var zeroes: map<nat, U256>
    var roots: map<nat, U256>

    ghost predicate Blank()
      reads this
    {
      levels == None && currentRootIndex == None && nextIndex == None
    }

    /** The tree was initialised and `leaves` were inserted since, in this order. */
    ghost predicate Holds(zeros: seq<U256>, leaves: seq<U256>)
      reads this
    {
      && levels.Some? && 1 <= levels.value <= 32 && ZeroChain(H, zeros)
      && |leaves| % 2 == 0 && |leaves| <= Pow2(levels.value)
      && nextIndex == Some(|leaves|)
      && currentRootIndex == Some(|leaves| / 2 % ROOT_HISTORY_SIZE)
      && (forall l: nat :: l <= levels.value ==> l in zeroes && zeroes[l] == zeros[l])
      && Cached(H, zeros[0], leaves, filledSubtree, 1, levels.value)
      && Ring(H, zeros[0], levels.value, leaves, roots)
    }

    constructor (H: (U256, U256) -> U256)
      ensures Blank() && this.H == H
    {
      this.H := H;
      levels, currentRootIndex, nextIndex := None, None, None;
      filledSubtree, zeroes, roots := map[], map[], map[];
    }

    method Init(zeros: seq<U256>, lv: nat) returns (r: Result<(), Error>)
      requires ZeroChain(H, zeros)
      requires Blank() || currentRootIndex.Some?
      modifies this
      ensures r == if lv == 0 || lv > 32 then Err(WrongLevels)
                   else if old(currentRootIndex).Some? then Err(AlreadyInitialized) else Ok(())
      ensures r.Ok? ==> Holds(zeros, []) && levels == Some(lv)
      ensures r.Err? ==> unchanged(this)
    {
      if lv == 0 || lv > 32 { return Err(WrongLevels); }
      if currentRootIndex.Some? { return Err(AlreadyInitialized); }
      var zs := LevelZeros(zeros, lv);
      levels, filledSubtree, zeroes := Some(lv), zs, zs;
      roots := map[0 := zeros[lv]];
      currentRootIndex, nextIndex := Some(0), Some(0);
      EmptyNode(H, zeros, [], lv, 0);
      forall l: nat | l < lv ensures Halved(0, l) == 0 { HalvedToZero(0, l); }
      r := Ok(());
    }

    method InsertTwoLeaves(leaf1: U256, leaf2: U256, ghost zeros: seq<U256>, ghost leaves: seq<U256>)
      returns (r: Result<(nat, nat), Error>)
      requires Blank() || Holds(zeros, leaves)
      modifies this
      ensures r == if old(Blank()) then Err(NotInitialized)
                   else if |leaves| + 2 > Pow2(old(levels).value) then Err(MerkleTreeFull)
                   else if leaf1 >= BN254_MODULUS || leaf2 >= BN254_MODULUS then Err(HostTrap)
                   else Ok((|leaves|, |leaves| + 1))
      ensures r.Ok? ==> Holds(zeros, leaves + [leaf1, leaf2]) && levels == old(levels)
      ensures r.Err? ==> unchanged(this)
    {
      if levels == None { return Err(NotInitialized); }
      var lv, next, rootIndex := levels.value, nextIndex.value, currentRootIndex.value;
      var capacity := ShiftOne(lv);
      if next % 2 != 0 { return Err(NextIndexNotEven); }
      if next + 2 > capacity { return Err(MerkleTreeFull); }
      if leaf1 >= BN254_MODULUS || leaf2 >= BN254_MODULUS { return Err(HostTrap); }

      var hash := Climb(lv, next, leaf1, leaf2, zeros, leaves);
      RecordRoot(hash, rootIndex, leaf1, leaf2, zeros, leaves);
      nextIndex := Some(next + 2);
      PairCount(|leaves|);
      assert |leaves + [leaf1, leaf2]| == |leaves| + 2;
      r := Ok((next, next + 1));
    }

    /** The new root takes the next slot of the ring. */
    method RecordRoot(hash: U256, rootIndex: nat, ghost leaf1: U256, ghost leaf2: U256,
                      ghost zeros: seq<U256>, ghost leaves: seq<U256>)
      requires levels.Some? && ZeroChain(H, zeros)
      requires |leaves| % 2 == 0 && rootIndex == |leaves| / 2 % ROOT_HISTORY_SIZE
      requires Ring(H, zeros[0], levels.value, leaves, roots)
      requires hash == NodeAt(H, zeros[0], leaves + [leaf1, leaf2], levels.value, 0)
      modifies this`roots, this`currentRootIndex
      ensures Ring(H, zeros[0], levels.value, leaves + [leaf1, leaf2], roots)
      ensures currentRootIndex == Some((|leaves| / 2 + 1) % ROOT_HISTORY_SIZE)
    {
      RingPush(H, zeros[0], levels.value, leaves, leaf1, leaf2, roots);
      NextSlot(|leaves| / 2);
      var slot := (rootIndex + 1) % ROOT_HISTORY_SIZE;
      roots := roots[slot := hash];
      currentRootIndex := Some(slot);
    }

    /** The level loop: from the parent of the pair to the root, keeping the cache right behind it. */
    method Climb(lv: nat, next: nat, leaf1: U256, leaf2: U256, ghost zeros: seq<U256>, ghost leaves: seq<U256>)
      returns (hash: U256)
      requires 1 <= lv <= 32 && ZeroChain(H, zeros) && |leaves| % 2 == 0 && next == |leaves| && |leaves| + 2 <= Pow2(lv)
      requires forall l: nat :: l <= lv ==> l in zeroes && zeroes[l] == zeros[l]
      requires Cached(H, zeros[0], leaves, filledSubtree, 1, lv)
      modifies this`filledSubtree
      ensures hash == NodeAt(H, zeros[0], leaves + [leaf1, leaf2], lv, 0)
      ensures Cached(H, zeros[0], leaves + [leaf1, leaf2], filledSubtree, 1, lv)
    {
      ghost var pair := [leaf1, leaf2];
      hash := H(leaf1, leaf2);
      var index := next / 2;
      PairParent(zeros[0], leaves, leaf1, leaf2);
      for l := 1 to lv
        invariant index == Halved(|leaves|, l)
        invariant Climbing(H, zeros, leaves, pair, 1, l, lv, filledSubtree, hash)
      {
        PairedHalves(|leaves|, l);
        ClimbOnce(H, zeros, leaves, pair, 1, l, lv, filledSubtree, hash);
        if index % 2 == 1 {
          hash := H(filledSubtree[l], hash);
        } else {
          filledSubtree := filledSubtree[l := hash];
          hash := H(hash, zeroes[l]);
        }
        index := index / 2;
      }
      HalvedToZero(|leaves|, lv);
    }

    lemma PairParent(zero: U256, leaves: seq<U256>, leaf1: U256, leaf2: U256)
      requires |leaves| % 2 == 0
      ensures Halved(|leaves|, 1) == |leaves| / 2
      ensures H(leaf1, leaf2) == NodeAt(H, zero, leaves + [leaf1, leaf2], 1, |leaves| / 2)
    {
      HalvedOnce(|leaves|, 0);
      var all, i := leaves + [leaf1, leaf2], |leaves| / 2;
      assert all[2 * i] == leaf1 && all[2 * i + 1] == leaf2;
      assert NodeAt(H, zero, all, 0, 2 * i) == leaf1 && NodeAt(H, zero, all, 0, 2 * i + 1) == leaf2;
    }

    method IsKnownRoot(root: U256, ghost zeros: seq<U256>, ghost leaves: seq<U256>) returns (r: Result<bool, Error>)
      requires Blank() || Holds(zeros, leaves)
      ensures r == if root == 0 then Ok(false) else if Blank() then Err(NotInitialized)
                   else Ok(IsRecentRoot(H, zeros[0], levels.value, leaves, root))
      ensures !Blank() ==> (r == Ok(true) <==>
                root != 0 && IsRootOfRecentPrefix(H, zeros[0], levels.value, leaves, root))
    {
      if !Blank() { RecentRootsExactly(H, zeros[0], levels.value, leaves, root); }
      if root == 0 { return Ok(false); }
      if currentRootIndex == None { return Err(NotInitialized); }
      var found := ScanRoots(currentRootIndex.value, root);
      if found {
        ghost var i :| HoldsAt(i, root);
        FoundIsRecent(i, root, zeros, leaves);
      } else {
        NotFoundIsNotRecent(root, zeros, leaves);
      }
      r := Ok(found);
    }

    /** Once round the ring, starting at the current slot. */
    method ScanRoots(current: nat, root: U256) returns (found: bool)
      requires current < ROOT_HISTORY_SIZE
      ensures found ==> exists i: nat :: HoldsAt(i, root)
      ensures !found ==> forall j: nat :: j < ROOT_HISTORY_SIZE ==> !HoldsAt(j, root)
    {
      var i: nat := current;
      ghost var seen: nat := 0;
      while true
        invariant 0 <= seen < ROOT_HISTORY_SIZE && i < ROOT_HISTORY_SIZE && Offset(current, i) == seen
        invariant forall j: nat :: j < ROOT_HISTORY_SIZE && Offset(current, j) < seen ==> !HoldsAt(j, root)
        decreases ROOT_HISTORY_SIZE - seen
      {
        if i in roots && roots[i] == root {
          assert HoldsAt(i, root);
          return true;
        }
        assert !HoldsAt(i, root);
        i := (i + 1) % ROOT_HISTORY_SIZE;
        seen := seen + 1;
        if i == current { break; }
      }
      found := false;
    }

    predicate HoldsAt(i: nat, root: U256)
      reads this
    {
      i in roots && roots[i] == root
    }

    lemma FoundIsRecent(i: nat, root: U256, zeros: seq<U256>, leaves: seq<U256>)
      requires Holds(zeros, leaves) && HoldsAt(i, root)
      ensures IsRecentRoot(H, zeros[0], levels.value, leaves, root)
    {
      var n := SlotNumber(i, |leaves| / 2);
      assert RootAfter(H, zeros[0], levels.value, leaves, n) == root;
    }

    lemma NotFoundIsNotRecent(root: U256, zeros: seq<U256>, leaves: seq<U256>)
      requires Holds(zeros, leaves)
      requires forall j: nat :: j < ROOT_HISTORY_SIZE ==> !HoldsAt(j, root)
      ensures !IsRecentRoot(H, zeros[0], levels.value, leaves, root)
    {
      if IsRecentRoot(H, zeros[0], levels.value, leaves, root) {
        var n: nat :| Recent(n, |leaves| / 2) && 2 * n <= |leaves|
                      && RootAfter(H, zeros[0], levels.value, leaves, n) == root;
        assert HoldsAt(n % ROOT_HISTORY_SIZE, root);
      }
    }

    method GetLastRoot(ghost zeros: seq<U256>, ghost leaves: seq<U256>) returns (r: Result<U256, Error>)
      requires Blank() || Holds(zeros, leaves)
      ensures r == if Blank() then Err(NotInitialized) else Ok(NodeAt(H, zeros[0], leaves, levels.value, 0))
    {
      if currentRootIndex == None { return Err(NotInitialized); }
      assert leaves[..2 * (|leaves| / 2)] == leaves;
      assert Recent(|leaves| / 2, |leaves| / 2);
      r := if currentRootIndex.value in roots then Ok(roots[currentRootIndex.value]) else Err(NotInitialized);
    }

    /** The current root is `merkle_root` of all leaves padded with the zero leaf. */
    lemma LastRootIsMerkleRoot(zeros: seq<U256>, leaves: seq<U256>)
      requires Holds(zeros, leaves)
      ensures IsPowerOfTwo(Pow2(levels.value)) && currentRootIndex.value in roots
      ensures roots[currentRootIndex.value] == RootOfLevel(H, Padded(leaves, zeros[0], Pow2(levels.value)))
    {
      assert leaves[..2 * (|leaves| / 2)] == leaves;
      assert Recent(|leaves| / 2, |leaves| / 2);
      TopNodeIsMerkleRoot(H, zeros[0], leaves, levels.value);
    }
  }
}

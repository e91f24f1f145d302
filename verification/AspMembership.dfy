/** The membership contract: one leaf at a time into an append-only tree. */
module AspMembership {
  import opened Words
  import opened KeyPaths
  import opened MerkleReference
  import opened IncrementalMerkle

  /** `HostTrap` is a panic: a missing authorisation or a leaf outside the field. */
  datatype Error = WrongLevels | MerkleTreeFull | HostTrap

  /** The capacity check, the authorisation and the range check of the hash, in the order they are made. */
  function InsertVerdict(levels: nat, count: nat, adminOnly: bool, authorized: bool, leaf: U256): Result<(), Error> {
    if adminOnly && !authorized then Err(HostTrap)
    else if count >= Pow2(levels) then Err(MerkleTreeFull)
    else if leaf >= BN254_MODULUS then Err(HostTrap)
    else Ok(())
  }

  /** The event of one insertion, with the root it led to. */
  datatype Event = LeafAdded(leaf: U256, index: nat, root: U256)

  /** The events of inserting `leaves` one by one. */
  function AddedEvents(H: (U256, U256) -> U256, zero: U256, levels: nat, leaves: seq<U256>): (r: seq<Event>)
    ensures |r| == |leaves|
  {
    seq(|leaves|, i requires 0 <= i < |leaves| =>
      LeafAdded(leaves[i], i, NodeAt(H, zero, leaves[..i + 1], levels, 0)))
  }

  lemma {:induction false} AddedOne(H: (U256, U256) -> U256, zero: U256, levels: nat, leaves: seq<U256>, leaf: U256)
    ensures var all := leaves + [leaf];
            AddedEvents(H, zero, levels, all)
            == AddedEvents(H, zero, levels, leaves) + [LeafAdded(leaf, |leaves|, NodeAt(H, zero, all, levels, 0))]
  {
    var all := leaves + [leaf];
    assert all[..|leaves| + 1] == all;
    forall i | 0 <= i < |leaves|
      ensures AddedEvents(H, zero, levels, all)[i] == AddedEvents(H, zero, levels, leaves)[i]
    {
      assert all[..i + 1] == leaves[..i + 1];
    }
  }

  class MembershipTree {
    const H: (U256, U256) -> U256
    const levels: nat
    var filledSubtrees: map<nat, U256>
    var zeroes: map<nat, U256>
    var nextIndex: nat
    var root: U256
    var adminInsertOnly: bool
    var events: seq<Event>

    /** The tree holds `leaves`, in this order. */
    ghost predicate Holds(zeros: seq<U256>, leaves: seq<U256>)
      reads this
    {
      && 1 <= levels <= 32 && ZeroChain(H, zeros)
      && nextIndex == |leaves| <= Pow2(levels)
      && (forall l: nat :: l <= levels ==> l in zeroes && zeroes[l] == zeros[l])
      && Cached(H, zeros[0], leaves, filledSubtrees, 0, levels)
      && root == NodeAt(H, zeros[0], leaves, levels, 0)
      && events == AddedEvents(H, zeros[0], levels, leaves)
    }

    constructor (H: (U256, U256) -> U256, zeros: seq<U256>, levels: nat)
      requires 1 <= levels <= 32 && ZeroChain(H, zeros)
      ensures Holds(zeros, []) && this.H == H && this.levels == levels && adminInsertOnly
    {
      this.H, this.levels := H, levels;
      nextIndex, adminInsertOnly, events := 0, true, [];
      var filled: map<nat, U256>, zs: map<nat, U256> := map[], map[];
      for l := 0 to levels + 1
        invariant forall k: nat :: k < l ==> k in filled && k in zs && zs[k] == zeros[k]
      {
        filled, zs := filled[l := zeros[l]], zs[l := zeros[l]];
      }
      filledSubtrees, zeroes, root := filled, zs, zeros[levels];
      EmptyNode(H, zeros, [], levels, 0);
      forall l: nat | l < levels ensures Halved(0, l) == 0 { HalvedToZero(0, l); }
    }

    /** Deployment with the level check of the contract's constructor. */
    static method Deploy(H: (U256, U256) -> U256, zeros: seq<U256>, levels: nat)
      returns (r: Result<MembershipTree, Error>)
      requires ZeroChain(H, zeros)
      ensures r.Err? <==> levels == 0 || levels > 32
      ensures r.Err? ==> r.error == WrongLevels
      ensures r.Ok? ==> fresh(r.value) && r.value.Holds(zeros, []) && r.value.H == H && r.value.levels == levels
                        && r.value.adminInsertOnly
    {
      if levels == 0 || levels > 32 { return Err(WrongLevels); }
      var t := new MembershipTree(H, zeros, levels);
      r := Ok(t);
    }

    method SetAdminInsertOnly(authorized: bool, adminOnly: bool) returns (r: Result<(), Error>)
      modifies this`adminInsertOnly
      ensures r.Ok? <==> authorized
      ensures adminInsertOnly == if authorized then adminOnly else old(adminInsertOnly)
    {
      if !authorized { return Err(HostTrap); }
      adminInsertOnly := adminOnly;
      r := Ok(());
    }

    method InsertLeaf(authorized: bool, leaf: U256, ghost zeros: seq<U256>, ghost leaves: seq<U256>)
      returns (r: Result<(), Error>)
      requires Holds(zeros, leaves)
      modifies this`filledSubtrees, this`nextIndex, this`root, this`events
      ensures r == InsertVerdict(levels, |leaves|, adminInsertOnly, authorized, leaf)
      ensures r.Ok? ==> Holds(zeros, leaves + [leaf])
      ensures r.Err? ==> unchanged(this)
    {
      if adminInsertOnly && !authorized { return Err(HostTrap); }
      var capacity := ShiftOne(levels);
      if nextIndex >= capacity { return Err(MerkleTreeFull); }
      if leaf >= BN254_MODULUS { return Err(HostTrap); }

      var hash := Climb(leaf, zeros, leaves);
      root := hash;
      events := events + [LeafAdded(leaf, nextIndex, hash)];
      AddedOne(H, zeros[0], levels, leaves, leaf);
      nextIndex := nextIndex + 1;
      r := Ok(());
    }

    /** The level loop, from the new leaf to the root. */
    method Climb(leaf: U256, ghost zeros: seq<U256>, ghost leaves: seq<U256>) returns (hash: U256)
      requires 1 <= levels <= 32 && ZeroChain(H, zeros) && nextIndex == |leaves| < Pow2(levels)
      requires forall l: nat :: l <= levels ==> l in zeroes && zeroes[l] == zeros[l]
      requires Cached(H, zeros[0], leaves, filledSubtrees, 0, levels)
      modifies this`filledSubtrees
      ensures hash == NodeAt(H, zeros[0], leaves + [leaf], levels, 0)
      ensures Cached(H, zeros[0], leaves + [leaf], filledSubtrees, 0, levels)
    {
      var index := nextIndex;
      hash := leaf;
      for l := 0 to levels
        invariant index == Halved(|leaves|, l)
        invariant Climbing(H, zeros, leaves, [leaf], 0, l, levels, filledSubtrees, hash)
      {
        HalvedSucc(|leaves|, l);
        ClimbOnce(H, zeros, leaves, [leaf], 0, l, levels, filledSubtrees, hash);
        if index % 2 == 1 {
          hash := H(filledSubtrees[l], hash);
        } else {
          filledSubtrees := filledSubtrees[l := hash];
          hash := H(hash, zeroes[l]);
        }
        index := index / 2;
      }
      HalvedToZero(|leaves|, levels);
    }

    /** The root is `merkle_root` of all leaves inserted so far, padded with the zero leaf. */
    lemma RootIsMerkleRoot(zeros: seq<U256>, leaves: seq<U256>)
      requires Holds(zeros, leaves)
      ensures IsPowerOfTwo(Pow2(levels))
      ensures root == RootOfLevel(H, Padded(leaves, zeros[0], Pow2(levels)))
    {
      TopNodeIsMerkleRoot(H, zeros[0], leaves, levels);
    }
  }
}

/** The two on-chain trees, filled with the same leaves in their own ways, and the full rebuild. */
module MerkleAgreement {
  import opened Words
  import opened MerkleReference
  import opened IncrementalMerkle
  import AspMembership
  import PoolTree

  /** Pairs into the pool tree, single leaves into the membership tree: both roots are the full rebuild's. */
  method FillBoth(H: (U256, U256) -> U256, zeros: seq<U256>, levels: nat, leaves: seq<U256>)
    returns (poolRoot: U256, aspRoot: U256)
    requires ZeroChain(H, zeros) && 1 <= levels <= 32
    requires |leaves| % 2 == 0 && |leaves| <= Pow2(levels)
    requires forall i :: 0 <= i < |leaves| ==> leaves[i] < BN254_MODULUS
    ensures IsPowerOfTwo(Pow2(levels))
    ensures poolRoot == aspRoot == RootOfLevel(H, Padded(leaves, zeros[0], Pow2(levels)))
  {
    poolRoot := FillPool(H, zeros, levels, leaves);
    aspRoot := FillAsp(H, zeros, levels, leaves);
    TopNodeIsMerkleRoot(H, zeros[0], leaves, levels);
  }

  method FillPool(H: (U256, U256) -> U256, zeros: seq<U256>, levels: nat, leaves: seq<U256>) returns (root: U256)
    requires ZeroChain(H, zeros) && 1 <= levels <= 32
    requires |leaves| % 2 == 0 && |leaves| <= Pow2(levels)
    requires forall i :: 0 <= i < |leaves| ==> leaves[i] < BN254_MODULUS
    ensures root == NodeAt(H, zeros[0], leaves, levels, 0)
  {
    var tree := new PoolTree.CommitmentTree(H);
    var _ := tree.Init(zeros, levels);
    var k := 0;
    while k < |leaves|
      invariant k % 2 == 0 && k <= |leaves|
      invariant fresh(tree) && tree.H == H && tree.levels == Some(levels) && tree.Holds(zeros, leaves[..k])
    {
      assert leaves[..k] + [leaves[k], leaves[k + 1]] == leaves[..k + 2];
      var _ := tree.InsertTwoLeaves(leaves[k], leaves[k + 1], zeros, leaves[..k]);
      k := k + 2;
    }
    assert leaves[..k] == leaves;
    var r := tree.GetLastRoot(zeros, leaves);
    root := r.value;
  }

  method FillAsp(H: (U256, U256) -> U256, zeros: seq<U256>, levels: nat, leaves: seq<U256>) returns (root: U256)
    requires ZeroChain(H, zeros) && 1 <= levels <= 32 && |leaves| <= Pow2(levels)
    requires forall i :: 0 <= i < |leaves| ==> leaves[i] < BN254_MODULUS
    ensures root == NodeAt(H, zeros[0], leaves, levels, 0)
  {
    var tree := new AspMembership.MembershipTree(H, zeros, levels);
    for k := 0 to |leaves|
      invariant fresh(tree) && tree.H == H && tree.levels == levels && tree.Holds(zeros, leaves[..k])
    {
      assert leaves[..k] + [leaves[k]] == leaves[..k + 1];
      var _ := tree.InsertLeaf(true, leaves[k], zeros, leaves[..k]);
    }
    assert leaves[..|leaves|] == leaves;
    root := tree.root;
  }
}

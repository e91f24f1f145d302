# Private payments: a verified model

A Dafny model of the parts of the privacy pool whose correctness everything else rests on, with
proofs about every run, every input and every reachable state.

- **The blocklist** (`KeyPaths`, `SparseTree`, `SparsePaths`, `SparseNodes`, `SparseEdits`,
  `NonMembership`, `NonMembershipRuns`): the content-addressed sparse Merkle tree of the
  non-membership contract. Its class keeps a store and a root, as the contract does; it is proved to
  be a plain map, to have one root per map, and to remove no node it still needs; which nodes it leaves
  behind is characterised exactly, over all runs.
- **The append-only trees** (`MerkleReference`, `IncrementalMerkle`, `AspMembership`, `PoolTree`,
  `MerkleAgreement`): the pool's commitment tree with its ring of 90 roots and the membership tree.
  Both caches are proved equal to the full rebuild `merkle_root` of the padded leaves, for every
  compression function.
- **The pool** (`Groth16Verifier`, `PoolSpec`, `Pool`, `SystemRuns`, `SystemLedger`,
  `SystemAcceptance`, `SystemReplay`): `transact` as an imperative contract over its tree, its nullifiers,
  the token and the two lists, refined by a specification, and whole-system runs of that specification: exactly which transactions are accepted, no
  double spend, everyone's balance, freshness of the quoted roots, replay of the event log.
- **Field linear algebra** (`ModField`, `MatInverse`, `Poseidon2Naive`, `Poseidon2Linear`, `Poseidon2`,
  `Poseidon2Kernels`, `FiniteMaps`, `Poseidon2Injective`, `Poseidon2Rounds`, `Poseidon2Tails`): Gaussian
  elimination in place, the fast Poseidon2 permutation (Poseidon2, ePrint 2023/323, sections 5.1 and 5.2) against
  explicit matrix products, and exactly when it is injective, for every width.
- **Amounts** (`Amounts`): the fixed-point printer and parser of the user interface.

Conventions. Digests of the blocklist are a free datatype, which is the collision-free reading of the
hash; `Raw` stands for words that are not the hash of anything. The compression function of the other
trees is an arbitrary function `H` with `zeros[i + 1] == H(zeros[i], zeros[i])`; injectivity is not
assumed. A panic of the host (missing authorisation, a hash input that is not
below the field order, a failing token transfer) is the error `HostTrap`. An error of a contract undoes
all its storage changes, as on Soroban; `Pool.PoolContract.Execute` is the contract's own code and
`Pool.PoolContract.Invoke` is that code under the host's rollback.

Where the code and its documentation or intent differ, the code is followed:

- Deleting a leaf whose sibling is a leaf pops that sibling before the old path is recomputed, so the
  old ancestors stay in storage. `SparseEdits.DeleteGarbage` gives the exact leftover of one deletion and
  `NonMembershipRuns.LeftoverHistory` that of a run; `NonMembershipRuns.PromotionLeavesGarbage` is the
  concrete run.
- A non-membership proof that ends at a leaf of value zero starts its fold from zero.
  `NonMembership.OwnAnswerFoldsToRoot` states exactly when the lookup's own answer folds to the root;
  `NonMembershipRuns.ZeroValueBlocksProofs` is the concrete absent key without any acceptable proof.
- `mat_inverse` does not pivot. `MatInverse.Invert` states that it fails if and only if some leading
  block of the matrix is singular; `MatInverse.InvertibleButRefused` is an invertible matrix it fails on.
- The public inputs carry each list root once per nullifier, so with no nullifiers they do not
  carry them (`PoolSpec.NoNullifiersNoRoots`); with at least one they determine the statement.
- A transaction of a non-zero amount whose counterparty is the pool itself moves nothing.
  `SystemRuns.BalanceMovesByTheAmount` gives the exact condition and `SystemRuns.SelfDealingMovesNothing` a
  concrete accepted withdrawal to the pool's own address.
- The contract does not look for repeated nullifiers within one transaction; ruling them out is the circuit's
  part. `SystemRuns.SpendsOneEach` states what depends on it and `SystemRuns.RepeatedNullifierAccepted` is a
  concrete accepted transaction.
- The permutation ignores all constants of a partial round but the first. `Poseidon2.Permutation` says what
  it computes for any table. `Poseidon2Tails.TailMatters` says exactly when that matters in one round,
  `Poseidon2Tails.SingleTailMatters` when it matters in a whole permutation with one such round, and
  `Poseidon2Tails.TailIgnored` is a concrete table. For several rounds vanishing tails are sufficient but not
  necessary: `Poseidon2Tails.TailsCancel` is a table whose tails cancel.

## Model

| member | source | states |
|---|---|---|
| KeyPaths.SplitBits | contracts/asp-non-membership/src/lib.rs:180-192 | the loop over the shifted key yields its 256 bits, least significant first |
| KeyPaths.BitsDetermine | contracts/asp-non-membership/src/lib.rs:180-192 | two numbers below 2^n with the same n bits are equal |
| KeyPaths.KeyBitsInjective | contracts/asp-non-membership/src/lib.rs:180-192 | distinct keys have distinct paths, so two leaves always part within 256 levels |
| KeyPaths.KeyBitsReadBack | contracts/asp-non-membership/src/lib.rs:180-192 | reading the path of a key as a binary number, least significant bit first, gives the key back |
| SparseTree.CanonicalContents | contracts/asp-non-membership/src/lib.rs:215-306 | in a canonical tree all keys lie on the path of their subtree, and only the zero tree is empty |
| SparseTree.InnerHasTwoKeys | contracts/asp-non-membership/src/lib.rs:542-604 | every internal node of a canonical tree holds two different keys, so nothing is left to collapse |
| SparseTree.CanonicalIsUnique | contracts/asp-non-membership/src/lib.rs:386-464 | a canonical tree equals the reference tree built from its contents alone |
| SparseTree.CanonicalTreeIsCanonical | contracts/asp-non-membership/src/lib.rs:386-464 | the reference tree of any map is canonical and commits to exactly that map |
| SparsePaths.FoldCanonical | contracts/asp-non-membership/src/lib.rs:412-464 | rebuilding bottom-up through canonical siblings gives a canonical tree with the combined contents |
| SparsePaths.WalkFacts | contracts/asp-non-membership/src/lib.rs:236-306 | folding the siblings that a walk collects rebuilds the very tree it walked |
| SparsePaths.WalkFinds | contracts/asp-non-membership/src/lib.rs:236-306 | a key is in the tree if and only if the walk along its bits ends at its leaf |
| SparsePaths.SibKeysLeave | contracts/asp-non-membership/src/lib.rs:236-306 | every key below a sibling differs from the walked key at one of the levels walked |
| SparseNodes.NodesOfFold | contracts/asp-non-membership/src/lib.rs:412-464 | the nodes of a rebuilt tree are its path, the siblings' nodes and the end's nodes |
| SparseNodes.SpineApart | contracts/asp-non-membership/src/lib.rs:420-464 | no node of a path occurs in a sibling subtree, so removing the path cannot damage a sibling |
| SparseEdits.WalkOfFold | contracts/asp-non-membership/src/lib.rs:641-710 | walking a folded path gives back the siblings and the end it was folded from |
| SparseEdits.InsertTree | contracts/asp-non-membership/src/lib.rs:386-464 | the siblings an insertion uses fold to the canonical root of the extended map |
| SparseEdits.InsertRemovesOnlyThePath | contracts/asp-non-membership/src/lib.rs:412-464 | the new tree's nodes are the old ones without the old path plus the new leaf and path, and the removed nodes are none of them |
| SparseEdits.InsertKeepsSound | contracts/asp-non-membership/src/lib.rs:380-464 | insertion keeps every reachable node stored, changes the map at one key, and leaves storage exact when it was exact |
| SparseEdits.InsertGarbage | contracts/asp-non-membership/src/lib.rs:412-464 | from any sound storage: after an insertion the new tree and the old garbage are stored, so an insertion never adds garbage |
| SparseEdits.DeleteTree | contracts/asp-non-membership/src/lib.rs:542-604 | promotion and collapse fold to the canonical root of the smaller map |
| SparseEdits.DeleteSafe | contracts/asp-non-membership/src/lib.rs:535-604 | nothing a deletion removes is a node of the new tree, and all nodes of the new tree are stored |
| SparseEdits.DeleteKeepsSound | contracts/asp-non-membership/src/lib.rs:535-604 | deletion keeps every reachable node stored and removes exactly one key from the map |
| SparseEdits.GarbageOfDelete | contracts/asp-non-membership/src/lib.rs:542-604 | what a deletion leaves stored is the new tree, plus the whole old path when a leaf was promoted |
| SparseEdits.DeleteGarbage | contracts/asp-non-membership/src/lib.rs:542-604 | from any sound storage: what is stored after a deletion is the new tree, the old garbage the loop does not hit, and the old path when a leaf was promoted; it is exact if and only if no leaf was promoted and all old garbage is removed or used again |
| NonMembership.FindWalks | contracts/asp-non-membership/src/lib.rs:215-306 | the recursive lookup over storage reports the walk over the tree, without an error, from every level |
| NonMembership.FindRefinesMap | contracts/asp-non-membership/src/lib.rs:215-306 | a lookup in sound storage never fails, finds exactly the keys of the map with their values, and otherwise reports another key's leaf that is really there, or, at an empty place, the key itself with value zero |
| NonMembership.DropsExactlyTheOldPath | contracts/asp-non-membership/src/lib.rs:420-449 | the `mixed` flag makes the loop remove a node at exactly the levels of the old path |
| NonMembership.RebuiltStep | contracts/asp-non-membership/src/lib.rs:412-464 | one level of the rebuild files the next new node and removes the next old one, and these never coincide |
| NonMembership.InsertLevel | contracts/asp-non-membership/src/lib.rs:412-464 | at each level the flag decides as the old path demands, and the next new node is filed and the next old one removed |
| NonMembership.InsertIsReady | contracts/asp-non-membership/src/lib.rs:380-411 | the siblings, flag and starting node that the lookup and the collision branch produce fit the rebuild loop |
| NonMembership.DeleteIsReady | contracts/asp-non-membership/src/lib.rs:535-564 | the siblings and the end that promotion produces fit the collapse loop |
| NonMembership.LastSiblingStored | contracts/asp-non-membership/src/lib.rs:536-560 | the last sibling is still stored after the leaf is removed, and its entry tells whether it is promoted |
| NonMembership.OwnAnswerFoldsToRoot | contracts/asp-non-membership/src/lib.rs:684-707 | for an absent key, the fold the verifier computes from the lookup's own answer reaches the root if and only if no leaf of value zero stands in the key's place |
| NonMembership.FoldProvesAbsence | contracts/asp-non-membership/src/lib.rs:641-710 | any siblings that fold zero or another key's leaf along the key's bits to the root prove absence, and they are the lookup's own |
| NonMembership.ProofAcceptedExactly | contracts/asp-non-membership/src/lib.rs:641-710 | for every root, key, siblings and leaf: accepted if and only if the siblings fold zero, or another key's leaf with a value, along the key's bits to the root; `false` if and only if the key is present |
| NonMembership.Blocklist.constructor | contracts/asp-non-membership/src/lib.rs:104-111 | the new contract holds the empty map, the zero root and no nodes |
| NonMembership.Blocklist.FindKey | contracts/asp-non-membership/src/lib.rs:329-336 | found with value v if and only if the map holds v; never an error |
| NonMembership.Blocklist.InsertLeaf | contracts/asp-non-membership/src/lib.rs:361-492 | succeeds exactly for an authorised absent key of field elements; then the map gains it, storage is the specified one and the event carries the new root; otherwise nothing changes |
| NonMembership.Blocklist.CollisionSiblings | contracts/asp-non-membership/src/lib.rs:380-410 | the branch on a colliding leaf yields the siblings of the new leaf, the start of the old path and the two flags that the rebuild loop needs |
| NonMembership.Blocklist.ExtendSiblings | contracts/asp-non-membership/src/lib.rs:387-398 | one zero sibling per bit shared with the colliding key |
| NonMembership.Blocklist.RebuildInserted | contracts/asp-non-membership/src/lib.rs:412-481 | the root is the fold, and storage loses exactly the old path and gains exactly the leaf and the new path |
| NonMembership.Blocklist.DeleteLeaf | contracts/asp-non-membership/src/lib.rs:516-617 | succeeds exactly for an authorised present key; then the map loses it, storage is the specified one and the event carries the new root; otherwise nothing changes |
| NonMembership.Blocklist.RebuildDeleted | contracts/asp-non-membership/src/lib.rs:566-607 | the root is the fold of what remains, and storage loses the path of the leaf and gains the new path |
| NonMembership.Blocklist.VerifyNonMembership | contracts/asp-non-membership/src/lib.rs:641-710 | true if and only if the caller's siblings fold zero, or the named leaf of another key with a value, to the root; false if and only if the key is present; otherwise an invalid-proof error |
| NonMembership.Blocklist.FoldUp | contracts/asp-non-membership/src/lib.rs:692-703 | the loop from the leaf end computes the fold along the key bits |
| NonMembershipRuns.StepIsSound | contracts/asp-non-membership/src/lib.rs:361-617 | one call keeps storage sound and does to the map what the call means |
| NonMembershipRuns.RunRefinesMap | contracts/asp-non-membership/src/lib.rs:361-617 | after any run of inserts and deletes, failing ones included, storage is sound, the contents are the map's, and the root is that of the map |
| NonMembershipRuns.RootDependsOnContentsOnly | contracts/asp-non-membership/src/lib.rs:386-604 | two runs end at the same root if and only if they end at the same map |
| NonMembershipRuns.InsertThenDelete | contracts/asp-non-membership/src/lib.rs:361-617 | inserting a key and deleting it again restores the previous root, after any run |
| NonMembershipRuns.TwoLeaves | contracts/asp-non-membership/src/lib.rs:451-463 | the tree of keys 0 and 1 has the leaf of 0 on the left and the leaf of 1 on the right |
| NonMembershipRuns.StorageIsTreeAndLeftover | contracts/asp-non-membership/src/lib.rs:380-604 | after any run storage is the current tree plus a leftover computed from the maps alone, disjoint from it; storage is exact if and only if the leftover is empty |
| NonMembershipRuns.LeftoverHistory | contracts/asp-non-membership/src/lib.rs:535-604 | a node is in the leftover if and only if some promoting deletion left it behind and no later call removed it or took it back into the tree |
| NonMembershipRuns.PromotionLeavesGarbage | contracts/asp-non-membership/src/lib.rs:549-584 | two insertions and one deletion that leave an unreachable node in storage |
| NonMembershipRuns.ZeroValueBlocksProofs | contracts/asp-non-membership/src/lib.rs:685-690 | after inserting key 1 with value zero, key 2 is absent and no siblings, key and value are accepted as a proof of that |
| NonMembershipRuns.EventsReadBack | contracts/asp-non-membership/src/lib.rs:483-489 | reading the insert and delete events of any run gives back the current map |
| NonMembershipRuns.Call | contracts/asp-non-membership/src/lib.rs:361-617 | one call of the contract, of either kind, is one step of the run, with its verdict and its event |
| NonMembershipRuns.Replay | contracts/asp-non-membership/src/lib.rs:361-617 | the contract driven through any run answers call by call as the map, ends at the map's root, and its event log reads back as the map |
| MerkleReference.BuildParents | circuits/src/core/merkle.rs:39-45 | the pairing loop hashes neighbours |
| MerkleReference.MerkleRoot | circuits/src/core/merkle.rs:33-47 | the loop computes the root defined by recursion on levels |
| MerkleReference.RootOfHalves | circuits/src/core/merkle.rs:33-47 | the root hashes the root of the left half with the root of the right half, in this order |
| MerkleReference.BitsOfIndex | circuits/src/core/merkle.rs:70-91 | the collected path bits are the bits of the index, and none for a single leaf |
| MerkleReference.PackBits | circuits/src/core/merkle.rs:88-91 | packing bits by shifts gives the number with those bits |
| MerkleReference.CollectProof | circuits/src/core/merkle.rs:62-86 | the level loop collects the siblings and bits of the recursive definition |
| MerkleReference.MerkleProof | circuits/src/core/merkle.rs:62-94 | the packed indices are the index (zero for a single leaf, which takes any index), the path has one sibling per level, and it folds from the leaf to the root |
| MerkleReference.ProofFolds | circuits/src/core/merkle.rs:126-145 | every proof of every leaf folds to the root |
| MerkleReference.ProofBindsOrCollides | circuits/src/core/merkle.rs:126-145 | for every compression function, finite fields included: whoever folds another value or another path of that length to the root at index i has found a collision, which is returned |
| IncrementalMerkle.EmptyNode | contracts/pool/src/merkle_with_history.rs:82-90 | every subtree right of the last leaf is the zero hash of its level |
| IncrementalMerkle.CompleteNode | contracts/pool/src/merkle_with_history.rs:154-171 | complete subtrees are not changed by later leaves |
| IncrementalMerkle.ClimbStep | contracts/pool/src/merkle_with_history.rs:154-171 | one level of an append pairs with the old left neighbour or with the zero hash |
| IncrementalMerkle.CacheStep | contracts/pool/src/merkle_with_history.rs:154-171 | storing even nodes and leaving odd ones keeps the cache right for the longer list |
| IncrementalMerkle.ClimbOnce | contracts/asp-membership/src/lib.rs:216-233 | one iteration of either contract's level loop keeps the node and the cache right |
| IncrementalMerkle.TopNodeIsMerkleRoot | circuits/src/core/merkle.rs:33-47 | the top node of the padded tree is `merkle_root` of the leaves padded to 2^levels |
| AspMembership.MembershipTree.constructor | contracts/asp-membership/src/lib.rs:84-110 | the new tree holds no leaves and admits only the admin |
| AspMembership.MembershipTree.Deploy | contracts/asp-membership/src/lib.rs:84-110 | deployment fails if and only if levels is 0 or above 32 |
| AspMembership.MembershipTree.SetAdminInsertOnly | contracts/asp-membership/src/lib.rs:137-143 | the switch changes exactly when authorised |
| AspMembership.AddedOne | contracts/asp-membership/src/lib.rs:238-244 | the log of one more leaf is the log so far plus its event: event i carries leaf i and the root over the first i + 1 leaves |
| AspMembership.MembershipTree.InsertLeaf | contracts/asp-membership/src/lib.rs:195-252 | the verdict follows authorisation, capacity and field range; on success the tree holds the leaves plus the new one and the log its event, on failure nothing changed |
| AspMembership.MembershipTree.Climb | contracts/asp-membership/src/lib.rs:213-233 | the level loop returns the top node of the padded tree with the new leaf and repairs the cache |
| AspMembership.MembershipTree.RootIsMerkleRoot | contracts/asp-membership/src/lib.rs:195-252 | the stored root is `merkle_root` of all leaves padded with the zero leaf |
| PoolTree.RingPush | contracts/pool/src/merkle_with_history.rs:173-177 | writing the next slot keeps the ring: each slot holds the newest root of its residue |
| PoolTree.RecentRootsExactly | contracts/pool/src/merkle_with_history.rs:18-236 | the roots in the ring are exactly the roots of even prefixes of the leaves that are at most 89 insertions old |
| PoolTree.CommitmentTree.constructor | contracts/pool/src/merkle_with_history.rs:68-75 | a tree before `init` has nothing stored |
| PoolTree.CommitmentTree.Init | contracts/pool/src/merkle_with_history.rs:68-99 | wrong levels, repeated initialisation and success, with the empty tree on success |
| PoolTree.CommitmentTree.InsertTwoLeaves | contracts/pool/src/merkle_with_history.rs:122-191 | returns the two indices, or full, or not initialised, or the trap on a leaf outside the field; on success the tree holds both leaves in order, on failure nothing changed |
| PoolTree.CommitmentTree.RecordRoot | contracts/pool/src/merkle_with_history.rs:173-177 | the ring after the push, and the next current slot |
| PoolTree.CommitmentTree.Climb | contracts/pool/src/merkle_with_history.rs:145-171 | the level loop returns the root over all leaves and repairs the cache |
| PoolTree.CommitmentTree.IsKnownRoot | contracts/pool/src/merkle_with_history.rs:209-236 | true if and only if the root is non-zero and is `merkle_root` of a padded even prefix of the leaves at most 89 insertions old |
| PoolTree.CommitmentTree.ScanRoots | contracts/pool/src/merkle_with_history.rs:220-235 | the scan once round the ring finds the root if and only if some slot holds it |
| PoolTree.CommitmentTree.FoundIsRecent | contracts/pool/src/merkle_with_history.rs:209-236 | a slot's root is one of the last 90 |
| PoolTree.CommitmentTree.NotFoundIsNotRecent | contracts/pool/src/merkle_with_history.rs:209-236 | none of the last 90 roots is missing from the ring |
| PoolTree.CommitmentTree.GetLastRoot | contracts/pool/src/merkle_with_history.rs:249-258 | the newest root, or not initialised |
| PoolTree.CommitmentTree.LastRootIsMerkleRoot | contracts/pool/src/merkle_with_history.rs:122-191 | the current root is `merkle_root` of all leaves padded with the zero leaf |
| MerkleAgreement.FillBoth | contracts/pool/src/merkle_with_history.rs:122-191 | pairs into the pool tree and single leaves into the membership tree end at the same root, the full rebuild's |
| MerkleAgreement.FillPool | contracts/pool/src/merkle_with_history.rs:122-191 | filling the pool tree pair by pair reaches the top node of the padded tree |
| MerkleAgreement.FillAsp | contracts/asp-membership/src/lib.rs:195-252 | filling the membership tree leaf by leaf reaches the same node |
| Groth16Verifier.VerifyWithVk | contracts/circom-groth16-verifier/src/lib.rs:93-140 | the accumulation loop and the pairing check give the verdict that the next two rows characterise; wrong lengths are malformed, a failing pairing is an invalid proof |
| Groth16Verifier.InputCommitmentSums | contracts/circom-groth16-verifier/src/lib.rs:105-120 | in the exponent the accumulated point is the first key point plus each input times its own key point |
| Groth16Verifier.AcceptedExactly | contracts/circom-groth16-verifier/src/lib.rs:93-140 | for any groups in which the host functions compute: accepted if and only if the lengths fit and A * B = alpha * beta + (ic[0] + sum of inputs[i] * ic[i + 1]) * gamma + C * delta in the exponent |
| PoolSpec.CalculatePublicAmount | contracts/pool/src/pool.rs:312-332 | defined exactly below 2^248 in absolute value, and then the canonical residue modulo the field order |
| PoolSpec.PublicAmountInjective | contracts/pool/src/pool.rs:312-332 | equal public amounts come from equal external amounts, sign included |
| Words.LimitsArePowers | contracts/pool/src/pool.rs:274-294 | the limits on amounts are 2^248 and 2^127 - 1 |
| PoolSpec.PublicInputsLayout | contracts/pool/src/pool.rs:403-449 | the vector has 5 + 3n entries, each at its place, both list roots n times |
| PoolSpec.PublicInputsInjective | contracts/pool/src/pool.rs:403-449 | if there is a nullifier, the vector determines the whole statement, the number of nullifiers included |
| PoolSpec.NoNullifiersNoRoots | contracts/pool/src/pool.rs:433-444 | for n = 0 the list roots can be changed without changing the vector |
| PoolSpec.TwelvePointsMeanTwoNullifiers | deployments/testnet/circuit_keys/policy_tx_2_2_vk_const.rs:14 | with the deployed twelve-point key acceptance implies exactly two nullifiers |
| PoolSpec.Transfer | contracts/pool/src/pool.rs:513-522 | a transfer traps exactly for a negative amount, too small a balance or too large a result; otherwise it moves exactly the amount and touches no other balance |
| Pool.BuildPublicInputs | contracts/pool/src/pool.rs:415-444 | the loops build the vector in the circuit's order |
| Pool.ValidatePublicInputs | contracts/pool/src/pool.rs:379-391 | true if and only if every public input is below the field order |
| Pool.VerifyProof | contracts/pool/src/pool.rs:403-449 | empty proofs, non-canonical inputs, verifier errors and success, in the source's order |
| Pool.PoolContract.constructor | contracts/pool/src/pool.rs:237-269 | before initialisation nothing is stored and the tree is blank |
| Pool.PoolContract.Initialize | contracts/pool/src/pool.rs:237-269 | initialisation fails exactly for levels outside 1..32; otherwise the pool has no commitments, no nullifiers and no events |
| Pool.PoolContract.IsSpent | contracts/pool/src/pool.rs:344-347 | an error exactly when the nullifier map is missing; in an initialised pool, whether the nullifier is spent |
| Pool.PoolContract.MarkSpent | contracts/pool/src/pool.rs:355-360 | an error exactly when the nullifier map is missing; otherwise exactly this key is added |
| Pool.PoolContract.RunChecks | contracts/pool/src/pool.rs:549-585 | the checks give the specified verdict, first failing check first |
| Pool.PoolContract.MarkAll | contracts/pool/src/pool.rs:587-591 | in an initialised pool no dropped result is an error, exactly the given nullifiers are marked, and one event each is logged in order |
| Pool.PoolContract.TakeDeposit | contracts/pool/src/pool.rs:512-522 | the deposit step gives the specified ledger or error |
| Pool.PoolContract.PayOut | contracts/pool/src/pool.rs:593-603 | the withdrawal step gives the specified ledger or error |
| Pool.PoolContract.AddCommitments | contracts/pool/src/pool.rs:605-625 | both commitments are inserted and logged with their indices; or the tree is full or a commitment is outside the field, and nothing changed |
| Pool.PoolContract.Execute | contracts/pool/src/pool.rs:501-628 | the contract's code reaches exactly the specified state or the specified error |
| Pool.PoolContract.Invoke | contracts/pool/src/pool.rs:501-628 | under the host's rollback an error leaves the whole view unchanged |
| SystemLedger.EveryBalanceMoves | contracts/pool/src/pool.rs:512-603 | one accepted transaction, every address: a deposit moves from the sender to the pool, a withdrawal from the pool to the recipient, and no other balance changes |
| SystemLedger.EveryBalance | contracts/pool/src/pool.rs:512-603 | over any run everyone's balance is their first balance plus their own flows and plain transfers |
| SystemLedger.BystandersKeepTheirs | contracts/pool/src/pool.rs:512-603 | whoever neither sends, receives nor transfers ends with their first balance |
| SystemAcceptance.StateIsHistory | contracts/pool/src/pool.rs:587-625 | after any run the spent set is exactly what accepted transactions listed, the tree holds exactly their commitments in order, and the log gives back nullifiers and encrypted outputs in order |
| SystemAcceptance.RefusedExactly | contracts/pool/src/pool.rs:501-628 | after any calls a transaction is refused with exactly the first reason that the history of calls and the ledger give, and accepted if there is none |
| SystemAcceptance.AcceptedExactly | contracts/pool/src/pool.rs:501-628 | over a run a transaction is accepted if and only if the calls before it give no reason to refuse it |
| SystemAcceptance.AcceptedWithinLimits | contracts/pool/src/pool.rs:507-522 | every accepted transaction is authorised, deposits at most the maximum and stays within 128-bit amounts |
| SystemAcceptance.UnauthorizedChangesNothing | contracts/asp-membership/src/lib.rs:195-201 | an unauthorised call, under the admin switch for members, is answered with an error and changes nothing in the whole system |
| SystemAcceptance.ListCallsSucceedExactly | contracts/asp-membership/src/lib.rs:137-213 | when member insertions, the switch and blocklist insertions and deletions succeed, in terms of the calls before |
| SystemAcceptance.OpenExactly | contracts/asp-membership/src/lib.rs:137-143 | member insertion is open to everyone if and only if an authorised call opened it and none has closed it since |
| SystemRuns.RunTracksLists | contracts/pool/src/pool.rs:785-807 | in any interleaving the member list, its admin switch and the blocklist depend only on their own calls, and the blocklist root is canonical |
| SystemRuns.AcceptedTransactionsSeeCurrentLists | contracts/pool/src/pool.rs:573-585 | each accepted transaction quotes the padded root of all members so far and the canonical root of the current blocklist |
| SystemRuns.AcceptedTransactionsQuoteARecentRoot | contracts/pool/src/pool.rs:551-553 | each accepted transaction quotes the root of an even prefix of the commitments at most 89 insertions old |
| SystemRuns.AcceptedTransactionsSpendTwoNotes | deployments/testnet/circuit_keys/policy_tx_2_2_vk_const.rs:14 | with a twelve-point key every accepted transaction of every run has two nullifiers |
| SystemRuns.AcceptedAmountsAreResidues | contracts/pool/src/pool.rs:312-332 | the public amount of an accepted transaction is the residue of its external amount and of no other amount in range |
| SystemRuns.PublicInputsBindExternalData | contracts/pool/src/pool.rs:560-571 | accepted transactions with equal public inputs have equal amounts and external-data digests, and equal external data unless two of the run collide |
| SystemRuns.StepKeepsSpent | contracts/pool/src/pool.rs:587-591 | no action un-spends a nullifier, and acceptance spends all of its own |
| SystemRuns.SpentGrows | contracts/pool/src/pool.rs:344-360 | the spent set only grows along a run |
| SystemRuns.SpentAfterAcceptance | contracts/pool/src/pool.rs:587-591 | right after acceptance its nullifiers are spent |
| SystemRuns.SpendsOneEach | contracts/pool/src/pool.rs:554-591 | an accepted transaction adds as many spent nullifiers as it lists if and only if it lists none twice |
| SystemRuns.RepeatedNullifierAccepted | contracts/pool/src/pool.rs:554-591 | a concrete accepted transaction under a twelve-point key that lists one nullifier twice and spends one |
| SystemRuns.NoDoubleSpend | contracts/pool/src/pool.rs:554-591 | two accepted transactions of one run never share a nullifier, not even modulo the field order |
| SystemRuns.TransactionFlow | contracts/pool/src/pool.rs:501-603 | one accepted transaction changes the pool's balance by its flow |
| SystemRuns.ValueConservation | contracts/pool/src/pool.rs:501-603 | over any run the pool's balance is its first balance plus the flows of the accepted transactions plus direct gifts |
| SystemRuns.BalanceMovesByTheAmount | contracts/pool/src/pool.rs:501-603 | an accepted transaction changes the pool's balance by its external amount if and only if the amount is zero or the counterparty is not the pool |
| SystemRuns.SelfDealingMovesNothing | contracts/pool/src/pool.rs:593-603 | a concrete accepted withdrawal of five whose recipient is the pool, under a twelve-point key, that leaves the balance as it was |
| SystemRuns.BalanceIsSumOfAmounts | contracts/pool/src/pool.rs:501-603 | over any run whose accepted transactions with a non-zero amount have a counterparty other than the pool, the balance changes by exactly the sum of the external amounts, direct gifts aside |
| SystemRuns.LogTransaction | contracts/pool/src/pool.rs:587-625 | the events of one transaction extend the log by its commitments, each under its own index |
| SystemReplay.Deploy | contracts/pool/src/pool.rs:237-269 | deployment succeeds exactly for the depths both trees take, and then the contracts hold the state of the empty run |
| SystemReplay.AddOneMember | contracts/asp-membership/src/lib.rs:195-252 | one insertion into the membership contract is one step of the system, with the verdict it prescribes |
| SystemReplay.SwitchAdminOnly | contracts/asp-membership/src/lib.rs:137-143 | one call of the admin switch is one step of the system, and succeeds exactly when authorised |
| SystemReplay.ChangeBlocklist | contracts/asp-non-membership/src/lib.rs:361-617 | one call on the blocklist contract is one step of the system, with the map's verdict |
| SystemReplay.SubmitOne | contracts/pool/src/pool.rs:501-628 | one transaction on the pool contract is one step of the system, and the answer is the abstract outcome, error by error |
| SystemReplay.StoredRoot | contracts/pool/src/pool.rs:605-625 | the root stored in the current ring slot is `merkle_root` of the commitments in the stored event log, in index order |
| SystemReplay.Drive | contracts/pool/src/pool.rs:501-628 | the contracts driven through any interleaving hold exactly the state of the abstract run, every answer on the way is the abstract one, a transaction is answered Ok if and only if it is accepted, and the stored root is the replay of the stored log; this carries all run theorems over to the contracts |
| ModField.Inverse | poseidon2/src/utils.rs:44 | in a prime field every non-zero element has the computed inverse |
| MatInverse.SubtractRow | poseidon2/src/utils.rs:22-42 | in both matrices the row becomes itself minus a multiple of the pivot row, and no other row changes |
| MatInverse.ScaleRow | poseidon2/src/utils.rs:43-54 | in both matrices the row is divided by its pivot |
| MatInverse.SubtractKeeps | poseidon2/src/utils.rs:22-42 | clearing an entry keeps each row of the left matrix equal to the same row of the right one times the input |
| MatInverse.ScaleKeeps | poseidon2/src/utils.rs:43-54 | dividing a row by its pivot keeps each row of the left matrix equal to the same row of the right one times the input |
| MatInverse.ClearRow | poseidon2/src/utils.rs:22-42 | the inner loop clears a row before its diagonal and keeps the sweep's invariant |
| MatInverse.ZeroPivotIsSingular | poseidon2/src/utils.rs:44 | a zero pivot exhibits a non-zero combination of rows that vanishes on a leading block |
| MatInverse.NoKernel | poseidon2/src/utils.rs:20-55 | after a complete sweep no non-zero vector is mapped to a vector vanishing on a leading block |
| MatInverse.NoLeadingBlockIsSingular | poseidon2/src/utils.rs:20-55 | after a complete sweep no leading block is singular |
| MatInverse.Forward | poseidon2/src/utils.rs:20-55 | the sweep succeeds with unit upper triangular form, or some leading block is singular |
| MatInverse.BackKeeps | poseidon2/src/utils.rs:57-76 | one step of back substitution solves one more column of the row |
| MatInverse.BackRow | poseidon2/src/utils.rs:57-76 | the step's effect on both matrices, with and without the debug-only clearing |
| MatInverse.SolveRow | poseidon2/src/utils.rs:57-76 | the inner loop of back substitution solves the whole row |
| MatInverse.Backward | poseidon2/src/utils.rs:57-89 | back substitution gives a left inverse, and in debug builds the left matrix ends as the identity |
| MatInverse.Invert | poseidon2/src/utils.rs:10-92 | for every size and matrix over a prime field: the result times the matrix is the identity, and there is no result if and only if some leading block is singular |
| MatInverse.InvertibleButRefused | poseidon2/src/utils.rs:44 | a concrete matrix that is its own inverse and has a singular leading block, so that it is refused |
| Poseidon2Linear.CheapM4IsTheMatrix | poseidon2/src/poseidon2/poseidon2.rs:84-116 | the additions and doublings of the cheap layer are the product with the 4x4 matrix |
| Poseidon2Linear.FullRowDot | poseidon2/poseidon2_rust_params.sage.py:414-436 | a row of circ(2*M4, M4, ..., M4) sums all block products and counts its own twice |
| Poseidon2Linear.PartialRowDot | poseidon2/poseidon2_rust_params.sage.py:438-461 | a row of the internal matrix is the sum of the state plus one diagonal product |
| Poseidon2.SboxP | poseidon2/src/poseidon2/poseidon2.rs:55-82 | the squarings compute the d-th power for d = 3, 5, 7 |
| Poseidon2.MixBlock | poseidon2/src/poseidon2/poseidon2.rs:84-116 | one block becomes its product with the 4x4 matrix, other words are unchanged |
| Poseidon2.MatmulM4 | poseidon2/src/poseidon2/poseidon2.rs:84-116 | every block of four words becomes its product with the 4x4 matrix |
| Poseidon2.ColumnSums | poseidon2/src/poseidon2/poseidon2.rs:145-153 | the stored sums are the column totals over all blocks |
| Poseidon2.AddColumnSums | poseidon2/src/poseidon2/poseidon2.rs:145-156 | adding them completes the product with the full matrix |
| Poseidon2.MatmulExternal | poseidon2/src/poseidon2/poseidon2.rs:118-162 | in place, for every supported width: the product with the explicit external matrix |
| Poseidon2.AddSumAndDiagonal | poseidon2/src/poseidon2/poseidon2.rs:189-201 | for four and more words: the product with ones plus diagonal |
| Poseidon2.MatmulInternal | poseidon2/src/poseidon2/poseidon2.rs:164-207 | in place, for every supported width: the product with the explicit internal matrix |
| Poseidon2.AddRc | poseidon2/src/poseidon2/poseidon2.rs:209-219 | every word gets its constant |
| Poseidon2.Sbox | poseidon2/src/poseidon2/poseidon2.rs:51-53 | every word is raised to the power |
| Poseidon2.FastFullRound | poseidon2/src/poseidon2/poseidon2.rs:30-34 | a full round equals the reference's full round |
| Poseidon2.FastPartialRound | poseidon2/src/poseidon2/poseidon2.rs:36-41 | adding one constant and powering one word equals the reference's partial round of the table with that round's tail set to zero |
| Poseidon2.FirstFullRounds | poseidon2/src/poseidon2/poseidon2.rs:30-34 | the first loop reaches the reference state after the first half of the full rounds |
| Poseidon2.PartialRounds | poseidon2/src/poseidon2/poseidon2.rs:36-41 | the second loop reaches the reference state after the partial rounds |
| Poseidon2.LastFullRounds | poseidon2/src/poseidon2/poseidon2.rs:43-47 | the third loop reaches the reference state after all rounds |
| Poseidon2.Permutation | poseidon2/src/poseidon2/poseidon2.rs:21-49 | for every state, width, degree and table: the fast permutation equals the naive reference of the table with the tails of partial rounds set to zero; with zero tails that is the table itself |
| Poseidon2Rounds.StartWord | poseidon2/poseidon2_rust_params.sage.py:590-593 | before the first round each word is the row of the external matrix times the input |
| Poseidon2Rounds.FullRoundWord | poseidon2/poseidon2_rust_params.sage.py:595-603 | after a full round word i is the sum over j of the external entry (i, j) times the d-th power of word j plus its constant |
| Poseidon2Rounds.PartialRoundWord | poseidon2/poseidon2_rust_params.sage.py:605-612 | after a partial round word i is the sum over j of the internal entry (i, j) times word j plus its constant, the first one raised to the power |
| Poseidon2Rounds.FullConstantsMatter | poseidon2/src/poseidon2/poseidon2.rs:30-34 | two tables give the same full round on any one state if and only if their constants are congruent |
| Poseidon2Rounds.PartialConstantsMatter | poseidon2/poseidon2_rust_params.sage.py:605-612 | two tables give the same partial round of the reference on any one state if and only if their constants are congruent |
| Poseidon2Rounds.HeadConstantMatters | poseidon2/src/poseidon2/poseidon2.rs:37-41 | two tables give the same partial round of the code on any one state if and only if their first constants are congruent |
| Poseidon2Naive.TrimmedIsSame | poseidon2/src/poseidon2/poseidon2.rs:37-41 | setting the tails to zero changes nothing if and only if they are zero |
| Poseidon2Kernels.FullLayerInjective | poseidon2/src/poseidon2/poseidon2.rs:118-162 | the external layer is injective on field states when its matrix annihilates none but zero |
| Poseidon2Kernels.PartialLayerInjective | poseidon2/src/poseidon2/poseidon2.rs:164-207 | the internal layer is injective on field states when its matrix annihilates none but zero |
| Poseidon2Kernels.FullKernel | poseidon2/src/poseidon2/poseidon2.rs:118-162 | for every supported width the external matrix annihilates no state if 3, 4, or 8 and the number of blocks plus one, are units |
| Poseidon2Kernels.SmallPartialKernel | poseidon2/src/poseidon2/poseidon2.rs:164-188 | for two and three words the internal matrix annihilates no state if 5 or 7 is a unit |
| Poseidon2Kernels.PartialKernel | poseidon2/poseidon2_rust_params.sage.py:438-461 | for four and more words over a prime field and any diagonal, the internal matrix annihilates no state if and only if exactly one diagonal entry is zero, or none is and the inverses do not add up to minus one |
| Poseidon2Injective.FullRoundInjective | poseidon2/src/poseidon2/poseidon2.rs:30-34 | for every width and any constants a full round is injective when the power map is and the external matrix annihilates no state |
| Poseidon2Injective.PartialRoundInjective | poseidon2/src/poseidon2/poseidon2.rs:36-41 | for every width and any constants a partial round is injective when the power map is and the internal matrix annihilates no state |
| Poseidon2Injective.PermutationInjective | poseidon2/src/poseidon2/poseidon2.rs:21-82 | for every width and any constants: if the power map is injective and neither matrix annihilates a non-zero state, equal outputs come from equal inputs only |
| Poseidon2Injective.KernelCollides | poseidon2/src/poseidon2/poseidon2.rs:21-28 | conversely, a state the external matrix annihilates collides with the zero state |
| Poseidon2Injective.PartialKernelCollides | poseidon2/src/poseidon2/poseidon2.rs:21-41 | a state the internal matrix annihilates leads to two inputs with the same output, if there is a partial round |
| Poseidon2Injective.InjectiveExactly | poseidon2/src/poseidon2/poseidon2.rs:21-49 | with an injective power map the permutation is injective if and only if the external matrix, and the internal one if it is used, annihilate no state but zero; the constants play no part |
| Poseidon2Injective.FastInjectiveExactly | poseidon2/src/poseidon2/poseidon2.rs:21-49 | the same equivalence for what the fast code computes, whatever tails its table has |
| Poseidon2Injective.SmallWidths | poseidon2/src/poseidon2/poseidon2.rs:118-188 | two and three words: unit determinants and an injective power map meet the conditions |
| Poseidon2Injective.WideWidths | poseidon2/src/poseidon2/poseidon2.rs:118-207 | four and more words: units for the external matrix and such a diagonal for the internal one meet the conditions |
| Poseidon2Injective.Bn254Units | poseidon2/src/poseidon2/poseidon2.rs:118-207 | in the BN254 scalar field all these numbers are units, for every supported width |
| Poseidon2Injective.Bn254Injective | poseidon2/src/poseidon2/poseidon2.rs:21-49 | two and three words over the BN254 scalar field, any table: reference and fast permutation are injective if the power map is |
| Poseidon2Injective.PermutationOnto | poseidon2/src/poseidon2/poseidon2.rs:21-49 | under the conditions for injectivity every state is the image of a state |
| Poseidon2Tails.TailMatters | poseidon2/src/poseidon2/poseidon2.rs:37-41 | on any one state a partial round and the same round without its tail agree if and only if the tail vanishes in the field, when the internal matrix annihilates no state |
| Poseidon2Tails.VanishingTails | poseidon2/src/poseidon2/poseidon2.rs:21-49 | if all tails of partial rounds vanish in the field, fast permutation and reference agree on every state |
| Poseidon2Tails.SingleTailMatters | poseidon2/src/poseidon2/poseidon2.rs:21-49 | with injective layers and at most one tail, fast permutation and reference agree on any one state if and only if that tail vanishes |
| Poseidon2Tails.LonelyRound | poseidon2/src/poseidon2/poseidon2.rs:37-41 | for a single partial round the same equivalence without asking for an injective power map |
| Poseidon2Tails.TailIgnored | poseidon2/src/poseidon2/poseidon2.rs:37-41 | a concrete table of one round over seven elements at which fast permutation and reference differ on every state |
| Poseidon2Tails.TailsCancel | poseidon2/src/poseidon2/poseidon2.rs:37-41 | three words, two partial rounds with tails (1, -1) and (-1, 2): they agree on every state although the tails do not vanish |
| Amounts.PaddedIsDecimal | app/js/ui/core.js:79-92 | the padded text of a number is its decimal expansion of that width |
| Amounts.DecimalIsUnique | app/js/ui/core.js:79-92 | digits without superfluous leading zeros are what their value prints as |
| Amounts.ParseWritten | app/js/ui/transactions.js:16-28 | a number written by the printer's rules, with any sign and any part empty, parses to the number it denotes |
| Amounts.ParseNumeral | app/js/ui/transactions.js:16-28 | every sign, digits and optional dot with digits, any part empty, parses to the number denoted, or to too many decimals, or to the refused negative |
| Amounts.InvalidExactly | app/js/ui/transactions.js:17-20 | a text is called invalid if and only if, trimmed, it is no such numeral |
| Amounts.FormatThenParse | app/js/ui/core.js:79-92 | for every integer, parsing the printed number gives it back |
| Amounts.DropUnitThenParse | app/js/ui/core.js:79-92 | the same for the full printed text after its unit is cut off, for every unit |
| Amounts.PrintedUnit | app/js/ui/core.js:79-92 | the printed text ends in a space and the unit |
| Amounts.TrimAround | app/js/ui/transactions.js:17 | trimming takes away exactly the white space around a text |
| Amounts.WholeUnits | app/js/ui/transactions.js:16-28 | digits with any white space around them parse to ten million times their value |
| Amounts.SingleUnits | app/js/ui/transactions.js:16-28 | with seven digits after the point the fraction counts single units |
| Amounts.PrintedIsNormal | app/js/ui/core.js:79-92 | printed numbers have no plus sign, no superfluous zero and no minus before zero |
| Amounts.NormalFormIsPrinted | app/js/ui/core.js:79-92 | a normal text is exactly what its value prints as |
| Amounts.ParsePrintParse | app/js/ui/transactions.js:16-28 | whatever text was accepted, printing its value and parsing again gives the same value |

## Left out

- Host primitives: the native Poseidon2 permutation, Keccak256, XDR encoding and the BN254 group and pairing operations are function parameters; in the blocklist the hash is idealised as collision-free.
- Constant tables: of the zero hashes only the doubling chain is assumed, of the round constants nothing; the round constants are indexed per round instead of by a running counter.
- Authorisation is a boolean input of each call; storage expiry is not modelled; events are a log field of their contract.
- Token: a transfer moves exactly the amount or traps; other token behaviour is not modelled, and plain transfers never spend the pool's balance.
- Admin updates and the setters of the list addresses: one-field writes; the list addresses are fixed over a run.
- Getters of the admin, token, verifier and list addresses that fail only before deployment cannot be reached after the constructors and are not modelled.
- Machine overflow of 32- and 64-bit indices cannot occur with at most 32 levels and is not modelled.
- The trimming of trailing zero siblings at the end of an insertion (contracts/asp-non-membership/src/lib.rs:466-478) works on a local vector that is not used afterwards.
- Circom circuits, SDK planner, prover and note selection: no claim about value balance inside a proof.
- Amounts.FormatThenParse: integers only; texts and missing values given to the printer, and its fallback on errors, are not modelled.
- `mat_transpose`, equivalent round constants and the round-number search of the parameter script: easy or numerical side code.
- `contracts/public-key-registry`, `server`, build scripts and the rest of `app/js`: storage writes, I/O and user interface.

# Verified model of the privacy pool

This project models the logic of a privacy pool on Soroban and proves what that logic promises, for every input and
over every run. It covers four parts of the system.

1. **The sparse Merkle tree of blocked keys** (`Bits`, `SparseTree`, `NonMembership`, `NonMembershipContract`).
   The ASP non-membership contract keeps a content-addressed node store and a root. `SparseTree` defines the canonical
   tree of a key-to-value map without mentioning the contract. `NonMembership` gives each entry point as a step on
   values and proves that the store refines the map over whole runs. `NonMembershipContract` holds the contract's own
   loops, which interleave `remove` and `set`, and proves that they perform those steps.
2. **The append-only trees and the ring of roots** (`Merkle`, `PoolTree`, `AspMembership`, `TreesAgree`). Both
   contracts keep one node per level. Their roots are proved equal to what `merkle_root`, the naive level-by-level
   rebuild, returns for all leaves, and the ring of 90 roots is proved to hold exactly the recent ones.
3. **The pool's transactions** (`Amounts`, `Pool`, `PoolResults`, `PoolContract`). The nullifier set, root window, amount encoding,
   token ledger and appended commitments form one state machine. `Pool` proves its laws over whole runs,
   `PoolResults` spells out when each result is returned and what an accepted call changes, and `PoolContract` proves
   that the contract's code takes exactly these steps.
4. **The algebra of Poseidon2** (`Fields`, `LinearAlgebra`, `MatInverse`, `RoundConstants`, `LinearLayers`,
   `Poseidon2`): elimination with an accumulated inverse, the rewriting of partial-round constants, and the cheap
   linear layers against dense matrices, over every field.

## Reading guide

- *Digests.* In the sparse tree a digest is the term that was hashed (`Zero`, `LeafH`, `NodeH`), so collision freedom,
  domain separation and non-zero digests hold by construction. The append-only trees use an arbitrary two-to-one
  function, with no assumption about collisions.
- *Failure.* `Outcome` tells a returned error (`Failed`) from a trap (`Panicked`). The host rolls both back, so either
  one leaves the state as it was. A key, value or leaf of at least the BN254 modulus traps in the hash
  (`contracts/soroban-utils/src/poseidon2.rs:28`, `:83`).
- *Environment.* Authorization is a flag of the call. The verifier, Keccak and the two ASP roots are part of each
  transaction (`Pool.Host`), so they may differ from call to call. The token is a ledger that traps on insufficient
  funds and on overflow of the receiver's balance.
- *Zero table.* `zeroes[i + 1] == h(zeroes[i], zeroes[i])` is a hypothesis (`Merkle.ZeroTable`), as documented at
  `contracts/soroban-utils/src/poseidon2.rs:112-117`.

Promises that the code does not keep are stated exactly, each with an input that shows it:

- Deleting a key whose sibling is a leaf leaves garbage in the store. `DeleteRefinesMap`: a garbage-free store stays
  so exactly when nothing is promoted. `PromotionLeavesPath`: what stays behind is exactly the old path.
  `PromotionExample` is a run of three calls.
- A non-membership proof that ends at a leaf of value zero is refused. `VerifyExact`: an absent key has an accepted
  proof exactly when its search does not stop at such a leaf. `ZeroValueHidesAbsence` is an instance after one call.
- Repeated nullifiers inside one transaction are not noticed. `DistinctExactly`: all nullifiers ever spent are distinct
  exactly when no accepted transaction repeats one itself. `RepeatedNullifierExample` is an instance.
- Elimination does not exchange rows. `MatrixInverse` succeeds exactly when every leading block is regular.
  `ExchangeRefused` is an invertible matrix without that property.
- Degree 11 is admitted by the parameters (`poseidon2/src/poseidon2/poseidon2_params.rs:30`) and has no S-box.
  `Permutation` gives the exact condition for a panic; `DegreeElevenPanics` is an instance.
- The policy roots reach the verifier only once per input nullifier. `PublicInputsBind`: equal vectors mean equal
  public fields, the policy roots excepted exactly when there is no input. `PolicyRootsUnbound` is an instance.

## Model

| member | source | states |
|---|---|---|
| `Bits.KeysDiffer` | contracts/asp-non-membership/src/lib.rs:180-192 | Distinct 256-bit keys differ in one of the bits that `split_bits` extracts, so inserting a second key always finds where to separate it |
| `Bits.BitsSpell` | contracts/asp-non-membership/src/lib.rs:180-192 | The lowest n bits of a number below 2^n are its binary notation |
| `Bn254.ModulusBytes` | contracts/soroban-utils/src/constants.rs:6-14 | The modulus is the number that the big-endian byte table spells |
| `NonMembershipContract.SplitBits` | contracts/asp-non-membership/src/lib.rs:180-192 | The bit loop returns 256 bits that, read as a number from the least significant end, are the key |
| `SparseTree.CanonicalUnique` | contracts/asp-non-membership/src/lib.rs:361-617 | A map has at most one canonical tree: empty is zero, one entry is its leaf, more split on the next bit |
| `SparseTree.CanonicalInjective` | contracts/asp-non-membership/src/lib.rs:361-617 | A tree is canonical for at most one map, so a root commits to the whole key set |
| `SparseTree.CanonicalIsCanonical` | contracts/asp-non-membership/src/lib.rs:361-617 | Every map has a canonical tree, built from the map alone within 256 levels |
| `SparseTree.FoldReach` | contracts/asp-non-membership/src/lib.rs:412-464 | The nodes of a folded path are exactly its path nodes, what hangs at the end and what hangs at its siblings |
| `SparseTree.SplitCanonical` | contracts/asp-non-membership/src/lib.rs:386-410 | Extending the siblings with zeros over shared bits and the old leaf at the first differing bit gives the canonical tree of the two entries |
| `SparseTree.InsertCanonical` | contracts/asp-non-membership/src/lib.rs:412-464 | Folding the graft upwards along the found siblings gives the canonical tree of the map with the new entry |
| `SparseTree.DeleteCanonical` | contracts/asp-non-membership/src/lib.rs:542-604 | Promoting a lone leaf, collapsing empty siblings and rebuilding above gives the canonical tree of the map without the key |
| `NonMembership.FindInternalAgrees` | contracts/asp-non-membership/src/lib.rs:215-306 | At every level, on a stored canonical subtree, the recursive search hits no missing or malformed node and no end of the bits, and agrees with the map |
| `NonMembership.FindAgreesWithLookup` | contracts/asp-non-membership/src/lib.rs:329-336 | `find_key` succeeds on every represented state: found iff in the map, with its value; otherwise it ends at an empty branch or at another stored key that shares the bits walked; the siblings refold to the root |
| `NonMembership.OldPathIsDead` | contracts/asp-non-membership/src/lib.rs:432-448 | No superseded path node occurs in any sibling subtree, so removing it removes nothing live |
| `NonMembership.InsertRefinesMap` | contracts/asp-non-membership/src/lib.rs:361-492 | An insertion is `m[key := value]` on the map; it fails exactly when the key is present or out of the field, changes nothing then, and adds no garbage |
| `NonMembership.PromotionLeavesPath` | contracts/asp-non-membership/src/lib.rs:542-584 | After a promotion all old path nodes, the old root among them, are still stored and no longer reachable; from a garbage-free store they are exactly the garbage |
| `NonMembership.PromotionExample` | contracts/asp-non-membership/src/lib.rs:542-584 | Inserting keys 0 and 1 and deleting key 0 leaves the old root in the store beside the promoted leaf |
| `NonMembership.DeleteRefinesMap` | contracts/asp-non-membership/src/lib.rs:516-617 | A deletion removes the key from the map, fails exactly when it is absent, keeps every live node despite removing at wrong levels, and creates garbage exactly when a leaf is promoted |
| `NonMembership.SiblingStored` | contracts/asp-non-membership/src/lib.rs:536-564 | The deleted leaf's sibling is always found in the store with matching contents, so the error paths there are unreachable |
| `NonMembership.ExclusionSound` | contracts/asp-non-membership/src/lib.rs:684-710 | For arbitrary claimed siblings: a path from zero or from another key's leaf that folds to the root exists only for absent keys |
| `NonMembership.ExclusionComplete` | contracts/asp-non-membership/src/lib.rs:329-336 | Every absent key has such a path, the one `find_key` returns |
| `NonMembership.VerifyExact` | contracts/asp-non-membership/src/lib.rs:641-710 | Exactly which arguments are answered yes, no and with an error, including the refusal at leaves of value zero |
| `NonMembership.VerifyDecidesAbsence` | contracts/asp-non-membership/src/lib.rs:641-710 | When all stored values are non-zero a key is absent iff some proof for it is accepted |
| `NonMembership.ZeroValueHidesAbsence` | contracts/asp-non-membership/src/lib.rs:685-690 | After the one call that inserts `1 -> 0`, no arguments make the absent key 2 verify |
| `NonMembership.RunRepresents` | contracts/asp-non-membership/src/lib.rs:361-617 | After every sequence of calls, successful or not, the store represents the map the same calls build, with every reachable node stored under its digest |
| `NonMembership.RunRootCanonical` | contracts/asp-non-membership/src/lib.rs:361-617 | After every run the root is the canonical tree of the resulting map |
| `NonMembership.HistoryIndependent` | contracts/asp-non-membership/src/lib.rs:361-617 | Two runs end in the same root iff they build the same map |
| `NonMembership.DeleteUndoesInsert` | contracts/asp-non-membership/src/lib.rs:361-617 | Inserting a key and deleting it again restores the root |
| `NonMembership.InsertOnlyNoGarbage` | contracts/asp-non-membership/src/lib.rs:380-464 | After every insert-only run the store holds the reachable nodes and nothing else |
| `NonMembership.SharedBitExample` | contracts/asp-non-membership/src/lib.rs:386-464 | The root after inserting keys 0 and 2: both leaves under the left child, an empty right child |
| `NonMembershipContract.ExtendSiblings` | contracts/asp-non-membership/src/lib.rs:380-410 | The extension loop appends the zeros of the shared bits and the old leaf, and sets the flags the main loop relies on |
| `NonMembershipContract.WriteInserted` | contracts/asp-non-membership/src/lib.rs:412-464 | The main loop with its `mixed` and `rt_old` bookkeeping folds the new leaf to the new root, removing one old node per old level and writing one new node per level |
| `NonMembershipContract.InsertAt` | contracts/asp-non-membership/src/lib.rs:380-464 | Interleaved removals and writes leave the store as if all old path nodes were removed first and all new ones written afterwards |
| `NonMembershipContract.WriteDeleted` | contracts/asp-non-membership/src/lib.rs:566-604 | The deletion loop folds the old digests it removes and computes the tree without the key |
| `NonMembershipContract.DeleteAt` | contracts/asp-non-membership/src/lib.rs:536-607 | The interleaved deletion leaves the specified store and root |
| `NonMembershipContract.ComputeRoot` | contracts/asp-non-membership/src/lib.rs:684-704 | The loop folds the end of a claimed path along the key's bits |
| `NonMembershipContract.SameSiblings` | contracts/asp-non-membership/src/lib.rs:663-676 | The comparison loop decides equality of the sibling lists |
| `NonMembershipContract.InsertInStore` | contracts/asp-non-membership/src/lib.rs:361-482 | Search, checks and loops together perform exactly the insertion step on store and root |
| `NonMembershipContract.DeleteFromStore` | contracts/asp-non-membership/src/lib.rs:516-607 | Search, removal, promotion and loop together perform exactly the deletion step on store and root |
| `NonMembershipContract.AnnounceOneMore` | contracts/asp-non-membership/src/lib.rs:484-490 | Publishing the change with the new root keeps the log exact: its events replay to the map, and each tells the canonical root of the events up to it |
| `NonMembershipContract.Contract.constructor` | contracts/asp-non-membership/src/lib.rs:104-111 | A new contract represents the empty map and has published nothing |
| `NonMembershipContract.Contract.FindKey` | contracts/asp-non-membership/src/lib.rs:329-336 | On every valid contract the search succeeds and agrees with the map |
| `NonMembershipContract.Contract.InsertLeaf` | contracts/asp-non-membership/src/lib.rs:361-492 | The code performs exactly the insertion step, keeps the contract valid, updates the map it stands for and publishes key, value and new root on success alone; unauthorized calls change nothing |
| `NonMembershipContract.Contract.DeleteLeaf` | contracts/asp-non-membership/src/lib.rs:516-617 | The code performs exactly the deletion step, keeps the contract valid, removes the key from the map it stands for and publishes key and new root on success alone |
| `NonMembershipContract.Contract.VerifyNonMembership` | contracts/asp-non-membership/src/lib.rs:641-710 | The code gives exactly the specified answer |
| `Merkle.MerkleRoot` | circuits/src/core/merkle.rs:33-47 | The rebuild succeeds iff the number of leaves is a power of two, and returns the root of the tree defined recursively from the top |
| `Merkle.RebuildPadded` | circuits/src/core/merkle.rs:33-47 | On leaves padded to `2^levels` the rebuild never panics, and it returns the root the append-only trees are compared with |
| `Merkle.NextLevelKeepsRoot` | circuits/src/core/merkle.rs:33-47 | Replacing a level by its hashed pairs does not change the root |
| `Merkle.TreeRootHalves` | circuits/src/core/merkle.rs:33-47 | The root of one leaf is the leaf; the root of more is the hash of the roots of the left and the right half, in this order |
| `Merkle.MerkleRootOfFour` | circuits/src/core/merkle.rs:33-47 | The rebuild of four leaves is `h(h(a, b), h(c, d))` |
| `Merkle.CollectPath` | circuits/src/core/merkle.rs:62-94 | The collected siblings fold from the leaf to the root, and the collected bits are the index's |
| `Merkle.PackBits` | circuits/src/core/merkle.rs:62-94 | Or-ing the collected bits gives back the low bits of the index |
| `Merkle.MerkleProof` | circuits/src/core/merkle.rs:62-94 | For every power-of-two list and index in range, folding the path with the index bits gives the root, and the packed bits equal the index; exactly when it panics |
| `Merkle.EmptyRoot` | contracts/soroban-utils/src/poseidon2.rs:112-117 | The table's entry for a level is the rebuilt root of a tree of zero leaves |
| `Merkle.StableNode` | contracts/pool/src/merkle_with_history.rs:150-171 | A node whose leaves are all present never changes again, which is why one node per level suffices |
| `Merkle.Climb` | contracts/pool/src/merkle_with_history.rs:145-171 | From one stored node per level the loop computes the rebuilt root of all leaves padded with zeros to `2^levels`, and stores what the next insertion needs |
| `PoolTree.GuardExact` | contracts/pool/src/merkle_with_history.rs:122-143 | With whole pairs inserted the parity and overflow errors cannot occur, and the tree is full exactly at `2^levels` leaves |
| `PoolTree.PairFits` | contracts/pool/src/merkle_with_history.rs:184-190 | For all levels up to 32 a tree with room has room for a pair, and its indices convert to 32 bits |
| `PoolTree.SlotRoot` | contracts/pool/src/merkle_with_history.rs:173-177 | Each used slot of the ring belongs to one of the last 90 roots, named by its number |
| `PoolTree.RingHoldsRecentRoots` | contracts/pool/src/merkle_with_history.rs:209-236 | A value is in some slot iff it is one of the last 90 roots, each the root of a prefix of the leaves |
| `PoolTree.WindowIsNinety` | contracts/pool/src/merkle_with_history.rs:18 | The window is the current root and the 89 before it |
| `PoolTree.RingAdvances` | contracts/pool/src/merkle_with_history.rs:173-177 | Overwriting the next slot moves the window of remembered roots by one |
| `PoolTree.AppendPair` | contracts/pool/src/merkle_with_history.rs:145-183 | Inserting a pair takes the stored tree of the old leaves to the stored tree of the new leaves, ring included |
| `PoolTree.ScanRing` | contracts/pool/src/merkle_with_history.rs:218-235 | The scan from the current slot terminates and finds a root iff one of the 90 slots holds it |
| `PoolTree.MerkleTreeWithHistory.Init` | contracts/pool/src/merkle_with_history.rs:68-99 | Succeeds exactly once and for 1 to 32 levels, and gives the tree of no leaves with its root in slot 0 |
| `PoolTree.MerkleTreeWithHistory.InsertTwoLeaves` | contracts/pool/src/merkle_with_history.rs:122-191 | Appends the pair at consecutive indices and moves the ring index on by one modulo 90, or appends nothing; fails exactly when not initialized or full, traps exactly on leaves outside the field |
| `PoolTree.MerkleTreeWithHistory.IsKnownRoot` | contracts/pool/src/merkle_with_history.rs:209-236 | True iff the root is not zero and is one of the last `min(inserts + 1, 90)` roots, the initial one included |
| `PoolTree.MerkleTreeWithHistory.GetLastRoot` | contracts/pool/src/merkle_with_history.rs:249-258 | The current root is the rebuilt root of all leaves inserted so far |
| `AspMembership.LogOneMore` | contracts/asp-membership/src/lib.rs:238-252 | Announcing leaf, index and new root keeps the event log exact for every earlier insertion |
| `AspMembership.Contract.constructor` | contracts/asp-membership/src/lib.rs:84-110 | A new contract has the root of the all-zero tree and admits only the administrator |
| `AspMembership.Contract.InsertLeaf` | contracts/asp-membership/src/lib.rs:195-252 | Keeps the root equal to the rebuilt root of the padded leaves; exactly when it succeeds and when the tree is full |
| `AspMembership.Deploy` | contracts/asp-membership/src/lib.rs:84-110 | Deployment succeeds exactly for 1 to 32 levels |
| `TreesAgree.PoolRootIsRebuilt` | contracts/pool/src/merkle_with_history.rs:249-258 | In every valid state the pool's current root equals the result of `merkle_root` on all inserted leaves padded with zeros |
| `TreesAgree.AspRootIsRebuilt` | contracts/asp-membership/src/lib.rs:195-252 | In every valid state the ASP root equals the result of `merkle_root` on all inserted leaves padded with zeros |
| `TreesAgree.SameLeavesSameRoot` | contracts/asp-membership/src/lib.rs:195-252 | A pool tree and an ASP tree over the same leaves have the same root, however the leaves arrived |
| `TreesAgree.PairMatchesTwoSingles` | contracts/pool/src/merkle_with_history.rs:122-183 | From corresponding states one pair insertion and two single insertions lead to the same root |
| `Amounts.CalculatePublicAmount` | contracts/pool/src/pool.rs:305-325 | Encodes exactly the amounts of size below 2^248, below the modulus, with the amount as centred lift; traps exactly on the smallest `I256` |
| `Amounts.AmountLimits` | contracts/pool/src/pool.rs:267-287 | The limits are 2^248, the smallest `I256` and the largest `i128`, as powers of two |
| `Amounts.InBoundsExactly` | contracts/pool/src/pool.rs:267-269 | An amount is in bounds iff its size is below 2^248 |
| `Amounts.EncodingCongruent` | contracts/pool/src/pool.rs:305-325 | The encoding is congruent to its amount modulo the field's order and to no other amount in bounds |
| `Amounts.EncodingAdditive` | contracts/pool/src/pool.rs:305-325 | The encoding of a sum in bounds is the sum of the encodings in the field |
| `Pool.PublicInputs` | contracts/pool/src/pool.rs:396-442 | What stands at each position of the verifier's input vector |
| `Pool.PublicInputsBind` | contracts/pool/src/pool.rs:396-442 | Two proofs give equal vectors iff they agree in every public field, where the policy roots count iff there is an input |
| `Pool.PolicyRootsUnbound` | contracts/pool/src/pool.rs:426-437 | Two canonical proofs without inputs, with different policy roots and the same vector |
| `Pool.Internal` | contracts/pool/src/pool.rs:538-617 | Keeps the leaves, events and capacity consistent, and changes nothing unless it succeeds |
| `Pool.Transact` | contracts/pool/src/pool.rs:494-514 | Keeps the same invariant, and a deposit whose transaction fails is rolled back |
| `Pool.AcceptedSteps` | contracts/pool/src/pool.rs:538-617 | An accepted transaction was valid before its own deposit and appends, marks and publishes exactly its own outputs and inputs |
| `Pool.AcceptedExactly` | contracts/pool/src/pool.rs:494-617 | A transaction is accepted iff a list of independent conditions holds, whatever the order of checking |
| `Pool.AcceptedNullifiersRecorded` | contracts/pool/src/pool.rs:577-580 | Every nullifier of an accepted transaction is spent in every later state of the run, though the result of `mark_spent` is discarded |
| `Pool.SpentExactly` | contracts/pool/src/pool.rs:337-353 | In every run a nullifier is spent iff it was at the start or an accepted transaction used it |
| `Pool.NoDoubleSpend` | contracts/pool/src/pool.rs:544-548 | Nullifiers of different accepted transactions differ as field elements, not only as integers |
| `Pool.LogStaysExact` | contracts/pool/src/pool.rs:577-580 | In every run the published nullifiers are exactly the recorded ones |
| `Pool.DistinctExactly` | contracts/pool/src/pool.rs:544-580 | In every run all published nullifiers are distinct iff no accepted transaction repeats one itself |
| `Pool.RepeatedNullifierAccepted` | contracts/pool/src/pool.rs:544-580 | Repeating a nullifier in a checked transaction leaves only the verifier to refuse it |
| `Pool.RepeatedNullifierExample` | contracts/pool/src/pool.rs:544-580 | A concrete accepted transaction of a fresh pool that spends nullifier 5 twice |
| `Pool.Transfer` | contracts/pool/src/pool.rs:494-514 | A transfer moves the amount from one account to the other and touches no third |
| `Pool.TransactBalance` | contracts/pool/src/pool.rs:494-592 | An accepted deposit moves its amount from sender to pool, an accepted withdrawal from pool to recipient |
| `Pool.BalanceConserved` | contracts/pool/src/pool.rs:494-592 | In every run each account, the pool's included, changes by the deposits and withdrawals of the accepted transactions and by nothing else |
| `Pool.BalanceFollowsProofs` | contracts/pool/src/pool.rs:494-592 | When the pool is never sender or recipient, its balance changes by the sum of the centred lifts of the public amounts the verifier accepted |
| `Pool.RunAppends` | contracts/pool/src/pool.rs:594-614 | In every run leaves and events only grow, by two leaves per accepted transaction and never beyond the capacity |
| `PoolResults.TransferExactly` | contracts/pool/src/pool.rs:494-514 | A transfer succeeds iff the sender has the amount and the receiver's balance stays within `i128`; the balances afterwards |
| `PoolResults.PayExactly` | contracts/pool/src/pool.rs:282-287 | Which payments succeed, which are refused as too large, and that nothing else is returned |
| `PoolResults.ValidateExactly` | contracts/pool/src/pool.rs:538-574 | For each error of the checks, the exact condition on the call under which it is the result |
| `PoolResults.TransactExactly` | contracts/pool/src/pool.rs:494-617 | For success and for each error of a transaction, the exact condition on state and call, spelled out in literals |
| `PoolResults.AcceptedEffects` | contracts/pool/src/pool.rs:576-614 | An accepted transaction appends its outputs in order, publishes each with its own index and its own ciphertext, and spends exactly its inputs |
| `PoolResults.WithdrawalExample` | contracts/pool/src/pool.rs:494-617 | The whole state after a withdrawal of 5 with public amount `P - 5` |
| `PoolResults.DepositExample` | contracts/pool/src/pool.rs:494-617 | The whole state after a deposit of 4 |
| `PoolContract.AnySpent` | contracts/pool/src/pool.rs:544-548 | The check loop finds a spent nullifier iff there is one |
| `PoolContract.MarkSpent` | contracts/pool/src/pool.rs:577-580 | The marking loop records all nullifiers, repeated ones too, and no others |
| `PoolContract.ValidatePublicInputs` | contracts/pool/src/pool.rs:360-384 | Accepts iff root, public amount, every nullifier, both commitments and both policy roots are below the modulus |
| `PoolContract.BuildPublicInputs` | contracts/pool/src/pool.rs:407-430 | The loops push the specified vector |
| `PoolContract.RunVerifier` | contracts/pool/src/pool.rs:396-442 | The verifier is asked about the specified vector only; each way to fail is told apart |
| `PoolContract.Contract.constructor` | contracts/pool/src/pool.rs:234-262 | A new pool over an empty initialized tree has no leaves, nullifiers or events |
| `PoolContract.Deploy` | contracts/pool/src/pool.rs:234-262 | Deployment initializes the tree, succeeds exactly for 1 to 32 levels and otherwise returns the tree's error |
| `PoolContract.Contract.Check` | contracts/pool/src/pool.rs:538-574 | The code's checks, in its order, give the specified result, with a trap when a policy contract's root cannot be had |
| `PoolContract.Contract.Settle` | contracts/pool/src/pool.rs:576-614 | Marking, paying out and appending give the specified state, and the tree is untouched on failure |
| `PoolContract.Contract.Append` | contracts/pool/src/pool.rs:594-614 | The output pair lands at the next two indices, and each event names its commitment, its index and its ciphertext |
| `PoolContract.Contract.InternalTransact` | contracts/pool/src/pool.rs:538-617 | The code gives the result of the specified step and, on success, its state |
| `PoolContract.Contract.Transact` | contracts/pool/src/pool.rs:494-514 | The code with the host's rollback takes exactly the specified step and keeps the pool valid |
| `MatInverse.SubKeepsProduct` | poseidon2/src/utils.rs:21-41 | Subtracting a multiple of a row from a row of `m` and of `inv` keeps `inv * mat == m` |
| `MatInverse.SubtractBelow` | poseidon2/src/utils.rs:25-41 | The column loop with its shortcut zeros is the row operation on both matrices |
| `MatInverse.ScalePivot` | poseidon2/src/utils.rs:43-54 | The column loop makes the pivot one and scales both rows |
| `MatInverse.ClearAbove` | poseidon2/src/utils.rs:61-74 | The column loop of the second pass is the row operation on `inv`; on `m` it is the row operation in a debug build and nothing in a release build |
| `MatInverse.RegularStep` | poseidon2/src/utils.rs:43-44 | If the leading block of size k is regular, the next pivot is non-zero iff the block of size k + 1 is regular |
| `MatInverse.Triangulate` | poseidon2/src/utils.rs:20-55 | The first pass succeeds iff all leading blocks are regular, leaving a unit upper triangle with `inv * mat == m` |
| `MatInverse.BackwardRow` | poseidon2/src/utils.rs:58-76 | In both builds the second pass keeps `inv` times `mat` equal to a matrix with one more unit row: the debug build's `m`, which the release build never writes |
| `MatInverse.LeftInverseIsRight` | poseidon2/src/utils.rs:10-92 | A left inverse of a regular matrix is a right inverse |
| `MatInverse.MatrixInverse` | poseidon2/src/utils.rs:10-92 | Returns a two-sided inverse, exactly for the non-empty square matrices all of whose leading blocks are regular, in debug and release builds alike; the final debug assertions hold |
| `MatInverse.ExchangeRefused` | poseidon2/src/utils.rs:43-44 | The exchange of two coordinates is its own inverse and has a zero first pivot |
| `RoundConstants.MatVecMul` | poseidon2/src/poseidon2/poseidon2_params.rs:73-85 | The accumulating loops compute the matrix-vector product |
| `RoundConstants.OnePartialRound` | poseidon2/poseidon2_rust_params.sage.py:604-611 | One partial round adds every constant, boxes the first entry and multiplies by the matrix |
| `RoundConstants.OneMovedRound` | poseidon2/poseidon2_rust_params.sage.py:532-541 | One rewritten round boxes the first entry, then adds its constant to it, and multiplies by the matrix |
| `RoundConstants.PartialRoundsInOrder` | poseidon2/poseidon2_rust_params.sage.py:604-611 | Partial rounds with a concatenated table are the first part followed by the second |
| `RoundConstants.MovedRoundsInOrder` | poseidon2/poseidon2_rust_params.sage.py:532-541 | Rewritten rounds with concatenated constants are the first part followed by the second |
| `RoundConstants.MovePreservesRounds` | poseidon2/poseidon2_rust_params.sage.py:527-543 | Partial rounds with moved constants end in the same state as the original ones, for every state, S-box, table of constants and matrix with a right inverse |
| `RoundConstants.MoveConstants` | poseidon2/src/poseidon2/poseidon2_params.rs:57-70 | The reverse loop computes the moved constants of the recursive definition |
| `RoundConstants.EquivalentRoundConstants` | poseidon2/src/poseidon2/poseidon2_params.rs:48-71 | Succeeds exactly for at least one round, enough constants and a matrix whose leading blocks are regular; the table it returns ends in zeros and gives the same rounds from every state under every S-box |
| `LinearLayers.MatmulBlock` | poseidon2/src/poseidon2/poseidon2.rs:88-114 | The addition chain is multiplication by the four by four matrix |
| `LinearLayers.MatmulM4` | poseidon2/src/poseidon2/poseidon2.rs:84-116 | In place, every four entries are multiplied by that matrix |
| `LinearLayers.FullRowDot` | poseidon2/poseidon2_rust_params.sage.py:414-436 | Adding the sums of the blocks to the block outputs is multiplication by the block circulant of twice the matrix and the matrix, for every multiple of four above four |
| `LinearLayers.FullMatrixEntries` | poseidon2/poseidon2_rust_params.sage.py:414-436 | Every entry of the full matrix, in numbers, for each kind of width |
| `LinearLayers.AddBlockSums` | poseidon2/src/poseidon2/poseidon2.rs:144-156 | In place, each entry gains the sum of the entries at its offset over all blocks |
| `LinearLayers.MatmulExternal` | poseidon2/src/poseidon2/poseidon2.rs:118-162 | In place, the external layer is multiplication by the dense full matrix for the widths 2, 3, 4, 8, 12, 16, 20 and 24, and other widths panic |
| `LinearLayers.InternalIsOnesPlusDiagonal` | poseidon2/src/poseidon2/poseidon2.rs:164-207 | At widths two and three the fixed matrices are ones plus the diagonals (1, 2) and (1, 1, 2) |
| `LinearLayers.OnesPlusDiagonalEntries` | poseidon2/src/poseidon2/poseidon2.rs:189-202 | Off the diagonal the entries are one, on it one plus the given element |
| `LinearLayers.InternalRowDot` | poseidon2/src/poseidon2/poseidon2.rs:189-202 | Scaling an entry and adding the sum of all entries is multiplication by ones plus the diagonal |
| `LinearLayers.MatmulInternal` | poseidon2/src/poseidon2/poseidon2.rs:164-207 | In place, the internal layer is multiplication by its dense matrix for each supported width; it panics exactly on other widths and on a diagonal too short for a width that reads it |
| `Poseidon2.SboxIsPower` | poseidon2/src/poseidon2/poseidon2.rs:55-82 | The squarings and multiplications compute the power for degrees 3, 5 and 7; every other degree panics |
| `Poseidon2.SboxIsProduct` | poseidon2/src/poseidon2/poseidon2.rs:55-82 | The S-box is the product of three, five or seven factors and exists for these degrees only |
| `Poseidon2.PowerSteps` | poseidon2/src/poseidon2/poseidon2.rs:55-82 | The powers used by the reference, written as products |
| `Poseidon2.OneFullRound` | poseidon2/poseidon2_rust_params.sage.py:595-602 | One full round adds every constant, boxes every entry and multiplies by the matrix |
| `Poseidon2.FullRoundsInOrder` | poseidon2/poseidon2_rust_params.sage.py:595-602 | Full rounds with a concatenated table are the first part followed by the second |
| `Poseidon2.FirstConstantSuffices` | poseidon2/src/poseidon2/poseidon2.rs:35-40 | With zero constants past the first column, adding only the first constant gives the reference's partial rounds |
| `Poseidon2.AddRc` | poseidon2/src/poseidon2/poseidon2.rs:209-219 | The zipped map adds the constants entry by entry, as far as both sides go |
| `Poseidon2.Sbox` | poseidon2/src/poseidon2/poseidon2.rs:51-53 | Raises every entry to the degree, or panics |
| `Poseidon2.FullRound` | poseidon2/src/poseidon2/poseidon2.rs:30-32 | One full round is the dense one on the row's first entries; it panics exactly without an S-box or on a row shorter than the state |
| `Poseidon2.RunFullRounds` | poseidon2/src/poseidon2/poseidon2.rs:29-33 | The loop performs the reference's full rounds with the dense matrix, on rows at least as wide as the state |
| `Poseidon2.PartialRound` | poseidon2/src/poseidon2/poseidon2.rs:37-39 | One partial round is the dense one with the row's first constant; exactly when it panics |
| `Poseidon2.RunPartialRounds` | poseidon2/src/poseidon2/poseidon2.rs:35-40 | The loop performs the partial rounds with the dense internal matrix, on rows that are not empty |
| `Poseidon2.Permutation` | poseidon2/src/poseidon2/poseidon2.rs:21-49 | For all parameters, however long or ragged their tables: exactly when it panics; otherwise it computes the rounds written with dense matrices |
| `Poseidon2.CompleteExactly` | poseidon2/src/poseidon2/poseidon2.rs:29-46 | Which rows and which diagonal the rounds need, row by row |
| `Poseidon2.PermutationOfTwo` | poseidon2/src/poseidon2/poseidon2.rs:21-49 | The permutation of width two and degree three with a full, a partial and a full round, written out as additions and multiplications |
| `Poseidon2.DegreeElevenPanics` | poseidon2/src/poseidon2/poseidon2.rs:55-82 | Complete parameters of degree 11 with one round, on which the permutation panics |
| `Poseidon2.PermutedIsReference` | poseidon2/poseidon2_rust_params.sage.py:584-624 | Those rounds are the reference permutation, for every state, whenever the partial-round constants are zero past column 0 and the diagonals match at widths two and three |

## Left out

- Poseidon2 as the hash: the trees use an arbitrary two-to-one function or symbolic terms, so nothing is said about the digests' values or collisions.
- The round-constant tables, the bytes of the zero table, verification keys and the field instances: pure data.
- Groth16, the pairing check, Keccak, the XDR encoding and the Circom circuits: parameters of each transaction.
- Administrator changes, setters, storage lifetimes and the transport of events: one-branch behaviour; authorization is a flag and events are logs in the contracts' states.
- Errors about storage that the constructor always fills (`NotInitialized` in the ASP and pool contracts): not reachable once the constructor has run, so the contracts' states have those entries; the pool tree before `init` is modelled.
- The clean-up of the local sibling list at contracts/asp-non-membership/src/lib.rs:466-478: its result is not used.
- The node store as one entry per storage key: it is one map field that the methods reassign, and a method that fails leaves it as it was, as the host's rollback does.
- Matrices are nested sequences reassigned entry by entry, since the source's are local vectors; aliasing is not modelled.
- The loops of the two append-only contracts are one method, `Merkle.Climb`, started at level 1 with a pair's hash and at level 0 with a leaf.
- Widths of machine integers where no value can reach them: `usize` and `u64` indices in circuits/src/core/merkle.rs and the ring index are natural numbers.
- Ragged matrices in `mat_inverse`, and constant rows of another width than the matrix in `equivalent_round_constants`: its callers pass rectangular tables.
- Building the parameter record (`Poseidon2Params::new`), whose assertions on the degree and on even round numbers are one branch each.
- The token contract beyond balances: allowances, fees and authorization inside the token.
- `public-key-registry`, the services, the browser application, build scripts and the parameter search.

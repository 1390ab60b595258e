/** The two append-only contracts compute the same commitment to the same leaves: the one the naive rebuild computes. */
module TreesAgree {
  import opened Bits
  import opened Bn254
  import opened HostCalls
  import opened Merkle
  import PoolTree
  import AspMembership

  /** The pool's current root is what `MerkleRoot` rebuilds from all leaves inserted so far and zero leaves. */
  method PoolRootIsRebuilt(pool: PoolTree.MerkleTreeWithHistory, leaves: seq<Fe>)
    returns (current: Fe, rebuilt: Option<Fe>)
    requires pool.Valid() && pool.initialized && leaves == pool.leaves
    ensures rebuilt == Some(current) && current == RootOf(pool.h, pool.zeroes[0], leaves, pool.levels)
  {
    var last := pool.GetLastRoot();
    current := last.value;
    rebuilt := RebuildPadded(pool.h, pool.zeroes[0], leaves, pool.levels);
  }

  /** The ASP contract's root is what `MerkleRoot` rebuilds from all leaves inserted so far and zero leaves. */
  method AspRootIsRebuilt(asp: AspMembership.Contract, leaves: seq<Fe>) returns (rebuilt: Option<Fe>)
    requires asp.Valid() && leaves == asp.leaves
    ensures rebuilt == Some(asp.root)
  {
    rebuilt := RebuildPadded(asp.h, asp.zeroes[0], leaves, asp.levels);
  }

  /** However the leaves arrived, in pairs or one by one, the two trees have the same current root. */
  lemma SameLeavesSameRoot(pool: PoolTree.MerkleTreeWithHistory, asp: AspMembership.Contract)
    requires pool.Valid() && pool.initialized && asp.Valid()
    requires pool.h == asp.h && pool.zeroes == asp.zeroes && pool.levels == asp.levels
    requires pool.leaves == asp.leaves
    ensures pool.currentRootIndex in pool.roots && pool.roots[pool.currentRootIndex] == asp.root
  {
    assert PoolTree.HoldsRoot(pool.roots, pool.h, pool.zeroes[0], pool.levels, pool.leaves, pool.pairs);
    assert pool.leaves[..2 * pool.pairs] == pool.leaves;
  }

  /** From corresponding states with an even number of leaves, two single insertions and one pair insertion
      lead to the same root. */
  method PairMatchesTwoSingles(
    pool: PoolTree.MerkleTreeWithHistory, asp: AspMembership.Contract, leaf1: Fe, leaf2: Fe)
    requires pool.Valid() && pool.initialized && asp.Valid()
    requires pool.h == asp.h && pool.zeroes == asp.zeroes && pool.levels == asp.levels
    requires pool.leaves == asp.leaves && |pool.leaves| < Pow2(pool.levels)
    modifies pool, asp
    ensures pool.Valid() && pool.initialized && asp.Valid()
    ensures pool.leaves == asp.leaves == old(asp.leaves) + [leaf1, leaf2]
    ensures pool.currentRootIndex in pool.roots && pool.roots[pool.currentRootIndex] == asp.root
  {
    PoolTree.PairFits(pool.levels, pool.pairs);
    var r := pool.InsertTwoLeaves(leaf1, leaf2);
    var r1 := asp.InsertLeaf(true, leaf1);
    var r2 := asp.InsertLeaf(true, leaf2);
    SameLeavesSameRoot(pool, asp);
  }
}

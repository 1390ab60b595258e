/** Complete binary Merkle trees over an arbitrary two-to-one hash: the naive rebuild, inclusion proofs,
    and the tree that an append-only sequence of leaves spans when the rest is padded with zero leaves. */
module Merkle {
  import opened Bits
  import opened HostCalls

  type Hash<!T> = (T, T) -> T

  predicate IsPowerOfTwo(n: nat) {
    n == 1 || (n > 1 && n % 2 == 0 && IsPowerOfTwo(n / 2))
  }

  function Ilog2(n: nat): nat
    requires n > 0
  {
    if n == 1 then 0 else 1 + Ilog2(n / 2)
  }

  lemma {:induction false} PowerOfTwoIsPow2(n: nat)
    requires IsPowerOfTwo(n)
    ensures n == Pow2(Ilog2(n))
  {
    if n > 1 { PowerOfTwoIsPow2(n / 2); }
  }

  // ---------------------------------------------------------------- the root of a full list of leaves

  /** Node `i` of level `lvl` in the tree over `leaves` followed by zero leaves. */
  ghost function NodeAt<T>(h: Hash<T>, zero: T, leaves: seq<T>, lvl: nat, i: nat): T
    decreases lvl
  {
    if lvl == 0 then if i < |leaves| then leaves[i] else zero
    else h(NodeAt(h, zero, leaves, lvl - 1, 2 * i), NodeAt(h, zero, leaves, lvl - 1, 2 * i + 1))
  }

  /** The root of a tree of depth `k` over a full list of leaves. */
  ghost function TreeRoot<T>(h: Hash<T>, k: nat, xs: seq<T>): T
    requires |xs| == Pow2(k)
  {
    NodeAt(h, xs[0], xs, k, 0)
  }

  /** One level up: hash neighbouring pairs. */
  function NextLevel<T>(h: Hash<T>, n: nat, xs: seq<T>): (r: seq<T>)
    requires |xs| == 2 * n
    ensures |r| == n
  {
    seq(n, i requires 0 <= i < n => h(xs[2 * i], xs[2 * i + 1]))
  }

  /** A node over the next level is the node one level higher over the leaves. */
  lemma {:induction false} LevelUp<T>(h: Hash<T>, y: T, z: T, n: nat, xs: seq<T>, lvl: nat, i: nat)
    requires |xs| == 2 * n && (i + 1) * Pow2(lvl) <= n
    ensures NodeAt(h, y, NextLevel(h, n, xs), lvl, i) == NodeAt(h, z, xs, lvl + 1, i)
    decreases lvl
  {
    if lvl > 0 {
      Halves(i, Pow2(lvl - 1));
      LevelUp(h, y, z, n, xs, lvl - 1, 2 * i);
      LevelUp(h, y, z, n, xs, lvl - 1, 2 * i + 1);
    } else {
      assert NodeAt(h, z, xs, 0, 2 * i) == xs[2 * i];
      assert NodeAt(h, z, xs, 0, 2 * i + 1) == xs[2 * i + 1];
    }
  }

  lemma Halves(i: nat, p: nat)
    ensures (i + 1) * (2 * p) == (2 * i + 1 + 1) * p == (2 * i + 1) * p + p
    ensures i * (2 * p) == (2 * i) * p
  {
  }

  /** Hashing pairs bottom up does not change the root. */
  lemma NextLevelKeepsRoot<T>(h: Hash<T>, k: nat, xs: seq<T>)
    requires |xs| == 2 * Pow2(k)
    ensures TreeRoot(h, k, NextLevel(h, Pow2(k), xs)) == TreeRoot(h, k + 1, xs)
  {
    LevelUp(h, NextLevel(h, Pow2(k), xs)[0], xs[0], Pow2(k), xs, k, 0);
  }

  /** A node over a slice of the leaves is a node over all of them. */
  lemma {:induction false} SliceNode<T>(h: Hash<T>, y: T, z: T, xs: seq<T>, off: nat, n: nat, lvl: nat, i: nat, j: nat)
    requires off + n <= |xs| && (i + 1) * Pow2(lvl) <= n && j * Pow2(lvl) == off + i * Pow2(lvl)
    ensures NodeAt(h, y, xs[off..off + n], lvl, i) == NodeAt(h, z, xs, lvl, j)
    decreases lvl
  {
    if lvl > 0 {
      Halves(i, Pow2(lvl - 1));
      Halves(j, Pow2(lvl - 1));
      SliceNode(h, y, z, xs, off, n, lvl - 1, 2 * i, 2 * j);
      SliceNode(h, y, z, xs, off, n, lvl - 1, 2 * i + 1, 2 * j + 1);
    }
  }

  /** A tree of one leaf is the leaf; a larger one is the hash of the trees of its left and its right half. */
  lemma TreeRootHalves<T>(h: Hash<T>, k: nat, xs: seq<T>)
    requires |xs| == Pow2(k)
    ensures k == 0 ==> TreeRoot(h, k, xs) == xs[0]
    ensures k > 0 ==>
      && |xs| == 2 * Pow2(k - 1)
      && TreeRoot(h, k, xs)
      == h(TreeRoot(h, k - 1, xs[..Pow2(k - 1)]), TreeRoot(h, k - 1, xs[Pow2(k - 1)..]))
  {
    if k > 0 {
      var n := Pow2(k - 1);
      assert xs[0..0 + n] == xs[..n] && xs[n..n + n] == xs[n..];
      SliceNode(h, xs[0], xs[0], xs, 0, n, k - 1, 0, 0);
      SliceNode(h, xs[n], xs[0], xs, n, n, k - 1, 0, 1);
    }
  }

  method HashPairs<T>(h: Hash<T>, ghost n: nat, xs: seq<T>) returns (next: seq<T>)
    requires |xs| == 2 * n
    ensures next == NextLevel(h, n, xs)
  {
    next := [];
    for i := 0 to |xs| / 2
      invariant |next| == i
      invariant forall j :: 0 <= j < i ==> next[j] == h(xs[2 * j], xs[2 * j + 1])
    {
      next := next + [h(xs[2 * i], xs[2 * i + 1])];
    }
  }

  /** The level-by-level rebuild; it panics unless the number of leaves is a power of two. */
  method MerkleRoot<T>(h: Hash<T>, leaves: seq<T>) returns (r: Option<T>)
    ensures r.Some? <==> IsPowerOfTwo(|leaves|)
    ensures r.Some? ==> |leaves| == Pow2(Ilog2(|leaves|)) && r.value == TreeRoot(h, Ilog2(|leaves|), leaves)
  {
    if !IsPowerOfTwo(|leaves|) { return None; }
    PowerOfTwoIsPow2(|leaves|);
    var nodes := leaves;
    ghost var k := Ilog2(|leaves|);
    while |nodes| > 1
      invariant |nodes| == Pow2(k) && TreeRoot(h, k, nodes) == TreeRoot(h, Ilog2(|leaves|), leaves)
      decreases k
    {
      k := k - 1;
      NextLevelKeepsRoot(h, k, nodes);
      nodes := HashPairs(h, Pow2(k), nodes);
    }
    return Some(nodes[0]);
  }

  /** Four leaves, in order. */
  method MerkleRootOfFour<T>(h: Hash<T>, a: T, b: T, c: T, d: T) returns (r: Option<T>)
    ensures r == Some(h(h(a, b), h(c, d)))
  {
    var xs := [a, b, c, d];
    r := MerkleRoot(h, xs);
    assert xs[..2] == [a, b] && xs[2..] == [c, d];
    TreeRootHalves(h, 2, xs);
    TreeRootOfTwo(h, a, b);
    TreeRootOfTwo(h, c, d);
  }

  lemma TreeRootOfTwo<T>(h: Hash<T>, a: T, b: T)
    ensures TreeRoot(h, 1, [a, b]) == h(a, b)
  {
    assert Pow2(0) == 1;
    TreeRootHalves(h, 1, [a, b]);
    TreeRootHalves(h, 0, [a]);
    TreeRootHalves(h, 0, [b]);
  }

  // ---------------------------------------------------------------- inclusion proofs

  /** `n` shifted right by `k` bits. */
  function Shift(n: nat, k: nat): nat
    decreases k
  {
    if k == 0 then n else Shift(n / 2, k - 1)
  }

  lemma {:induction false} ShiftOnce(n: nat, k: nat)
    ensures Shift(n, k + 1) == Shift(n, k) / 2
    decreases k
  {
    if k > 0 { ShiftOnce(n / 2, k - 1); }
  }

  lemma MulDouble(a: nat, b: nat)
    ensures a * (2 * b) == 2 * (a * b) == (2 * a) * b
  {
  }

  lemma {:induction false} ShiftBounds(n: nat, k: nat)
    ensures Shift(n, k) * Pow2(k) <= n < (Shift(n, k) + 1) * Pow2(k)
    decreases k
  {
    if k > 0 {
      var q := Shift(n / 2, k - 1);
      ShiftBounds(n / 2, k - 1);
      MulDouble(q, Pow2(k - 1));
      MulDouble(q + 1, Pow2(k - 1));
    }
  }

  lemma ShiftToZero(n: nat, k: nat)
    requires n < Pow2(k)
    ensures Shift(n, k) == 0
  {
    ShiftBounds(n, k);
    assert Shift(n, k) >= 1 ==> Shift(n, k) * Pow2(k) >= Pow2(k);
  }

  function HashUp<T>(h: Hash<T>, x: T, sibling: T, right: bool): T {
    if right then h(sibling, x) else h(x, sibling)
  }

  /** Recompute the root from a leaf, its path and its index; bit `i` of the index says right child. */
  function FoldPath<T>(h: Hash<T>, path: seq<T>, index: nat, x: T): T
    decreases |path|
  {
    if path == [] then x
    else FoldPath(h, path[1..], index / 2, HashUp(h, x, path[0], index % 2 == 1))
  }

  lemma {:induction false} FoldPathSnoc<T>(h: Hash<T>, path: seq<T>, p: T, index: nat, x: T)
    ensures FoldPath(h, path + [p], index, x)
         == HashUp(h, FoldPath(h, path, index, x), p, Shift(index, |path|) % 2 == 1)
    decreases |path|
  {
    if path == [] {
      assert ([] + [p])[1..] == [];
    } else {
      assert (path + [p])[1..] == path[1..] + [p];
      FoldPathSnoc(h, path[1..], p, index / 2, HashUp(h, x, path[0], index % 2 == 1));
    }
  }

  /** `acc | (1 << i)` when `b`, else `acc`. */
  function OrBit(acc: nat, b: bool, i: nat): nat {
    if b && !Bit(acc, i) then acc + Pow2(i) else acc
  }

  lemma {:induction false} HighBitClear(acc: nat, i: nat)
    requires acc < Pow2(i)
    ensures !Bit(acc, i)
    decreases i
  {
    if i > 0 { HighBitClear(acc / 2, i - 1); }
  }

  datatype PathProof<T> = PathProof(path: seq<T>, indices: nat, levels: nat)

  /** One level of a proof: the sibling, and the level above with the current node's parent in place. */
  method ProofLevel<T>(h: Hash<T>, ghost k: nat, nodes: seq<T>, idx: nat) returns (sibling: T, next: seq<T>)
    requires |nodes| == Pow2(k + 1) && idx < |nodes|
    ensures |next| == Pow2(k) && TreeRoot(h, k, next) == TreeRoot(h, k + 1, nodes)
    ensures HashUp(h, nodes[idx], sibling, idx % 2 == 1) == next[idx / 2]
  {
    var sibIndex := if idx % 2 == 0 then idx + 1 else idx - 1;
    sibling := nodes[sibIndex];
    NextLevelKeepsRoot(h, k, nodes);
    next := HashPairs(h, Pow2(k), nodes);
  }

  /** Sibling path and packed index bits of a leaf. Indexing beyond the leaves panics, except that a
      one-leaf tree has no level to index into. */
  method MerkleProof<T>(h: Hash<T>, leaves: seq<T>, index: nat) returns (r: Option<PathProof<T>>)
    ensures r.Some? <==> IsPowerOfTwo(|leaves|) && (|leaves| == 1 || index < |leaves|)
    ensures r.Some? ==> Pow2(r.value.levels) == |leaves| && |r.value.path| == r.value.levels
    ensures |leaves| == 1 ==> r == Some(PathProof([], 0, 0))
    ensures r.Some? && index < |leaves| ==> r.value.indices == index
    ensures r.Some? && index < |leaves| ==>
      FoldPath(h, r.value.path, index, leaves[index]) == TreeRoot(h, r.value.levels, leaves)
  {
    if !IsPowerOfTwo(|leaves|) { return None; }
    var levels := Ilog2(|leaves|);
    PowerOfTwoIsPow2(|leaves|);
    if levels == 0 { return Some(PathProof([], 0, 0)); }
    if index >= |leaves| { return None; }
    var path, bits := CollectPath(h, leaves, levels, index);
    var indices := PackBits(bits, index);
    ShiftToZero(index, levels);
    assert Pow2(levels) * 0 == 0;
    return Some(PathProof(path, indices, levels));
  }

  /** The loop over the levels. */
  method CollectPath<T>(h: Hash<T>, leaves: seq<T>, levels: nat, index: nat) returns (path: seq<T>, bits: seq<bool>)
    requires |leaves| == Pow2(levels) && index < |leaves|
    ensures |path| == |bits| == levels
    ensures FoldPath(h, path, index, leaves[index]) == TreeRoot(h, levels, leaves)
    ensures forall j :: 0 <= j < levels ==> bits[j] == (Shift(index, j) % 2 == 1)
  {
    var nodes, idx := leaves, index;
    path, bits := [], [];
    ghost var k := levels;
    for i := 0 to levels
      invariant k == levels - i && |nodes| == Pow2(k) && TreeRoot(h, k, nodes) == TreeRoot(h, levels, leaves)
      invariant idx == Shift(index, i) < |nodes|
      invariant |path| == i && FoldPath(h, path, index, leaves[index]) == nodes[idx]
      invariant |bits| == i && forall j :: 0 <= j < i ==> bits[j] == (Shift(index, j) % 2 == 1)
    {
      k := k - 1;
      var sibling, next := ProofLevel(h, k, nodes, idx);
      FoldPathSnoc(h, path, sibling, index, leaves[index]);
      ShiftOnce(index, i);
      path := path + [sibling];
      bits := bits + [idx % 2 == 1];
      nodes := next;
      idx := idx / 2;
    }
  }

  /** Or the collected bits together, least significant first. */
  method PackBits(bits: seq<bool>, ghost index: nat) returns (packed: nat)
    requires forall j :: 0 <= j < |bits| ==> bits[j] == (Shift(index, j) % 2 == 1)
    ensures packed < Pow2(|bits|) && packed + Pow2(|bits|) * Shift(index, |bits|) == index
  {
    packed := 0;
    for i := 0 to |bits|
      invariant packed < Pow2(i) && packed + Pow2(i) * Shift(index, i) == index
    {
      HighBitClear(packed, i);
      ShiftOnce(index, i);
      PackStep(packed, Pow2(i), Shift(index, i));
      packed := OrBit(packed, bits[i], i);
    }
  }

  lemma PackStep(packed: nat, p: nat, q: nat)
    ensures packed + p * q == packed + p * (q % 2) + (2 * p) * (q / 2)
  {
    assert p * q == p * (2 * (q / 2) + q % 2);
  }

  // ---------------------------------------------------------------- trees of appended leaves

  /** Leaves padded with `zero` to `n`. */
  function Padded<T>(leaves: seq<T>, zero: T, n: nat): (r: seq<T>)
    requires |leaves| <= n
    ensures |r| == n && leaves <= r && forall i :: |leaves| <= i < n ==> r[i] == zero
  {
    leaves + seq(n - |leaves|, _ => zero)
  }

  /** The precomputed table of empty subtree roots. */
  ghost predicate ZeroTable<T>(h: Hash<T>, zs: seq<T>) {
    |zs| == 33 && forall i :: 0 <= i < 32 ==> zs[i + 1] == h(zs[i], zs[i])
  }

  lemma {:induction false} EmptyNode<T>(h: Hash<T>, zs: seq<T>, leaves: seq<T>, lvl: nat, i: nat)
    requires ZeroTable(h, zs) && lvl <= 32 && i * Pow2(lvl) >= |leaves|
    ensures NodeAt(h, zs[0], leaves, lvl, i) == zs[lvl]
    decreases lvl
  {
    if lvl > 0 {
      Halves(i, Pow2(lvl - 1));
      assert (2 * i) * Pow2(lvl - 1) <= (2 * i + 1) * Pow2(lvl - 1);
      EmptyNode(h, zs, leaves, lvl - 1, 2 * i);
      EmptyNode(h, zs, leaves, lvl - 1, 2 * i + 1);
      assert zs[(lvl - 1) + 1] == h(zs[lvl - 1], zs[lvl - 1]);
    }
  }

  /** A node all of whose leaves are present does not change any more. */
  lemma {:induction false} StableNode<T>(h: Hash<T>, zero: T, leaves: seq<T>, more: seq<T>, lvl: nat, i: nat)
    requires (i + 1) * Pow2(lvl) <= |leaves|
    ensures NodeAt(h, zero, leaves + more, lvl, i) == NodeAt(h, zero, leaves, lvl, i)
    decreases lvl
  {
    if lvl > 0 {
      Halves(i, Pow2(lvl - 1));
      StableNode(h, zero, leaves, more, lvl - 1, 2 * i);
      StableNode(h, zero, leaves, more, lvl - 1, 2 * i + 1);
    }
  }

  /** Padding makes the zero leaves explicit. */
  lemma {:induction false} PaddedNode<T>(h: Hash<T>, y: T, zero: T, leaves: seq<T>, n: nat, lvl: nat, i: nat)
    requires |leaves| <= n && (i + 1) * Pow2(lvl) <= n
    ensures NodeAt(h, y, Padded(leaves, zero, n), lvl, i) == NodeAt(h, zero, leaves, lvl, i)
    decreases lvl
  {
    if lvl > 0 {
      Halves(i, Pow2(lvl - 1));
      PaddedNode(h, y, zero, leaves, n, lvl - 1, 2 * i);
      PaddedNode(h, y, zero, leaves, n, lvl - 1, 2 * i + 1);
    }
  }

  /** The root of a tree of depth `levels` over the appended leaves. */
  ghost function RootOf<T>(h: Hash<T>, zero: T, leaves: seq<T>, levels: nat): T
    requires |leaves| <= Pow2(levels)
  {
    TreeRoot(h, levels, Padded(leaves, zero, Pow2(levels)))
  }

  lemma {:induction false} Pow2IsPowerOfTwo(k: nat)
    ensures IsPowerOfTwo(Pow2(k)) && Ilog2(Pow2(k)) == k
  {
    if k > 0 {
      Pow2IsPowerOfTwo(k - 1);
      assert Pow2(k) / 2 == Pow2(k - 1) && Pow2(k) % 2 == 0;
    }
  }

  /** The naive rebuild of the padded leaves succeeds at every depth and gives that root. */
  method RebuildPadded<T>(h: Hash<T>, zero: T, leaves: seq<T>, levels: nat) returns (r: Option<T>)
    requires |leaves| <= Pow2(levels)
    ensures r == Some(RootOf(h, zero, leaves, levels))
  {
    Pow2IsPowerOfTwo(levels);
    r := MerkleRoot(h, Padded(leaves, zero, Pow2(levels)));
  }

  lemma RootOfIsTopNode<T>(h: Hash<T>, zero: T, leaves: seq<T>, levels: nat)
    requires |leaves| <= Pow2(levels)
    ensures RootOf(h, zero, leaves, levels) == NodeAt(h, zero, leaves, levels, 0)
  {
    PaddedNode(h, Padded(leaves, zero, Pow2(levels))[0], zero, leaves, Pow2(levels), levels, 0);
  }

  lemma EmptyRoot<T>(h: Hash<T>, zs: seq<T>, levels: nat)
    requires ZeroTable(h, zs) && levels <= 32
    ensures RootOf(h, zs[0], [], levels) == zs[levels]
  {
    RootOfIsTopNode(h, zs[0], [], levels);
    EmptyNode(h, zs, [], levels, 0);
  }

  // ---------------------------------------------------------------- appending with one node per level

  /** Where the next leaf is below a right child of level `lvl`, the stored node is the complete left sibling. */
  ghost predicate FilledAt<T>(h: Hash<T>, zero: T, leaves: seq<T>, node: T, lvl: nat) {
    Shift(|leaves|, lvl) % 2 == 1 ==> node == NodeAt(h, zero, leaves, lvl, Shift(|leaves|, lvl) - 1)
  }

  ghost predicate FilledOk<T>(h: Hash<T>, zero: T, leaves: seq<T>, filled: seq<T>, lo: nat, hi: nat)
    requires hi <= |filled|
  {
    forall lvl :: lo <= lvl < hi ==> FilledAt(h, zero, leaves, filled[lvl], lvl)
  }

  lemma {:induction false} ShiftNext(n: nat, k: nat)
    ensures Shift(n + 1, k) == Shift(n, k) || Shift(n + 1, k) == Shift(n, k) + 1
    decreases k
  {
    if k > 0 && (n + 1) / 2 == n / 2 + 1 { ShiftNext(n / 2, k - 1); }
  }

  lemma ShiftAppended(n: nat, lo: nat, lvl: nat)
    requires lo <= 1 && lo <= lvl && (lo == 1 ==> n % 2 == 0)
    ensures Shift(n + lo + 1, lvl) == Shift(n, lvl) || Shift(n + lo + 1, lvl) == Shift(n, lvl) + 1
  {
    if lo == 0 { ShiftNext(n, lvl); } else { ShiftNext(n / 2, lvl - 1); }
  }

  /** The left sibling of the node in progress is complete. */
  lemma StableLeft<T>(h: Hash<T>, zero: T, leaves: seq<T>, more: seq<T>, lvl: nat)
    requires Shift(|leaves|, lvl) >= 1
    ensures var i := Shift(|leaves|, lvl) - 1;
            NodeAt(h, zero, leaves + more, lvl, i) == NodeAt(h, zero, leaves, lvl, i)
  {
    ShiftBounds(|leaves|, lvl);
    StableNode(h, zero, leaves, more, lvl, Shift(|leaves|, lvl) - 1);
  }

  /** The stored node of one level stays right when a node of level `lo` is appended. */
  lemma FilledStep<T>(h: Hash<T>, zero: T, leaves: seq<T>, more: seq<T>, node: T, node': T, lo: nat, lvl: nat)
    requires lo <= 1 && |more| == lo + 1 && (lo == 1 ==> |leaves| % 2 == 0) && lo <= lvl
    requires FilledAt(h, zero, leaves, node, lvl)
    requires var cur := Shift(|leaves|, lvl);
             node' == if cur % 2 == 1 then node else NodeAt(h, zero, leaves + more, lvl, cur)
    ensures FilledAt(h, zero, leaves + more, node', lvl)
  {
    var cur, cur' := Shift(|leaves|, lvl), Shift(|leaves + more|, lvl);
    ShiftAppended(|leaves|, lo, lvl);
    if cur' % 2 == 1 && cur' == cur { StableLeft(h, zero, leaves, more, lvl); }
  }

  /** Appending one node of level `lo` stays within the node under construction. */
  lemma AppendedWithin(n: nat, lo: nat, lvl: nat, cur: nat)
    requires lo <= lvl && lo <= 1 && (lo == 1 ==> n % 2 == 0) && cur == Shift(n, lvl)
    ensures n + lo + 1 <= (cur + 1) * Pow2(lvl)
  {
    ShiftBounds(n, lvl);
    if lo == 1 { EvenBelow(n, lvl, cur); }
  }

  lemma EvenBelow(n: nat, lvl: nat, cur: nat)
    requires lvl > 0 && n % 2 == 0 && n < (cur + 1) * Pow2(lvl)
    ensures n + 2 <= (cur + 1) * Pow2(lvl)
  {
    var half := (cur + 1) * Pow2(lvl - 1);
    MulDouble(cur + 1, Pow2(lvl - 1));
    assert (cur + 1) * Pow2(lvl) == 2 * half;
  }

  lemma NextNodeEmpty<T>(h: Hash<T>, zs: seq<T>, leaves: seq<T>, more: seq<T>, lo: nat, lvl: nat, cur: nat)
    requires ZeroTable(h, zs) && lo <= lvl < 32 && cur == Shift(|leaves|, lvl)
    requires lo <= 1 && |more| == lo + 1 && (lo == 1 ==> |leaves| % 2 == 0)
    ensures NodeAt(h, zs[0], leaves + more, lvl, cur + 1) == zs[lvl]
  {
    AppendedWithin(|leaves|, lo, lvl, cur);
    EmptyNode(h, zs, leaves + more, lvl, cur + 1);
  }

  /** One level of the climb: a right child meets the stored left sibling, a left child is stored and meets zero. */
  method ClimbLevel<T>(h: Hash<T>, zs: seq<T>, filled0: seq<T>, ghost lo: nat, lvl: nat, cur: nat, root0: T,
                    ghost leaves: seq<T>, ghost more: seq<T>)
    returns (filled: seq<T>, root: T)
    requires ZeroTable(h, zs) && lo <= lvl < 32 && lvl < |filled0|
    requires lo <= 1 && |more| == lo + 1 && (lo == 1 ==> |leaves| % 2 == 0)
    requires cur == Shift(|leaves|, lvl) && root0 == NodeAt(h, zs[0], leaves + more, lvl, cur)
    requires FilledAt(h, zs[0], leaves, filled0[lvl], lvl)
    ensures filled == if cur % 2 == 1 then filled0 else filled0[lvl := root0]
    ensures root == NodeAt(h, zs[0], leaves + more, lvl + 1, cur / 2)
  {
    filled := filled0;
    if cur % 2 == 1 {
      StableLeft(h, zs[0], leaves, more, lvl);
      assert 2 * (cur / 2) == cur - 1;
      root := h(filled[lvl], root0);
    } else {
      NextNodeEmpty(h, zs, leaves, more, lo, lvl, cur);
      assert 2 * (cur / 2) == cur;
      filled := filled[lvl := root0];
      root := h(root0, zs[lvl]);
    }
  }

  /** The climb from level `lo` to the root, using one stored node per level.

      `hash` is the new node of level `lo`; `leaves` and `more` are the leaves before and what it adds. */
  method Climb<T>(h: Hash<T>, zs: seq<T>, filled0: seq<T>, levels: nat, lo: nat, index: nat, hash: T,
               ghost leaves: seq<T>, ghost more: seq<T>)
    returns (filled: seq<T>, root: T)
    requires ZeroTable(h, zs) && lo <= levels <= 32 && levels < |filled0|
    requires lo <= 1 && |more| == lo + 1 && (lo == 1 ==> |leaves| % 2 == 0)
    requires |leaves| + |more| <= Pow2(levels)
    requires index == Shift(|leaves|, lo) && hash == NodeAt(h, zs[0], leaves + more, lo, index)
    requires FilledOk(h, zs[0], leaves, filled0, lo, levels)
    ensures |filled| == |filled0| && FilledOk(h, zs[0], leaves + more, filled, lo, levels)
    ensures root == RootOf(h, zs[0], leaves + more, levels)
  {
    filled, root := filled0, hash;
    var cur := index;
    for lvl := lo to levels
      invariant cur == Shift(|leaves|, lvl) && root == NodeAt(h, zs[0], leaves + more, lvl, cur)
      invariant |filled| == |filled0|
      invariant FilledOk(h, zs[0], leaves + more, filled, lo, lvl)
      invariant forall k :: lvl <= k < |filled| ==> filled[k] == filled0[k]
    {
      ShiftOnce(|leaves|, lvl);
      filled, root := ClimbLevel(h, zs, filled, lo, lvl, cur, root, leaves, more);
      FilledStep(h, zs[0], leaves, more, filled0[lvl], filled[lvl], lo, lvl);
      cur := cur / 2;
    }
    ShiftToZero(|leaves|, levels);
    RootOfIsTopNode(h, zs[0], leaves + more, levels);
  }
}

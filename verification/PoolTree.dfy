/** The pool's append-only tree of leaf pairs with a ring buffer of its last 90 roots. */
module PoolTree {
  import opened Bits
  import opened Bn254
  import opened HostCalls
  import opened Merkle

  const ROOT_HISTORY_SIZE: nat := 90

  datatype Error = AlreadyInitialized | WrongLevels | MerkleTreeFull | NextIndexNotEven | NotInitialized | Overflow

  type U32 = x: nat | x < 0x1_0000_0000 witness 0

  const U64_MAX: nat := 0xFFFF_FFFF_FFFF_FFFF

  /** The checks made before a pair is inserted; hashing leaves beyond the modulus panics. */
  function InsertGuard(initialized: bool, levels: nat, nextIndex: nat, leaf1: nat, leaf2: nat): Outcome<(), Error> {
    if !initialized then Failed(NotInitialized)
    else if nextIndex % 2 != 0 then Failed(NextIndexNotEven)
    else if nextIndex + 2 > U64_MAX then Failed(Overflow)
    else if nextIndex + 2 > Pow2(levels) then Failed(MerkleTreeFull)
    else if leaf1 >= P || leaf2 >= P then Panicked
    else Done(())
  }

  /** A tree that is not full has room for a pair, and its indices fit in 32 bits. */
  lemma PairFits(levels: nat, pairs: nat)
    requires 1 <= levels <= 32 && 2 * pairs < Pow2(levels)
    ensures 2 * pairs + 2 <= Pow2(levels) <= 0x1_0000_0000
  {
    CapacityFits(levels);
    var half := Pow2(levels - 1);
    assert Pow2(levels) == 2 * half;
    assert pairs < half;
  }

  lemma GuardCases(levels: nat, cap: nat, n: nat, leaf1: nat, leaf2: nat)
    requires Pow2(levels) == cap <= 0x1_0000_0000 && n % 2 == 0 && (n == cap || n + 2 <= cap)
    ensures InsertGuard(true, levels, n, leaf1, leaf2)
         == if n == cap then Failed(MerkleTreeFull) else if leaf1 >= P || leaf2 >= P then Panicked else Done(())
  {
  }

  lemma PairsAreEven(n: nat, pairs: nat)
    requires n == 2 * pairs
    ensures n % 2 == 0
  {
  }

  /** With whole pairs inserted, the parity and overflow checks pass, and the capacity check fails exactly when the
      tree is full. */
  lemma GuardExact(levels: nat, n: nat, pairs: nat, leaf1: nat, leaf2: nat)
    requires 1 <= levels <= 32 && n == 2 * pairs <= Pow2(levels)
    ensures InsertGuard(true, levels, n, leaf1, leaf2)
         == if n == Pow2(levels) then Failed(MerkleTreeFull)
            else if leaf1 >= P || leaf2 >= P then Panicked
            else Done(())
  {
    PairsAreEven(n, pairs);
    CapacityFits(levels);
    if n < Pow2(levels) { PairFits(levels, pairs); }
    GuardCases(levels, Pow2(levels), n, leaf1, leaf2);
  }

  /** Root number `t` of the run: the root after the first `t` pairs. */
  ghost function RootAfter(h: Hash<Fe>, zero: Fe, levels: nat, leaves: seq<Fe>, t: nat): Fe
    requires 2 * t <= |leaves| <= Pow2(levels)
  {
    RootOf(h, zero, leaves[..2 * t], levels)
  }

  /** Root number `t` is among the last 90 of the roots number 0 to `k`. */
  predicate InWindow(t: nat, k: nat) {
    t <= k < t + ROOT_HISTORY_SIZE
  }

  /** The ring holds exactly the roots in the window, after `k` pairs. */
  ghost predicate RingOk(roots: map<nat, Fe>, h: Hash<Fe>, zero: Fe, levels: nat, leaves: seq<Fe>, k: nat)
    requires |leaves| == 2 * k <= Pow2(levels)
  {
    && (forall t: nat :: InWindow(t, k) ==> HoldsRoot(roots, h, zero, levels, leaves, t))
    && (forall i :: i in roots ==> i < ROOT_HISTORY_SIZE && i <= k)
  }

  ghost predicate HoldsRoot(roots: map<nat, Fe>, h: Hash<Fe>, zero: Fe, levels: nat, leaves: seq<Fe>, t: nat)
    requires 2 * t <= |leaves| <= Pow2(levels)
  {
    Slot(t) in roots && roots[Slot(t)] == RootAfter(h, zero, levels, leaves, t)
  }

  /** Where root number `t` is kept. */
  function Slot(t: nat): nat {
    t % ROOT_HISTORY_SIZE
  }

  /** `r` is one of the last 90 roots after `k` pairs; the initial one is number 0. */
  ghost predicate RecentRoot(r: nat, h: Hash<Fe>, zero: Fe, levels: nat, leaves: seq<Fe>, k: nat)
    requires |leaves| == 2 * k <= Pow2(levels)
  {
    exists t: nat :: InWindow(t, k) && r == RootAfter(h, zero, levels, leaves, t)
  }

  /** The window is the last 90 roots, the current one included. */
  lemma WindowIsNinety(r: nat, h: Hash<Fe>, zero: Fe, levels: nat, leaves: seq<Fe>, k: nat)
    requires |leaves| == 2 * k <= Pow2(levels)
    ensures RecentRoot(r, h, zero, levels, leaves, k) <==>
            exists t: nat :: t <= k < t + 90 && r == RootAfter(h, zero, levels, leaves, t)
  {
  }

  /** The root number held in slot `i` when `k` is the current one. */
  function SlotRoot(i: nat, k: nat): (t: nat)
    requires i <= k && i < ROOT_HISTORY_SIZE
    ensures InWindow(t, k) && Slot(t) == i
  {
    k - (k - i) % ROOT_HISTORY_SIZE
  }

  lemma RingHoldsRecentRoots(roots: map<nat, Fe>, h: Hash<Fe>, zero: Fe, levels: nat, leaves: seq<Fe>, k: nat, r: nat)
    requires |leaves| == 2 * k <= Pow2(levels) && RingOk(roots, h, zero, levels, leaves, k)
    ensures RecentRoot(r, h, zero, levels, leaves, k) <==>
            exists i: nat :: i < ROOT_HISTORY_SIZE && i in roots && roots[i] == r
  {
    forall i: nat | i < ROOT_HISTORY_SIZE && i in roots && roots[i] == r
      ensures RecentRoot(r, h, zero, levels, leaves, k)
    {
      assert HoldsRoot(roots, h, zero, levels, leaves, SlotRoot(i, k));
    }
    forall t: nat | InWindow(t, k) && r == RootAfter(h, zero, levels, leaves, t)
      ensures exists i: nat :: i < ROOT_HISTORY_SIZE && i in roots && roots[i] == r
    {
      assert HoldsRoot(roots, h, zero, levels, leaves, t);
      assert Slot(t) < ROOT_HISTORY_SIZE;
    }
  }

  lemma SlotsDiffer(t: nat, k: nat)
    requires InWindow(t, k + 1) && t != k + 1
    ensures InWindow(t, k) && Slot(t) != Slot(k + 1)
  {
  }

  /** Overwriting the next slot with the next root moves the window by one. */
  lemma RingAdvances(roots: map<nat, Fe>, h: Hash<Fe>, zero: Fe, levels: nat, leaves: seq<Fe>, more: seq<Fe>, k: nat)
    requires |leaves| == 2 * k && |more| == 2 && 2 * k + 2 <= Pow2(levels)
    requires RingOk(roots, h, zero, levels, leaves, k)
    ensures RingOk(roots[Slot(k + 1) := RootOf(h, zero, leaves + more, levels)], h, zero, levels, leaves + more, k + 1)
  {
    var leaves' := leaves + more;
    var roots' := roots[Slot(k + 1) := RootOf(h, zero, leaves', levels)];
    forall t: nat | InWindow(t, k + 1) ensures HoldsRoot(roots', h, zero, levels, leaves', t) {
      if t == k + 1 {
        assert leaves'[..2 * t] == leaves';
      } else {
        SlotsDiffer(t, k);
        assert leaves'[..2 * t] == leaves[..2 * t];
        assert HoldsRoot(roots, h, zero, levels, leaves, t);
      }
    }
  }

  /** What the stored tree has to do with the `pairs` of leaves inserted so far. */
  ghost predicate TreeOk(h: Hash<Fe>, zs: seq<Fe>, levels: nat, nextIndex: nat, currentRootIndex: nat,
                         filled: seq<Fe>, roots: map<nat, Fe>, leaves: seq<Fe>, pairs: nat)
    requires ZeroTable(h, zs)
  {
    && 1 <= levels <= 32
    && nextIndex == |leaves| == 2 * pairs <= Pow2(levels)
    && |filled| == levels + 1 && FilledOk(h, zs[0], leaves, filled, 1, levels)
    && currentRootIndex == Slot(pairs)
    && RingOk(roots, h, zs[0], levels, leaves, pairs)
  }

  lemma NextSlot(k: nat)
    ensures (Slot(k) + 1) % ROOT_HISTORY_SIZE == Slot(k + 1)
  {
  }

  /** Insert a pair into a tree that has room. */
  method AppendPair(h: Hash<Fe>, zs: seq<Fe>, levels: nat, nextIndex: nat, currentRootIndex: nat, filled0: seq<Fe>,
                    roots0: map<nat, Fe>, leaf1: Fe, leaf2: Fe, ghost leaves: seq<Fe>, ghost pairs: nat)
    returns (rootIndex: nat, filled: seq<Fe>, roots: map<nat, Fe>)
    requires ZeroTable(h, zs) && TreeOk(h, zs, levels, nextIndex, currentRootIndex, filled0, roots0, leaves, pairs)
    requires nextIndex + 2 <= Pow2(levels)
    ensures TreeOk(h, zs, levels, nextIndex + 2, rootIndex, filled, roots, leaves + [leaf1, leaf2], pairs + 1)
    ensures rootIndex == (currentRootIndex + 1) % 90
  {
    var root := h(leaf1, leaf2);
    PairNode(h, zs[0], leaves, pairs, leaf1, leaf2);
    filled, root := Climb(h, zs, filled0, levels, 1, nextIndex / 2, root, leaves, [leaf1, leaf2]);
    NextSlot(pairs);
    rootIndex := (currentRootIndex + 1) % ROOT_HISTORY_SIZE;
    RingAdvances(roots0, h, zs[0], levels, leaves, [leaf1, leaf2], pairs);
    roots := roots0[rootIndex := root];
  }

  /** How many slots the scan from `start` visits before slot `j`. */
  function Distance(start: nat, j: nat): nat
    requires start < ROOT_HISTORY_SIZE && j < ROOT_HISTORY_SIZE
  {
    if j >= start then j - start else j + ROOT_HISTORY_SIZE - start
  }

  /** Scan the ring from the current slot until it comes round: every slot is visited once. */
  method ScanRing(roots: map<nat, Fe>, start: nat, root: nat) returns (known: bool)
    requires start < ROOT_HISTORY_SIZE
    ensures known <==> exists i: nat :: i < ROOT_HISTORY_SIZE && i in roots && roots[i] == root
  {
    var i: nat := start;
    ghost var seen: nat := 0;
    while true
      invariant i < ROOT_HISTORY_SIZE && seen == Distance(start, i)
      invariant forall j: nat :: j < ROOT_HISTORY_SIZE && j in roots && roots[j] == root ==> Distance(start, j) >= seen
      decreases ROOT_HISTORY_SIZE - seen
    {
      if i in roots && roots[i] == root { return true; }
      i := (i + 1) % ROOT_HISTORY_SIZE;
      seen := seen + 1;
      if i == start { break; }
    }
    return false;
  }

  class MerkleTreeWithHistory {
    const h: Hash<Fe>
    const zeroes: seq<Fe>
    var initialized: bool
    var levels: nat
    var nextIndex: nat
    var currentRootIndex: nat
    var filled: seq<Fe>
    var roots: map<nat, Fe>
    /** The leaves inserted so far, and how many pairs they make. */
    ghost var leaves: seq<Fe>
    ghost var pairs: nat

    ghost predicate Valid()
      reads this
    {
      ZeroTable(h, zeroes) &&
      (if initialized then TreeOk(h, zeroes, levels, nextIndex, currentRootIndex, filled, roots, leaves, pairs)
       else leaves == [] && pairs == 0)
    }

    constructor (h: Hash<Fe>, zeroes: seq<Fe>)
      requires ZeroTable(h, zeroes)
      ensures Valid() && !initialized && this.h == h && this.zeroes == zeroes
    {
      this.h, this.zeroes := h, zeroes;
      initialized, levels, nextIndex, currentRootIndex := false, 0, 0, 0;
      filled, roots, leaves, pairs := [], map[], [], 0;
    }

    method Init(levels: nat) returns (r: Outcome<(), Error>)
      requires Valid()
      modifies this
      ensures Valid() && leaves == old(leaves) && initialized == (old(initialized) || r.Done?)
      ensures r.Done? <==> 1 <= levels <= 32 && !old(initialized)
      ensures !r.Done? ==> r == Failed(if 1 <= levels <= 32 then AlreadyInitialized else WrongLevels)
      ensures pairs == old(pairs) && this.levels == if r.Done? then levels else old(this.levels)
      ensures r.Done? ==> nextIndex == 0 && currentRootIndex == 0 && roots == map[0 := zeroes[levels]]
    {
      if levels == 0 || levels > 32 { return Failed(WrongLevels); }
      if initialized { return Failed(AlreadyInitialized); }
      this.levels := levels;
      filled := zeroes[..levels + 1];
      roots := map[0 := zeroes[levels]];
      currentRootIndex, nextIndex, initialized := 0, 0, true;
      EmptyRoot(h, zeroes, levels);
      assert leaves[..0] == [];
      assert leaves[..2 * 0] == [];
      forall lvl: nat ensures Shift(0, lvl) == 0 { ShiftToZero(0, lvl); }
      return Done(());
    }

    /** The parity, overflow and index-width checks never fail; the tree is full exactly at `2^levels` leaves. */
    method InsertTwoLeaves(leaf1: U256, leaf2: U256) returns (r: Outcome<(U32, U32), Error>)
      requires Valid()
      modifies this
      ensures Valid() && initialized == old(initialized) && levels == old(levels)
      ensures r.Failed? <==> !initialized || |old(leaves)| == Pow2(levels)
      ensures r.Failed? ==> r.error == if initialized then MerkleTreeFull else NotInitialized
      ensures r == Panicked <==> initialized && |old(leaves)| < Pow2(levels) && (leaf1 >= P || leaf2 >= P)
      ensures r.Done? ==> leaves == old(leaves) + [leaf1, leaf2] && r.value == (|old(leaves)|, |old(leaves)| + 1)
      ensures r.Done? ==> nextIndex == old(nextIndex) + 2 && currentRootIndex == (old(currentRootIndex) + 1) % 90
      ensures !r.Done? ==> leaves == old(leaves)
    {
      var go := InsertGuard(initialized, levels, nextIndex, leaf1, leaf2);
      if initialized { GuardExact(levels, nextIndex, pairs, leaf1, leaf2); }
      if !go.Done? { return go.Propagate(); }
      PairFits(levels, pairs);
      var rootIndex, newFilled, newRoots :=
        AppendPair(h, zeroes, levels, nextIndex, currentRootIndex, filled, roots, leaf1, leaf2, leaves, pairs);
      var idx0: U32, idx1: U32 := nextIndex, nextIndex + 1;
      filled, roots, currentRootIndex, nextIndex := newFilled, newRoots, rootIndex, nextIndex + 2;
      leaves, pairs := leaves + [leaf1, leaf2], pairs + 1;
      return Done((idx0, idx1));
    }

    /** A root is known exactly when it is not zero and is one of the last 90, the initial one included. */
    method IsKnownRoot(root: U256) returns (r: Outcome<bool, Error>)
      requires Valid()
      ensures r.Done? <==> initialized || root == 0
      ensures !r.Done? ==> r == Failed(NotInitialized)
      ensures r.Done? && !initialized ==> !r.value
      ensures r.Done? && initialized ==>
        (r.value <==> root != 0 && exists t: nat ::
           t <= pairs < t + 90 && root == RootAfter(h, zeroes[0], levels, leaves, t))
    {
      if root == 0 { return Done(false); }
      if !initialized { return Failed(NotInitialized); }
      RingHoldsRecentRoots(roots, h, zeroes[0], levels, leaves, pairs, root);
      WindowIsNinety(root, h, zeroes[0], levels, leaves, pairs);
      var known := ScanRing(roots, currentRootIndex, root);
      return Done(known);
    }

    method GetLastRoot() returns (r: Outcome<Fe, Error>)
      requires Valid()
      ensures initialized ==> r == Done(RootOf(h, zeroes[0], leaves, levels))
      ensures !initialized ==> r == Failed(NotInitialized)
    {
      if !initialized { return Failed(NotInitialized); }
      assert HoldsRoot(roots, h, zeroes[0], levels, leaves, pairs) && leaves[..2 * pairs] == leaves;
      return Done(roots[currentRootIndex]);
    }
  }

  lemma Pow2Of32(n: nat)
    requires n == 32
    ensures Pow2(n) == 0x1_0000_0000
  {
    var e := n / 8;
    assert Pow2(e - 2) == 4;
    assert Pow2(e) == 16;
    Pow2Doubled(e, 16);
    Pow2Doubled(2 * e, 0x100);
    Pow2Doubled(4 * e, 0x1_0000);
  }

  lemma CapacityFits(levels: nat)
    requires 1 <= levels <= 32
    ensures Pow2(levels) <= 0x1_0000_0000
  {
    var n := 32;
    Pow2Of32(n);
    Pow2Monotone(levels, n);
  }

  lemma {:induction false} Pow2Monotone(m: nat, n: nat)
    requires m <= n
    ensures Pow2(m) <= Pow2(n)
    decreases n - m
  {
    if m < n { Pow2Monotone(m, n - 1); }
  }

  lemma PairNode(h: Hash<Fe>, zero: Fe, leaves: seq<Fe>, k: nat, leaf1: Fe, leaf2: Fe)
    requires |leaves| == 2 * k
    ensures NodeAt(h, zero, leaves + [leaf1, leaf2], 1, k) == h(leaf1, leaf2)
    ensures Shift(|leaves|, 1) == k
  {
    assert NodeAt(h, zero, leaves + [leaf1, leaf2], 0, 2 * k) == leaf1;
    assert NodeAt(h, zero, leaves + [leaf1, leaf2], 0, 2 * k + 1) == leaf2;
    assert Shift(|leaves|, 1) == Shift(k, 0);
  }
}

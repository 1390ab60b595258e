/** The ASP membership contract: an append-only tree of single leaves. */
module AspMembership {
  import opened Bits
  import opened Bn254
  import opened HostCalls
  import opened Merkle

  datatype Error = MerkleTreeFull | WrongLevels

  datatype LeafAdded = LeafAdded(leaf: Fe, index: nat, root: Fe)

  /** Every insertion was announced with its leaf, index and resulting root. */
  ghost predicate Logged(h: Hash<Fe>, zero: Fe, levels: nat, leaves: seq<Fe>, events: seq<LeafAdded>)
    requires |leaves| <= Pow2(levels)
  {
    |events| == |leaves| && forall i :: 0 <= i < |events| ==>
      events[i] == LeafAdded(leaves[i], i, RootOf(h, zero, leaves[..i + 1], levels))
  }

  lemma LogOneMore(h: Hash<Fe>, zero: Fe, levels: nat, leaves: seq<Fe>, leaf: Fe, events: seq<LeafAdded>)
    requires |leaves| + 1 <= Pow2(levels) && Logged(h, zero, levels, leaves, events)
    ensures Logged(h, zero, levels, leaves + [leaf],
                   events + [LeafAdded(leaf, |leaves|, RootOf(h, zero, leaves + [leaf], levels))])
  {
    var more := leaves + [leaf];
    var events' := events + [LeafAdded(leaf, |leaves|, RootOf(h, zero, more, levels))];
    assert more[..|leaves| + 1] == more;
    forall i | 0 <= i < |leaves| ensures events'[i] == LeafAdded(more[i], i, RootOf(h, zero, more[..i + 1], levels)) {
      assert more[..i + 1] == leaves[..i + 1];
    }
  }

  class Contract {
    const h: Hash<Fe>
    const zeroes: seq<Fe>
    const levels: nat
    var filled: seq<Fe>
    var nextIndex: nat
    var root: Fe
    var adminInsertOnly: bool
    var events: seq<LeafAdded>
    /** The leaves inserted so far. */
    ghost var leaves: seq<Fe>

    /** The root is the rebuilt root of the leaves padded to `2^levels`, and every event told it as it was. */
    ghost predicate Valid()
      reads this
    {
      && ZeroTable(h, zeroes) && 1 <= levels <= 32
      && nextIndex == |leaves| <= Pow2(levels)
      && root == RootOf(h, zeroes[0], leaves, levels)
      && |filled| == levels + 1 && FilledOk(h, zeroes[0], leaves, filled, 0, levels)
      && Logged(h, zeroes[0], levels, leaves, events)
    }

    constructor (h: Hash<Fe>, zeroes: seq<Fe>, levels: nat)
      requires ZeroTable(h, zeroes) && 1 <= levels <= 32
      ensures Valid() && leaves == [] && adminInsertOnly
      ensures this.h == h && this.zeroes == zeroes && this.levels == levels
    {
      this.h, this.zeroes, this.levels := h, zeroes, levels;
      filled, root, nextIndex := zeroes[..levels + 1], zeroes[levels], 0;
      adminInsertOnly, events, leaves := true, [], [];
      new;
      EmptyRoot(h, zeroes, levels);
      forall lvl: nat ensures Shift(0, lvl) == 0 { ShiftToZero(0, lvl); }
    }

    method InsertLeaf(authorized: bool, leaf: U256) returns (r: Outcome<(), Error>)
      requires Valid()
      modifies this
      ensures Valid() && adminInsertOnly == old(adminInsertOnly)
      ensures r == Done(()) <==>
                (authorized || !adminInsertOnly) && |old(leaves)| < Pow2(levels) && leaf < P
      ensures r == Failed(MerkleTreeFull) <==>
                (authorized || !adminInsertOnly) && |old(leaves)| == Pow2(levels)
      ensures r.Failed? ==> r.error == MerkleTreeFull
      ensures r.Done? ==> leaves == old(leaves) + [leaf]
      ensures !r.Done? ==> leaves == old(leaves)
    {
      if adminInsertOnly && !authorized { return Panicked; }
      if nextIndex >= Pow2(levels) { return Failed(MerkleTreeFull); }
      if leaf >= P { return Panicked; }
      var element: Fe := leaf;
      var newFilled, newRoot := Climb(h, zeroes, filled, levels, 0, nextIndex, element, leaves, [element]);
      LogOneMore(h, zeroes[0], levels, leaves, element, events);
      events := events + [LeafAdded(element, nextIndex, newRoot)];
      filled, root, nextIndex := newFilled, newRoot, nextIndex + 1;
      leaves := leaves + [element];
      return Done(());
    }
  }

  /** Deployment runs the constructor only for 1 to 32 levels. */
  method Deploy(h: Hash<Fe>, zeroes: seq<Fe>, levels: nat) returns (r: Outcome<Contract, Error>)
    requires ZeroTable(h, zeroes)
    ensures if 1 <= levels <= 32 then r.Done? && r.value.Valid() && r.value.leaves == [] else r == Failed(WrongLevels)
  {
    if levels == 0 || levels > 32 { return Failed(WrongLevels); }
    var c := new Contract(h, zeroes, levels);
    return Done(c);
  }
}

/** The non-membership contract's entry points as they run: loops over bits, siblings and storage. */
module NonMembershipContract {
  import opened Bits
  import opened Bn254
  import opened HostCalls
  import opened SparseTree
  import opened NonMembership

  /** Extract the 256 bits of a key, least significant first: read as a number they are the key. */
  method SplitBits(key: U256) returns (bits: seq<bool>)
    ensures |bits| == 256 && Value(bits) == key
    ensures bits == KeyBits(key)
  {
    bits := [];
    var k: nat := key;
    for i := 0 to KEY_BITS
      invariant |bits| == i
      invariant forall j :: 0 <= j < i ==> bits[j] == Bit(key, j)
      invariant forall j: nat :: Bit(k, j) == Bit(key, i + j)
    {
      assert Bit(k, 0) == Bit(key, i + 0);
      bits := bits + [k % 2 == 1];
      forall j: nat ensures Bit(k / 2, j) == Bit(key, i + 1 + j) {
        assert Bit(k, j + 1) == Bit(key, i + (j + 1));
      }
      k := k / 2;
    }
    KeySpelled(key, bits, KEY_BITS);
  }

  lemma KeySpelled(key: U256, bits: seq<bool>, n: nat)
    requires |bits| == n == KEY_BITS && forall j :: 0 <= j < n ==> bits[j] == Bit(key, j)
    ensures Value(bits) == key
  {
    Pow2Of256(n);
    BitsSpell(key, bits);
  }

  lemma FoldStep(key: U256, sibs: seq<Digest>, i: nat, d: Digest)
    requires i < |sibs|
    ensures Fold(key, sibs[i..], i, d) == Combine(Bit(key, i), Fold(key, sibs[i + 1..], i + 1, d), sibs[i])
  {
    assert sibs[i..][1..] == sibs[i + 1..];
  }

  lemma PathStep(key: U256, sibs: seq<Digest>, i: nat, d: Digest)
    requires i < |sibs|
    ensures PathNodes(key, sibs[i..], i, d)
         == {Fold(key, sibs[i..], i, d)} + PathNodes(key, sibs[i + 1..], i + 1, d)
  {
    assert sibs[i..][1..] == sibs[i + 1..];
  }

  lemma WithoutStep(key: U256, sibs: seq<Digest>, i: nat)
    requires i < |sibs|
    ensures Without(key, sibs[i..], i) == Join(Bit(key, i), Without(key, sibs[i + 1..], i + 1), sibs[i])
    ensures WithoutNodes(key, sibs[i..], i)
         == (if Without(key, sibs[i..], i).NodeH? then {Without(key, sibs[i..], i)} else {})
            + WithoutNodes(key, sibs[i + 1..], i + 1)
  {
    assert sibs[i..][1..] == sibs[i + 1..];
  }

  lemma {:induction false} TailNodes(key: U256, sibs: seq<Digest>, i: nat, d: Digest)
    requires i <= |sibs|
    ensures PathNodes(key, sibs[i..], i, d) <= PathNodes(key, sibs, 0, d)
    ensures WithoutNodes(key, sibs[i..], i) <= WithoutNodes(key, sibs, 0)
  {
    if i == 0 {
      assert sibs[0..] == sibs;
    } else {
      TailNodes(key, sibs, i - 1, d);
      PathStep(key, sibs, i - 1, d);
      WithoutStep(key, sibs, i - 1);
    }
  }

  /** The superseded node of level `i` is not among the nodes already written. */
  ghost predicate InsertFresh(f: FindResult, key: U256, value: U256, i: nat)
    requires i < |f.siblings|
  {
    Fold(key, f.siblings[i..], i, End(f, key))
      !in {LeafH(key, value)} + PathNodes(key, (f.siblings + Graft(f, key))[i + 1..], i + 1, LeafH(key, value))
  }

  /** A superseded node lacks the new key, a node of the new path has it. */
  lemma NewPathFresh(s: Storage, m: Entries, f: FindResult, key: U256, value: U256, i: nat)
    requires IsCanonical(s.root, m, 0) && FindAgrees(f, s.root, m, key, 0) && key !in m
    requires i < |f.siblings|
    ensures InsertFresh(f, key, value, i)
  {
    var leaf, all := LeafH(key, value), f.siblings + Graft(f, key);
    var x := Fold(key, f.siblings[i..], i, End(f, key));
    PathStep(key, f.siblings, i, End(f, key));
    TailNodes(key, f.siblings, i, End(f, key));
    PathNodesHave(key, f.siblings, 0, End(f, key), key, x);
    CanonicalHas(s.root, m, 0, key);
    TailNodes(key, all, i + 1, leaf);
    if x in PathNodes(key, all, 0, leaf) { PathNodesHave(key, all, 0, leaf, key, x); }
  }

  /** The digest removed at level `i` is not among the nodes already rebuilt. */
  ghost predicate DeleteFresh(f: FindResult, key: U256, i: nat)
    requires i < |Walked(f)|
  {
    Fold(key, Walked(f)[i..], i, End(f, key)) !in WithoutNodes(key, f.siblings[i + 1..], i + 1)
  }

  /** A digest removed by a deletion has the deleted key, a node it writes lacks it. */
  lemma RebuiltFresh(s: Storage, m: Entries, f: FindResult, key: U256, i: nat)
    requires IsCanonical(s.root, m, 0) && FindAgrees(f, s.root, m, key, 0) && f.found
    requires i < |Walked(f)|
    ensures DeleteFresh(f, key, i)
  {
    var x := Fold(key, Walked(f)[i..], i, End(f, key));
    FoldHas(key, Walked(f)[i..], i, End(f, key), key);
    TailNodes(key, f.siblings, i + 1, Zero);
    if x in WithoutNodes(key, f.siblings, 0) { LiveLackKey(s, m, f, key, x); }
  }

  /** A sound store is determined by its digests. */
  lemma SoundStore(nodes: map<Digest, Node>, ds: set<Digest>)
    requires Sound(nodes) && nodes.Keys == ds
    ensures nodes == Stored(ds)
  {
  }

  lemma StoredRemove(ds: set<Digest>, x: Digest)
    ensures Stored(ds) - {x} == Stored(ds - {x})
  {
  }

  lemma StoredSet(ds: set<Digest>, x: Digest)
    requires x != Zero
    ensures Stored(ds)[x := Content(x)] == Stored(ds + {x})
  {
  }

  /** The digests stored when the insertion loop has handled the siblings from `i` on: `sibs` is the path that was
      found, ending in `end`, and `all` the path of the new leaf. */
  ghost function InsertKeys(
    ds: set<Digest>, key: U256, sibs: seq<Digest>, end: Digest, all: seq<Digest>, leaf: Digest, i: nat): set<Digest>
    requires i <= |all|
    decreases |all| - i
  {
    if i == |all| then ds + {leaf}
    else
      var below := InsertKeys(ds, key, sibs, end, all, leaf, i + 1);
      (if i < |sibs| then below - {Fold(key, sibs[i..], i, end)} else below) + {Fold(key, all[i..], i, leaf)}
  }

  lemma RemoveThenWrite(ds: set<Digest>, removed: set<Digest>, written: set<Digest>, x: Digest, added: set<Digest>)
    requires x !in written
    ensures (((ds - removed) + written) - {x}) + added == (ds - ({x} + removed)) + (added + written)
  {
  }

  lemma RegroupLeaf(ds: set<Digest>, leaf: Digest, path: set<Digest>)
    ensures ds + {leaf} + path == ds + ({leaf} + path)
  {
  }

  /** Interleaving removals and writes comes to removing the old path and adding the new one. */
  lemma {:induction false} InsertKeysFlat(s: Storage, f: FindResult, key: U256, value: U256, i: nat)
    requires forall j :: 0 <= j < |f.siblings| ==> InsertFresh(f, key, value, j)
    requires i <= |f.siblings + Graft(f, key)|
    ensures var j := if i < |f.siblings| then i else |f.siblings|;
            InsertKeys(s.nodes.Keys, key, f.siblings, End(f, key), f.siblings + Graft(f, key), LeafH(key, value), i)
            == (s.nodes.Keys - PathNodes(key, f.siblings[j..], j, End(f, key)))
               + {LeafH(key, value)} + PathNodes(key, (f.siblings + Graft(f, key))[i..], i, LeafH(key, value))
    decreases |f.siblings + Graft(f, key)| - i
  {
    var all := f.siblings + Graft(f, key);
    if i == |all| {
      assert all[i..] == [] && f.siblings[|f.siblings|..] == [];
    } else {
      var leaf, end := LeafH(key, value), End(f, key);
      var added, written := {Fold(key, all[i..], i, leaf)}, PathNodes(key, all[i + 1..], i + 1, leaf);
      InsertKeysFlat(s, f, key, value, i + 1);
      assert added + written == PathNodes(key, all[i..], i, leaf) by {
        PathStep(key, all, i, leaf);
      }
      if i < |f.siblings| {
        var x, below := Fold(key, f.siblings[i..], i, end), PathNodes(key, f.siblings[i + 1..], i + 1, end);
        assert InsertFresh(f, key, value, i);
        RegroupLeaf(s.nodes.Keys - below, leaf, written);
        RemoveThenWrite(s.nodes.Keys, below, {leaf} + written, x, added);
        assert {x} + below == PathNodes(key, f.siblings[i..], i, end) by {
          PathStep(key, f.siblings, i, end);
        }
        assert added + ({leaf} + written) == {leaf} + (added + written);
        RegroupLeaf(s.nodes.Keys - ({x} + below), leaf, added + written);
      }
    }
  }

  /** The digests stored when the deletion loop has handled the siblings from `i` on. */
  ghost function DeleteKeys(
    ds: set<Digest>, key: U256, sibs: seq<Digest>, walked: seq<Digest>, leaf: Digest, i: nat): set<Digest>
    requires i <= |walked| <= |sibs|
    decreases |walked| - i
  {
    if i == |walked| then ds - {leaf}
    else
      var d := Without(key, sibs[i..], i);
      (DeleteKeys(ds, key, sibs, walked, leaf, i + 1) - {Fold(key, walked[i..], i, leaf)})
      + (if d.NodeH? then {d} else {})
  }

  lemma {:induction false} DeleteKeysFlat(s: Storage, f: FindResult, key: U256, i: nat)
    requires forall j :: 0 <= j < |Walked(f)| ==> DeleteFresh(f, key, j)
    requires i <= |Walked(f)|
    ensures DeleteKeys(s.nodes.Keys, key, f.siblings, Walked(f), End(f, key), i)
         == (s.nodes.Keys - ({End(f, key)} + PathNodes(key, Walked(f)[i..], i, End(f, key))))
            + WithoutNodes(key, f.siblings[i..], i)
    decreases |Walked(f)| - i
  {
    if i == |Walked(f)| {
      assert Walked(f)[i..] == [] && f.siblings[|f.siblings|..] == [];
      if i < |f.siblings| { WithoutStep(key, f.siblings, i); }
    } else {
      var leaf, d := End(f, key), Without(key, f.siblings[i..], i);
      var x, added := Fold(key, Walked(f)[i..], i, leaf), if d.NodeH? then {d} else {};
      var below := PathNodes(key, Walked(f)[i + 1..], i + 1, leaf);
      var written := WithoutNodes(key, f.siblings[i + 1..], i + 1);
      DeleteKeysFlat(s, f, key, i + 1);
      assert DeleteFresh(f, key, i);
      RemoveThenWrite(s.nodes.Keys, {leaf} + below, written, x, added);
      assert {x} + ({leaf} + below) == {leaf} + PathNodes(key, Walked(f)[i..], i, leaf) by {
        PathStep(key, Walked(f), i, leaf);
      }
      assert added + written == WithoutNodes(key, f.siblings[i..], i) by {
        WithoutStep(key, f.siblings, i);
      }
    }
  }

  /** The collision case: extend the siblings over the shared bits and add the old leaf. */
  method ExtendSiblings(key: U256, keyBits: seq<bool>, f: FindResult)
    returns (siblings: seq<Digest>, mixed: bool, rtOld: Digest, addedOne: bool)
    requires keyBits == KeyBits(key) && |f.siblings| <= KEY_BITS && !f.found
    ensures siblings == f.siblings + Graft(f, key)
    ensures mixed == (f.isOld0 && f.siblings != []) && rtOld == End(f, key) && addedOne == !f.isOld0
  {
    siblings, mixed, rtOld, addedOne := f.siblings, false, Zero, false;
    if !f.isOld0 {
      var oldKeyBits := SplitBits(f.notFoundKey);
      var i := |siblings|;
      while i < |oldKeyBits| && i < |keyBits| && oldKeyBits[i] == keyBits[i]
        invariant |f.siblings| <= i <= KEY_BITS
        invariant siblings == f.siblings + seq(i - |f.siblings|, _ => Zero)
        invariant SharedBits(f.notFoundKey, key, |f.siblings|)
               == i - |f.siblings| + SharedBits(f.notFoundKey, key, i)
      {
        assert seq(i + 1 - |f.siblings|, _ => Zero) == seq(i - |f.siblings|, _ => Zero) + [Zero];
        siblings := siblings + [Zero];
        i := i + 1;
      }
      rtOld := LeafH(f.notFoundKey, f.notFoundValue);
      siblings := siblings + [rtOld];
      addedOne := true;
    } else if siblings != [] {
      mixed := true;
    }
  }

  /** One level of an insertion: remove the superseded node, if any, and write the new one. */
  method InsertLevel(nodes0: map<Digest, Node>, bit: bool, sibling: Digest, oldSibling: Digest, remove: bool,
                     rtOld0: Digest, rt0: Digest, ghost ds: set<Digest>)
    returns (nodes: map<Digest, Node>, rtOld: Digest, rt: Digest)
    requires nodes0 == Stored(ds)
    ensures rtOld == if remove then Combine(bit, rtOld0, oldSibling) else rtOld0
    ensures rt == Combine(bit, rt0, sibling)
    ensures nodes == Stored((if remove then ds - {rtOld} else ds) + {rt})
  {
    nodes, rtOld := nodes0, rtOld0;
    if remove {
      rtOld := if bit then NodeH(oldSibling, rtOld) else NodeH(rtOld, oldSibling);
      StoredRemove(ds, rtOld);
      nodes := nodes - {rtOld};
    }
    var leftHash, rightHash := if bit then sibling else rt0, if bit then rt0 else sibling;
    rt := NodeH(leftHash, rightHash);
    StoredSet(if remove then ds - {rtOld} else ds, rt);
    nodes := nodes[rt := InnerNode(leftHash, rightHash)];
  }

  /** The insertion loop, from the last sibling to the root. `sibs` is the path that was found. With `addedOne` the
      last sibling is the leaf found at its end, and the siblings between are empty. */
  method WriteInserted(nodes0: map<Digest, Node>, key: U256, keyBits: seq<bool>, leaf: Digest, sibs: seq<Digest>,
                       siblings: seq<Digest>, mixed0: bool, rtOld0: Digest, addedOne: bool, ghost ds: set<Digest>)
    returns (nodes: map<Digest, Node>, rt: Digest)
    requires leaf.LeafH? && nodes0 == Stored(ds) && keyBits == KeyBits(key) && |siblings| <= KEY_BITS
    requires |sibs| <= |siblings| && forall i :: 0 <= i < |sibs| ==> siblings[i] == sibs[i]
    requires if addedOne then |sibs| < |siblings| && (sibs != [] ==> sibs[|sibs| - 1] != Zero) else sibs == siblings
    requires forall i :: |sibs| <= i < |siblings| - 1 ==> siblings[i] == Zero
    requires mixed0 == (!addedOne && sibs != [])
    ensures nodes == Stored(InsertKeys(ds, key, sibs, rtOld0, siblings, leaf, 0))
    ensures rt == Fold(key, siblings[0..], 0, leaf)
  {
    ghost var n := |sibs|;
    var mixed, rtOld := mixed0, rtOld0;
    rt := leaf;
    StoredSet(ds, leaf);
    nodes := nodes0[rt := LeafNode(leaf.key, leaf.value)];
    var i := |siblings|;
    assert siblings[i..] == [] && sibs[n..] == [];
    while i > 0
      invariant 0 <= i <= |siblings|
      invariant rt == Fold(key, siblings[i..], i, leaf)
      invariant if i < n then rtOld == Fold(key, sibs[i..], i, rtOld0) else rtOld == rtOld0
      invariant if i < n then mixed else mixed == (!addedOne && n > 0)
      invariant nodes == Stored(InsertKeys(ds, key, sibs, rtOld0, siblings, leaf, i))
    {
      ghost var stored := InsertKeys(ds, key, sibs, rtOld0, siblings, leaf, i);
      i := i - 1;
      FoldStep(key, siblings, i, leaf);
      if i < n { FoldStep(key, sibs, i, rtOld0); }
      var isLastAddedLeaf := addedOne && i == |siblings| - 1;
      if !isLastAddedLeaf && i < |siblings| - 1 && siblings[i] != Zero {
        mixed := true;
      }
      var oldSibling := if i < |sibs| then sibs[i] else Zero;
      assert mixed && !isLastAddedLeaf <==> i < n;
      nodes, rtOld, rt := InsertLevel(
        nodes, keyBits[i], siblings[i], oldSibling, mixed && !isLastAddedLeaf, rtOld, rt, stored);
      assert (if i < n then stored - {rtOld} else stored) + {rt}
          == InsertKeys(ds, key, sibs, rtOld0, siblings, leaf, i);
    }
  }

  /** One level of a deletion: remove one digest and, once a sibling was met, write the rebuilt node. */
  method DeleteLevel(nodes0: map<Digest, Node>, bit: bool, sibling: Digest, rtOld0: Digest, rtNew0: Digest,
                     mixed0: bool, ghost ds: set<Digest>)
    returns (nodes: map<Digest, Node>, rtOld: Digest, rtNew: Digest, mixed: bool)
    requires nodes0 == Stored(ds)
    ensures rtOld == Combine(bit, rtOld0, sibling) && mixed == (mixed0 || sibling != Zero)
    ensures rtNew == if mixed then Combine(bit, rtNew0, sibling) else rtNew0
    ensures nodes == Stored((ds - {rtOld}) + (if mixed then {rtNew} else {}))
  {
    mixed, rtNew := mixed0, rtNew0;
    rtOld := if bit then NodeH(sibling, rtOld0) else NodeH(rtOld0, sibling);
    StoredRemove(ds, rtOld);
    nodes := nodes0 - {rtOld};
    if sibling != Zero {
      mixed := true;
    }
    if mixed {
      var leftHash, rightHash := if bit then sibling else rtNew, if bit then rtNew else sibling;
      rtNew := NodeH(leftHash, rightHash);
      StoredSet(ds - {rtOld}, rtNew);
      nodes := nodes[rtNew := InnerNode(leftHash, rightHash)];
    } else {
      assert (ds - {rtOld}) + {} == ds - {rtOld};
    }
  }

  /** The deletion loop over the `walked` siblings: collapse over empty ones, rebuild above the first other one.
      A leaf that was the last of `sibs` is promoted instead of walked over. */
  method WriteDeleted(nodes0: map<Digest, Node>, key: U256, keyBits: seq<bool>, leaf: Digest, sibs: seq<Digest>,
                      walked: seq<Digest>, rtNew0: Digest, ghost ds: set<Digest>)
    returns (nodes: map<Digest, Node>, rtNew: Digest)
    requires nodes0 == Stored(ds - {leaf}) && keyBits == KeyBits(key) && |sibs| <= KEY_BITS
    requires |walked| <= |sibs| && walked == sibs[..|walked|]
    requires if |walked| == |sibs| then rtNew0 == Zero && (sibs != [] ==> sibs[|sibs| - 1].NodeH?)
             else |walked| == |sibs| - 1 && rtNew0 == sibs[|sibs| - 1] && rtNew0.LeafH?
    ensures nodes == Stored(DeleteKeys(ds, key, sibs, walked, leaf, 0))
    ensures rtNew == Without(key, sibs[0..], 0)
  {
    ghost var n := |sibs|;
    var rtOld, mixed := leaf, false;
    nodes, rtNew := nodes0, rtNew0;
    var i := |walked|;
    assert walked[i..] == [] && sibs[n..] == [];
    if i < n { WithoutStep(key, sibs, i); }
    while i > 0
      invariant 0 <= i <= |walked|
      invariant rtOld == Fold(key, walked[i..], i, leaf)
      invariant rtNew == Without(key, sibs[i..], i)
      invariant if mixed then rtNew.NodeH? else if i < n then rtNew.LeafH? else rtNew == Zero
      invariant nodes == Stored(DeleteKeys(ds, key, sibs, walked, leaf, i))
    {
      ghost var stored := DeleteKeys(ds, key, sibs, walked, leaf, i);
      i := i - 1;
      FoldStep(key, walked, i, leaf);
      WithoutStep(key, sibs, i);
      assert walked[i] == sibs[i];
      nodes, rtOld, rtNew, mixed := DeleteLevel(nodes, keyBits[i], walked[i], rtOld, rtNew, mixed, stored);
      assert rtNew == Without(key, sibs[i..], i);
      assert (stored - {rtOld}) + (if mixed then {rtNew} else {}) == DeleteKeys(ds, key, sibs, walked, leaf, i);
    }
  }

  /** Insert below the path that was found. */
  method InsertAt(nodes0: map<Digest, Node>, key: U256, keyBits: seq<bool>, value: U256, f: FindResult,
                  ghost s: Storage, ghost m: Entries)
    returns (nodes: map<Digest, Node>, root: Digest)
    requires Represents(s, m) && FindAgrees(f, s.root, m, key, 0) && key !in m
    requires nodes0 == s.nodes && keyBits == KeyBits(key)
    ensures Storage(nodes, root) == AfterInsert(s, f, key, value)
  {
    GraftFits(f, s.root, m, key, value);
    forall j | 0 <= j < |f.siblings| ensures InsertFresh(f, key, value, j) {
      NewPathFresh(s, m, f, key, value, j);
    }
    InsertKeysFlat(s, f, key, value, 0);
    SoundStore(nodes0, nodes0.Keys);
    var siblings, mixed, rtOld, addedOne := ExtendSiblings(key, keyBits, f);
    assert siblings[0..] == siblings && f.siblings[0..] == f.siblings;
    nodes, root :=
      WriteInserted(nodes0, key, keyBits, LeafH(key, value), f.siblings, siblings, mixed, rtOld, addedOne, nodes0.Keys);
  }

  /** Rebuild the path that was found without its leaf, which is already removed. */
  method DeleteAt(nodes0: map<Digest, Node>, key: U256, keyBits: seq<bool>, f: FindResult, walked: seq<Digest>,
                  rtNew: Digest, ghost s: Storage, ghost m: Entries)
    returns (nodes: map<Digest, Node>, root: Digest)
    requires Represents(s, m) && FindAgrees(f, s.root, m, key, 0) && f.found
    requires nodes0 == Stored(s.nodes.Keys - {End(f, key)}) && keyBits == KeyBits(key)
    requires walked == Walked(f) && rtNew == if Promotes(f) then f.siblings[|f.siblings| - 1] else Zero
    ensures Storage(nodes, root) == AfterDelete(s, f, key)
  {
    forall j | 0 <= j < |Walked(f)| ensures DeleteFresh(f, key, j) {
      RebuiltFresh(s, m, f, key, j);
    }
    DeleteKeysFlat(s, f, key, 0);
    assert walked[0..] == walked && f.siblings[0..] == f.siblings;
    nodes, root :=
      WriteDeleted(nodes0, key, keyBits, LeafH(key, f.foundValue), f.siblings, walked, rtNew, s.nodes.Keys);
  }

  /** Search, then insert; the store and the root are returned unchanged on failure. */
  method InsertInStore(nodes0: map<Digest, Node>, root0: Digest, key: U256, value: U256, ghost m: Entries)
    returns (nodes: map<Digest, Node>, root: Digest, r: Outcome<(), Error>)
    requires Represents(Storage(nodes0, root0), m)
    ensures (Storage(nodes, root), r) == InsertStep(Storage(nodes0, root0), key, value)
  {
    nodes, root := nodes0, root0;
    var keyBits := SplitBits(key);
    var found := FindKeyInternal(nodes, key, keyBits, root, 0);
    if !found.Done? { return nodes, root, found.Propagate(); }
    var f := found.value;
    if f.found { return nodes, root, Failed(KeyAlreadyExists); }
    if key >= P || value >= P { return nodes, root, Panicked; }
    ghost var s := Storage(nodes, root);
    FindAgreesWithLookup(s, m, key);
    nodes, root := InsertAt(nodes, key, keyBits, value, f, s, m);
    r := Done(());
  }

  /** Search, remove the leaf, decide whether its sibling is promoted, then rebuild. */
  method DeleteFromStore(nodes0: map<Digest, Node>, root0: Digest, key: U256, ghost m: Entries)
    returns (nodes: map<Digest, Node>, root: Digest, r: Outcome<(), Error>)
    requires Represents(Storage(nodes0, root0), m)
    ensures (Storage(nodes, root), r) == DeleteStep(Storage(nodes0, root0), key)
  {
    nodes, root := nodes0, root0;
    var keyBits := SplitBits(key);
    var found := FindKeyInternal(nodes, key, keyBits, root, 0);
    if !found.Done? { return nodes, root, found.Propagate(); }
    var f := found.value;
    if !f.found { return nodes, root, Failed(KeyNotFound); }
    ghost var s := Storage(nodes, root);
    FindAgreesWithLookup(s, m, key);
    nodes := nodes - {LeafH(key, f.foundValue)};
    var rtNew := Zero;
    var siblings := f.siblings;
    if f.siblings != [] {
      var last := f.siblings[|f.siblings| - 1];
      if last !in nodes || nodes[last].OtherNode? {
        return nodes0, root, Failed(KeyNotFound);
      }
      assert nodes[last] == Content(last);
      if nodes[last].LeafNode? {
        rtNew := last;
        siblings := siblings[..|siblings| - 1];
      }
    }
    SoundStore(nodes0, nodes0.Keys);
    StoredRemove(nodes0.Keys, End(f, key));
    nodes, root := DeleteAt(nodes, key, keyBits, f, siblings, rtNew, s, m);
    r := Done(());
  }

  /** Compare a claimed list of siblings with the one found. */
  method SameSiblings(siblings: seq<Digest>, expected: seq<Digest>) returns (same: bool)
    ensures same <==> siblings == expected
  {
    if |expected| != |siblings| { return false; }
    for i := 0 to |siblings|
      invariant forall k :: 0 <= k < i ==> siblings[k] == expected[k]
    {
      if siblings[i] != expected[i] { return false; }
    }
    return true;
  }

  /** Hash from the end of the path to the root. */
  method ComputeRoot(key: U256, keyBits: seq<bool>, siblings: seq<Digest>, end: Digest) returns (computed: Digest)
    requires keyBits == KeyBits(key) && |siblings| <= KEY_BITS
    ensures computed == Fold(key, siblings, 0, end)
  {
    computed := end;
    var i := |siblings|;
    while i > 0
      invariant 0 <= i <= |siblings|
      invariant computed == Fold(key, siblings[i..], i, end)
    {
      i := i - 1;
      FoldStep(key, siblings, i, end);
      computed := if keyBits[i] then NodeH(siblings[i], computed) else NodeH(computed, siblings[i]);
    }
    assert siblings[0..] == siblings;
  }

  // ---------------------------------------------------------------- the contract

  datatype Event = LeafInserted(key: U256, value: U256, root: Digest) | LeafDeleted(key: U256, root: Digest)

  /** The map that a reader of the events rebuilds. */
  ghost function Replay(events: seq<Event>): Entries {
    if events == [] then map[]
    else
      var m := Replay(events[..|events| - 1]);
      match events[|events| - 1]
      case LeafInserted(k, v, _) => m[k := v]
      case LeafDeleted(k, _) => m - {k}
  }

  /** Every event tells the root of the tree that the events up to it build. */
  ghost predicate Announced(events: seq<Event>) {
    forall i :: 0 <= i < |events| ==> IsCanonical(events[i].root, Replay(events[..i + 1]), 0)
  }

  lemma AnnounceOneMore(events: seq<Event>, e: Event, m: Entries)
    requires Announced(events) && IsCanonical(e.root, m, 0)
    requires m == if e.LeafInserted? then Replay(events)[e.key := e.value] else Replay(events) - {e.key}
    ensures Announced(events + [e]) && Replay(events + [e]) == m
  {
    var events' := events + [e];
    assert events'[..|events|] == events && events'[..|events| + 1] == events';
    forall i | 0 <= i < |events| ensures IsCanonical(events'[i].root, Replay(events'[..i + 1]), 0) {
      assert events'[..i + 1] == events[..i + 1];
    }
  }

  class Contract {
    var nodes: map<Digest, Node>
    var root: Digest
    var events: seq<Event>
    /** The key-to-value map that the store stands for. */
    ghost var entries: Entries

    ghost function State(): Storage
      reads this
    {
      Storage(nodes, root)
    }

    ghost predicate Valid()
      reads this
    {
      Represents(State(), entries) && Announced(events) && Replay(events) == entries
    }

    constructor ()
      ensures Valid() && State() == Run([]) && entries == map[] && events == []
    {
      nodes, root, events, entries := map[], Zero, [], map[];
    }

    method FindKey(key: U256) returns (r: Outcome<FindResult, Error>)
      requires Valid()
      ensures r.Done? && FindAgrees(r.value, root, entries, key, 0)
    {
      var keyBits := SplitBits(key);
      r := FindKeyInternal(nodes, key, keyBits, root, 0);
      FindAgreesWithLookup(State(), entries, key);
    }

    method InsertLeaf(authorized: bool, key: U256, value: U256) returns (r: Outcome<(), Error>)
      requires Valid()
      modifies this
      ensures Valid()
      ensures !authorized ==> r == Panicked && State() == old(State())
      ensures authorized ==> (State(), r) == InsertStep(old(State()), key, value)
      ensures entries == if r.Done? then old(entries)[key := value] else old(entries)
      ensures events == old(events) + if r.Done? then [LeafInserted(key, value, root)] else []
    {
      if !authorized { return Panicked; }
      InsertRefinesMap(State(), entries, key, value);
      nodes, root, r := InsertInStore(nodes, root, key, value, entries);
      if r.Done? {
        entries := entries[key := value];
        AnnounceOneMore(events, LeafInserted(key, value, root), entries);
        events := events + [LeafInserted(key, value, root)];
      }
    }

    method DeleteLeaf(authorized: bool, key: U256) returns (r: Outcome<(), Error>)
      requires Valid()
      modifies this
      ensures Valid()
      ensures !authorized ==> r == Panicked && State() == old(State())
      ensures authorized ==> (State(), r) == DeleteStep(old(State()), key)
      ensures entries == if r.Done? then old(entries) - {key} else old(entries)
      ensures events == old(events) + if r.Done? then [LeafDeleted(key, root)] else []
    {
      if !authorized { return Panicked; }
      DeleteRefinesMap(State(), entries, key);
      nodes, root, r := DeleteFromStore(nodes, root, key, entries);
      if r.Done? {
        entries := entries - {key};
        AnnounceOneMore(events, LeafDeleted(key, root), entries);
        events := events + [LeafDeleted(key, root)];
      }
    }

    method VerifyNonMembership(key: U256, siblings: seq<Digest>, notFoundKey: U256, notFoundValue: U256)
      returns (r: Outcome<bool, Error>)
      requires Valid()
      ensures r == VerifyStep(State(), key, siblings, notFoundKey, notFoundValue)
    {
      var keyBits := SplitBits(key);
      var found := FindKeyInternal(nodes, key, keyBits, root, 0);
      if !found.Done? { return found.Propagate(); }
      var f := found.value;
      if f.found { return Done(false); }
      var same := SameSiblings(siblings, f.siblings);
      if !same { return Failed(InvalidProof); }
      if f.notFoundKey != notFoundKey || f.notFoundValue != notFoundValue { return Failed(InvalidProof); }
      assert |siblings| <= KEY_BITS by { FindAgreesWithLookup(State(), entries, key); }
      var end := if notFoundKey != key && notFoundValue != 0 then LeafH(notFoundKey, notFoundValue) else Zero;
      var computed := ComputeRoot(key, keyBits, siblings, end);
      return if computed != root then Failed(InvalidProof) else Done(true);
    }
  }
}

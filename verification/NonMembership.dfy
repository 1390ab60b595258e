/** The ASP non-membership contract: a content-addressed node store and a root, changed by
    `insert_leaf` and `delete_leaf` and read by `find_key` and `verify_non_membership`. */
module NonMembership {
  import opened Bits
  import opened Bn254
  import opened HostCalls
  import opened SparseTree

  datatype Error = KeyNotFound | KeyAlreadyExists | InvalidProof

  /** A stored vector: `[1, key, value]`, `[left, right]`, or one of any other shape. */
  datatype Node =
    | LeafNode(key: U256, value: U256) | InnerNode(left: Digest, right: Digest) | OtherNode(words: seq<U256>)

  datatype Storage = Storage(nodes: map<Digest, Node>, root: Digest)

  datatype FindResult = FindResult(
    found: bool, siblings: seq<Digest>, foundValue: U256, notFoundKey: U256, notFoundValue: U256, isOld0: bool)

  // ---------------------------------------------------------------- the store

  function Content(d: Digest): Node
    requires d != Zero
  {
    match d
    case LeafH(k, v) => LeafNode(k, v)
    case NodeH(l, r) => InnerNode(l, r)
  }

  /** The store that holds exactly the nodes `ds`, each under its own digest. */
  ghost function Stored(ds: set<Digest>): map<Digest, Node> {
    map d | d in ds && d != Zero :: Content(d)
  }

  /** Every stored node is the one its digest commits to. */
  ghost predicate Sound(nodes: map<Digest, Node>) {
    forall d :: d in nodes ==> d != Zero && nodes[d] == Content(d)
  }

  ghost predicate InField(m: Entries) {
    forall k :: k in m ==> k < P && m[k] < P
  }

  /** `s` stores the entries `m`: the root is their canonical tree and all of it is in the store. */
  ghost predicate Represents(s: Storage, m: Entries) {
    Sound(s.nodes) && Reach(s.root) <= s.nodes.Keys && IsCanonical(s.root, m, 0) && InField(m)
  }

  /** The store holds the nodes reachable from the root and nothing else. */
  ghost predicate NoGarbage(s: Storage) {
    s.nodes.Keys == Reach(s.root)
  }

  // ---------------------------------------------------------------- find

  function FindKeyInternal(nodes: map<Digest, Node>, key: U256, keyBits: seq<bool>, root: Digest, level: nat)
    : Outcome<FindResult, Error>
    decreases if level < |keyBits| then |keyBits| - level else 0
  {
    if root == Zero then
      Done(FindResult(false, [], 0, key, 0, true))
    else if root !in nodes then
      Failed(KeyNotFound)
    else match nodes[root]
      case LeafNode(k, v) =>
        if k == key then Done(FindResult(true, [], v, 0, 0, false))
        else Done(FindResult(false, [], 0, k, v, false))
      case InnerNode(left, right) =>
        if level >= |keyBits| then Failed(KeyNotFound)
        else
          var bit := keyBits[level];
          var result := FindKeyInternal(nodes, key, keyBits, if bit then right else left, level + 1);
          if result.Done? then
            Done(result.value.(siblings := [if bit then left else right] + result.value.siblings))
          else result
      case OtherNode(_) => Failed(KeyNotFound)
  }

  function KeyBits(key: U256): seq<bool> {
    seq(KEY_BITS, i requires 0 <= i => Bit(key, i))
  }

  function Find(s: Storage, key: U256): Outcome<FindResult, Error> {
    FindKeyInternal(s.nodes, key, KeyBits(key), s.root, 0)
  }

  /** The digest at which the search stopped. */
  function End(f: FindResult, key: U256): Digest {
    if f.isOld0 then Zero
    else if f.found then LeafH(key, f.foundValue)
    else LeafH(f.notFoundKey, f.notFoundValue)
  }

  /** What a search at `level` in the tree of `m` must report. */
  ghost predicate FindAgrees(f: FindResult, root: Digest, m: Entries, key: U256, level: nat) {
    && (f.found <==> key in m)
    && (f.found ==> f.foundValue == m[key] && !f.isOld0 && f.notFoundKey == f.notFoundValue == 0)
    && (!f.found ==> f.foundValue == 0)
    && (!f.found && f.isOld0 ==> f.notFoundKey == key && f.notFoundValue == 0)
    && (!f.found && !f.isOld0 ==>
          && f.notFoundKey in m && m[f.notFoundKey] == f.notFoundValue && f.notFoundKey != key
          && SameBits(f.notFoundKey, key, level + |f.siblings|))
    && Fold(key, f.siblings, level, End(f, key)) == root
    && level + |f.siblings| <= KEY_BITS
    && (!f.isOld0 && f.siblings != [] ==> f.siblings[|f.siblings| - 1] != Zero)
  }

  /** A search in a completely stored canonical tree never fails and agrees with map lookup. */
  lemma {:induction false} FindInternalAgrees(
    nodes: map<Digest, Node>, key: U256, root: Digest, level: nat, m: Entries)
    requires Sound(nodes) && Reach(root) <= nodes.Keys
    requires level <= KEY_BITS && IsCanonical(root, m, level) && OnPath(m, key, level)
    ensures var r := FindKeyInternal(nodes, key, KeyBits(key), root, level);
            r.Done? && FindAgrees(r.value, root, m, key, level)
    decreases root
  {
    match root
    case Zero =>
    case LeafH(k, v) =>
      assert nodes[root] == Content(root);
      assert k in m;
    case NodeH(left, right) =>
      assert nodes[root] == Content(root);
      var bit := Bit(key, level);
      var child := if bit then right else left;
      var side := Side(m, level, bit);
      SideOnPath(m, key, level);
      FindInternalAgrees(nodes, key, child, level + 1, side);
      assert key in m <==> key in side;
      var sub := FindKeyInternal(nodes, key, KeyBits(key), child, level + 1).value;
      var f := FindKeyInternal(nodes, key, KeyBits(key), root, level).value;
      assert f.siblings[1..] == sub.siblings;
      if !f.isOld0 && sub.siblings == [] {
        LeafHasSibling(left, right, m, level);
      }
  }

  lemma LeafHasSibling(left: Digest, right: Digest, m: Entries, level: nat)
    requires IsCanonical(NodeH(left, right), m, level)
    ensures left.LeafH? ==> right != Zero
    ensures right.LeafH? ==> left != Zero
  {
    var k, k' :| k in m && k' in m && k != k';
    CanonicalHas(NodeH(left, right), m, level, k);
    CanonicalHas(NodeH(left, right), m, level, k');
  }

  /** `find_key` on every state that represents a map: lookup in that map. */
  lemma FindAgreesWithLookup(s: Storage, m: Entries, key: U256)
    requires Represents(s, m)
    ensures var r := Find(s, key); r.Done? && FindAgrees(r.value, s.root, m, key, 0)
  {
    FindInternalAgrees(s.nodes, key, s.root, 0, m);
  }

  // ---------------------------------------------------------------- insert

  /** How many bits `a` and `b` share from bit `from` on. */
  function SharedBits(a: U256, b: U256, from: nat): (n: nat)
    ensures from <= KEY_BITS ==> from + n <= KEY_BITS
    ensures forall i :: from <= i < from + n ==> Bit(a, i) == Bit(b, i)
    ensures from + n < KEY_BITS ==> Bit(a, from + n) != Bit(b, from + n)
    decreases KEY_BITS - from
  {
    if from >= KEY_BITS || Bit(a, from) != Bit(b, from) then 0 else 1 + SharedBits(a, b, from + 1)
  }

  /** What hangs below the search path once the key is in. */
  function Graft(f: FindResult, key: U256): seq<Digest> {
    if f.isOld0 then []
    else Separator(SharedBits(f.notFoundKey, key, |f.siblings|), End(f, key))
  }

  ghost function AfterInsert(s: Storage, f: FindResult, key: U256, value: U256): Storage {
    var leaf := LeafH(key, value);
    var siblings := f.siblings + Graft(f, key);
    Storage(
      Stored((s.nodes.Keys - PathNodes(key, f.siblings, 0, End(f, key))) + {leaf} + PathNodes(key, siblings, 0, leaf)),
      Fold(key, siblings, 0, leaf))
  }

  ghost function InsertStep(s: Storage, key: U256, value: U256): (Storage, Outcome<(), Error>) {
    var r := Find(s, key);
    if !r.Done? then (s, r.Propagate())
    else if r.value.found then (s, Failed(KeyAlreadyExists))
    else if key >= P || value >= P then (s, Panicked)
    else (AfterInsert(s, r.value, key, value), Done(()))
  }

  ghost predicate Insertable(m: Entries, key: U256, value: U256) {
    key !in m && key < P && value < P
  }

  lemma GraftFits(f: FindResult, root: Digest, m: Entries, key: U256, value: U256)
    requires FindAgrees(f, root, m, key, 0) && !f.found
    ensures Grafts(Fold(key, Graft(f, key), |f.siblings|, LeafH(key, value)), End(f, key), key, value, |f.siblings|)
    ensures |f.siblings + Graft(f, key)| <= KEY_BITS
  {
    if !f.isOld0 {
      var n := SharedBits(f.notFoundKey, key, |f.siblings|);
      if |f.siblings| + n == KEY_BITS {
        KeysDiffer(f.notFoundKey, key);
        assert false;
      }
      SplitCanonical(key, value, f.notFoundKey, f.notFoundValue, n, |f.siblings|);
    }
  }

  /** A node without the new key is in the new tree only if it is in one of its siblings. */
  lemma OldNodeInSiblings(key: U256, value: U256, sibs: seq<Digest>, level: nat, x: Digest)
    requires !Has(x, key) && x in Reach(Fold(key, sibs, level, LeafH(key, value)))
    ensures x in SibReach(sibs)
  {
    var leaf := LeafH(key, value);
    FoldReach(key, sibs, level, leaf);
    if x in PathNodes(key, sibs, level, leaf) {
      PathNodesHave(key, sibs, level, leaf, key, x);
    }
  }

  /** No superseded path node is part of the new tree. */
  lemma {:induction false} OldPathIsDead(
    key: U256, sibs: seq<Digest>, level: nat, end: Digest, m: Entries, x: Digest)
    requires IsCanonical(Fold(key, sibs, level, end), m, level)
    requires x in PathNodes(key, sibs, level, end) && !end.NodeH?
    ensures x !in SibReach(sibs) + Reach(end)
    decreases |sibs|
  {
    PathNodesHave(key, sibs, level, end, key, x);
    if x == Fold(key, sibs, level, end) {
      if x in SibReach(sibs) { SibReachSmaller(key, sibs, level, end, x); }
    } else {
      var b, below := Bit(key, level), Fold(key, sibs[1..], level + 1, end);
      OldPathIsDead(key, sibs[1..], level + 1, end, Side(m, level, b), x);
      if x in Reach(sibs[0]) {
        FoldReach(key, sibs[1..], level + 1, end);
        ReachKeys(below, Side(m, level, b), level + 1, x);
        ReachKeys(sibs[0], Side(m, level, !b), level + 1, x);
        assert false;
      }
    }
  }

  lemma GraftReach(f: FindResult, key: U256)
    ensures SibReach(Graft(f, key)) == Reach(End(f, key))
  {
    if !f.isOld0 {
      var end := End(f, key);
      var n := SharedBits(f.notFoundKey, key, |f.siblings|);
      ZerosReach(n);
      FoldAppend(key, seq(n, _ => Zero), [end], 0, Zero);
      assert SibReach([end]) == Reach(end) + SibReach([end][1..]);
    }
  }

  lemma {:induction false} ZerosReach(n: nat)
    ensures SibReach(seq(n, _ => Zero)) == {}
  {
    if n > 0 {
      var z: seq<Digest> := seq(n, _ => Zero);
      assert z[1..] == seq(n - 1, _ => Zero);
      ZerosReach(n - 1);
    }
  }

  lemma InsertedRoot(s: Storage, m: Entries, f: FindResult, key: U256, value: U256)
    requires IsCanonical(s.root, m, 0) && FindAgrees(f, s.root, m, key, 0) && key !in m
    ensures IsCanonical(AfterInsert(s, f, key, value).root, m[key := value], 0)
  {
    var leaf, graft := LeafH(key, value), Graft(f, key);
    GraftFits(f, s.root, m, key, value);
    FoldAppend(key, f.siblings, graft, 0, leaf);
    InsertCanonical(key, value, f.siblings, 0, End(f, key), Fold(key, graft, |f.siblings|, leaf), m);
  }

  lemma InsertedNodes(s: Storage, m: Entries, f: FindResult, key: U256, value: U256)
    requires Represents(s, m) && FindAgrees(f, s.root, m, key, 0) && key !in m
    ensures var s' := AfterInsert(s, f, key, value);
            Sound(s'.nodes) && Reach(s'.root) <= s'.nodes.Keys && (NoGarbage(s) ==> NoGarbage(s'))
  {
    var s' := AfterInsert(s, f, key, value);
    var end, leaf, graft := End(f, key), LeafH(key, value), Graft(f, key);
    var all := f.siblings + graft;
    var before, after := PathNodes(key, f.siblings, 0, end), PathNodes(key, all, 0, leaf);
    forall x | x in after ensures x.NodeH? {
      PathNodesHave(key, all, 0, leaf, key, x);
    }
    assert s'.nodes.Keys == (s.nodes.Keys - before) + {leaf} + after;
    assert Reach(s.root) == before + Reach(end) + SibReach(f.siblings) by {
      FoldReach(key, f.siblings, 0, end);
    }
    assert Reach(s'.root) == after + {leaf} + SibReach(f.siblings) + Reach(end) by {
      FoldReach(key, all, 0, leaf);
      FoldAppend(key, f.siblings, graft, 0, leaf);
      GraftReach(f, key);
    }
    forall x | x in before ensures x !in Reach(s'.root) {
      OldPathIsDead(key, f.siblings, 0, end, m, x);
      PathNodesHave(key, f.siblings, 0, end, key, x);
      CanonicalHas(s.root, m, 0, key);
      if x in Reach(s'.root) {
        OldNodeInSiblings(key, value, all, 0, x);
        FoldAppend(key, f.siblings, graft, 0, leaf);
        GraftReach(f, key);
      }
    }
  }

  /** An insertion does on the store what `m[key := value]` does on the map, fails exactly when the key is
      present or out of range, and leaves no garbage of its own. */
  lemma InsertRefinesMap(s: Storage, m: Entries, key: U256, value: U256)
    requires Represents(s, m)
    ensures var (s', r) := InsertStep(s, key, value);
            && (r.Done? <==> Insertable(m, key, value))
            && (r == Failed(KeyAlreadyExists) <==> key in m)
            && (r == Panicked <==> key !in m && (key >= P || value >= P))
            && (r.Done? ==> Represents(s', m[key := value]) && (NoGarbage(s) ==> NoGarbage(s')))
            && (!r.Done? ==> s' == s)
  {
    FindAgreesWithLookup(s, m, key);
    if Insertable(m, key, value) {
      var f := Find(s, key).value;
      InsertedRoot(s, m, f, key, value);
      InsertedNodes(s, m, f, key, value);
    }
  }

  // ---------------------------------------------------------------- delete

  /** The deleted leaf's sibling is itself a leaf and moves up. */
  predicate Promotes(f: FindResult) {
    f.siblings != [] && f.siblings[|f.siblings| - 1].LeafH?
  }

  /** The siblings the deletion loop walks over. */
  function Walked(f: FindResult): seq<Digest> {
    if Promotes(f) then f.siblings[..|f.siblings| - 1] else f.siblings
  }

  /** The digests the deletion loop removes. After a promotion they are not the old path nodes. */
  ghost function Removed(f: FindResult, key: U256): set<Digest> {
    {End(f, key)} + PathNodes(key, Walked(f), 0, End(f, key))
  }

  ghost function AfterDelete(s: Storage, f: FindResult, key: U256): Storage {
    Storage(
      Stored((s.nodes.Keys - Removed(f, key)) + WithoutNodes(key, f.siblings, 0)),
      Without(key, f.siblings, 0))
  }

  ghost function DeleteStep(s: Storage, key: U256): (Storage, Outcome<(), Error>) {
    var r := Find(s, key);
    if !r.Done? then (s, r.Propagate())
    else if !r.value.found then (s, Failed(KeyNotFound))
    else
      var f := r.value;
      var rest := s.nodes - {End(f, key)};
      if f.siblings != [] && (var last := f.siblings[|f.siblings| - 1]; last !in rest || rest[last].OtherNode?)
      then (s, Failed(KeyNotFound))
      else (AfterDelete(s, f, key), Done(()))
  }

  lemma RemovedHaveKey(f: FindResult, key: U256, x: Digest)
    requires f.found && !f.isOld0 && x in Removed(f, key)
    ensures Has(x, key)
  {
    if x != End(f, key) { PathNodesHave(key, Walked(f), 0, End(f, key), key, x); }
  }

  lemma LiveLackKey(s: Storage, m: Entries, f: FindResult, key: U256, x: Digest)
    requires IsCanonical(s.root, m, 0) && FindAgrees(f, s.root, m, key, 0) && f.found
    requires x in WithoutNodes(key, f.siblings, 0) + SibReach(f.siblings)
    ensures !Has(x, key) && x != Zero
  {
    DeleteCanonical(key, f.foundValue, f.siblings, 0, m);
    WithoutReach(key, f.siblings, 0);
    ReachKeys(Without(key, f.siblings, 0), m - {key}, 0, x);
  }

  lemma DeletedNodes(s: Storage, m: Entries, f: FindResult, key: U256)
    requires Represents(s, m) && FindAgrees(f, s.root, m, key, 0) && f.found
    ensures var s' := AfterDelete(s, f, key);
            Sound(s'.nodes) && Reach(s'.root) <= s'.nodes.Keys
    ensures NoGarbage(s) && !Promotes(f) ==> NoGarbage(AfterDelete(s, f, key))
  {
    var s', leaf := AfterDelete(s, f, key), End(f, key);
    WithoutReach(key, f.siblings, 0);
    FoldReach(key, f.siblings, 0, leaf);
    forall x | x in WithoutNodes(key, f.siblings, 0) + SibReach(f.siblings)
      ensures x != Zero && x !in Removed(f, key)
    {
      LiveLackKey(s, m, f, key, x);
      if x in Removed(f, key) { RemovedHaveKey(f, key, x); }
    }
    assert s'.nodes.Keys == (s.nodes.Keys - Removed(f, key)) + WithoutNodes(key, f.siblings, 0);
  }

  /** The old parent of the deleted leaf and a promoted one. */
  function OldParent(f: FindResult, key: U256): Digest
    requires Promotes(f)
  {
    Combine(Bit(key, |f.siblings| - 1), End(f, key), f.siblings[|f.siblings| - 1])
  }

  lemma OldParentOnPath(f: FindResult, key: U256)
    requires Promotes(f)
    ensures Fold(key, f.siblings, 0, End(f, key)) == Fold(key, Walked(f), 0, OldParent(f, key))
    ensures OldParent(f, key) in Reach(Fold(key, f.siblings, 0, End(f, key)))
  {
    var n, end := |f.siblings| - 1, End(f, key);
    var last := f.siblings[n];
    assert f.siblings == Walked(f) + [last];
    assert [last][1..] == [];
    assert Fold(key, [last], n, end) == OldParent(f, key);
    FoldAppend(key, Walked(f), [last], 0, end);
    FoldReach(key, Walked(f), 0, OldParent(f, key));
  }

  /** Every old path node holds the promoted key, and nothing the loop removes does. */
  lemma OldPathNotRemoved(f: FindResult, m: Entries, key: U256, x: Digest)
    requires f.found && !f.isOld0 && Promotes(f)
    requires IsCanonical(Fold(key, Walked(f), 0, OldParent(f, key)), m, 0)
    requires x in PathNodes(key, f.siblings, 0, End(f, key))
    ensures x !in Removed(f, key) && Has(x, key)
  {
    var last, leaf := f.siblings[|f.siblings| - 1], End(f, key);
    PathNodesHave(key, f.siblings, 0, leaf, key, x);
    SiblingKeyDiffers(key, f.foundValue, Walked(f), 0, last, m);
    SiblingsLack(key, Walked(f), 0, OldParent(f, key), leaf, m, last.key);
    OldPathHasPromoted(f, key, x);
    if x in PathNodes(key, Walked(f), 0, leaf) {
      PathNodesHave(key, Walked(f), 0, leaf, last.key, x);
    }
  }

  lemma OldPathHasPromoted(f: FindResult, key: U256, x: Digest)
    requires Promotes(f) && x in PathNodes(key, f.siblings, 0, End(f, key))
    ensures Has(x, f.siblings[|f.siblings| - 1].key)
  {
    var n, end := |f.siblings| - 1, End(f, key);
    var last := f.siblings[n];
    assert f.siblings == Walked(f) + [last];
    assert [last][1..] == [];
    assert Fold(key, [last], n, end) == OldParent(f, key);
    assert PathNodes(key, [last], n, end) == {OldParent(f, key)};
    FoldAppend(key, Walked(f), [last], 0, end);
    assert Has(last, last.key);
    assert Has(OldParent(f, key), last.key);
    if x != OldParent(f, key) {
      PathNodesHave(key, Walked(f), 0, OldParent(f, key), last.key, x);
    }
  }

  /** After a promotion all old path nodes stay in the store, out of reach; in a store without other garbage they are
      exactly what is left behind. */
  lemma PromotionLeavesPath(s: Storage, m: Entries, f: FindResult, key: U256)
    requires Represents(s, m) && FindAgrees(f, s.root, m, key, 0) && f.found && Promotes(f)
    ensures var s', path := AfterDelete(s, f, key), PathNodes(key, f.siblings, 0, End(f, key));
            && s.root in path && path <= s'.nodes.Keys && path !! Reach(s'.root)
            && (NoGarbage(s) ==> s'.nodes.Keys == Reach(s'.root) + path)
  {
    var s', leaf := AfterDelete(s, f, key), End(f, key);
    var path, root' := PathNodes(key, f.siblings, 0, leaf), Without(key, f.siblings, 0);
    OldParentOnPath(f, key);
    FoldReach(key, f.siblings, 0, leaf);
    WithoutReach(key, f.siblings, 0);
    DeleteCanonical(key, f.foundValue, f.siblings, 0, m);
    forall x | x in path ensures x !in Removed(f, key) && x !in Reach(root') && x != Zero {
      OldPathNotRemoved(f, m, key, x);
      if x in Reach(root') { ReachKeys(root', m - {key}, 0, x); }
    }
    forall x | x in Reach(root') ensures x !in Removed(f, key) && x != Zero {
      LiveLackKey(s, m, f, key, x);
      if x in Removed(f, key) { RemovedHaveKey(f, key, x); }
    }
    assert s'.nodes.Keys == (s.nodes.Keys - Removed(f, key)) + WithoutNodes(key, f.siblings, 0);
  }

  lemma {:induction false} SiblingKeyDiffers(
    key: U256, v: U256, above: seq<Digest>, level: nat, last: Digest, m: Entries)
    requires last.LeafH?
    requires IsCanonical(Fold(key, above, level, Combine(Bit(key, level + |above|), LeafH(key, v), last)), m, level)
    ensures last.key != key
    decreases |above|
  {
    if above != [] {
      SiblingKeyDiffers(key, v, above[1..], level + 1, last, Side(m, level, Bit(key, level)));
    } else {
      var b := Bit(key, level);
      CanonicalHas(last, Side(m, level, !b), level + 1, last.key);
      assert last.key in Side(m, level, !b);
    }
  }

  /** A deletion does on the store what removing the key does on the map and fails exactly when the key is
      absent; starting from a store without garbage it leaves some exactly when a leaf is promoted. */
  lemma DeleteRefinesMap(s: Storage, m: Entries, key: U256)
    requires Represents(s, m)
    ensures var (s', r) := DeleteStep(s, key);
            && (r.Done? <==> key in m)
            && (!r.Done? ==> r == Failed(KeyNotFound) && s' == s)
            && (r.Done? ==> Represents(s', m - {key}))
            && (r.Done? && NoGarbage(s) ==> (NoGarbage(s') <==> !Promotes(Find(s, key).value)))
  {
    FindAgreesWithLookup(s, m, key);
    var f := Find(s, key).value;
    if f.found {
      if f.siblings != [] { SiblingStored(s, m, f, key); }
      DeleteCanonical(key, f.foundValue, f.siblings, 0, m);
      DeletedNodes(s, m, f, key);
      if Promotes(f) { PromotionLeavesPath(s, m, f, key); }
    }
  }

  /** The deleted leaf's sibling is found in the store. */
  lemma SiblingStored(s: Storage, m: Entries, f: FindResult, key: U256)
    requires Represents(s, m) && FindAgrees(f, s.root, m, key, 0) && f.found && f.siblings != []
    ensures var last := f.siblings[|f.siblings| - 1];
            var rest := s.nodes - {End(f, key)};
            last in rest && rest[last] == Content(last)
  {
    var last := f.siblings[|f.siblings| - 1];
    var above := f.siblings[..|f.siblings| - 1];
    assert f.siblings == above + [last];
    assert SibReach([last]) == Reach(last) + SibReach([last][1..]);
    assert last in SibReach([last]);
    FoldAppend(key, above, [last], 0, End(f, key));
    FoldReach(key, f.siblings, 0, End(f, key));
    LiveLackKey(s, m, f, key, last);
  }

  // ---------------------------------------------------------------- non-membership proofs

  /** A claimed path from `end` to the root; `end` is empty or a leaf of another key. */
  ghost predicate Excludes(key: U256, sibs: seq<Digest>, end: Digest, root: Digest, level: nat) {
    Fold(key, sibs, level, end) == root && !end.NodeH? && !Has(end, key)
  }

  /** Soundness for arbitrary claimed siblings: such a path exists only for absent keys. */
  lemma {:induction false} ExclusionSound(
    key: U256, sibs: seq<Digest>, end: Digest, root: Digest, level: nat, m: Entries)
    requires IsCanonical(root, m, level) && Excludes(key, sibs, end, root, level)
    ensures key !in m
    decreases |sibs|
  {
    if sibs == [] {
      CanonicalHas(root, m, level, key);
    } else {
      var b := Bit(key, level);
      ExclusionSound(key, sibs[1..], end, Fold(key, sibs[1..], level + 1, end), level + 1, Side(m, level, b));
      assert key in m <==> key in Side(m, level, b);
    }
  }

  /** Completeness of the folding: every absent key has such a path, the one `find_key` returns. */
  lemma ExclusionComplete(s: Storage, m: Entries, key: U256)
    requires Represents(s, m) && key !in m
    ensures Find(s, key).Done? && var f := Find(s, key).value; Excludes(key, f.siblings, End(f, key), s.root, 0)
  {
    FindAgreesWithLookup(s, m, key);
  }

  function VerifyStep(s: Storage, key: U256, siblings: seq<Digest>, notFoundKey: U256, notFoundValue: U256)
    : Outcome<bool, Error>
  {
    var r := Find(s, key);
    if !r.Done? then r.Propagate()
    else if r.value.found then Done(false)
    else if r.value.siblings != siblings || r.value.notFoundKey != notFoundKey || r.value.notFoundValue != notFoundValue
    then Failed(InvalidProof)
    else
      var end := if notFoundKey != key && notFoundValue != 0 then LeafH(notFoundKey, notFoundValue) else Zero;
      if Fold(key, siblings, 0, end) == s.root then Done(true) else Failed(InvalidProof)
  }

  /** The search for `key` stops at a stored leaf of value zero. */
  predicate StopsAtZeroValue(f: FindResult) {
    !f.isOld0 && f.notFoundValue == 0
  }

  /** Exactly which calls are answered with yes, no and an error. */
  lemma VerifyExact(
    s: Storage, m: Entries, key: U256, siblings: seq<Digest>, notFoundKey: U256, notFoundValue: U256)
    requires Represents(s, m)
    ensures Find(s, key).Done?
    ensures var f := Find(s, key).value;
            var r := VerifyStep(s, key, siblings, notFoundKey, notFoundValue);
            && (r == Done(false) <==> key in m)
            && (r == Done(true) <==>
                  && key !in m && !StopsAtZeroValue(f)
                  && siblings == f.siblings && notFoundKey == f.notFoundKey && notFoundValue == f.notFoundValue)
            && (r.Done? || r == Failed(InvalidProof))
  {
    FindAgreesWithLookup(s, m, key);
    var f := Find(s, key).value;
    if !f.found && StopsAtZeroValue(f) && Fold(key, f.siblings, 0, Zero) == s.root {
      FoldInjective(key, f.siblings, 0, Zero, End(f, key));
    }
  }

  /** With no zero values stored, a key is absent exactly when some proof for it is accepted. */
  lemma VerifyDecidesAbsence(s: Storage, m: Entries, key: U256)
    requires Represents(s, m) && forall k :: k in m ==> m[k] != 0
    ensures key !in m <==> exists siblings, k, v :: VerifyStep(s, key, siblings, k, v) == Done(true)
  {
    FindAgreesWithLookup(s, m, key);
    var f := Find(s, key).value;
    VerifyExact(s, m, key, f.siblings, f.notFoundKey, f.notFoundValue);
    forall siblings, k, v | VerifyStep(s, key, siblings, k, v) == Done(true) ensures key !in m {
      VerifyExact(s, m, key, siblings, k, v);
    }
  }

  // ---------------------------------------------------------------- whole runs

  datatype Op = Insert(key: U256, value: U256) | Delete(key: U256)

  ghost function Step(s: Storage, op: Op): Storage {
    match op
    case Insert(k, v) => InsertStep(s, k, v).0
    case Delete(k) => DeleteStep(s, k).0
  }

  /** The storage after the constructor and the calls `ops`, successful or not. */
  ghost function Run(ops: seq<Op>): Storage {
    if ops == [] then Storage(map[], Zero) else Step(Run(ops[..|ops| - 1]), ops[|ops| - 1])
  }

  /** What the same calls do to a plain map. */
  ghost function MapRun(ops: seq<Op>): Entries {
    if ops == [] then map[]
    else
      var m := MapRun(ops[..|ops| - 1]);
      match ops[|ops| - 1]
      case Insert(k, v) => if Insertable(m, k, v) then m[k := v] else m
      case Delete(k) => m - {k}
  }

  /** Every reachable storage represents the map that the same calls build. */
  lemma {:induction false} RunRepresents(ops: seq<Op>)
    ensures Represents(Run(ops), MapRun(ops))
  {
    if ops != [] {
      var before := ops[..|ops| - 1];
      RunRepresents(before);
      match ops[|ops| - 1]
      case Insert(k, v) => InsertRefinesMap(Run(before), MapRun(before), k, v);
      case Delete(k) =>
        DeleteRefinesMap(Run(before), MapRun(before), k);
        assert k !in MapRun(before) ==> MapRun(before) - {k} == MapRun(before);
    }
  }

  /** The stored root is the canonical tree of the resulting map. */
  lemma RunRootCanonical(ops: seq<Op>)
    ensures Run(ops).root == Canonical(MapRun(ops), 0)
  {
    RunRepresents(ops);
    CanonicalIsCanonical(MapRun(ops), 0, 0);
    CanonicalUnique(Run(ops).root, Canonical(MapRun(ops), 0), MapRun(ops), 0);
  }

  /** Roots forget history and nothing else: two runs end in one root exactly when they build one map. */
  lemma HistoryIndependent(ops: seq<Op>, ops': seq<Op>)
    ensures Run(ops).root == Run(ops').root <==> MapRun(ops) == MapRun(ops')
  {
    RunRepresents(ops);
    RunRepresents(ops');
    if MapRun(ops) == MapRun(ops') {
      CanonicalUnique(Run(ops).root, Run(ops').root, MapRun(ops), 0);
    }
    if Run(ops).root == Run(ops').root {
      CanonicalInjective(Run(ops).root, MapRun(ops), MapRun(ops'), 0);
    }
  }

  /** Deleting what was just inserted restores the root. */
  lemma DeleteUndoesInsert(ops: seq<Op>, key: U256, value: U256)
    requires Insertable(MapRun(ops), key, value)
    ensures Run(ops + [Insert(key, value)] + [Delete(key)]).root == Run(ops).root
  {
    var ops1 := ops + [Insert(key, value)];
    var ops2 := ops1 + [Delete(key)];
    assert ops1[..|ops1| - 1] == ops && ops2[..|ops2| - 1] == ops1;
    assert MapRun(ops2) == MapRun(ops);
    HistoryIndependent(ops2, ops);
  }

  /** With a zero value stored absence cannot be proved: after inserting `1 -> 0` key 2 is absent, and no proof for it
      is accepted. */
  lemma ZeroValueHidesAbsence(siblings: seq<Digest>, k: U256, v: U256)
    ensures MapRun([Insert(1, 0)]) == map[1 := 0]
    ensures VerifyStep(Run([Insert(1, 0)]), 2, siblings, k, v) == Failed(InvalidProof)
  {
    var ops, m: Entries := [Insert(1, 0)], map[1 := 0];
    assert ops[..0] == [] && MapRun([]) == map[];
    assert MapRun(ops) == m;
    RunRepresents(ops);
    var s := Run(ops);
    FindAgreesWithLookup(s, m, 2);
    var l := LeafH(1, 0);
    CanonicalUnique(s.root, l, m, 0);
    VerifyExact(s, m, 2, siblings, k, v);
  }

  /** Insert-only runs store the live nodes and nothing else. */
  lemma {:induction false} InsertOnlyNoGarbage(ops: seq<Op>)
    requires forall i :: 0 <= i < |ops| ==> ops[i].Insert?
    ensures NoGarbage(Run(ops))
  {
    if ops != [] {
      var before, op := ops[..|ops| - 1], ops[|ops| - 1];
      InsertOnlyNoGarbage(before);
      RunRepresents(before);
      InsertRefinesMap(Run(before), MapRun(before), op.key, op.value);
    }
  }

  /** Garbage is reachable: keys 0 and 1 are siblings below the root, so deleting one promotes the other and leaves the
      old root in the store. */
  lemma PromotionExample()
    ensures var ops, root := [Insert(0, 1), Insert(1, 1)], NodeH(LeafH(0, 1), LeafH(1, 1));
            && NoGarbage(Run(ops)) && Run(ops).root == root
            && Run(ops + [Delete(0)]).root == LeafH(1, 1)
            && Run(ops + [Delete(0)]).nodes.Keys == {LeafH(1, 1), root}
  {
    var ops := [Insert(0, 1), Insert(1, 1)];
    TwoInserted();
    RunRepresents(ops);
    InsertOnlyNoGarbage(ops);
    TwoLeaves(Run(ops));
    assert (ops + [Delete(0)])[..2] == ops;
  }

  /** Deleting key 0 from the tree of the entries `0 -> 1` and `1 -> 1`. */
  lemma TwoLeaves(s: Storage)
    requires Represents(s, map[0 := 1, 1 := 1]) && NoGarbage(s)
    ensures s.root == NodeH(LeafH(0, 1), LeafH(1, 1))
    ensures var s' := DeleteStep(s, 0).0; s'.root == LeafH(1, 1) && s'.nodes.Keys == {LeafH(1, 1), s.root}
  {
    var m: Entries := map[0 := 1, 1 := 1];
    PairApart(1, 1, 0, 1, 0);
    assert Many(m) by { assert 0 in m && 1 in m; }
    CanonicalUnique(s.root, NodeH(LeafH(0, 1), LeafH(1, 1)), m, 0);
    FindAgreesWithLookup(s, m, 0);
    var f := Find(s, 0).value;
    FoundBelowRoot(f, 0);
    DeleteRefinesMap(s, m, 0);
    PromotionLeavesPath(s, m, f, 0);
    OneLeftOver(f, 0);
  }

  lemma OneLeftOver(f: FindResult, key: U256)
    requires f.siblings == [LeafH(1, 1)] && End(f, key) == LeafH(0, 1) && key == 0
    ensures PathNodes(key, f.siblings, 0, End(f, key)) == {NodeH(LeafH(0, 1), LeafH(1, 1))}
    ensures Without(key, f.siblings, 0) == LeafH(1, 1)
  {
    assert f.siblings[1..] == [] && !Bit(key, 0);
    assert Fold(key, f.siblings[1..], 1, End(f, key)) == LeafH(0, 1);
    assert PathNodes(key, f.siblings[1..], 1, End(f, key)) == {};
    assert Without(key, f.siblings[1..], 1) == Zero;
  }

  lemma TwoInserted()
    ensures MapRun([Insert(0, 1), Insert(1, 1)]) == map[0 := 1, 1 := 1]
  {
    var ops := [Insert(0, 1), Insert(1, 1)];
    assert ops[..1] == [Insert(0, 1)] && ops[..1][..0] == [];
    assert MapRun([]) == map[];
    assert MapRun(ops[..1]) == map[0 := 1];
  }

  /** In a tree of two leaves the siblings of one are the other. */
  lemma FoundBelowRoot(f: FindResult, key: U256)
    requires key == 0 && f.found && !f.isOld0
    requires Fold(key, f.siblings, 0, End(f, key)) == NodeH(LeafH(0, 1), LeafH(1, 1))
    ensures f.siblings == [LeafH(1, 1)] && End(f, key) == LeafH(0, 1)
  {
    assert !Bit(key, 0);
    if f.siblings != [] {
      assert f.siblings[1..] == [];
    }
  }

  /** Keys 0 and 2 share bit 0, which is clear, and differ in bit 1: they hang together on the left of an otherwise
      empty root. */
  lemma SharedBitExample()
    ensures Run([Insert(0, 1), Insert(2, 1)]).root == NodeH(NodeH(LeafH(0, 1), LeafH(2, 1)), Zero)
  {
    var ops, m: Entries := [Insert(0, 1), Insert(2, 1)], map[0 := 1, 2 := 1];
    assert ops[..1] == [Insert(0, 1)] && ops[..1][..0] == [] && MapRun([]) == map[];
    assert MapRun(ops[..1]) == map[0 := 1];
    assert MapRun(ops) == m;
    RunRepresents(ops);
    assert !Bit(0, 0) && !Bit(2, 0) && !Bit(0, 1) && Bit(2, 1);
    PairTogether(2, 1, 0, 1, 0);
    PairApart(2, 1, 0, 1, 1);
    assert Many(m) by { assert 0 in m && 2 in m; }
    CanonicalUnique(Run(ops).root, NodeH(NodeH(LeafH(0, 1), LeafH(2, 1)), Zero), m, 0);
  }
}

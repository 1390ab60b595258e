/** The sparse Merkle tree as a value: symbolic digests, the canonical tree of a key-to-value map,
    and the path folding that the contract's loops perform.

    A digest is the term that was hashed, so distinct terms are distinct digests, leaf and inner
    hashes are separated, and no hash is zero. */
module SparseTree {
  import opened Bits

  datatype Digest = Zero | LeafH(key: U256, value: U256) | NodeH(left: Digest, right: Digest)

  type Entries = map<U256, U256>

  // ---------------------------------------------------------------- canonical trees

  /** The entries whose key has bit `level` equal to `b`. */
  function Side(m: Entries, level: nat, b: bool): Entries {
    map k | k in m && Bit(k, level) == b :: m[k]
  }

  ghost predicate Many(m: Entries) {
    exists k, k' :: k in m && k' in m && k != k'
  }

  /** `d` is the one tree that stands for `m` below level `level`: nothing is zero, one entry is its
      leaf, and more entries split on the next key bit. */
  ghost predicate IsCanonical(d: Digest, m: Entries, level: nat)
    decreases d
  {
    match d
    case Zero => m == map[]
    case LeafH(k, v) => m == map[k := v]
    case NodeH(l, r) =>
      level < KEY_BITS && Many(m) &&
      IsCanonical(l, Side(m, level, false), level + 1) &&
      IsCanonical(r, Side(m, level, true), level + 1)
  }

  /** All keys of `m` agree with `key` on the bits above `level`. */
  ghost predicate OnPath(m: Entries, key: U256, level: nat) {
    forall k :: k in m ==> SameBits(k, key, level)
  }

  lemma SideOnPath(m: Entries, key: U256, level: nat)
    requires OnPath(m, key, level)
    ensures OnPath(Side(m, level, Bit(key, level)), key, level + 1)
  {
  }

  lemma SidesCover(m: Entries, m': Entries, level: nat)
    requires Side(m, level, false) == Side(m', level, false)
    requires Side(m, level, true) == Side(m', level, true)
    ensures m == m'
  {
    forall k ensures k in m <==> k in m' {
      assert k in m <==> k in Side(m, level, Bit(k, level));
      assert k in m' <==> k in Side(m', level, Bit(k, level));
    }
    forall k | k in m ensures m[k] == m'[k] {
      assert m[k] == Side(m, level, Bit(k, level))[k];
      assert m'[k] == Side(m', level, Bit(k, level))[k];
    }
  }

  lemma CanonicalShape(d: Digest, m: Entries, level: nat)
    requires IsCanonical(d, m, level)
    ensures d.Zero? <==> m == map[]
    ensures d.NodeH? <==> Many(m)
    ensures d.LeafH? ==> d.key in m && m[d.key] == d.value
  {
    match d
    case Zero =>
    case LeafH(k, _) => assert k in m;
    case NodeH(_, _) =>
  }

  /** A map has at most one canonical tree ... */
  lemma {:induction false} CanonicalUnique(d: Digest, d': Digest, m: Entries, level: nat)
    requires IsCanonical(d, m, level) && IsCanonical(d', m, level)
    ensures d == d'
    decreases d
  {
    CanonicalShape(d, m, level);
    CanonicalShape(d', m, level);
    if d.NodeH? {
      CanonicalUnique(d.left, d'.left, Side(m, level, false), level + 1);
      CanonicalUnique(d.right, d'.right, Side(m, level, true), level + 1);
    }
  }

  /** ... and a tree stands for at most one map. */
  lemma {:induction false} CanonicalInjective(d: Digest, m: Entries, m': Entries, level: nat)
    requires IsCanonical(d, m, level) && IsCanonical(d, m', level)
    ensures m == m'
    decreases d
  {
    match d
    case Zero =>
    case LeafH(_, _) =>
    case NodeH(l, r) =>
      CanonicalInjective(l, Side(m, level, false), Side(m', level, false), level + 1);
      CanonicalInjective(r, Side(m, level, true), Side(m', level, true), level + 1);
      SidesCover(m, m', level);
  }

  /** The canonical tree, built from the map alone. */
  ghost function Canonical(m: Entries, level: nat): Digest
    decreases KEY_BITS - level
  {
    if m == map[] then Zero
    else if !Many(m) then var k :| k in m; LeafH(k, m[k])
    else if level >= KEY_BITS then Zero
    else NodeH(Canonical(Side(m, level, false), level + 1), Canonical(Side(m, level, true), level + 1))
  }

  /** `Canonical` builds a canonical tree for every set of keys that agree above `level`; at level 0
      that is every map. */
  lemma {:induction false} CanonicalIsCanonical(m: Entries, key: U256, level: nat)
    requires level <= KEY_BITS && OnPath(m, key, level)
    ensures IsCanonical(Canonical(m, level), m, level)
    decreases KEY_BITS - level
  {
    if m == map[] {
    } else if !Many(m) {
      var k :| k in m;
      assert forall k' :: k' in m ==> k' == k;
      assert m == map[k := m[k]];
      var d := Canonical(m, level);
      assert d.LeafH? && d.key in m;
    } else {
      var k, k' :| k in m && k' in m && k != k';
      if level == KEY_BITS {
        assert SameBits(k, key, level) && SameBits(k', key, level);
        KeysDiffer(k, k');
        assert false;
      } else {
        forall b: bool ensures IsCanonical(Canonical(Side(m, level, b), level + 1), Side(m, level, b), level + 1) {
          var s := Side(m, level, b);
          if s != map[] {
            var k0 :| k0 in s;
            SideSharesPath(m, key, level, b, k0);
            CanonicalIsCanonical(s, k0, level + 1);
          }
        }
      }
    }
  }

  lemma SideSharesPath(m: Entries, key: U256, level: nat, b: bool, k0: U256)
    requires OnPath(m, key, level) && k0 in Side(m, level, b)
    ensures OnPath(Side(m, level, b), k0, level + 1)
  {
    forall k | k in Side(m, level, b) ensures SameBits(k, k0, level + 1) {
      assert SameBits(k, key, level) && SameBits(k0, key, level);
    }
  }

  // ---------------------------------------------------------------- keys and nodes inside a digest

  ghost predicate Has(d: Digest, k: U256) {
    match d
    case Zero => false
    case LeafH(k', _) => k == k'
    case NodeH(l, r) => Has(l, k) || Has(r, k)
  }

  ghost function Size(d: Digest): nat {
    match d
    case Zero => 0
    case LeafH(_, _) => 1
    case NodeH(l, r) => 1 + Size(l) + Size(r)
  }

  /** The non-zero digests reachable from `d`. */
  ghost function Reach(d: Digest): set<Digest> {
    match d
    case Zero => {}
    case LeafH(_, _) => {d}
    case NodeH(l, r) => {d} + Reach(l) + Reach(r)
  }

  lemma {:induction false} CanonicalHas(d: Digest, m: Entries, level: nat, k: U256)
    requires IsCanonical(d, m, level)
    ensures Has(d, k) <==> k in m
    decreases d
  {
    match d
    case Zero =>
    case LeafH(_, _) =>
    case NodeH(l, r) =>
      CanonicalHas(l, Side(m, level, false), level + 1, k);
      CanonicalHas(r, Side(m, level, true), level + 1, k);
      assert k in m <==> k in Side(m, level, Bit(k, level));
  }

  /** A node inside a canonical tree holds at least one key, and only keys of that tree. */
  lemma {:induction false} ReachKeys(d: Digest, m: Entries, level: nat, x: Digest)
    requires IsCanonical(d, m, level) && x in Reach(d)
    ensures exists k :: Has(x, k) && k in m
    ensures forall k :: Has(x, k) ==> k in m
    decreases d
  {
    match d
    case LeafH(k, _) =>
      assert Has(x, k);
    case NodeH(l, r) =>
      forall k ensures Has(d, k) <==> k in m { CanonicalHas(d, m, level, k); }
      if x == d {
        var k, k' :| k in m && k' in m && k != k';
        assert Has(x, k);
      } else if x in Reach(l) {
        ReachKeys(l, Side(m, level, false), level + 1, x);
      } else {
        ReachKeys(r, Side(m, level, true), level + 1, x);
      }
  }

  lemma {:induction false} ReachSize(d: Digest, x: Digest)
    requires x in Reach(d)
    ensures 1 <= Size(x) <= Size(d)
    ensures forall k :: Has(x, k) ==> Has(d, k)
    ensures Reach(x) <= Reach(d)
    decreases d
  {
    match d
    case LeafH(_, _) =>
    case NodeH(l, r) =>
      if x == d {
      } else if x in Reach(l) {
        ReachSize(l, x);
      } else {
        ReachSize(r, x);
      }
  }

  // ---------------------------------------------------------------- folding along a key's path

  function Combine(bit: bool, child: Digest, sibling: Digest): Digest {
    if bit then NodeH(sibling, child) else NodeH(child, sibling)
  }

  /** The digest at `level` obtained by hashing `d` upwards with `sibs`, listed from the top down. */
  function Fold(key: U256, sibs: seq<Digest>, level: nat, d: Digest): Digest
    decreases |sibs|
  {
    if sibs == [] then d
    else Combine(Bit(key, level), Fold(key, sibs[1..], level + 1, d), sibs[0])
  }

  /** The inner nodes on the folded path. */
  ghost function PathNodes(key: U256, sibs: seq<Digest>, level: nat, d: Digest): set<Digest>
    decreases |sibs|
  {
    if sibs == [] then {}
    else {Fold(key, sibs, level, d)} + PathNodes(key, sibs[1..], level + 1, d)
  }

  ghost function SibReach(sibs: seq<Digest>): set<Digest>
    decreases |sibs|
  {
    if sibs == [] then {} else Reach(sibs[0]) + SibReach(sibs[1..])
  }

  lemma {:induction false} FoldReach(key: U256, sibs: seq<Digest>, level: nat, d: Digest)
    ensures Reach(Fold(key, sibs, level, d)) == PathNodes(key, sibs, level, d) + Reach(d) + SibReach(sibs)
    decreases |sibs|
  {
    if sibs != [] {
      FoldReach(key, sibs[1..], level + 1, d);
    }
  }

  lemma {:induction false} PathNodesHave(key: U256, sibs: seq<Digest>, level: nat, d: Digest, k: U256, x: Digest)
    requires x in PathNodes(key, sibs, level, d)
    ensures Has(d, k) ==> Has(x, k)
    ensures Has(x, k) ==> Has(Fold(key, sibs, level, d), k)
    ensures x.NodeH?
    decreases |sibs|
  {
    if x == Fold(key, sibs, level, d) {
      if Has(d, k) { FoldHas(key, sibs, level, d, k); }
    } else {
      PathNodesHave(key, sibs[1..], level + 1, d, k, x);
    }
  }

  lemma {:induction false} FoldHas(key: U256, sibs: seq<Digest>, level: nat, d: Digest, k: U256)
    requires Has(d, k)
    ensures Has(Fold(key, sibs, level, d), k)
    decreases |sibs|
  {
    if sibs != [] { FoldHas(key, sibs[1..], level + 1, d, k); }
  }

  lemma {:induction false} SibReachSmaller(key: U256, sibs: seq<Digest>, level: nat, d: Digest, x: Digest)
    requires x in SibReach(sibs)
    ensures Size(x) < Size(Fold(key, sibs, level, d))
    decreases |sibs|
  {
    if x in Reach(sibs[0]) {
      ReachSize(sibs[0], x);
    } else {
      SibReachSmaller(key, sibs[1..], level + 1, d, x);
    }
  }

  lemma {:induction false} FoldAppend(key: U256, s: seq<Digest>, t: seq<Digest>, level: nat, d: Digest)
    ensures Fold(key, s + t, level, d) == Fold(key, s, level, Fold(key, t, level + |s|, d))
    ensures PathNodes(key, s + t, level, d)
         == PathNodes(key, s, level, Fold(key, t, level + |s|, d)) + PathNodes(key, t, level + |s|, d)
    ensures SibReach(s + t) == SibReach(s) + SibReach(t)
    decreases |s|
  {
    if s == [] {
      assert s + t == t;
    } else {
      assert (s + t)[1..] == s[1..] + t;
      FoldAppend(key, s[1..], t, level + 1, d);
    }
  }

  /** Folding is injective in what is folded. */
  lemma {:induction false} FoldInjective(key: U256, sibs: seq<Digest>, level: nat, d: Digest, d': Digest)
    requires Fold(key, sibs, level, d) == Fold(key, sibs, level, d')
    ensures d == d'
    decreases |sibs|
  {
    if sibs != [] { FoldInjective(key, sibs[1..], level + 1, d, d'); }
  }

  // ---------------------------------------------------------------- insertion keeps trees canonical

  /** Sibling list that separates a new key from `leaf` after `n` further shared bits. */
  function Separator(n: nat, leaf: Digest): seq<Digest> {
    seq(n, _ => Zero) + [leaf]
  }

  /** Splitting one leaf into two: shared bits become nodes with an empty sibling. */
  lemma {:induction false} SplitCanonical(key: U256, value: U256, k: U256, v: U256, n: nat, level: nat)
    requires k != key && level + n < KEY_BITS
    requires forall i :: level <= i < level + n ==> Bit(k, i) == Bit(key, i)
    requires Bit(k, level + n) != Bit(key, level + n)
    ensures IsCanonical(Fold(key, Separator(n, LeafH(k, v)), level, LeafH(key, value)),
                        map[k := v, key := value], level)
    decreases n
  {
    var sep := Separator(n, LeafH(k, v));
    var m: Entries := map[k := v, key := value];
    assert Many(m) by { assert k in m && key in m; }
    if n == 0 {
      assert sep == [LeafH(k, v)] && sep[1..] == [];
      PairApart(key, value, k, v, level);
    } else {
      assert sep[1..] == Separator(n - 1, LeafH(k, v));
      SplitCanonical(key, value, k, v, n - 1, level + 1);
      PairTogether(key, value, k, v, level);
    }
  }

  /** Two entries that differ in bit `level` lie on different sides. */
  lemma PairApart(key: U256, value: U256, k: U256, v: U256, level: nat)
    requires Bit(k, level) != Bit(key, level)
    ensures Side(map[k := v, key := value], level, Bit(key, level)) == map[key := value]
    ensures Side(map[k := v, key := value], level, Bit(k, level)) == map[k := v]
  {
  }

  /** Two entries that agree in bit `level` lie on the same side. */
  lemma PairTogether(key: U256, value: U256, k: U256, v: U256, level: nat)
    requires Bit(k, level) == Bit(key, level)
    ensures Side(map[k := v, key := value], level, Bit(key, level)) == map[k := v, key := value]
    ensures Side(map[k := v, key := value], level, !Bit(key, level)) == map[]
  {
  }

  /** What the insertion loop hangs below the path that `find` returned. */
  ghost predicate Grafts(graft: Digest, end: Digest, key: U256, value: U256, level: nat) {
    match end
    case Zero => graft == LeafH(key, value)
    case LeafH(k, v) =>
      k != key && IsCanonical(graft, map[k := v, key := value], level)
    case NodeH(_, _) => false
  }

  lemma {:induction false} InsertCanonical(
    key: U256, value: U256, sibs: seq<Digest>, level: nat, end: Digest, graft: Digest, m: Entries)
    requires IsCanonical(Fold(key, sibs, level, end), m, level) && key !in m
    requires Grafts(graft, end, key, value, level + |sibs|)
    ensures IsCanonical(Fold(key, sibs, level, graft), m[key := value], level)
    decreases |sibs|
  {
    var m' := m[key := value];
    if sibs == [] {
      match end
      case Zero => assert m' == map[key := value];
      case LeafH(k, v) => assert m' == map[k := v, key := value];
    } else {
      var b := Bit(key, level);
      assert Side(m', level, b) == Side(m, level, b)[key := value];
      assert Side(m', level, !b) == Side(m, level, !b);
      InsertCanonical(key, value, sibs[1..], level + 1, end, graft, Side(m, level, b));
      var k, k' :| k in m && k' in m && k != k';
      assert k in m' && k' in m';
    }
  }

  // ---------------------------------------------------------------- deletion keeps trees canonical

  /** Hang `child` and `sibling` under one parent, dropping the parent when it would hold one leaf. */
  function Join(bit: bool, child: Digest, sibling: Digest): Digest {
    if child.Zero? && sibling.LeafH? then sibling
    else if sibling.Zero? && !child.NodeH? then child
    else Combine(bit, child, sibling)
  }

  /** The tree that remains when the leaf at the end of the path is taken away. */
  function Without(key: U256, sibs: seq<Digest>, level: nat): Digest
    decreases |sibs|
  {
    if sibs == [] then Zero
    else Join(Bit(key, level), Without(key, sibs[1..], level + 1), sibs[0])
  }

  /** The inner nodes of `Without` that lie on the path. */
  ghost function WithoutNodes(key: U256, sibs: seq<Digest>, level: nat): set<Digest>
    decreases |sibs|
  {
    if sibs == [] then {}
    else
      var d := Without(key, sibs, level);
      (if d.NodeH? then {d} else {}) + WithoutNodes(key, sibs[1..], level + 1)
  }

  lemma {:induction false} DeleteCanonical(key: U256, v: U256, sibs: seq<Digest>, level: nat, m: Entries)
    requires IsCanonical(Fold(key, sibs, level, LeafH(key, v)), m, level)
    ensures key in m && m[key] == v
    ensures IsCanonical(Without(key, sibs, level), m - {key}, level)
    decreases |sibs|
  {
    if sibs == [] {
      assert m - {key} == map[];
    } else {
      var b := Bit(key, level);
      var m' := m - {key};
      DeleteCanonical(key, v, sibs[1..], level + 1, Side(m, level, b));
      assert Side(m', level, b) == Side(m, level, b) - {key};
      assert Side(m', level, !b) == Side(m, level, !b);
      assert key in Side(m, level, b);
      JoinCanonical(b, Without(key, sibs[1..], level + 1), sibs[0], m', level);
    }
  }

  lemma JoinCanonical(b: bool, child: Digest, sibling: Digest, m: Entries, level: nat)
    requires level < KEY_BITS
    requires IsCanonical(child, Side(m, level, b), level + 1)
    requires IsCanonical(sibling, Side(m, level, !b), level + 1)
    ensures IsCanonical(Join(b, child, sibling), m, level)
  {
    var c, s := Side(m, level, b), Side(m, level, !b);
    assert forall k :: k in m <==> k in c || k in s by {
      assert forall k :: k in m ==> k in Side(m, level, Bit(k, level));
    }
    if child.Zero? && sibling.LeafH? {
      assert m == s;
    } else if sibling.Zero? && !child.NodeH? {
      assert m == c;
    } else if child.NodeH? {
      var k, k' :| k in c && k' in c && k != k';
      assert k in m && k' in m;
    } else if sibling.NodeH? {
      var k, k' :| k in s && k' in s && k != k';
      assert k in m && k' in m;
    } else {
      assert child.LeafH? && sibling.LeafH?;
      assert child.key in c && sibling.key in s;
      assert child.key in m && sibling.key in m;
    }
  }

  lemma {:induction false} WithoutReach(key: U256, sibs: seq<Digest>, level: nat)
    ensures Reach(Without(key, sibs, level)) == WithoutNodes(key, sibs, level) + SibReach(sibs)
    decreases |sibs|
  {
    if sibs != [] { WithoutReach(key, sibs[1..], level + 1); }
  }

  /** A key below the path is in none of the siblings above it. */
  lemma {:induction false} SiblingsLack(
    key: U256, sibs: seq<Digest>, level: nat, d: Digest, e: Digest, m: Entries, k: U256)
    requires IsCanonical(Fold(key, sibs, level, d), m, level) && Has(d, k) && !Has(e, k)
    ensures !Has(Fold(key, sibs, level, e), k)
    decreases |sibs|
  {
    if sibs != [] {
      var b := Bit(key, level);
      SiblingsLack(key, sibs[1..], level + 1, d, e, Side(m, level, b), k);
      FoldHas(key, sibs[1..], level + 1, d, k);
      CanonicalHas(Fold(key, sibs[1..], level + 1, d), Side(m, level, b), level + 1, k);
      CanonicalHas(sibs[0], Side(m, level, !b), level + 1, k);
    }
  }
}

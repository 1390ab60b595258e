/** The cheap linear layers of Poseidon2 against the dense matrices they stand for. */
module LinearLayers {
  import opened Fields
  import opened LinearAlgebra

  // ---------------------------------------------------------------- integer coefficients

  /** The field element `1 + ... + 1`. */
  function Nat<T(!new)>(f: Field<T>, k: nat): T {
    if k == 0 then f.zero else f.add(Nat(f, k - 1), f.one)
  }

  function NatRow<T(!new)>(f: Field<T>, ks: seq<nat>): (r: seq<T>)
    ensures |r| == |ks| && forall i :: 0 <= i < |ks| ==> r[i] == Nat(f, ks[i])
  {
    seq(|ks|, i requires 0 <= i < |ks| => Nat(f, ks[i]))
  }

  /** The combination of `x` with the integer coefficients `ks`. */
  function Comb<T(!new)>(f: Field<T>, ks: seq<nat>, x: seq<T>): T
    requires |ks| == |x|
  {
    Dot(f, NatRow(f, ks), x)
  }

  lemma {:induction false} NatAdd<T(!new)>(f: Field<T>, a: nat, b: nat)
    requires f.Lawful()
    ensures f.add(Nat(f, a), Nat(f, b)) == Nat(f, a + b)
    decreases b
  {
    if b == 0 {
      f.AddZero(Nat(f, a));
    } else {
      NatAdd(f, a, b - 1);
      assert f.AddAssociates(Nat(f, a), Nat(f, b - 1), f.one);
    }
  }

  lemma CombAdd<T(!new)>(f: Field<T>, ks: seq<nat>, ls: seq<nat>, ms: seq<nat>, x: seq<T>)
    requires f.Lawful() && |ks| == |ls| == |ms| == |x|
    requires forall i :: 0 <= i < |ms| ==> ms[i] == ks[i] + ls[i]
    ensures f.add(Comb(f, ks, x), Comb(f, ls, x)) == Comb(f, ms, x)
  {
    var sum := Axpy(f, f.one, NatRow(f, ls), NatRow(f, ks));
    forall i | 0 <= i < |ms| ensures sum[i] == NatRow(f, ms)[i] {
      f.MulOne(Nat(f, ls[i]));
      NatAdd(f, ks[i], ls[i]);
    }
    assert sum == NatRow(f, ms);
    DotAxpy(f, f.one, NatRow(f, ls), NatRow(f, ks), x);
    f.MulOne(Comb(f, ls, x));
  }

  lemma CombUnit<T(!new)>(f: Field<T>, ks: seq<nat>, i: nat, x: seq<T>)
    requires f.Lawful() && |ks| == |x| && i < |x|
    requires forall k :: 0 <= k < |ks| ==> ks[k] == if k == i then 1 else 0
    ensures Comb(f, ks, x) == x[i]
  {
    f.AddZero(f.one);
    assert Nat(f, 1) == f.add(Nat(f, 0), f.one);
    assert NatRow(f, ks) == Unit(f, |x|, i);
    DotUnit(f, |x|, i, x);
  }

  // ---------------------------------------------------------------- the four by four block

  const M4: seq<seq<nat>> := [[5, 7, 1, 3], [4, 6, 1, 1], [1, 3, 5, 7], [1, 1, 4, 6]]

  function Comb4<T(!new)>(f: Field<T>, x: seq<T>, a: nat, b: nat, c: nat, d: nat): T
    requires |x| == 4
  {
    Comb(f, [a, b, c, d], x)
  }

  lemma CombAdd4<T(!new)>(f: Field<T>, x: seq<T>, a: nat, b: nat, c: nat, d: nat, a': nat, b': nat, c': nat, d': nat)
    requires f.Lawful() && |x| == 4
    ensures f.add(Comb4(f, x, a, b, c, d), Comb4(f, x, a', b', c', d')) == Comb4(f, x, a + a', b + b', c + c', d + d')
  {
    CombAdd(f, [a, b, c, d], [a', b', c', d'], [a + a', b + b', c + c', d + d'], x);
  }

  lemma CombUnit4<T(!new)>(f: Field<T>, x: seq<T>)
    requires f.Lawful() && |x| == 4
    ensures Comb4(f, x, 1, 0, 0, 0) == x[0] && Comb4(f, x, 0, 1, 0, 0) == x[1]
    ensures Comb4(f, x, 0, 0, 1, 0) == x[2] && Comb4(f, x, 0, 0, 0, 1) == x[3]
  {
    CombUnit(f, [1, 0, 0, 0], 0, x);
    CombUnit(f, [0, 1, 0, 0], 1, x);
    CombUnit(f, [0, 0, 1, 0], 2, x);
    CombUnit(f, [0, 0, 0, 1], 3, x);
  }

  /** Double and add. */
  method DoubleAndAdd<T(!new)>(f: Field<T>, t: T, u: T, ghost x: seq<T>, ghost ks: seq<nat>, ghost twice: seq<nat>,
                               ghost ls: seq<nat>, ghost ms: seq<nat>)
    returns (r: T)
    requires f.Lawful() && |x| == |ks| == |twice| == |ls| == |ms|
    requires t == Comb(f, ks, x) && u == Comb(f, ls, x)
    requires forall i :: 0 <= i < |x| ==> twice[i] == 2 * ks[i]
    requires forall i :: 0 <= i < |x| ==> ms[i] == twice[i] + ls[i]
    ensures r == Comb(f, ms, x)
  {
    CombAdd(f, ks, ks, twice, x);
    CombAdd(f, twice, ls, ms, x);
    r := f.add(f.add(t, t), u);
  }

  method AddSums<T(!new)>(f: Field<T>, t: T, u: T, ghost x: seq<T>, ghost ks: seq<nat>, ghost ls: seq<nat>,
                          ghost ms: seq<nat>)
    returns (r: T)
    requires f.Lawful() && |x| == |ks| == |ls| == |ms|
    requires t == Comb(f, ks, x) && u == Comb(f, ls, x)
    requires forall i :: 0 <= i < |x| ==> ms[i] == ks[i] + ls[i]
    ensures r == Comb(f, ms, x)
  {
    CombAdd(f, ks, ls, ms, x);
    r := f.add(t, u);
  }

  /** The first half of the addition chain of a block. */
  method BlockSums<T(!new)>(f: Field<T>, x: seq<T>) returns (t0: T, t1: T, t2: T, t3: T)
    requires f.Lawful() && |x| == 4
    ensures t0 == Comb4(f, x, 1, 1, 0, 0) && t1 == Comb4(f, x, 0, 0, 1, 1)
    ensures t2 == Comb4(f, x, 0, 2, 1, 1) && t3 == Comb4(f, x, 1, 1, 0, 2)
  {
    CombUnit4(f, x);
    t0 := f.add(x[0], x[1]);
    CombAdd4(f, x, 1, 0, 0, 0, 0, 1, 0, 0);
    t1 := f.add(x[2], x[3]);
    CombAdd4(f, x, 0, 0, 1, 0, 0, 0, 0, 1);
    t2 := DoubleAndAdd(f, x[1], t1, x, [0, 1, 0, 0], [0, 2, 0, 0], [0, 0, 1, 1], [0, 2, 1, 1]);
    t3 := DoubleAndAdd(f, x[3], t0, x, [0, 0, 0, 1], [0, 0, 0, 2], [1, 1, 0, 0], [1, 1, 0, 2]);
  }

  /** The middle of the addition chain of a block. */
  method BlockMiddle<T(!new)>(f: Field<T>, x: seq<T>) returns (t2: T, t3: T, t4: T, t5: T)
    requires f.Lawful() && |x| == 4
    ensures t2 == Comb4(f, x, 0, 2, 1, 1) && t3 == Comb4(f, x, 1, 1, 0, 2)
    ensures t4 == Comb4(f, x, 1, 1, 4, 6) && t5 == Comb4(f, x, 4, 6, 1, 1)
  {
    var t0, t1;
    t0, t1, t2, t3 := BlockSums(f, x);
    t4 := f.add(t1, t1);
    CombAdd4(f, x, 0, 0, 1, 1, 0, 0, 1, 1);
    t4 := DoubleAndAdd(f, t4, t3, x, [0, 0, 2, 2], [0, 0, 4, 4], [1, 1, 0, 2], [1, 1, 4, 6]);
    t5 := f.add(t0, t0);
    CombAdd4(f, x, 1, 1, 0, 0, 1, 1, 0, 0);
    t5 := DoubleAndAdd(f, t5, t2, x, [2, 2, 0, 0], [4, 4, 0, 0], [0, 2, 1, 1], [4, 6, 1, 1]);
  }

  /** The addition chain of one block. */
  method MatmulBlock<T(!new)>(f: Field<T>, x: seq<T>) returns (y0: T, y1: T, y2: T, y3: T)
    requires f.Lawful() && |x| == 4
    ensures y0 == Comb4(f, x, 5, 7, 1, 3) && y1 == Comb4(f, x, 4, 6, 1, 1)
    ensures y2 == Comb4(f, x, 1, 3, 5, 7) && y3 == Comb4(f, x, 1, 1, 4, 6)
  {
    var t2, t3, t4, t5 := BlockMiddle(f, x);
    var t6 := AddSums(f, t3, t5, x, [1, 1, 0, 2], [4, 6, 1, 1], [5, 7, 1, 3]);
    var t7 := AddSums(f, t2, t4, x, [0, 2, 1, 1], [1, 1, 4, 6], [1, 3, 5, 7]);
    return t6, t5, t7, t4;
  }

  /** The block that entry `i` belongs to. */
  function BlockOf<T>(x: seq<T>, i: nat): (b: seq<T>)
    requires i < |x| && |x| % 4 == 0
    ensures |b| == 4
  {
    x[4 * (i / 4)..4 * (i / 4) + 4]
  }

  function Blocks<T(!new)>(f: Field<T>, x: seq<T>): (y: seq<T>)
    requires |x| % 4 == 0
    ensures |y| == |x| && forall i :: 0 <= i < |x| ==> y[i] == Comb(f, M4[i % 4], BlockOf(x, i))
  {
    seq(|x|, i requires 0 <= i < |x| => Comb(f, M4[i % 4], BlockOf(x, i)))
  }

  lemma DivMod4(b: nat, l: nat)
    requires l < 4
    ensures (4 * b + l) / 4 == b && (4 * b + l) % 4 == l
  {
  }

  lemma BlocksAt<T(!new)>(f: Field<T>, x: seq<T>, b: nat, l: nat)
    requires |x| % 4 == 0 && 4 * b < |x| && l < 4
    ensures Blocks(f, x)[4 * b + l] == Comb(f, M4[l], x[4 * b..4 * b + 4])
  {
    DivMod4(b, l);
  }

  lemma BlockRows<T(!new)>(f: Field<T>, x: seq<T>, b: nat, z: seq<T>)
    requires |x| % 4 == 0 && 4 * b < |x| && z == x[4 * b..4 * b + 4]
    ensures Blocks(f, x)[4 * b] == Comb4(f, z, 5, 7, 1, 3) && Blocks(f, x)[4 * b + 1] == Comb4(f, z, 4, 6, 1, 1)
    ensures Blocks(f, x)[4 * b + 2] == Comb4(f, z, 1, 3, 5, 7) && Blocks(f, x)[4 * b + 3] == Comb4(f, z, 1, 1, 4, 6)
  {
    BlocksAt(f, x, b, 0);
    BlocksAt(f, x, b, 1);
    BlocksAt(f, x, b, 2);
    BlocksAt(f, x, b, 3);
  }

  lemma FourMore<T>(y: seq<T>, n: nat, a0: T, a1: T, a2: T, a3: T)
    requires n + 4 <= |y| && y[n] == a0 && y[n + 1] == a1 && y[n + 2] == a2 && y[n + 3] == a3
    ensures y[..n + 4] == y[..n] + [a0, a1, a2, a3]
  {
  }

  lemma BlocksPrefix<T(!new)>(f: Field<T>, x: seq<T>, b: nat)
    requires |x| % 4 == 0 && 4 * b < |x|
    ensures var y, z := Blocks(f, x), x[4 * b..4 * b + 4];
            y[..4 * b + 4] == y[..4 * b] + [Comb4(f, z, 5, 7, 1, 3), Comb4(f, z, 4, 6, 1, 1),
                                            Comb4(f, z, 1, 3, 5, 7), Comb4(f, z, 1, 1, 4, 6)]
  {
    var z := x[4 * b..4 * b + 4];
    BlockRows(f, x, b, z);
    FourMore(Blocks(f, x), 4 * b, Comb4(f, z, 5, 7, 1, 3), Comb4(f, z, 4, 6, 1, 1),
             Comb4(f, z, 1, 3, 5, 7), Comb4(f, z, 1, 1, 4, 6));
  }

  method WriteFour<T>(a: array<T>, s: nat, y0: T, y1: T, y2: T, y3: T)
    requires s + 4 <= a.Length
    modifies a
    ensures a[..] == old(a[..s]) + [y0, y1, y2, y3] + old(a[s + 4..])
  {
    a[s] := y0;
    a[s + 1] := y1;
    a[s + 2] := y2;
    a[s + 3] := y3;
  }

  /** Apply the block to every four entries, in place. */
  method MatmulM4<T(!new)>(f: Field<T>, a: array<T>)
    requires f.Lawful() && a.Length % 4 == 0
    modifies a
    ensures a[..] == Blocks(f, old(a[..]))
  {
    ghost var x := a[..];
    assert x[4 * 0..] == x;
    for i := 0 to a.Length / 4
      invariant a[..] == Blocks(f, x)[..4 * i] + x[4 * i..]
    {
      MatmulOne(f, a, i, x);
    }
  }

  method MatmulOne<T(!new)>(f: Field<T>, a: array<T>, i: nat, ghost x: seq<T>)
    requires f.Lawful() && |x| == a.Length && a.Length % 4 == 0 && 4 * i < a.Length
    requires a[..] == Blocks(f, x)[..4 * i] + x[4 * i..]
    modifies a
    ensures a[..] == Blocks(f, x)[..4 * i + 4] + x[4 * i + 4..]
  {
    var s := 4 * i;
    var block := a[s..s + 4];
    assert block == a[..][s..s + 4] == x[s..s + 4];
    assert a[..s] == a[..][..s] && a[s + 4..] == a[..][s + 4..] == x[s + 4..];
    BlocksPrefix(f, x, i);
    var y0, y1, y2, y3 := MatmulBlock(f, block);
    WriteFour(a, s, y0, y1, y2, y3);
  }

  // ---------------------------------------------------------------- the external layer

  predicate Supported(t: nat) {
    t == 2 || t == 3 || t == 4 || t == 8 || t == 12 || t == 16 || t == 20 || t == 24
  }

  /** Entry of the full matrix: circulants for two and three, the block for four, the block circulant above. */
  function FullEntry(t: nat, i: nat, j: nat): nat {
    if t <= 3 then if i == j then 2 else 1
    else if t == 4 then M4[i % 4][j % 4]
    else (if i / 4 == j / 4 then 2 else 1) * M4[i % 4][j % 4]
  }

  function FullRow(t: nat, i: nat): (ks: seq<nat>)
    ensures |ks| == t && forall j :: 0 <= j < t ==> ks[j] == FullEntry(t, i, j)
  {
    seq(t, j requires 0 <= j => FullEntry(t, i, j))
  }

  function FullMatrix<T(!new)>(f: Field<T>, t: nat): (m: Matrix<T>)
    ensures |m| == t && forall i :: 0 <= i < t ==> m[i] == NatRow(f, FullRow(t, i))
  {
    seq(t, i requires 0 <= i => NatRow(f, FullRow(t, i)))
  }

  /** The entries of the full matrix for each kind of width. */
  lemma FullMatrixEntries<T(!new)>(f: Field<T>, t: nat, i: nat, j: nat)
    requires i < t && j < t
    ensures var e := FullMatrix(f, t)[i][j];
            var m := [[5, 7, 1, 3], [4, 6, 1, 1], [1, 3, 5, 7], [1, 1, 4, 6]][i % 4][j % 4];
            && (t <= 3 ==> e == Nat(f, if i == j then 2 else 1))
            && (t == 4 ==> e == Nat(f, m))
            && (t > 4 ==> e == if i / 4 == j / 4 then Nat(f, 2 * m) else Nat(f, m))
  {
    assert |M4[i % 4]| == 4;
  }

  /** The sum over the first `k` blocks of the entries at offset `l`. */
  function BlockSum<T(!new)>(f: Field<T>, y: seq<T>, l: nat, k: nat): T
    requires l < 4 && 1 <= k && 4 * k <= |y|
  {
    if k == 1 then y[l] else f.add(BlockSum(f, y, l, k - 1), y[4 * (k - 1) + l])
  }

  lemma {:induction false} DotAppend<T(!new)>(f: Field<T>, u: seq<T>, u': seq<T>, v: seq<T>, v': seq<T>)
    requires f.Lawful() && |u| == |v| && |u'| == |v'|
    ensures Dot(f, u + u', v + v') == f.add(Dot(f, u, v), Dot(f, u', v'))
    decreases |u'|
  {
    var n := |u'| - 1;
    if n < 0 {
      assert u + u' == u && v + v' == v;
      f.AddZero(Dot(f, u, v));
    } else {
      DotAppend(f, u, u'[..n], v, v'[..n]);
      assert (u + u')[..|u| + n] == u + u'[..n] && (v + v')[..|v| + n] == v + v'[..n];
      assert f.AddAssociates(Dot(f, u, v), Dot(f, u'[..n], v'[..n]), f.mul(u'[n], v'[n]));
    }
  }

  /** Block `b` of row `4 q + l` is row `l` of the small matrix, doubled if `b` is `q`. */
  lemma RowSlice(t: nat, q: nat, l: nat, b: nat, j: nat)
    requires t % 4 == 0 && t > 4 && l < 4 && 4 * q + l < t && 4 * b < t && j < 4
    ensures FullRow(t, 4 * q + l)[4 * b..4 * b + 4][j] == if b == q then 2 * M4[l][j] else M4[l][j]
  {
    DivMod4(b, j);
    DivMod4(q, l);
  }

  /** A combination splits into its first entries and the next four. */
  lemma CombSplit<T(!new)>(f: Field<T>, ks: seq<nat>, x: seq<T>, c: nat)
    requires f.Lawful() && c + 4 <= |ks| == |x|
    ensures Comb(f, ks[..c + 4], x[..c + 4]) == f.add(Comb(f, ks[..c], x[..c]), Comb(f, ks[c..c + 4], x[c..c + 4]))
  {
    assert NatRow(f, ks[..c + 4]) == NatRow(f, ks[..c]) + NatRow(f, ks[c..c + 4]);
    assert x[..c + 4] == x[..c] + x[c..c + 4];
    DotAppend(f, NatRow(f, ks[..c]), NatRow(f, ks[c..c + 4]), x[..c], x[c..c + 4]);
  }

  /** Adding one more block to a sum that holds one entry twice from block `q` on. */
  lemma PrefixAlgebra<T(!new)>(f: Field<T>, q: nat, b: nat, s: T, y: T, z: T)
    requires f.Lawful() && (q == b ==> z == y)
    ensures f.add(if q < b then f.add(s, y) else s, if b == q then f.add(z, z) else z)
         == if q < b + 1 then f.add(f.add(s, z), y) else f.add(s, z)
  {
    SwapLast(f, s, y, z);
    assert f.AddAssociates(s, z, z);
  }

  /** The part of a combination that block `b` contributes. */
  function BlockComb<T(!new)>(f: Field<T>, ks: seq<nat>, x: seq<T>, b: nat): T
    requires |ks| == |x| && 4 * b + 4 <= |x|
  {
    Comb(f, ks[4 * b..4 * b + 4], x[4 * b..4 * b + 4])
  }

  /** Block `b` of the coefficients contributes entry `l` of that block's output, twice if `b` is `q`. */
  ghost predicate BlockValue<T(!new)>(f: Field<T>, ks: seq<nat>, x: seq<T>, y: seq<T>, q: nat, l: nat, b: nat)
    requires |ks| == |x| == |y| && 4 * b + 4 <= |x| && l < 4
  {
    var z := y[4 * b + l];
    BlockComb(f, ks, x, b) == if b == q then f.add(z, z) else z
  }

  /** The blocks of a full row contribute that way. */
  lemma RowBlock<T(!new)>(f: Field<T>, x: seq<T>, q: nat, l: nat, b: nat)
    requires f.Lawful() && |x| % 4 == 0 && |x| > 4 && l < 4 && 4 * q + l < |x| && 4 * b < |x|
    ensures BlockValue(f, FullRow(|x|, 4 * q + l), x, Blocks(f, x), q, l, b)
  {
    BlocksAt(f, x, b, l);
    RowSlices(|x|, q, l, b);
    BlockValueFrom(f, FullRow(|x|, 4 * q + l), x, Blocks(f, x), q, l, b);
  }

  lemma BlockValueFrom<T(!new)>(f: Field<T>, ks: seq<nat>, x: seq<T>, y: seq<T>, q: nat, l: nat, b: nat)
    requires f.Lawful() && |ks| == |x| == |y| && 4 * b + 4 <= |x| && l < 4
    requires OnceOrTwice(ks[4 * b..4 * b + 4], l, b == q) && y[4 * b + l] == Comb(f, M4[l], x[4 * b..4 * b + 4])
    ensures BlockValue(f, ks, x, y, q, l, b)
  {
    CombOnceOrTwice(f, ks[4 * b..4 * b + 4], x[4 * b..4 * b + 4], l, b == q);
  }

  /** Row `l` of the block, doubled if `twice`. */
  predicate OnceOrTwice(ks: seq<nat>, l: nat, twice: bool)
    requires l < 4
  {
    |ks| == 4 && forall j :: 0 <= j < 4 ==> ks[j] == if twice then M4[l][j] + M4[l][j] else M4[l][j]
  }

  lemma RowSlices(t: nat, q: nat, l: nat, b: nat)
    requires t % 4 == 0 && t > 4 && l < 4 && 4 * q + l < t && 4 * b < t
    ensures OnceOrTwice(FullRow(t, 4 * q + l)[4 * b..4 * b + 4], l, b == q)
  {
    var ks := FullRow(t, 4 * q + l)[4 * b..4 * b + 4];
    forall j | 0 <= j < 4 ensures ks[j] == if b == q then M4[l][j] + M4[l][j] else M4[l][j] {
      RowSlice(t, q, l, b, j);
    }
  }

  lemma CombOnceOrTwice<T(!new)>(f: Field<T>, ks: seq<nat>, z: seq<T>, l: nat, twice: bool)
    requires f.Lawful() && |z| == 4 && l < 4 && OnceOrTwice(ks, l, twice)
    ensures var c := Comb(f, M4[l], z); Comb(f, ks, z) == if twice then f.add(c, c) else c
  {
    if twice {
      CombAdd(f, M4[l], M4[l], ks, z);
    } else {
      assert ks == M4[l];
    }
  }

  /** The sum of the first `k` entries. */
  function PrefixSum<T(!new)>(f: Field<T>, x: seq<T>, k: nat): T
    requires 1 <= k <= |x|
  {
    if k == 1 then x[0] else f.add(PrefixSum(f, x, k - 1), x[k - 1])
  }

  /** What the first `k` blocks contribute to a combination. */
  function Contributions<T(!new)>(f: Field<T>, ks: seq<nat>, x: seq<T>, k: nat): (bs: seq<T>)
    requires |ks| == |x| && 4 * k <= |x|
    ensures |bs| == k && forall c :: 0 <= c < k ==> bs[c] == BlockComb(f, ks, x, c)
  {
    seq(k, c requires 0 <= c < k => BlockComb(f, ks, x, c))
  }

  /** The entries at offset `l` of the first `k` blocks. */
  function AtOffset<T>(y: seq<T>, l: nat, k: nat): (zs: seq<T>)
    requires l < 4 && 4 * k <= |y|
    ensures |zs| == k && forall c :: 0 <= c < k ==> zs[c] == y[4 * c + l]
  {
    seq(k, c requires 0 <= c < k => y[4 * c + l])
  }

  /** A combination summed block by block. */
  function SumOfBlocks<T(!new)>(f: Field<T>, ks: seq<nat>, x: seq<T>, b: nat): T
    requires |ks| == |x| && 4 * b <= |x|
  {
    if b == 0 then f.zero else f.add(SumOfBlocks(f, ks, x, b - 1), BlockComb(f, ks, x, b - 1))
  }

  lemma {:induction false} CombByBlocks<T(!new)>(f: Field<T>, ks: seq<nat>, x: seq<T>, b: nat)
    requires f.Lawful() && |ks| == |x| && 4 * b <= |x|
    ensures Comb(f, ks[..4 * b], x[..4 * b]) == SumOfBlocks(f, ks, x, b)
  {
    if b > 0 {
      CombByBlocks(f, ks, x, b - 1);
      CombSplit(f, ks, x, 4 * (b - 1));
    }
  }

  lemma {:induction false} SumOfBlocksIsPrefixSum<T(!new)>(f: Field<T>, ks: seq<nat>, x: seq<T>, k: nat, b: nat)
    requires f.Lawful() && |ks| == |x| && 1 <= b <= k && 4 * k <= |x|
    ensures SumOfBlocks(f, ks, x, b) == PrefixSum(f, Contributions(f, ks, x, k), b)
    decreases b
  {
    if b > 1 {
      SumOfBlocksIsPrefixSum(f, ks, x, k, b - 1);
    } else {
      assert SumOfBlocks(f, ks, x, 0) == f.zero;
      f.AddZero(BlockComb(f, ks, x, 0));
    }
  }

  lemma {:induction false} BlockSumIsPrefixSum<T(!new)>(f: Field<T>, y: seq<T>, l: nat, k: nat, b: nat)
    requires l < 4 && 1 <= b <= k && 4 * k <= |y|
    ensures BlockSum(f, y, l, b) == PrefixSum(f, AtOffset(y, l, k), b)
    decreases b
  {
    if b > 1 { BlockSumIsPrefixSum(f, y, l, k, b - 1); }
  }

  /** `bs` is `zs` with entry `q` doubled. */
  ghost predicate OneDoubled<T(!new)>(f: Field<T>, bs: seq<T>, zs: seq<T>, q: nat) {
    q < |bs| == |zs| && forall c :: 0 <= c < |bs| ==> bs[c] == if c == q then f.add(zs[c], zs[c]) else zs[c]
  }

  /** Doubling one entry adds it once more to every sum that reaches it. */
  lemma {:induction false} SumOneDoubled<T(!new)>(f: Field<T>, bs: seq<T>, zs: seq<T>, q: nat, b: nat)
    requires f.Lawful() && OneDoubled(f, bs, zs, q) && 1 <= b <= |bs|
    ensures PrefixSum(f, bs, b) == if q < b then f.add(PrefixSum(f, zs, b), zs[q]) else PrefixSum(f, zs, b)
    decreases b
  {
    if b > 1 {
      SumOneDoubled(f, bs, zs, q, b - 1);
      PrefixAlgebra(f, q, b - 1, PrefixSum(f, zs, b - 1), zs[q], zs[b - 1]);
    }
  }

  lemma SwapLast<T(!new)>(f: Field<T>, a: T, b: T, c: T)
    requires f.Lawful()
    ensures f.add(f.add(a, b), c) == f.add(f.add(a, c), b)
  {
    assert f.AddAssociates(a, b, c) && f.AddCommutes(b, c) && f.AddAssociates(a, c, b);
  }

  /** Adding the block sums to the block outputs is multiplication by the block circulant. */
  lemma FullRowDot<T(!new)>(f: Field<T>, x: seq<T>, q: nat, l: nat)
    requires f.Lawful() && |x| % 4 == 0 && |x| > 4 && l < 4 && 4 * q + l < |x|
    ensures var y := Blocks(f, x);
            f.add(y[4 * q + l], BlockSum(f, y, l, |x| / 4)) == Dot(f, FullMatrix(f, |x|)[4 * q + l], x)
  {
    var y, ks, k := Blocks(f, x), FullRow(|x|, 4 * q + l), |x| / 4;
    forall b | 0 <= b < k ensures BlockValue(f, ks, x, y, q, l, b) {
      RowBlock(f, x, q, l, b);
    }
    SumOfContributions(f, ks, x, y, q, l, k);
    CombByBlocks(f, ks, x, k);
    SumOfBlocksIsPrefixSum(f, ks, x, k, k);
    assert ks[..4 * k] == ks && x[..4 * k] == x;
  }

  lemma SumOfContributions<T(!new)>(f: Field<T>, ks: seq<nat>, x: seq<T>, y: seq<T>, q: nat, l: nat, k: nat)
    requires f.Lawful() && |ks| == |x| == |y| && q < k && 4 * k <= |x| && l < 4
    requires forall c :: 0 <= c < k ==> BlockValue(f, ks, x, y, q, l, c)
    ensures PrefixSum(f, Contributions(f, ks, x, k), k) == f.add(y[4 * q + l], BlockSum(f, y, l, k))
  {
    var bs, zs := Contributions(f, ks, x, k), AtOffset(y, l, k);
    forall c | 0 <= c < k ensures bs[c] == if c == q then f.add(zs[c], zs[c]) else zs[c] {
      assert BlockValue(f, ks, x, y, q, l, c);
    }
    SumOneDoubled(f, bs, zs, q, k);
    BlockSumIsPrefixSum(f, y, l, k, k);
    assert f.AddCommutes(y[4 * q + l], BlockSum(f, y, l, k));
  }

  /** The external layer in place; other widths panic. */
  method MatmulExternal<T(!new)>(f: Field<T>, a: array<T>) returns (ok: bool)
    requires f.Lawful()
    modifies a
    ensures ok <==> a.Length in {2, 3, 4, 8, 12, 16, 20, 24}
    ensures ok ==> a[..] == MatVec(f, FullMatrix(f, a.Length), old(a[..]))
  {
    ghost var x := a[..];
    if a.Length == 2 {
      SmallRows2(f, x);
      var sum := f.add(a[0], a[1]);
      a[0] := f.add(a[0], sum);
      a[1] := f.add(a[1], sum);
      assert a[..] == MatVec(f, FullMatrix(f, 2), x);
      return true;
    }
    if a.Length == 3 {
      SmallRows3(f, x);
      var sum := f.add(f.add(a[0], a[1]), a[2]);
      a[0] := f.add(a[0], sum);
      a[1] := f.add(a[1], sum);
      a[2] := f.add(a[2], sum);
      assert a[..] == MatVec(f, FullMatrix(f, 3), x);
      return true;
    }
    if !Supported(a.Length) { return false; }
    MatmulM4(f, a);
    if a.Length == 4 {
      forall i | 0 <= i < 4 ensures a[i] == MatVec(f, FullMatrix(f, 4), x)[i] {
        SingleBlock(f, x, i);
      }
      return true;
    }
    AddBlockSums(f, a);
    forall i | 0 <= i < a.Length ensures a[i] == MatVec(f, FullMatrix(f, a.Length), x)[i] {
      FullRowDot(f, x, i / 4, i % 4);
      assert i == 4 * (i / 4) + i % 4;
    }
    return true;
  }

  lemma SingleBlock<T(!new)>(f: Field<T>, x: seq<T>, i: nat)
    requires |x| == 4 && i < 4
    ensures Blocks(f, x)[i] == Dot(f, FullMatrix(f, 4)[i], x)
  {
    BlocksAt(f, x, 0, i);
    assert x[4 * 0..4 * 0 + 4] == x;
    SmallRow4(i);
  }

  lemma SmallRow4(i: nat)
    requires i < 4
    ensures FullRow(4, i) == M4[i]
  {
    assert |M4[i]| == 4;
  }

  lemma SmallRows2<T(!new)>(f: Field<T>, x: seq<T>)
    requires f.Lawful() && |x| == 2
    ensures var sum := f.add(x[0], x[1]);
            && f.add(x[0], sum) == Comb(f, [2, 1], x) && f.add(x[1], sum) == Comb(f, [1, 2], x)
            && f.add(f.add(x[1], x[1]), sum) == Comb(f, [1, 3], x)
    ensures FullRow(2, 0) == [2, 1] && FullRow(2, 1) == [1, 2]
  {
    CombUnit(f, [1, 0], 0, x);
    CombUnit(f, [0, 1], 1, x);
    CombAdd(f, [1, 0], [0, 1], [1, 1], x);
    CombAdd(f, [1, 0], [1, 1], [2, 1], x);
    CombAdd(f, [0, 1], [1, 1], [1, 2], x);
    CombAdd(f, [0, 1], [0, 1], [0, 2], x);
    CombAdd(f, [0, 2], [1, 1], [1, 3], x);
  }

  lemma SmallRows3<T(!new)>(f: Field<T>, x: seq<T>)
    requires f.Lawful() && |x| == 3
    ensures var sum := f.add(f.add(x[0], x[1]), x[2]);
            && f.add(x[0], sum) == Comb(f, [2, 1, 1], x) && f.add(x[1], sum) == Comb(f, [1, 2, 1], x)
            && f.add(x[2], sum) == Comb(f, [1, 1, 2], x)
            && f.add(f.add(x[2], x[2]), sum) == Comb(f, [1, 1, 3], x)
    ensures FullRow(3, 0) == [2, 1, 1] && FullRow(3, 1) == [1, 2, 1] && FullRow(3, 2) == [1, 1, 2]
  {
    CombUnit(f, [1, 0, 0], 0, x);
    CombUnit(f, [0, 1, 0], 1, x);
    CombUnit(f, [0, 0, 1], 2, x);
    CombAdd(f, [1, 0, 0], [0, 1, 0], [1, 1, 0], x);
    CombAdd(f, [1, 1, 0], [0, 0, 1], [1, 1, 1], x);
    CombAdd(f, [1, 0, 0], [1, 1, 1], [2, 1, 1], x);
    CombAdd(f, [0, 1, 0], [1, 1, 1], [1, 2, 1], x);
    CombAdd(f, [0, 0, 1], [1, 1, 1], [1, 1, 2], x);
    CombAdd(f, [0, 0, 1], [0, 0, 1], [0, 0, 2], x);
    CombAdd(f, [0, 0, 2], [1, 1, 1], [1, 1, 3], x);
  }

  /** Sum the entries of each offset over the blocks, then add the sums to the entries. */
  method AddBlockSums<T(!new)>(f: Field<T>, a: array<T>)
    requires a.Length % 4 == 0 && a.Length >= 4
    modifies a
    ensures forall i :: 0 <= i < a.Length ==>
      a[i] == f.add(old(a[i]), BlockSum(f, old(a[..]), i % 4, a.Length / 4))
  {
    ghost var y := a[..];
    var t4 := a.Length / 4;
    var stored := [];
    for l := 0 to 4
      invariant |stored| == l && forall k :: 0 <= k < l ==> stored[k] == BlockSum(f, y, k, t4)
    {
      var sum := a[l];
      for j := 1 to t4
        invariant sum == BlockSum(f, y, l, j)
      {
        sum := f.add(sum, a[4 * j + l]);
      }
      stored := stored + [sum];
    }
    for i := 0 to a.Length
      invariant forall k :: 0 <= k < i ==> a[k] == f.add(y[k], stored[k % 4])
      invariant forall k :: i <= k < a.Length ==> a[k] == y[k]
    {
      a[i] := f.add(a[i], stored[i % 4]);
    }
  }

  // ---------------------------------------------------------------- the internal layer

  function OnesPlusDiagonal<T(!new)>(f: Field<T>, diag: seq<T>): (m: Matrix<T>)
    ensures |m| == |diag|
    ensures forall i :: 0 <= i < |m| ==> m[i] == Axpy(f, diag[i], Unit(f, |diag|, i), Ones(f, |diag|))
  {
    seq(|diag|, i requires 0 <= i < |diag| => Axpy(f, diag[i], Unit(f, |diag|, i), Ones(f, |diag|)))
  }

  lemma OnesPlusDiagonalEntries<T(!new)>(f: Field<T>, diag: seq<T>, i: nat, j: nat)
    requires f.Lawful() && i < |diag| && j < |diag|
    ensures OnesPlusDiagonal(f, diag)[i][j] == if i == j then f.add(f.one, diag[i]) else f.one
  {
    f.MulOne(diag[i]);
    f.MulZero(diag[i]);
    f.AddZero(f.one);
  }

  function Ones<T(!new)>(f: Field<T>, n: nat): (r: seq<T>)
    ensures |r| == n && forall i :: 0 <= i < n ==> r[i] == f.one
  {
    seq(n, _ => f.one)
  }

  /** The matrix the internal layer applies: fixed for two and three, where the diagonal is not read; ones plus the
      first `t` entries of the diagonal above. */
  function InternalMatrix<T(!new)>(f: Field<T>, t: nat, diag: seq<T>): (m: Matrix<T>)
    requires Diagonal(t, diag)
  {
    if t == 2 then [NatRow(f, [2, 1]), NatRow(f, [1, 3])]
    else if t == 3 then [NatRow(f, [2, 1, 1]), NatRow(f, [1, 2, 1]), NatRow(f, [1, 1, 3])]
    else OnesPlusDiagonal(f, diag[..t])
  }

  /** The diagonal is long enough where it is read. */
  predicate Diagonal<T>(t: nat, diag: seq<T>) {
    t == 2 || t == 3 || |diag| >= t
  }

  lemma InternalShape<T(!new)>(f: Field<T>, t: nat, diag: seq<T>)
    requires Diagonal(t, diag)
    ensures IsMatrix(InternalMatrix(f, t, diag), t, t)
  {
  }

  /** For two and three the fixed matrix is ones plus the diagonal (1, 2) and (1, 1, 2). */
  lemma InternalIsOnesPlusDiagonal<T(!new)>(f: Field<T>, diag: seq<T>)
    requires f.Lawful()
    requires |diag| == 2 ==> diag == NatRow(f, [1, 2])
    requires |diag| == 3 ==> diag == NatRow(f, [1, 1, 2])
    ensures InternalMatrix(f, |diag|, diag) == OnesPlusDiagonal(f, diag)
  {
    var t, m := |diag|, OnesPlusDiagonal(f, diag);
    assert diag[..t] == diag;
    if t == 2 || t == 3 {
      f.AddZero(f.one);
      assert Nat(f, 1) == f.one;
      forall i, j | 0 <= i < t && 0 <= j < t
        ensures m[i][j] == if i != j then Nat(f, 1) else f.add(Nat(f, 1), diag[i])
      {
        f.MulOne(diag[i]);
        f.MulZero(diag[i]);
      }
      NatAdd(f, 1, 1);
      NatAdd(f, 1, 2);
      assert forall i :: 0 <= i < t ==> m[i] == InternalMatrix(f, t, diag)[i];
    }
  }

  lemma {:induction false} DotOnes<T(!new)>(f: Field<T>, x: seq<T>, k: nat)
    requires f.Lawful() && 1 <= k <= |x|
    ensures Dot(f, Ones(f, k), x[..k]) == PrefixSum(f, x, k)
    decreases k
  {
    f.MulOne(x[k - 1]);
    assert Ones(f, k)[..k - 1] == Ones(f, k - 1) && x[..k][..k - 1] == x[..k - 1];
    if k == 1 {
      f.AddZero(x[0]);
    } else {
      DotOnes(f, x, k - 1);
    }
  }

  /** Adding the sum of all entries to the scaled entry is multiplication by ones plus the diagonal. */
  lemma InternalRowDot<T(!new)>(f: Field<T>, diag: seq<T>, x: seq<T>, i: nat)
    requires f.Lawful() && |diag| == |x| && i < |x|
    ensures f.add(f.mul(x[i], diag[i]), PrefixSum(f, x, |x|)) == Dot(f, OnesPlusDiagonal(f, diag)[i], x)
  {
    var n := |x|;
    DotAxpy(f, diag[i], Unit(f, n, i), Ones(f, n), x);
    DotUnit(f, n, i, x);
    DotOnes(f, x, n);
    assert x[..n] == x;
    assert f.MulCommutes(x[i], diag[i]);
    assert f.AddCommutes(f.mul(x[i], diag[i]), PrefixSum(f, x, n));
  }

  /** The internal layer in place; other widths panic, and so does a diagonal that is too short where it is read. */
  method MatmulInternal<T(!new)>(f: Field<T>, a: array<T>, diag: seq<T>) returns (ok: bool)
    requires f.Lawful()
    modifies a
    ensures ok <==> a.Length in {2, 3, 4, 8, 12, 16, 20, 24} && (a.Length <= 3 || a.Length <= |diag|)
    ensures ok ==> IsMatrix(InternalMatrix(f, a.Length, diag), a.Length, a.Length)
    ensures ok ==> a[..] == MatVec(f, InternalMatrix(f, a.Length, diag), old(a[..]))
  {
    ghost var x := a[..];
    if a.Length == 2 {
      SmallRows2(f, x);
      var sum := f.add(a[0], a[1]);
      a[0] := f.add(a[0], sum);
      a[1] := f.add(f.add(a[1], a[1]), sum);
      assert a[..] == MatVec(f, InternalMatrix(f, 2, diag), x);
      return true;
    }
    if a.Length == 3 {
      SmallRows3(f, x);
      var sum := f.add(f.add(a[0], a[1]), a[2]);
      a[0] := f.add(a[0], sum);
      a[1] := f.add(a[1], sum);
      a[2] := f.add(f.add(a[2], a[2]), sum);
      assert a[..] == MatVec(f, InternalMatrix(f, 3, diag), x);
      return true;
    }
    if !Supported(a.Length) || |diag| < a.Length { return false; }
    AddSum(f, a, diag);
    return true;
  }

  /** Scale each entry by its diagonal entry and add the sum of all. */
  method AddSum<T(!new)>(f: Field<T>, a: array<T>, diag: seq<T>)
    requires f.Lawful() && 1 <= a.Length <= |diag|
    modifies a
    ensures a[..] == MatVec(f, OnesPlusDiagonal(f, diag[..a.Length]), old(a[..]))
  {
    ghost var x := a[..];
    var sum := a[0];
    for i := 1 to a.Length
      invariant a[..] == x && sum == PrefixSum(f, x, i)
    {
      sum := f.add(sum, a[i]);
    }
    for i := 0 to a.Length
      invariant forall k :: 0 <= k < i ==> a[k] == f.add(f.mul(x[k], diag[k]), sum)
      invariant forall k :: i <= k < a.Length ==> a[k] == x[k]
    {
      a[i] := f.add(f.mul(a[i], diag[i]), sum);
    }
    forall i | 0 <= i < a.Length ensures a[i] == Dot(f, OnesPlusDiagonal(f, diag[..a.Length])[i], x) {
      InternalRowDot(f, diag[..a.Length], x, i);
    }
  }
}

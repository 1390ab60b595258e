/** Moving the constants of the partial rounds through the inverse of the linear layer. */
module RoundConstants {
  import opened Fields
  import opened HostCalls
  import opened LinearAlgebra
  import opened MatInverse

  function VecAdd<T(!new)>(f: Field<T>, u: seq<T>, w: seq<T>): (r: seq<T>)
    requires |u| == |w|
    ensures |r| == |u| && forall i :: 0 <= i < |u| ==> r[i] == f.add(u[i], w[i])
  {
    seq(|u|, i requires 0 <= i < |u| => f.add(u[i], w[i]))
  }

  // ---------------------------------------------------------------- the two round functions

  /** The S-box of a partial round acts on the first component. */
  function SboxFirst<T>(sbox: T -> T, x: seq<T>): (r: seq<T>)
    requires |x| >= 1
    ensures |r| == |x|
  {
    x[0 := sbox(x[0])]
  }

  /** Partial rounds as specified: add all constants, S-box, linear layer. */
  function PartialRounds<T(!new)>(f: Field<T>, sbox: T -> T, mat: Matrix<T>, cs: Matrix<T>, x: seq<T>): seq<T>
    requires |x| == |mat| >= 1 && IsMatrix(mat, |mat|, |mat|) && IsMatrix(cs, |cs|, |mat|)
    decreases |cs|
  {
    if cs == [] then x
    else PartialRounds(f, sbox, mat, cs[1..], MatVec(f, mat, SboxFirst(sbox, VecAdd(f, x, cs[0]))))
  }

  /** Partial rounds with moved constants: S-box, add one constant to the first component, linear layer. */
  function MovedRounds<T(!new)>(f: Field<T>, sbox: T -> T, mat: Matrix<T>, ks: seq<T>, x: seq<T>): seq<T>
    requires |x| == |mat| >= 1 && IsMatrix(mat, |mat|, |mat|)
    decreases |ks|
  {
    if ks == [] then x
    else
      var y := SboxFirst(sbox, x);
      MovedRounds(f, sbox, mat, ks[1..], MatVec(f, mat, y[0 := f.add(y[0], ks[0])]))
  }

  /** One round as specified takes `x` to `mat * y`, where the constants are added and the first entry is boxed. */
  lemma OnePartialRound<T(!new)>(f: Field<T>, sbox: T -> T, mat: Matrix<T>, c: seq<T>, x: seq<T>, y: seq<T>)
    requires |x| == |mat| == |c| == |y| >= 1 && IsMatrix(mat, |mat|, |mat|)
    requires y[0] == sbox(f.add(x[0], c[0])) && forall i :: 1 <= i < |x| ==> y[i] == f.add(x[i], c[i])
    ensures PartialRounds(f, sbox, mat, [c], x) == MatVec(f, mat, y)
  {
    assert [c][1..] == [];
    assert SboxFirst(sbox, VecAdd(f, x, c)) == y;
  }

  /** One round with a moved constant adds it to the first entry, after the S-box. */
  lemma OneMovedRound<T(!new)>(f: Field<T>, sbox: T -> T, mat: Matrix<T>, k: T, x: seq<T>)
    requires |x| == |mat| >= 1 && IsMatrix(mat, |mat|, |mat|)
    ensures MovedRounds(f, sbox, mat, [k], x) == MatVec(f, mat, x[0 := f.add(sbox(x[0]), k)])
  {
    assert [k][1..] == [];
    var y := SboxFirst(sbox, x);
    assert y[0 := f.add(y[0], k)] == x[0 := f.add(sbox(x[0]), k)];
  }

  /** Rounds run in the order of their constants. */
  lemma {:induction false} PartialRoundsInOrder<T(!new)>(
    f: Field<T>, sbox: T -> T, mat: Matrix<T>, cs: Matrix<T>, ds: Matrix<T>, x: seq<T>)
    requires |x| == |mat| >= 1 && IsMatrix(mat, |mat|, |mat|)
    requires IsMatrix(cs, |cs|, |mat|) && IsMatrix(ds, |ds|, |mat|)
    ensures |PartialRounds(f, sbox, mat, cs, x)| == |mat|
    ensures PartialRounds(f, sbox, mat, cs + ds, x)
         == PartialRounds(f, sbox, mat, ds, PartialRounds(f, sbox, mat, cs, x))
    decreases |cs|
  {
    if cs == [] {
      assert cs + ds == ds;
    } else {
      assert (cs + ds)[1..] == cs[1..] + ds;
      PartialRoundsInOrder(f, sbox, mat, cs[1..], ds, MatVec(f, mat, SboxFirst(sbox, VecAdd(f, x, cs[0]))));
    }
  }

  lemma {:induction false} MovedRoundsInOrder<T(!new)>(
    f: Field<T>, sbox: T -> T, mat: Matrix<T>, ks: seq<T>, ls: seq<T>, x: seq<T>)
    requires |x| == |mat| >= 1 && IsMatrix(mat, |mat|, |mat|)
    ensures |MovedRounds(f, sbox, mat, ks, x)| == |mat|
    ensures MovedRounds(f, sbox, mat, ks + ls, x)
         == MovedRounds(f, sbox, mat, ls, MovedRounds(f, sbox, mat, ks, x))
    decreases |ks|
  {
    if ks == [] {
      assert ks + ls == ls;
    } else {
      var y := SboxFirst(sbox, x);
      assert (ks + ls)[1..] == ks[1..] + ls;
      MovedRoundsInOrder(f, sbox, mat, ks[1..], ls, MatVec(f, mat, y[0 := f.add(y[0], ks[0])]));
    }
  }

  // ---------------------------------------------------------------- the rewriting

  /** Add all components of `w` but the first. */
  function AddTail<T(!new)>(f: Field<T>, c: seq<T>, w: seq<T>): (r: seq<T>)
    requires |c| == |w|
    ensures |r| == |c| && forall i :: 0 <= i < |c| ==> r[i] == if i == 0 then c[0] else f.add(c[i], w[i])
  {
    seq(|c|, i requires 0 <= i < |c| => if i == 0 then c[0] else f.add(c[i], w[i]))
  }

  datatype Moved<T> = Moved(start: seq<T>, ks: seq<T>)

  /** The moved constants of the rounds `cs`: what is added at the start, and what after each S-box. */
  function Move<T(!new)>(f: Field<T>, inv: Matrix<T>, cs: Matrix<T>): (r: Moved<T>)
    requires |inv| >= 1 && IsMatrix(inv, |inv|, |inv|) && cs != [] && IsMatrix(cs, |cs|, |inv|)
    ensures |r.start| == |inv| && |r.ks| == |cs|
    decreases |cs|
  {
    if |cs| == 1 then Moved(cs[0], [f.zero])
    else
      var later := Move(f, inv, cs[1..]);
      var w := MatVec(f, inv, later.start);
      Moved(AddTail(f, cs[0], w), [w[0]] + later.ks)
  }

  // ---------------------------------------------------------------- why it preserves the rounds

  lemma MatVecAdd<T(!new)>(f: Field<T>, mat: Matrix<T>, a: seq<T>, b: seq<T>)
    requires f.Lawful() && |a| == |b| && IsMatrix(mat, |mat|, |a|)
    ensures MatVec(f, mat, VecAdd(f, a, b)) == VecAdd(f, MatVec(f, mat, a), MatVec(f, mat, b))
  {
    forall i | 0 <= i < |mat| ensures Dot(f, mat[i], VecAdd(f, a, b)) == f.add(Dot(f, mat[i], a), Dot(f, mat[i], b)) {
      forall k | 0 <= k < |a| ensures VecAdd(f, a, b)[k] == Axpy(f, f.one, b, a)[k] { f.MulOne(b[k]); }
      assert VecAdd(f, a, b) == Axpy(f, f.one, b, a);
      DotCommutes(f, mat[i], VecAdd(f, a, b));
      DotCommutes(f, mat[i], a);
      DotCommutes(f, mat[i], b);
      DotAxpy(f, f.one, b, a, mat[i]);
      f.MulOne(Dot(f, b, mat[i]));
    }
  }

  /** `mat * (inv * v) == v` for a right inverse. */
  lemma InverseCancels<T(!new)>(f: Field<T>, mat: Matrix<T>, inv: Matrix<T>, v: seq<T>)
    requires f.Lawful() && IsMatrix(inv, |inv|, |inv|) && LeftInverse(f, mat, inv) && |v| == |inv|
    ensures MatVec(f, mat, MatVec(f, inv, v)) == v
  {
    forall i | 0 <= i < |inv| ensures Dot(f, mat[i], MatVec(f, inv, v)) == v[i] {
      assert IsProduct(f, mat[i], inv, Unit(f, |inv|, i));
      assert VecMat(f, mat[i], inv, |inv|) == Unit(f, |inv|, i);
      DotAssociates(f, mat[i], inv, |inv|, v);
      DotUnit(f, |inv|, i, v);
    }
  }

  /** Constants beyond the first component pass through the S-box layer. */
  lemma TailPassesSbox<T(!new)>(f: Field<T>, sbox: T -> T, x: seq<T>, c: seq<T>, w: seq<T>)
    requires f.Lawful() && |x| == |c| == |w| >= 1
    ensures var y := SboxFirst(sbox, VecAdd(f, x, AddTail(f, c, w)));
            y[0 := f.add(y[0], w[0])] == VecAdd(f, SboxFirst(sbox, VecAdd(f, x, c)), w)
  {
    forall i | 1 <= i < |x| ensures f.add(x[i], f.add(c[i], w[i])) == f.add(f.add(x[i], c[i]), w[i]) {
      assert f.AddAssociates(x[i], c[i], w[i]);
    }
  }

  /** The rounds with moved constants compute what the rounds as specified compute, from every state, for every
      S-box, table of constants and matrix with a right inverse. */
  lemma {:induction false} MovePreservesRounds<T(!new)>(
    f: Field<T>, sbox: T -> T, mat: Matrix<T>, inv: Matrix<T>, cs: Matrix<T>, x: seq<T>)
    requires f.Lawful() && |inv| >= 1 && IsMatrix(inv, |inv|, |inv|) && LeftInverse(f, mat, inv)
    requires |x| == |inv| && cs != [] && IsMatrix(cs, |cs|, |inv|)
    ensures var r := Move(f, inv, cs);
            MovedRounds(f, sbox, mat, r.ks, VecAdd(f, x, r.start)) == PartialRounds(f, sbox, mat, cs, x)
    decreases |cs|
  {
    var r := Move(f, inv, cs);
    var s := SboxFirst(sbox, VecAdd(f, x, cs[0]));
    if |cs| == 1 {
      f.AddZero(s[0]);
      assert s[0 := f.add(s[0], f.zero)] == s;
      assert r.ks[1..] == [] && cs[1..] == [];
    } else {
      var later := Move(f, inv, cs[1..]);
      var w := MatVec(f, inv, later.start);
      TailPassesSbox(f, sbox, x, cs[0], w);
      MatVecAdd(f, mat, s, w);
      InverseCancels(f, mat, inv, later.start);
      assert r.ks[1..] == later.ks;
      MovePreservesRounds(f, sbox, mat, inv, cs[1..], MatVec(f, mat, s));
    }
  }

  // ---------------------------------------------------------------- the code

  method MatVecMul<T(!new)>(f: Field<T>, mat: Matrix<T>, input: seq<T>) returns (out: seq<T>)
    requires |mat| == |input| && IsMatrix(mat, |mat|, |mat|)
    ensures out == MatVec(f, mat, input)
  {
    out := Zeros(f, |mat|);
    for row := 0 to |mat|
      invariant |out| == |mat|
      invariant forall r :: 0 <= r < row ==> out[r] == Dot(f, mat[r], input)
      invariant forall r :: row <= r < |mat| ==> out[r] == f.zero
    {
      for col := 0 to |input|
        invariant |out| == |mat|
        invariant forall r :: 0 <= r < row ==> out[r] == Dot(f, mat[r], input)
        invariant out[row] == Dot(f, mat[row][..col], input[..col])
        invariant forall r :: row < r < |mat| ==> out[r] == f.zero
      {
        assert mat[row][..col + 1][..col] == mat[row][..col] && input[..col + 1][..col] == input[..col];
        out := out[row := f.add(out[row], f.mul(mat[row][col], input[col]))];
      }
      assert mat[row][..|input|] == mat[row] && input[..|input|] == input;
    }
  }

  /** The first components of the vectors added after the S-boxes. */
  function Firsts<T>(vs: seq<seq<T>>): seq<T>
    requires forall i :: 0 <= i < |vs| ==> |vs[i]| >= 1
  {
    seq(|vs|, i requires 0 <= i < |vs| => vs[i][0])
  }

  ghost predicate IsTable<T>(opt: seq<seq<T>>, rounds: nat, t: nat) {
    |opt| == rounds + 1 && |opt[0]| == t && forall i :: 1 <= i <= rounds ==> |opt[i]| >= 1
  }

  /** From `x`, the rounds with the constants `opt` end where the rounds with the constants `cs` end. */
  ghost predicate SameFrom<T(!new)>(
    f: Field<T>, mat: Matrix<T>, cs: Matrix<T>, opt: seq<seq<T>>, sbox: T -> T, x: seq<T>)
    requires |mat| >= 1 && IsMatrix(mat, |mat|, |mat|) && IsMatrix(cs, |cs|, |mat|)
    requires IsTable(opt, |cs|, |mat|) && |x| == |mat|
  {
    MovedRounds(f, sbox, mat, Firsts(opt[1..]), VecAdd(f, x, opt[0])) == PartialRounds(f, sbox, mat, cs, x)
  }

  /** The reverse loop over the rounds. */
  method MoveConstants<T(!new)>(f: Field<T>, inv: Matrix<T>, cs: Matrix<T>) returns (opt: seq<seq<T>>)
    requires |inv| >= 1 && IsMatrix(inv, |inv|, |inv|) && cs != [] && IsMatrix(cs, |cs|, |inv|)
    ensures IsTable(opt, |cs|, |inv|) && opt[|cs|] == Zeros(f, |inv|)
    ensures opt[0] == Move(f, inv, cs).start && Firsts(opt[1..]) == Move(f, inv, cs).ks
  {
    var n := |cs|;
    opt := seq(n + 1, _ => []);
    var tmp, i := cs[n - 1], n - 1;
    ghost var ks := Zeros(f, n);
    assert cs[i..] == [tmp] && ks[i..] == [f.zero];
    while i > 0
      invariant 0 <= i < n && |opt| == n + 1 && |ks| == n && ks[n - 1] == f.zero
      invariant Move(f, inv, cs[i..]) == Moved(tmp, ks[i..])
      invariant forall k :: i < k < n ==> opt[k] == [ks[k - 1]]
    {
      i := i - 1;
      ghost var later := ks;
      assert cs[i..][1..] == cs[i + 1..];
      var invCip := MatVecMul(f, inv, tmp);
      opt := opt[i + 1 := [invCip[0]]];
      tmp := AddConstants(f, cs[i], invCip);
      ks := ks[i := invCip[0]];
      assert ks[i..] == [invCip[0]] + later[i + 1..];
    }
    assert cs[0..] == cs && ks[0..] == ks;
    opt := Finish(f, opt, tmp, ks);
  }

  method Finish<T(!new)>(f: Field<T>, opt0: seq<seq<T>>, tmp: seq<T>, ghost ks: seq<T>) returns (opt: seq<seq<T>>)
    requires |opt0| >= 2 && |tmp| >= 1 && |ks| == |opt0| - 1 && ks[|ks| - 1] == f.zero
    requires forall k :: 0 < k < |ks| ==> opt0[k] == [ks[k - 1]]
    ensures IsTable(opt, |ks|, |tmp|) && opt[|ks|] == Zeros(f, |tmp|) && opt[0] == tmp && Firsts(opt[1..]) == ks
  {
    opt := opt0[0 := tmp];
    opt := opt[|opt0| - 1 := Zeros(f, |tmp|)];
    forall i | 0 <= i < |ks| ensures opt[1..][i][0] == ks[i] {
      assert opt[1..][i] == opt[i + 1];
    }
  }

  /** The rewritten constants: a full vector for the start, one constant after each S-box but the last, zeros last.
      It panics without rounds, when constants are missing, and when the matrix has no inverse by elimination. */
  method EquivalentRoundConstants<T(==, !new)>(
    f: Field<T>, debug: bool, roundConstants: Matrix<T>, mat: Matrix<T>, roundsFBeginning: nat, roundsP: nat)
    returns (r: Option<seq<seq<T>>>)
    requires f.Lawful() && |mat| >= 1 && IsMatrix(mat, |mat|, |mat|)
    requires IsMatrix(roundConstants, |roundConstants|, |mat|)
    ensures r.Some? <==>
      && roundsP >= 1 && roundsFBeginning + roundsP <= |roundConstants|
      && forall k :: 0 <= k <= |mat| ==> LeadingRegular(f, mat, k)
    ensures r.Some? ==>
      var cs := roundConstants[roundsFBeginning..roundsFBeginning + roundsP];
      && IsTable(r.value, roundsP, |mat|) && r.value[roundsP] == Zeros(f, |mat|)
      && forall sbox: T -> T, x: seq<T> :: |x| == |mat| ==> SameFrom(f, mat, cs, r.value, sbox, x)
  {
    if roundsP == 0 || roundsFBeginning + roundsP > |roundConstants| { return None; }
    var inverse := MatrixInverse(f, debug, mat);
    if inverse.None? { return None; }
    var cs := roundConstants[roundsFBeginning..roundsFBeginning + roundsP];
    var opt := MoveConstants(f, inverse.value, cs);
    forall sbox: T -> T, x: seq<T> | |x| == |mat| ensures SameFrom(f, mat, cs, opt, sbox, x) {
      MovePreservesRounds(f, sbox, mat, inverse.value, cs, x);
    }
    return Some(opt);
  }

  method AddConstants<T(!new)>(f: Field<T>, c: seq<T>, w: seq<T>) returns (tmp: seq<T>)
    requires |c| == |w| >= 1
    ensures tmp == AddTail(f, c, w)
  {
    tmp := c;
    for i := 1 to |w|
      invariant |tmp| == |c| && forall k :: 0 <= k < |c| ==> tmp[k] == if 1 <= k < i then f.add(c[k], w[k]) else c[k]
    {
      tmp := tmp[i := f.add(tmp[i], w[i])];
    }
  }
}

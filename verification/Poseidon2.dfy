/** The Poseidon2 permutation with its cheap layers, against the reference with dense matrices. */
module Poseidon2 {
  import opened Fields
  import opened HostCalls
  import opened LinearAlgebra
  import opened LinearLayers
  import opened RoundConstants

  // ---------------------------------------------------------------- the S-box

  function Power<T(!new)>(f: Field<T>, x: T, d: nat): T {
    if d == 0 then f.one else f.mul(Power(f, x, d - 1), x)
  }

  /** Squarings and multiplications for the degrees 3, 5 and 7; every other degree panics. */
  function SboxP<T(!new)>(f: Field<T>, d: nat, x: T): Option<T> {
    var x2 := f.mul(x, x);
    if d == 3 then Some(f.mul(x2, x))
    else if d == 5 then Some(f.mul(f.mul(x2, x2), x))
    else if d == 7 then Some(f.mul(f.mul(f.mul(x2, x2), x2), x))
    else None
  }

  predicate Degree(d: nat) {
    d == 3 || d == 5 || d == 7
  }

  lemma {:induction false} PowerAdd<T(!new)>(f: Field<T>, x: T, a: nat, b: nat)
    requires f.Lawful()
    ensures f.mul(Power(f, x, a), Power(f, x, b)) == Power(f, x, a + b)
    decreases b
  {
    if b == 0 {
      f.MulOne(Power(f, x, a));
    } else {
      PowerAdd(f, x, a, b - 1);
      assert f.MulAssociates(Power(f, x, a), Power(f, x, b - 1), x);
    }
  }

  lemma SboxIsPower<T(!new)>(f: Field<T>, d: nat, x: T)
    requires f.Lawful()
    ensures SboxP(f, d, x) == if Degree(d) then Some(Power(f, x, d)) else None
  {
    f.MulOne(x);
    assert Power(f, x, 1) == f.mul(Power(f, x, 0), x) == x;
    PowerAdd(f, x, 1, 1);
    PowerAdd(f, x, 2, 1);
    PowerAdd(f, x, 2, 2);
    PowerAdd(f, x, 4, 1);
    PowerAdd(f, x, 4, 2);
    PowerAdd(f, x, 6, 1);
  }

  /** The S-box is the plain product of three, five or seven factors, and there is none for another degree. */
  lemma SboxIsProduct<T(!new)>(f: Field<T>, d: nat, x: T)
    requires f.Lawful()
    ensures SboxP(f, d, x).Some? <==> d in {3, 5, 7}
    ensures var cube := f.mul(f.mul(x, x), x);
            var fifth := f.mul(f.mul(cube, x), x);
            && SboxP(f, 3, x) == Some(cube) && SboxP(f, 5, x) == Some(fifth)
            && SboxP(f, 7, x) == Some(f.mul(f.mul(fifth, x), x))
  {
    SboxIsPower(f, 3, x);
    SboxIsPower(f, 5, x);
    SboxIsPower(f, 7, x);
    PowerSteps(f, x);
  }

  lemma PowerSteps<T(!new)>(f: Field<T>, x: T)
    requires f.Lawful()
    ensures Power(f, x, 0) == f.one && Power(f, x, 1) == x
    ensures Power(f, x, 3) == f.mul(f.mul(x, x), x)
    ensures Power(f, x, 5) == f.mul(f.mul(Power(f, x, 3), x), x)
    ensures Power(f, x, 7) == f.mul(f.mul(Power(f, x, 5), x), x)
  {
    f.MulOne(x);
    assert Power(f, x, 1) == f.mul(Power(f, x, 0), x);
    assert Power(f, x, 2) == f.mul(Power(f, x, 1), x);
    assert Power(f, x, 4) == f.mul(Power(f, x, 3), x);
    assert Power(f, x, 6) == f.mul(Power(f, x, 5), x);
  }

  // ---------------------------------------------------------------- the reference

  function Powers<T(!new)>(f: Field<T>, d: nat, x: seq<T>): (r: seq<T>)
    ensures |r| == |x| && forall i :: 0 <= i < |x| ==> r[i] == Power(f, x[i], d)
  {
    seq(|x|, i requires 0 <= i < |x| => Power(f, x[i], d))
  }

  /** Full rounds: add the constants, S-box everywhere, dense matrix. */
  function FullRounds<T(!new)>(f: Field<T>, d: nat, mat: Matrix<T>, cs: Matrix<T>, x: seq<T>): (r: seq<T>)
    requires |x| == |mat| && IsMatrix(mat, |mat|, |mat|) && IsMatrix(cs, |cs|, |mat|)
    ensures |r| == |mat|
    decreases |cs|
  {
    if cs == [] then x
    else FullRounds(f, d, mat, cs[1..], MatVec(f, mat, Powers(f, d, VecAdd(f, x, cs[0]))))
  }

  /** One full round takes `x` to `mat * y`, where the constants are added and every entry is boxed. */
  lemma OneFullRound<T(!new)>(f: Field<T>, d: nat, mat: Matrix<T>, c: seq<T>, x: seq<T>, y: seq<T>)
    requires |x| == |mat| == |c| == |y| && IsMatrix(mat, |mat|, |mat|)
    requires forall i :: 0 <= i < |x| ==> y[i] == Power(f, f.add(x[i], c[i]), d)
    ensures FullRounds(f, d, mat, [c], x) == MatVec(f, mat, y)
  {
    assert [c][1..] == [];
    assert Powers(f, d, VecAdd(f, x, c)) == y;
  }

  /** Rounds run in the order of their constants. */
  lemma {:induction false} FullRoundsInOrder<T(!new)>(
    f: Field<T>, d: nat, mat: Matrix<T>, cs: Matrix<T>, ds: Matrix<T>, x: seq<T>)
    requires |x| == |mat| && IsMatrix(mat, |mat|, |mat|) && IsMatrix(cs, |cs|, |mat|) && IsMatrix(ds, |ds|, |mat|)
    ensures FullRounds(f, d, mat, cs + ds, x) == FullRounds(f, d, mat, ds, FullRounds(f, d, mat, cs, x))
    decreases |cs|
  {
    if cs == [] {
      assert cs + ds == ds;
    } else {
      assert (cs + ds)[1..] == cs[1..] + ds;
      FullRoundsInOrder(f, d, mat, cs[1..], ds, MatVec(f, mat, Powers(f, d, VecAdd(f, x, cs[0]))));
    }
  }

  /** The permutation as the reference script defines it: all constants added in every round. */
  function Reference<T(!new)>(
    f: Field<T>, d: nat, half: nat, partial: nat, full: Matrix<T>, internal: Matrix<T>, cs: Matrix<T>, x: seq<T>)
    : seq<T>
    requires |x| == |full| == |internal| >= 1 && IsMatrix(full, |x|, |x|) && IsMatrix(internal, |x|, |x|)
    requires |cs| == 2 * half + partial && IsMatrix(cs, |cs|, |x|)
  {
    var x1 := FullRounds(f, d, full, cs[..half], MatVec(f, full, x));
    var x2 := PartialRounds(f, (y: T) => Power(f, y, d), internal, cs[half..half + partial], x1);
    PartialLength(f, (y: T) => Power(f, y, d), internal, cs[half..half + partial], x1);
    FullRounds(f, d, full, cs[half + partial..], x2)
  }

  lemma {:induction false} PartialLength<T(!new)>(f: Field<T>, sbox: T -> T, mat: Matrix<T>, cs: Matrix<T>, x: seq<T>)
    requires |x| == |mat| >= 1 && IsMatrix(mat, |mat|, |mat|) && IsMatrix(cs, |cs|, |mat|)
    ensures |PartialRounds(f, sbox, mat, cs, x)| == |mat|
    decreases |cs|
  {
    if cs != [] {
      PartialLength(f, sbox, mat, cs[1..], MatVec(f, mat, SboxFirst(sbox, VecAdd(f, x, cs[0]))));
    }
  }

  // ---------------------------------------------------------------- the code

  datatype Params<T> = Params(
    t: nat, d: nat, roundsFDiv2: nat, roundsP: nat, diag: seq<T>, roundConstants: Matrix<T>)
  {
    function End(): nat {
      roundsFDiv2 + roundsP
    }

    function Rounds(): nat {
      End() + roundsFDiv2
    }

    /** What the rounds read is there: a row for every round, as wide as the state in a full round and not empty in a
        partial one, and the diagonal where it is used. Longer tables and rows do no harm. */
    predicate Complete() {
      && |roundConstants| >= Rounds() && Wide(First(), t) && Wide(Last(), t)
      && (roundsP == 0 || (Wide(Partial(), 1) && Diagonal(t, diag)))
    }

    /** The rows of the full rounds at the beginning, of the partial rounds and of the full rounds at the end. */
    function First(): Matrix<T>
      requires |roundConstants| >= Rounds()
    {
      roundConstants[..roundsFDiv2]
    }

    function Partial(): (cs: Matrix<T>)
      requires |roundConstants| >= Rounds()
      ensures |cs| == roundsP
    {
      roundConstants[roundsFDiv2..End()]
    }

    function Last(): Matrix<T>
      requires |roundConstants| >= Rounds()
    {
      roundConstants[End()..Rounds()]
    }
  }

  /** What it takes, row by row. */
  lemma CompleteExactly<T>(p: Params<T>)
    ensures var cs, half, end := p.roundConstants, p.roundsFDiv2, p.roundsFDiv2 + p.roundsP;
            p.Complete() <==>
              && |cs| >= end + half
              && (forall r :: 0 <= r < half || end <= r < end + half ==> |cs[r]| >= p.t)
              && (forall r :: half <= r < end ==> |cs[r]| >= 1)
              && (p.roundsP > 0 ==> p.t == 2 || p.t == 3 || |p.diag| >= p.t)
  {
    var cs, half, end := p.roundConstants, p.roundsFDiv2, p.roundsFDiv2 + p.roundsP;
    if |cs| >= end + half {
      assert forall r :: 0 <= r < half ==> cs[r] == p.First()[r];
      assert forall r :: half <= r < end ==> cs[r] == p.Partial()[r - half];
      assert forall r :: end <= r < end + half ==> cs[r] == p.Last()[r - end];
    }
  }

  /** Every row has at least `n` entries. */
  predicate Wide<T>(cs: Matrix<T>, n: nat) {
    forall r :: 0 <= r < |cs| ==> |cs[r]| >= n
  }

  /** The first `n` entries of every row. */
  function Trimmed<T>(cs: Matrix<T>, n: nat): (r: Matrix<T>)
    requires Wide(cs, n)
    ensures IsMatrix(r, |cs|, n)
  {
    seq(|cs|, i requires 0 <= i < |cs| => cs[i][..n])
  }

  /** Partial rounds as the code runs them: only the first constant of each round is added. */
  function FirstConstantRounds<T(!new)>(f: Field<T>, d: nat, mat: Matrix<T>, ks: seq<T>, x: seq<T>): (r: seq<T>)
    requires |x| == |mat| >= 1 && IsMatrix(mat, |mat|, |mat|)
    ensures |r| == |mat|
    decreases |ks|
  {
    if ks == [] then x
    else FirstConstantRounds(f, d, mat, ks[1..], MatVec(f, mat, x[0 := Power(f, f.add(x[0], ks[0]), d)]))
  }

  /** The partial rounds in the middle. */
  function Middle<T(!new)>(f: Field<T>, p: Params<T>, x: seq<T>): (r: seq<T>)
    requires p.Complete() && |x| == p.t && Supported(p.t)
    ensures |r| == p.t
  {
    if p.roundsP == 0 then x
    else
      InternalShape(f, p.t, p.diag);
      FirstConstantRounds(f, p.d, InternalMatrix(f, p.t, p.diag), Firsts(p.Partial()), x)
  }

  /** All rounds after the first linear layer. */
  function AllRounds<T(!new)>(f: Field<T>, p: Params<T>, x: seq<T>): seq<T>
    requires p.Complete() && |x| == p.t && Supported(p.t)
  {
    var full := FullMatrix(f, p.t);
    var x1 := FullRounds(f, p.d, full, Trimmed(p.First(), p.t), x);
    FullRounds(f, p.d, full, Trimmed(p.Last(), p.t), Middle(f, p, x1))
  }

  /** What the code computes, with its layers written as dense products. */
  function Permuted<T(!new)>(f: Field<T>, p: Params<T>, x: seq<T>): seq<T>
    requires p.Complete() && |x| == p.t && Supported(p.t)
  {
    AllRounds(f, p, MatVec(f, FullMatrix(f, p.t), x))
  }

  ghost predicate FirstOnly<T(!new)>(f: Field<T>, cs: Matrix<T>) {
    forall r, c :: 0 <= r < |cs| && 1 <= c < |cs[r]| ==> cs[r][c] == f.zero
  }

  lemma {:induction false} FirstConstantSuffices<T(!new)>(
    f: Field<T>, d: nat, mat: Matrix<T>, cs: Matrix<T>, x: seq<T>)
    requires f.Lawful() && |x| == |mat| >= 1 && IsMatrix(mat, |mat|, |mat|) && IsMatrix(cs, |cs|, |mat|)
    requires FirstOnly(f, cs)
    ensures FirstConstantRounds(f, d, mat, Firsts(cs), x) == PartialRounds(f, (y: T) => Power(f, y, d), mat, cs, x)
    decreases |cs|
  {
    if cs != [] {
      var s := SboxFirst((y: T) => Power(f, y, d), VecAdd(f, x, cs[0]));
      forall i | 1 <= i < |x| ensures s[i] == x[i] { f.AddZero(x[i]); }
      assert s == x[0 := Power(f, f.add(x[0], cs[0][0]), d)];
      assert Firsts(cs)[1..] == Firsts(cs[1..]);
      FirstConstantSuffices(f, d, mat, cs[1..], MatVec(f, mat, s));
    }
  }

  lemma TrimmedSame<T>(cs: Matrix<T>, n: nat)
    requires IsMatrix(cs, |cs|, n)
    ensures Trimmed(cs, n) == cs
  {
    forall i | 0 <= i < |cs| ensures Trimmed(cs, n)[i] == cs[i] {
    }
  }

  lemma MiddleIsPartialRounds<T(!new)>(f: Field<T>, p: Params<T>, x: seq<T>)
    requires f.Lawful() && |x| == p.t && Supported(p.t) && |p.diag| == p.t && p.Complete()
    requires IsMatrix(p.Partial(), p.roundsP, p.t) && FirstOnly(f, p.Partial())
    requires p.t == 2 ==> p.diag == NatRow(f, [1, 2])
    requires p.t == 3 ==> p.diag == NatRow(f, [1, 1, 2])
    ensures var internal := OnesPlusDiagonal(f, p.diag);
            Middle(f, p, x) == PartialRounds(f, (y: T) => Power(f, y, p.d), internal, p.Partial(), x)
  {
    InternalIsOnesPlusDiagonal(f, p.diag);
    FirstConstantSuffices(f, p.d, OnesPlusDiagonal(f, p.diag), p.Partial(), x);
  }

  /** With zero constants past the first column of the partial rounds, and with the diagonals (1, 2) and (1, 1, 2)
      at widths two and three, the permutation is the reference with dense matrices. The reference is for tables of
      exactly the size it reads. */
  lemma PermutedIsReference<T(!new)>(f: Field<T>, p: Params<T>, x: seq<T>)
    requires f.Lawful() && |x| == p.t && Supported(p.t) && |p.diag| == p.t
    requires IsMatrix(p.roundConstants, p.Rounds(), p.t) && FirstOnly(f, p.Partial())
    requires p.t == 2 ==> p.diag == NatRow(f, [1, 2])
    requires p.t == 3 ==> p.diag == NatRow(f, [1, 1, 2])
    ensures p.Complete()
    ensures var full, internal := FullMatrix(f, p.t), OnesPlusDiagonal(f, p.diag);
            Permuted(f, p, x) == Reference(f, p.d, p.roundsFDiv2, p.roundsP, full, internal, p.roundConstants, x)
  {
    TableComplete(p);
    var full := FullMatrix(f, p.t);
    MiddleIsPartialRounds(f, p, FullRounds(f, p.d, full, p.First(), MatVec(f, full, x)));
  }

  /** A table of exactly the size the rounds read is used as it is. */
  lemma TableComplete<T>(p: Params<T>)
    requires IsMatrix(p.roundConstants, p.Rounds(), p.t) && p.t >= 1 && |p.diag| == p.t
    ensures p.Complete()
    ensures Trimmed(p.First(), p.t) == p.First() && Trimmed(p.Last(), p.t) == p.Last()
    ensures p.Last() == p.roundConstants[p.End()..]
  {
    TrimmedSame(p.First(), p.t);
    TrimmedSame(p.Last(), p.t);
  }

  /** Add constants pairwise, as far as both go. */
  method AddRc<T(!new)>(f: Field<T>, input: seq<T>, rc: seq<T>) returns (out: seq<T>)
    ensures var n := if |input| <= |rc| then |input| else |rc|; out == VecAdd(f, input[..n], rc[..n])
    ensures forall i :: 0 <= i < |out| ==> out[i] == f.add(input[i], rc[i])
  {
    out := [];
    var n := if |input| <= |rc| then |input| else |rc|;
    for i := 0 to n
      invariant out == VecAdd(f, input[..n], rc[..n])[..i]
    {
      out := out + [f.add(input[i], rc[i])];
    }
  }

  method Sbox<T(!new)>(f: Field<T>, d: nat, input: seq<T>) returns (out: Option<seq<T>>)
    requires f.Lawful()
    ensures out == if Degree(d) || input == [] then Some(Powers(f, d, input)) else None
  {
    var acc := [];
    for i := 0 to |input|
      invariant |acc| == i && forall k :: 0 <= k < i ==> acc[k] == Power(f, input[k], d)
      invariant i > 0 ==> Degree(d)
    {
      SboxIsPower(f, d, input[i]);
      var y := SboxP(f, d, input[i]);
      if y.None? { return None; }
      acc := acc + [y.value];
    }
    assert acc == Powers(f, d, input);
    return Some(acc);
  }

  /** One full round. A row of constants shorter than the state leaves too few entries for the linear layer, which
      then panics. */
  method FullRound<T(!new)>(f: Field<T>, d: nat, rc: seq<T>, state: array<T>) returns (ok: bool, next: array<T>)
    requires f.Lawful() && Supported(state.Length)
    ensures ok <==> Degree(d) && |rc| >= state.Length
    ensures fresh(next) && (ok ==> next.Length == state.Length)
    ensures ok ==>
      var boxed := Powers(f, d, VecAdd(f, state[..], rc[..state.Length]));
      next[..] == MatVec(f, FullMatrix(f, state.Length), boxed)
  {
    var added := AddRc(f, state[..], rc);
    var boxed := Sbox(f, d, added);
    ok := boxed.Some? && |added| == state.Length;
    var v := if ok then boxed.value else added;
    next := new T[|v|](i requires 0 <= i < |v| => v[i]);
    if ok {
      assert state[..][..state.Length] == state[..];
      assert next[..] == v;
      var fits := MatmulExternal(f, next);
    }
  }

  lemma TrimmedStep<T>(cs: Matrix<T>, n: nat, r: nat)
    requires Wide(cs, n) && r < |cs|
    ensures Trimmed(cs, n)[r..][0] == cs[r][..n] && Trimmed(cs, n)[r..][1..] == Trimmed(cs, n)[r + 1..]
  {
  }

  lemma FirstsStep<T>(cs: Matrix<T>, r: nat)
    requires Wide(cs, 1) && r < |cs|
    ensures Firsts(cs)[r..][0] == cs[r][0] && Firsts(cs)[r..][1..] == Firsts(cs)[r + 1..]
  {
  }

  /** The full rounds `cs`, from `state`. */
  method RunFullRounds<T(!new)>(f: Field<T>, d: nat, cs: Matrix<T>, state: array<T>) returns (ok: bool, next: array<T>)
    requires f.Lawful() && Supported(state.Length)
    ensures next == state || fresh(next)
    ensures ok <==> cs == [] || (Degree(d) && Wide(cs, state.Length))
    ensures ok ==> next.Length == state.Length
    ensures ok ==> next[..] == FullRounds(f, d, FullMatrix(f, state.Length), Trimmed(cs, state.Length), state[..])
  {
    next, ok := state, true;
    var t := state.Length;
    ghost var x, good := state[..], Wide(cs, t);
    ghost var mat, rows := FullMatrix(f, t), if good then Trimmed(cs, t) else [];
    for r := 0 to |cs|
      invariant ok && next.Length == t && (next == state || fresh(next)) && (r > 0 ==> Degree(d))
      invariant Wide(cs[..r], t)
      invariant good ==> FullRounds(f, d, mat, rows[r..], next[..]) == FullRounds(f, d, mat, rows, x)
    {
      if good { TrimmedStep(cs, t, r); }
      ok, next := FullRound(f, d, cs[r], next);
      if !ok { return; }
    }
    assert cs[..|cs|] == cs;
  }

  /** One partial round, in place. */
  method PartialRound<T(!new)>(f: Field<T>, d: nat, diag: seq<T>, rc: seq<T>, state: array<T>) returns (ok: bool)
    requires f.Lawful() && Supported(state.Length)
    modifies state
    ensures ok <==> Degree(d) && |rc| >= 1 && Diagonal(state.Length, diag)
    ensures ok ==>
      && IsMatrix(InternalMatrix(f, state.Length, diag), state.Length, state.Length)
      && state[..] == MatVec(f, InternalMatrix(f, state.Length, diag),
                             old(state[..])[0 := Power(f, f.add(old(state[0]), rc[0]), d)])
  {
    if rc == [] { return false; }
    SboxIsPower(f, d, f.add(state[0], rc[0]));
    state[0] := f.add(state[0], rc[0]);
    var y := SboxP(f, d, state[0]);
    if y.None? { return false; }
    state[0] := y.value;
    assert state[..] == old(state[..])[0 := y.value];
    ok := MatmulInternal(f, state, diag);
  }

  /** The partial rounds `cs`, in place. */
  method RunPartialRounds<T(!new)>(f: Field<T>, d: nat, diag: seq<T>, cs: Matrix<T>, state: array<T>) returns (ok: bool)
    requires f.Lawful() && Supported(state.Length)
    modifies state
    ensures ok <==> cs == [] || (Degree(d) && Wide(cs, 1) && Diagonal(state.Length, diag))
    ensures cs == [] ==> state[..] == old(state[..])
    ensures ok && cs != [] ==>
      && IsMatrix(InternalMatrix(f, state.Length, diag), state.Length, state.Length)
      && state[..] == FirstConstantRounds(f, d, InternalMatrix(f, state.Length, diag), Firsts(cs), old(state[..]))
  {
    var t := state.Length;
    ghost var x, good := state[..], Diagonal(t, diag) && Wide(cs, 1);
    if good { InternalShape(f, t, diag); }
    for r := 0 to |cs|
      invariant Wide(cs[..r], 1) && (r > 0 ==> Degree(d) && Diagonal(t, diag)) && (r == 0 ==> state[..] == x)
      invariant good ==>
        var mat, ks := InternalMatrix(f, t, diag), Firsts(cs);
        FirstConstantRounds(f, d, mat, ks[r..], state[..]) == FirstConstantRounds(f, d, mat, ks, x)
    {
      if good { FirstsStep(cs, r); }
      ok := PartialRound(f, d, diag, cs[r], state);
      if !ok { return; }
    }
    assert cs[..|cs|] == cs;
    return true;
  }

  /** The partial rounds of `p`, in place. */
  method RunMiddle<T(!new)>(f: Field<T>, p: Params<T>, state: array<T>) returns (ok: bool)
    requires f.Lawful() && state.Length == p.t && Supported(p.t) && |p.roundConstants| >= p.Rounds()
    modifies state
    ensures ok <==> p.roundsP == 0 || (Degree(p.d) && Wide(p.Partial(), 1) && Diagonal(p.t, p.diag))
    ensures ok && p.Complete() ==> state[..] == Middle(f, p, old(state[..]))
  {
    ok := RunPartialRounds(f, p.d, p.diag, p.Partial(), state);
  }

  /** All rounds. A table with too few rows panics at the first row that is missing. */
  method RunRounds<T(!new)>(f: Field<T>, p: Params<T>, state: array<T>) returns (ok: bool, next: array<T>)
    requires f.Lawful() && state.Length == p.t && Supported(p.t)
    modifies state
    ensures ok <==> p.Complete() && (Degree(p.d) || p.Rounds() == 0)
    ensures ok ==> next[..] == AllRounds(f, p, old(state[..]))
  {
    next := state;
    if |p.roundConstants| < p.Rounds() { return false, next; }
    ok, next := RunFullRounds(f, p.d, p.First(), state);
    if !ok { return; }
    ok := RunMiddle(f, p, next);
    if !ok { return; }
    ok, next := RunFullRounds(f, p.d, p.Last(), next);
  }

  /** The permutation panics exactly on a wrong input length, an unsupported width, parameters that lack what the
      rounds read, or a degree other than 3, 5 and 7 once a round is run. */
  method Permutation<T(!new)>(f: Field<T>, p: Params<T>, input: seq<T>) returns (r: Option<seq<T>>)
    requires f.Lawful()
    ensures r.Some? <==>
      && |input| == p.t && p.t in {2, 3, 4, 8, 12, 16, 20, 24} && p.Complete()
      && (p.d in {3, 5, 7} || p.roundsFDiv2 == p.roundsP == 0)
    ensures r.Some? ==> r.value == Permuted(f, p, input)
  {
    if |input| != p.t { return None; }
    var state := new T[|input|](i requires 0 <= i < |input| => input[i]);
    assert state[..] == input;
    var fits := MatmulExternal(f, state);
    if !fits { return None; }
    var ok, next := RunRounds(f, p, state);
    return if ok then Some(next[..]) else None;
  }

  // ---------------------------------------------------------------- the smallest permutation, written out

  function Cube<T(!new)>(f: Field<T>, a: T): T {
    f.mul(f.mul(a, a), a)
  }

  /** The external layer on two entries: add the sum to each. */
  function Mix<T(!new)>(f: Field<T>, a: T, b: T): (T, T) {
    var s := f.add(a, b);
    (f.add(a, s), f.add(b, s))
  }

  /** One full round on two entries. */
  function FullOfTwo<T(!new)>(f: Field<T>, c: T, d: T, x: (T, T)): (T, T) {
    Mix(f, Cube(f, f.add(x.0, c)), Cube(f, f.add(x.1, d)))
  }

  /** One partial round on two entries: the first is cubed, the second doubled before the sum is added. */
  function PartialOfTwo<T(!new)>(f: Field<T>, c: T, x: (T, T)): (T, T) {
    var y := Cube(f, f.add(x.0, c));
    var s := f.add(y, x.1);
    (f.add(y, s), f.add(f.add(x.1, x.1), s))
  }

  lemma FullLayerOfTwo<T(!new)>(f: Field<T>, a: T, b: T)
    requires f.Lawful()
    ensures MatVec(f, FullMatrix(f, 2), [a, b]) == [Mix(f, a, b).0, Mix(f, a, b).1]
  {
    SmallRows2(f, [a, b]);
  }

  lemma InternalLayerOfTwo<T(!new)>(f: Field<T>, a: T, b: T)
    requires f.Lawful()
    ensures var s := f.add(a, b);
            IsMatrix(InternalMatrix<T>(f, 2, []), 2, 2)
            && MatVec(f, InternalMatrix(f, 2, []), [a, b]) == [f.add(a, s), f.add(f.add(b, b), s)]
  {
    InternalShape<T>(f, 2, []);
    SmallRows2(f, [a, b]);
  }

  lemma FullRoundOfTwo<T(!new)>(f: Field<T>, c: T, d: T, x: (T, T))
    requires f.Lawful()
    ensures var y := FullOfTwo(f, c, d, x); FullRounds(f, 3, FullMatrix(f, 2), [[c, d]], [x.0, x.1]) == [y.0, y.1]
  {
    var a, b := f.add(x.0, c), f.add(x.1, d);
    PowerSteps(f, a);
    PowerSteps(f, b);
    assert VecAdd(f, [x.0, x.1], [c, d]) == [a, b];
    assert Powers(f, 3, [a, b]) == [Cube(f, a), Cube(f, b)];
    FullLayerOfTwo(f, Cube(f, a), Cube(f, b));
    assert [[c, d]][1..] == [];
  }

  lemma PartialRoundOfTwo<T(!new)>(f: Field<T>, c: T, x: (T, T))
    requires f.Lawful()
    ensures IsMatrix(InternalMatrix<T>(f, 2, []), 2, 2)
    ensures var y := PartialOfTwo(f, c, x);
            FirstConstantRounds(f, 3, InternalMatrix(f, 2, []), [c], [x.0, x.1]) == [y.0, y.1]
  {
    var a := f.add(x.0, c);
    PowerSteps(f, a);
    InternalLayerOfTwo(f, Cube(f, a), x.1);
    assert [x.0, x.1][0 := Cube(f, a)] == [Cube(f, a), x.1];
    assert [c][1..] == [];
  }

  /** The permutation of width two and degree three with one full round, one partial round and one full round. */
  method PermutationOfTwo<T(!new)>(f: Field<T>, c: seq<T>, x0: T, x1: T) returns (r: Option<seq<T>>)
    requires f.Lawful() && |c| == 5
    ensures var first := FullOfTwo(f, c[0], c[1], Mix(f, x0, x1));
            var y := FullOfTwo(f, c[3], c[4], PartialOfTwo(f, c[2], first));
            r == Some([y.0, y.1])
  {
    var p := Params(2, 3, 1, 1, [], [[c[0], c[1]], [c[2]], [c[3], c[4]]]);
    r := Permutation(f, p, [x0, x1]);
    SmallestPermutation(f, p, c, x0, x1);
  }

  lemma SmallestPermutation<T(!new)>(f: Field<T>, p: Params<T>, c: seq<T>, x0: T, x1: T)
    requires f.Lawful() && |c| == 5 && p == Params(2, 3, 1, 1, [], [[c[0], c[1]], [c[2]], [c[3], c[4]]])
    ensures p.Complete()
    ensures var first := FullOfTwo(f, c[0], c[1], Mix(f, x0, x1));
            var y := FullOfTwo(f, c[3], c[4], PartialOfTwo(f, c[2], first));
            Permuted(f, p, [x0, x1]) == [y.0, y.1]
  {
    assert p.First() == [[c[0], c[1]]] && p.Partial() == [[c[2]]] && p.Last() == [[c[3], c[4]]];
    TrimmedSame(p.First(), 2);
    TrimmedSame(p.Last(), 2);
    assert Firsts(p.Partial()) == [c[2]];
    var x := Mix(f, x0, x1);
    FullLayerOfTwo(f, x0, x1);
    FullRoundOfTwo(f, c[0], c[1], x);
    var y := FullOfTwo(f, c[0], c[1], x);
    PartialRoundOfTwo(f, c[2], y);
    FullRoundOfTwo(f, c[3], c[4], PartialOfTwo(f, c[2], y));
  }

  // ---------------------------------------------------------------- degree 11

  /** The degrees that the parameters' constructor admits. */
  predicate AdmittedDegree(d: nat) {
    d == 3 || d == 5 || d == 7 || d == 11
  }

  /** Degree 11 is admitted, and complete parameters with it panic: one partial round of width two will do. */
  method DegreeElevenPanics<T(!new)>(f: Field<T>, c: T, x: T) returns (p: Params<T>, r: Option<seq<T>>)
    requires f.Lawful()
    ensures AdmittedDegree(p.d) && p.d == 11 && p.Complete() && p.t == 2 && p.roundsFDiv2 == 0 && p.roundsP == 1
    ensures r == None
  {
    p := Params(2, 11, 0, 1, [], [[c]]);
    assert p.Complete();
    r := Permutation(f, p, [x, x]);
  }
}

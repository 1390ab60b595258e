/** Gauss-Jordan elimination without pivoting: `m` is reduced to the identity while `inv` collects the row
    operations, so that `inv * mat == m` throughout. */
module MatInverse {
  import opened Fields
  import opened HostCalls
  import opened LinearAlgebra

  // ---------------------------------------------------------------- when it works

  ghost predicate SupportedBelow<T(!new)>(f: Field<T>, w: seq<T>, k: nat) {
    forall c :: k <= c < |w| ==> w[c] == f.zero
  }

  /** `w` is in the left kernel of the leading `k` by `k` block. */
  ghost predicate KillsLeading<T(!new)>(f: Field<T>, mat: Matrix<T>, k: nat, w: seq<T>)
    requires IsMatrix(mat, |mat|, |mat|)
  {
    && |w| == |mat| && SupportedBelow(f, w, k)
    && forall c :: 0 <= c < k && c < |mat| ==> Dot(f, w, Column(mat, c)) == f.zero
  }

  /** The leading `k` by `k` block is regular: only the zero vector is in its left kernel. */
  ghost predicate LeadingRegular<T(!new)>(f: Field<T>, mat: Matrix<T>, k: nat)
    requires IsMatrix(mat, |mat|, |mat|)
  {
    forall w :: KillsLeading(f, mat, k, w) ==> w == Zeros(f, |mat|)
  }

  // ---------------------------------------------------------------- rows and products

  /** `w` is the row vector `u * mat`. */
  ghost predicate IsProduct<T(!new)>(f: Field<T>, u: seq<T>, mat: Matrix<T>, w: seq<T>)
    requires IsMatrix(mat, |mat|, |mat|)
  {
    |u| == |w| == |mat| && forall c :: 0 <= c < |mat| ==> w[c] == Dot(f, u, Column(mat, c))
  }

  function SubMul<T(!new)>(f: Field<T>, x: T, y: T, el: T): T {
    f.Sub(x, f.mul(y, el))
  }

  /** The row operation `u - el * w`, entry by entry as the code computes it. */
  function RowSub<T(!new)>(f: Field<T>, u: seq<T>, w: seq<T>, el: T): (r: seq<T>)
    requires |u| == |w|
    ensures |r| == |u| && forall c :: 0 <= c < |u| ==> r[c] == SubMul(f, u[c], w[c], el)
  {
    seq(|u|, c requires 0 <= c < |u| => SubMul(f, u[c], w[c], el))
  }

  function RowScale<T(!new)>(f: Field<T>, u: seq<T>, s: T): (r: seq<T>)
    ensures |r| == |u| && forall c :: 0 <= c < |u| ==> r[c] == f.mul(u[c], s)
  {
    seq(|u|, c requires 0 <= c < |u| => f.mul(u[c], s))
  }

  lemma RowSubIsAxpy<T(!new)>(f: Field<T>, u: seq<T>, w: seq<T>, el: T)
    requires f.Lawful() && |u| == |w|
    ensures RowSub(f, u, w, el) == Axpy(f, f.neg(el), w, u)
  {
    forall c | 0 <= c < |u| ensures RowSub(f, u, w, el)[c] == Axpy(f, f.neg(el), w, u)[c] {
      f.NegMul(w[c], el);
    }
  }

  lemma RowScaleIsAxpy<T(!new)>(f: Field<T>, u: seq<T>, s: T)
    requires f.Lawful()
    ensures RowScale(f, u, s) == Axpy(f, s, u, Zeros(f, |u|))
  {
    forall c | 0 <= c < |u| ensures RowScale(f, u, s)[c] == Axpy(f, s, u, Zeros(f, |u|))[c] {
      assert f.MulCommutes(u[c], s);
      f.AddZero(f.mul(s, u[c]));
    }
  }

  lemma ProductAxpy<T(!new)>(f: Field<T>, mat: Matrix<T>, c: T, v: seq<T>, x: seq<T>, u: seq<T>, w: seq<T>)
    requires f.Lawful() && IsMatrix(mat, |mat|, |mat|)
    requires IsProduct(f, v, mat, x) && IsProduct(f, u, mat, w)
    ensures IsProduct(f, Axpy(f, c, v, u), mat, Axpy(f, c, x, w))
  {
    forall k | 0 <= k < |mat| ensures Axpy(f, c, x, w)[k] == Dot(f, Axpy(f, c, v, u), Column(mat, k)) {
      DotAxpy(f, c, v, u, Column(mat, k));
    }
  }

  /** Row subtraction on both sides keeps `inv * mat == m`. */
  lemma SubKeepsProduct<T(!new)>(f: Field<T>, mat: Matrix<T>, el: T, v: seq<T>, x: seq<T>, u: seq<T>, w: seq<T>)
    requires f.Lawful() && IsMatrix(mat, |mat|, |mat|)
    requires IsProduct(f, v, mat, x) && IsProduct(f, u, mat, w)
    ensures IsProduct(f, RowSub(f, u, v, el), mat, RowSub(f, w, x, el))
  {
    RowSubIsAxpy(f, u, v, el);
    RowSubIsAxpy(f, w, x, el);
    ProductAxpy(f, mat, f.neg(el), v, x, u, w);
  }

  lemma ScaleKeepsProduct<T(!new)>(f: Field<T>, mat: Matrix<T>, s: T, u: seq<T>, w: seq<T>)
    requires f.Lawful() && IsMatrix(mat, |mat|, |mat|) && IsProduct(f, u, mat, w)
    ensures IsProduct(f, RowScale(f, u, s), mat, RowScale(f, w, s))
  {
    var z := Zeros(f, |mat|);
    forall c | 0 <= c < |mat| ensures z[c] == Dot(f, z, Column(mat, c)) {
      DotZeros(f, z, Column(mat, c));
    }
    RowScaleIsAxpy(f, u, s);
    RowScaleIsAxpy(f, w, s);
    ProductAxpy(f, mat, s, u, w, z, z);
  }

  lemma UnitProduct<T(!new)>(f: Field<T>, mat: Matrix<T>, i: nat)
    requires f.Lawful() && IsMatrix(mat, |mat|, |mat|) && i < |mat|
    ensures IsProduct(f, Unit(f, |mat|, i), mat, mat[i])
  {
    forall c | 0 <= c < |mat| ensures mat[i][c] == Dot(f, Unit(f, |mat|, i), Column(mat, c)) {
      DotUnit(f, |mat|, i, Column(mat, c));
    }
  }

  lemma SubMulZero<T(!new)>(f: Field<T>, el: T)
    requires f.Lawful()
    ensures SubMul(f, f.zero, f.zero, el) == f.zero
  {
    f.MulZero(el);
    f.SubIsZero(f.zero, f.zero);
  }

  /** Subtracting a multiple of zero changes nothing; subtracting the element itself clears it. */
  lemma SubMulUnit<T(!new)>(f: Field<T>, x: T, el: T)
    requires f.Lawful()
    ensures SubMul(f, x, f.zero, el) == x
    ensures SubMul(f, el, f.one, el) == f.zero
  {
    f.MulZero(el);
    f.SubIsZero(f.zero, f.zero);
    f.NegUnique(f.zero, f.zero) by { f.AddZero(f.zero); }
    f.AddZero(x);
    f.MulOne(el);
    f.SubIsZero(el, el);
  }

  // ---------------------------------------------------------------- pivots and regularity

  lemma NothingKillsNothing<T(!new)>(f: Field<T>, mat: Matrix<T>)
    requires IsMatrix(mat, |mat|, |mat|)
    ensures LeadingRegular(f, mat, 0)
  {
    forall w | KillsLeading(f, mat, 0, w) ensures w == Zeros(f, |mat|) {
    }
  }

  /** The row that elimination has prepared for pivot `k`: its last entry is one, and it clears the columns before. */
  ghost predicate PivotRow<T(!new)>(f: Field<T>, mat: Matrix<T>, k: nat, v: seq<T>)
    requires IsMatrix(mat, |mat|, |mat|) && k < |mat|
  {
    && |v| == |mat| && v[k] == f.one && SupportedBelow(f, v, k + 1)
    && forall c :: 0 <= c < k ==> Dot(f, v, Column(mat, c)) == f.zero
  }

  /** Removing the multiple of the pivot row that clears entry `k` leaves a vector of the smaller kernel. */
  lemma KernelStep<T(!new)>(f: Field<T>, mat: Matrix<T>, k: nat, v: seq<T>, w: seq<T>)
    requires f.Lawful() && IsMatrix(mat, |mat|, |mat|) && k < |mat| && PivotRow(f, mat, k, v)
    requires KillsLeading(f, mat, k + 1, w)
    ensures KillsLeading(f, mat, k, Axpy(f, f.neg(w[k]), v, w))
  {
    var e := f.neg(w[k]);
    var x := Axpy(f, e, v, w);
    f.MulZero(e);
    f.AddZero(f.zero);
    f.MulOne(e);
    f.SubIsZero(w[k], w[k]);
    forall c | 0 <= c < k ensures Dot(f, x, Column(mat, c)) == f.zero {
      DotAxpy(f, e, v, w, Column(mat, c));
    }
  }

  lemma RegularStep<T(!new)>(f: Field<T>, mat: Matrix<T>, k: nat, v: seq<T>)
    requires f.Lawful() && IsMatrix(mat, |mat|, |mat|) && k < |mat|
    requires PivotRow(f, mat, k, v) && LeadingRegular(f, mat, k)
    ensures LeadingRegular(f, mat, k + 1) <==> Dot(f, v, Column(mat, k)) != f.zero
  {
    var p, next := Dot(f, v, Column(mat, k)), k + 1;
    if p == f.zero {
      assert KillsLeading(f, mat, next, v);
      assert v[k] != Zeros(f, |mat|)[k];
    } else {
      forall w | KillsLeading(f, mat, next, w) ensures w == Zeros(f, |mat|) {
        var e := f.neg(w[k]);
        KernelStep(f, mat, k, v, w);
        var x := Axpy(f, e, v, w);
        assert x == Zeros(f, |mat|);
        DotAxpy(f, e, v, w, Column(mat, k));
        DotZeros(f, x, Column(mat, k));
        f.AddZero(f.mul(e, p));
        f.NoZeroDivisor(e, p);
        forall c | 0 <= c < |mat| ensures w[c] == f.zero {
          f.MulZero(v[c]);
          f.AddZero(w[c]);
        }
      }
    }
  }

  /** `inv` is a left inverse of `mat`. */
  ghost predicate LeftInverse<T(!new)>(f: Field<T>, inv: Matrix<T>, mat: Matrix<T>)
    requires IsMatrix(mat, |mat|, |mat|)
  {
    IsMatrix(inv, |mat|, |mat|) && forall i :: 0 <= i < |mat| ==> IsProduct(f, inv[i], mat, Unit(f, |mat|, i))
  }

  /** `mat[i] * inv * mat == mat[i]` */
  lemma RowReturns<T(!new)>(f: Field<T>, mat: Matrix<T>, inv: Matrix<T>, i: nat)
    requires f.Lawful() && IsMatrix(mat, |mat|, |mat|) && LeftInverse(f, inv, mat) && i < |mat|
    ensures IsProduct(f, VecMat(f, mat[i], inv, |mat|), mat, mat[i])
  {
    var n, p := |mat|, VecMat(f, mat[i], inv, |mat|);
    forall c | 0 <= c < n ensures mat[i][c] == Dot(f, p, Column(mat, c)) {
      DotAssociates(f, mat[i], inv, n, Column(mat, c));
      assert MatVec(f, inv, Column(mat, c)) == Unit(f, n, c) by {
        forall r | 0 <= r < n ensures MatVec(f, inv, Column(mat, c))[r] == Unit(f, n, c)[r] {
          assert IsProduct(f, inv[r], mat, Unit(f, n, r));
        }
      }
      DotCommutes(f, mat[i], Unit(f, n, c));
      DotUnit(f, n, c, mat[i]);
    }
  }

  lemma RightRow<T(!new)>(f: Field<T>, mat: Matrix<T>, p: seq<T>, i: nat)
    requires f.Lawful() && IsMatrix(mat, |mat|, |mat|) && LeadingRegular(f, mat, |mat|) && i < |mat|
    requires IsProduct(f, p, mat, mat[i])
    ensures p == Unit(f, |mat|, i)
  {
    var n, e := |mat|, f.neg(f.one);
    var x := Axpy(f, e, Unit(f, n, i), p);
    UnitProduct(f, mat, i);
    ProductAxpy(f, mat, e, Unit(f, n, i), mat[i], p, mat[i]);
    forall c | 0 <= c < n ensures Dot(f, x, Column(mat, c)) == f.zero {
      MinusOne(f, mat[i][c], mat[i][c]);
    }
    assert KillsLeading(f, mat, n, x);
    forall c | 0 <= c < n ensures p[c] == Unit(f, n, i)[c] {
      assert x[c] == Zeros(f, n)[c];
      MinusOne(f, p[c], Unit(f, n, i)[c]);
    }
  }

  /** A left inverse of a regular matrix is a right inverse. */
  lemma LeftInverseIsRight<T(!new)>(f: Field<T>, mat: Matrix<T>, inv: Matrix<T>)
    requires f.Lawful() && IsMatrix(mat, |mat|, |mat|) && LeadingRegular(f, mat, |mat|) && LeftInverse(f, inv, mat)
    ensures LeftInverse(f, mat, inv)
  {
    forall i | 0 <= i < |mat| ensures IsProduct(f, mat[i], inv, Unit(f, |mat|, i)) {
      RowReturns(f, mat, inv, i);
      RightRow(f, mat, VecMat(f, mat[i], inv, |mat|), i);
    }
  }

  lemma MinusOne<T(!new)>(f: Field<T>, a: T, b: T)
    requires f.Lawful()
    ensures f.add(a, f.mul(f.neg(f.one), b)) == f.zero <==> a == b
  {
    f.NegMul(f.one, b);
    f.MulOne(b);
    f.SubIsZero(a, b);
  }

  // ---------------------------------------------------------------- the elimination loops

  /** `m` is `m0` with the first `col` entries of row `row` replaced by those of `want`. */
  ghost predicate RowUpTo<T(!new)>(m: Matrix<T>, m0: Matrix<T>, row: nat, want: seq<T>, col: nat)
    requires IsMatrix(m0, |m0|, |m0|) && row < |m0| == |want|
  {
    && IsMatrix(m, |m0|, |m0|) && (forall r :: 0 <= r < |m0| && r != row ==> m[r] == m0[r])
    && (forall c :: 0 <= c < col && c < |m0| ==> m[row][c] == want[c])
    && (forall c :: col <= c < |m0| ==> m[row][c] == m0[row][c])
  }

  lemma RowComplete<T(!new)>(m: Matrix<T>, m0: Matrix<T>, row: nat, want: seq<T>)
    requires IsMatrix(m0, |m0|, |m0|) && row < |m0| == |want| && RowUpTo(m, m0, row, want, |m0|)
    ensures m == m0[row := want]
  {
    assert m[row] == want;
  }

  /** Subtract `el` times row `j` from row `row`, writing known zeros directly. */
  method SubtractBelow<T(!new)>(f: Field<T>, m0: Matrix<T>, inv0: Matrix<T>, row: nat, j: nat)
    returns (m: Matrix<T>, inv: Matrix<T>)
    requires f.Lawful() && IsMatrix(m0, |m0|, |m0|) && IsMatrix(inv0, |m0|, |m0|) && j < row < |m0|
    requires forall c :: 0 <= c < j ==> m0[row][c] == m0[j][c] == f.zero
    requires SupportedBelow(f, inv0[row], row + 1) && SupportedBelow(f, inv0[j], row + 1)
    ensures m == m0[row := RowSub(f, m0[row], m0[j], m0[row][j])]
    ensures inv == inv0[row := RowSub(f, inv0[row], inv0[j], m0[row][j])]
  {
    m, inv := m0, inv0;
    var n, el := |m|, m[row][j];
    ghost var mr, ir := RowSub(f, m0[row], m0[j], el), RowSub(f, inv0[row], inv0[j], el);
    SubMulZero(f, el);
    for col := 0 to n
      invariant RowUpTo(m, m0, row, mr, col)
      invariant RowUpTo(inv, inv0, row, ir, col)
    {
      if col < j {
        m := m[row := m[row][col := f.zero]];
      } else {
        m := m[row := m[row][col := SubMul(f, m[row][col], m[j][col], el)]];
      }
      if col > row {
        inv := inv[row := inv[row][col := f.zero]];
      } else {
        inv := inv[row := inv[row][col := SubMul(f, inv[row][col], inv[j][col], el)]];
      }
    }
    RowComplete(m, m0, row, mr);
    RowComplete(inv, inv0, row, ir);
  }

  /** Multiply row `row` by the inverse of its pivot. */
  method ScalePivot<T(!new)>(f: Field<T>, m0: Matrix<T>, inv0: Matrix<T>, row: nat, elInv: T)
    returns (m: Matrix<T>, inv: Matrix<T>)
    requires f.Lawful() && IsMatrix(m0, |m0|, |m0|) && IsMatrix(inv0, |m0|, |m0|) && row < |m0|
    requires forall c :: 0 <= c < row ==> m0[row][c] == f.zero
    requires f.mul(m0[row][row], elInv) == f.one && SupportedBelow(f, inv0[row], row + 1)
    ensures m == m0[row := RowScale(f, m0[row], elInv)]
    ensures inv == inv0[row := RowScale(f, inv0[row], elInv)]
  {
    m, inv := m0, inv0;
    ghost var mr, ir := RowScale(f, m0[row], elInv), RowScale(f, inv0[row], elInv);
    f.MulZero(elInv);
    for col := 0 to |m0|
      invariant RowUpTo(m, m0, row, mr, col)
      invariant RowUpTo(inv, inv0, row, ir, col)
    {
      if col <= row {
        if col == row { m := m[row := m[row][col := f.one]]; }
        inv := inv[row := inv[row][col := f.mul(inv[row][col], elInv)]];
      } else {
        m := m[row := m[row][col := f.mul(m[row][col], elInv)]];
      }
    }
    RowComplete(m, m0, row, mr);
    RowComplete(inv, inv0, row, ir);
  }

  /** Subtract `el` times the finished row `j` from `inv`. Only a debug build clears column `j` of `m` as well; `md` is
      the matrix such a build holds. */
  method ClearAbove<T(!new)>(f: Field<T>, debug: bool, m0: Matrix<T>, inv0: Matrix<T>, row: nat, j: nat,
                             ghost md0: Matrix<T>)
    returns (m: Matrix<T>, inv: Matrix<T>, ghost md: Matrix<T>)
    requires f.Lawful() && IsMatrix(m0, |m0|, |m0|) && IsMatrix(inv0, |m0|, |m0|) && IsMatrix(md0, |m0|, |m0|)
    requires row < j < |m0| && m0[row][j] == md0[row][j] && (debug ==> m0 == md0)
    requires md0[j] == Unit(f, |m0|, j) && forall c :: j < c < |m0| ==> md0[row][c] == f.zero
    ensures md == md0[row := RowSub(f, md0[row], md0[j], md0[row][j])]
    ensures inv == inv0[row := RowSub(f, inv0[row], inv0[j], md0[row][j])]
    ensures m == if debug then md else m0
  {
    m, inv, md := m0, inv0, md0;
    var n, el := |m|, m[row][j];
    ghost var mr, ir := RowSub(f, md0[row], md0[j], el), RowSub(f, inv0[row], inv0[j], el);
    for col := 0 to n
      invariant RowUpTo(md, md0, row, mr, col)
      invariant RowUpTo(inv, inv0, row, ir, col)
      invariant m == if debug then md else m0
    {
      SubMulUnit(f, md0[row][col], el);
      if col >= j {
        md := md[row := md[row][col := f.zero]];
      }
      if debug && col >= j {
        m := m[row := m[row][col := f.zero]];
      }
      inv := inv[row := inv[row][col := SubMul(f, inv[row][col], inv[j][col], el)]];
    }
    RowComplete(md, md0, row, mr);
    RowComplete(inv, inv0, row, ir);
  }

  // ---------------------------------------------------------------- what the passes keep

  /** `inv * mat == m`, row by row. */
  ghost predicate Tracks<T(!new)>(f: Field<T>, mat: Matrix<T>, m: Matrix<T>, inv: Matrix<T>)
    requires IsMatrix(mat, |mat|, |mat|)
  {
    && IsMatrix(m, |mat|, |mat|) && IsMatrix(inv, |mat|, |mat|)
    && forall r :: 0 <= r < |mat| ==> IsProduct(f, inv[r], mat, m[r])
  }

  ghost predicate UpperRow<T(!new)>(f: Field<T>, w: seq<T>, r: nat)
    requires r < |w|
  {
    w[r] == f.one && forall c :: 0 <= c < r ==> w[c] == f.zero
  }

  /** Rows before `row` are reduced, the others untouched. */
  ghost predicate Forward<T(!new)>(f: Field<T>, mat: Matrix<T>, m: Matrix<T>, inv: Matrix<T>, row: nat)
    requires IsMatrix(mat, |mat|, |mat|)
  {
    && Tracks(f, mat, m, inv)
    && (forall r :: 0 <= r < row && r < |mat| ==> UpperRow(f, m[r], r) && SupportedBelow(f, inv[r], r + 1))
    && (forall r :: row <= r < |mat| ==> m[r] == mat[r] && inv[r] == Unit(f, |mat|, r))
  }

  /** Row `row` with its first `j` columns cleared. */
  ghost predicate Prepared<T(!new)>(f: Field<T>, u: seq<T>, w: seq<T>, row: nat, j: nat)
    requires j <= row < |u| == |w|
  {
    SupportedBelow(f, u, row + 1) && u[row] == f.one && forall c :: 0 <= c < j ==> w[c] == f.zero
  }

  lemma PrepareStep<T(!new)>(f: Field<T>, u: seq<T>, w: seq<T>, v: seq<T>, x: seq<T>, row: nat, j: nat)
    requires f.Lawful() && j < row < |u| == |w| == |v| == |x|
    requires Prepared(f, u, w, row, j) && UpperRow(f, x, j) && SupportedBelow(f, v, j + 1)
    ensures Prepared(f, RowSub(f, u, v, w[j]), RowSub(f, w, x, w[j]), row, j + 1)
  {
    SubMulZero(f, w[j]);
    SubMulUnit(f, f.one, w[j]);
    SubMulUnit(f, w[j], w[j]);
  }

  method ForwardRow<T(!new)>(f: Field<T>, ghost mat: Matrix<T>, m0: Matrix<T>, inv0: Matrix<T>, row: nat)
    returns (m: Matrix<T>, inv: Matrix<T>)
    requires f.Lawful() && IsMatrix(mat, |mat|, |mat|) && row < |mat| && Forward(f, mat, m0, inv0, row)
    ensures Tracks(f, mat, m, inv) && Prepared(f, inv[row], m[row], row, row)
    ensures forall r :: 0 <= r < |mat| && r != row ==> m[r] == m0[r] && inv[r] == inv0[r]
  {
    m, inv := m0, inv0;
    for j := 0 to row
      invariant Tracks(f, mat, m, inv) && Prepared(f, inv[row], m[row], row, j)
      invariant forall r :: 0 <= r < |mat| && r != row ==> m[r] == m0[r] && inv[r] == inv0[r]
    {
      assert UpperRow(f, m0[j], j) && SupportedBelow(f, inv0[j], j + 1);
      PrepareStep(f, inv[row], m[row], inv[j], m[j], row, j);
      SubKeepsProduct(f, mat, m[row][j], inv[j], m[j], inv[row], m[row]);
      m, inv := SubtractBelow(f, m, inv, row, j);
    }
  }

  lemma ScaleStep<T(!new)>(f: Field<T>, u: seq<T>, w: seq<T>, row: nat, s: T)
    requires f.Lawful() && row < |u| == |w| && Prepared(f, u, w, row, row) && f.mul(w[row], s) == f.one
    ensures UpperRow(f, RowScale(f, w, s), row) && SupportedBelow(f, RowScale(f, u, s), row + 1)
  {
    f.MulZero(s);
  }

  lemma PreparedIsPivotRow<T(!new)>(f: Field<T>, mat: Matrix<T>, u: seq<T>, w: seq<T>, row: nat)
    requires IsMatrix(mat, |mat|, |mat|) && row < |mat| && IsProduct(f, u, mat, w) && Prepared(f, u, w, row, row)
    ensures PivotRow(f, mat, row, u) && Dot(f, u, Column(mat, row)) == w[row]
  {
  }

  /** One row of the first pass: clear it below the diagonal and make its pivot one, unless that is zero. */
  method ReduceRow<T(==, !new)>(f: Field<T>, ghost mat: Matrix<T>, m0: Matrix<T>, inv0: Matrix<T>, row: nat)
    returns (ok: bool, m: Matrix<T>, inv: Matrix<T>)
    requires f.Lawful() && IsMatrix(mat, |mat|, |mat|) && row < |mat| && Forward(f, mat, m0, inv0, row)
    requires LeadingRegular(f, mat, row)
    ensures ok <==> LeadingRegular(f, mat, row + 1)
    ensures ok ==> Forward(f, mat, m, inv, row + 1)
  {
    m, inv := ForwardRow(f, mat, m0, inv0, row);
    PreparedIsPivotRow(f, mat, inv[row], m[row], row);
    RegularStep(f, mat, row, inv[row]);
    var el := m[row][row];
    ok := el != f.zero;
    if ok {
      assert f.MulUnit(el);
      ScaleStep(f, inv[row], m[row], row, f.inv(el));
      ScaleKeepsProduct(f, mat, f.inv(el), inv[row], m[row]);
      m, inv := ScalePivot(f, m, inv, row, f.inv(el));
    }
  }

  /** The first pass: reduce to a unit upper triangle, or panic at the first pivot that is zero. */
  method Triangulate<T(==, !new)>(f: Field<T>, mat: Matrix<T>) returns (ok: bool, m: Matrix<T>, inv: Matrix<T>)
    requires f.Lawful() && IsMatrix(mat, |mat|, |mat|)
    ensures ok <==> forall k :: 0 <= k <= |mat| ==> LeadingRegular(f, mat, k)
    ensures ok ==> Forward(f, mat, m, inv, |mat|)
  {
    m, inv := mat, Identity(f, |mat|);
    NothingKillsNothing(f, mat);
    forall r | 0 <= r < |mat| ensures IsProduct(f, inv[r], mat, m[r]) {
      UnitProduct(f, mat, r);
    }
    for row := 0 to |mat|
      invariant Forward(f, mat, m, inv, row)
      invariant forall k :: 0 <= k <= row ==> LeadingRegular(f, mat, k)
    {
      ok, m, inv := ReduceRow(f, mat, m, inv, row);
      if !ok { return; }
    }
    ok := true;
  }

  function Identity<T(!new)>(f: Field<T>, n: nat): (r: Matrix<T>)
    ensures |r| == n && forall i :: 0 <= i < n ==> r[i] == Unit(f, n, i)
  {
    seq(n, i requires 0 <= i => Unit(f, n, i))
  }

  /** Rows from `row` on are unit vectors, the rows before are still upper triangular. */
  ghost predicate Backward<T(!new)>(f: Field<T>, mat: Matrix<T>, m: Matrix<T>, inv: Matrix<T>, row: nat)
    requires IsMatrix(mat, |mat|, |mat|)
  {
    && Tracks(f, mat, m, inv)
    && (forall r :: 0 <= r < row && r < |mat| ==> UpperRow(f, m[r], r))
    && (forall r :: row <= r < |mat| ==> m[r] == Unit(f, |mat|, r))
  }

  /** Row `row` upper triangular, with the columns from `j` on cleared. */
  ghost predicate Cleared<T(!new)>(f: Field<T>, w: seq<T>, row: nat, j: nat)
    requires row < j <= |w|
  {
    UpperRow(f, w, row) && forall c :: j <= c < |w| ==> w[c] == f.zero
  }

  lemma ClearStep<T(!new)>(f: Field<T>, w: seq<T>, row: nat, j: nat)
    requires f.Lawful() && row < j < |w| && Cleared(f, w, row, j + 1)
    ensures Cleared(f, RowSub(f, w, Unit(f, |w|, j), w[j]), row, j)
    ensures forall c :: 0 <= c < j ==> RowSub(f, w, Unit(f, |w|, j), w[j])[c] == w[c]
  {
    forall c | 0 <= c < |w| ensures RowSub(f, w, Unit(f, |w|, j), w[j])[c] == if c == j then f.zero else w[c] {
      SubMulUnit(f, w[c], w[j]);
    }
  }

  /** The debug build's matrix while row `row` of `start` is being cleared from the right down to column `j`. */
  ghost predicate Clearing<T(!new)>(f: Field<T>, mat: Matrix<T>, start: Matrix<T>, md: Matrix<T>, inv: Matrix<T>,
                                    row: nat, j: nat)
    requires IsMatrix(mat, |mat|, |mat|) && IsMatrix(start, |mat|, |mat|) && row < j <= |mat|
  {
    && Tracks(f, mat, md, inv) && Cleared(f, md[row], row, j)
    && (forall r :: 0 <= r < |mat| && r != row ==> md[r] == start[r])
    && (forall c :: 0 <= c < j ==> md[row][c] == start[row][c])
  }

  lemma TracksRow<T(!new)>(f: Field<T>, mat: Matrix<T>, m: Matrix<T>, inv: Matrix<T>, row: nat, w: seq<T>, u: seq<T>)
    requires IsMatrix(mat, |mat|, |mat|) && Tracks(f, mat, m, inv) && row < |mat| && IsProduct(f, u, mat, w)
    ensures Tracks(f, mat, m[row := w], inv[row := u])
  {
  }

  lemma ClearingStep<T(!new)>(f: Field<T>, mat: Matrix<T>, start: Matrix<T>, md: Matrix<T>, inv: Matrix<T>,
                              row: nat, j: nat)
    requires f.Lawful() && IsMatrix(mat, |mat|, |mat|) && IsMatrix(start, |mat|, |mat|) && row < j < |mat|
    requires Clearing(f, mat, start, md, inv, row, j + 1) && start[j] == Unit(f, |mat|, j)
    ensures Clearing(f, mat, start, md[row := RowSub(f, md[row], md[j], md[row][j])],
                     inv[row := RowSub(f, inv[row], inv[j], md[row][j])], row, j)
  {
    var el := md[row][j];
    ClearStep(f, md[row], row, j);
    SubKeepsProduct(f, mat, el, inv[j], md[j], inv[row], md[row]);
    TracksRow(f, mat, md, inv, row, RowSub(f, md[row], md[j], el), RowSub(f, inv[row], inv[j], el));
  }

  /** One column of one row of the second pass. */
  method BackwardColumn<T(!new)>(f: Field<T>, debug: bool, ghost mat: Matrix<T>, m0: Matrix<T>, inv0: Matrix<T>,
                                 row: nat, j: nat, ghost start: Matrix<T>, ghost md0: Matrix<T>)
    returns (m: Matrix<T>, inv: Matrix<T>, ghost md: Matrix<T>)
    requires f.Lawful() && IsMatrix(mat, |mat|, |mat|) && IsMatrix(start, |mat|, |mat|) && row < j < |mat|
    requires Clearing(f, mat, start, md0, inv0, row, j + 1) && start[j] == Unit(f, |mat|, j)
    requires IsMatrix(m0, |mat|, |mat|) && m0[row][j] == start[row][j] && (debug ==> m0 == md0)
    ensures Clearing(f, mat, start, md, inv, row, j)
    ensures m == if debug then md else m0
  {
    ClearingStep(f, mat, start, md0, inv0, row, j);
    m, inv, md := ClearAbove(f, debug, m0, inv0, row, j, md0);
  }

  /** One row of the second pass. A release build leaves `m` alone: the entries it reads are the ones a debug build,
      whose matrix is `md`, has not cleared yet. */
  method BackwardRow<T(!new)>(f: Field<T>, debug: bool, ghost mat: Matrix<T>, m0: Matrix<T>, inv0: Matrix<T>, row: nat,
                              ghost md0: Matrix<T>)
    returns (m: Matrix<T>, inv: Matrix<T>, ghost md: Matrix<T>)
    requires f.Lawful() && IsMatrix(mat, |mat|, |mat|) && row < |mat| && Backward(f, mat, md0, inv0, row + 1)
    requires IsMatrix(m0, |mat|, |mat|) && m0[row] == md0[row] && (debug ==> m0 == md0)
    ensures Backward(f, mat, md, inv, row)
    ensures m == if debug then md else m0
    ensures forall r :: 0 <= r < row ==> md[r] == md0[r]
  {
    m, inv, md := m0, inv0, md0;
    var j := |m|;
    while j > row + 1
      invariant row < j <= |mat| && Clearing(f, mat, md0, md, inv, row, j)
      invariant m == if debug then md else m0
    {
      j := j - 1;
      m, inv, md := BackwardColumn(f, debug, mat, m, inv, row, j, md0, md);
    }
    assert md[row] == Unit(f, |mat|, row);
  }

  /** The two passes. The result is a two-sided inverse, and there is one exactly when every leading block of
      the matrix is regular; an empty or non-square matrix panics as well. All this holds of debug and release builds,
      and the final assertions of a debug build hold. */
  method MatrixInverse<T(==, !new)>(f: Field<T>, debug: bool, mat: Matrix<T>) returns (r: Option<Matrix<T>>)
    requires f.Lawful() && (mat != [] ==> IsMatrix(mat, |mat|, |mat[0]|))
    ensures r.Some? <==> mat != [] && |mat[0]| == |mat| && forall k :: 0 <= k <= |mat| ==> LeadingRegular(f, mat, k)
    ensures r.Some? ==> LeftInverse(f, r.value, mat) && LeftInverse(f, mat, r.value)
  {
    if mat == [] || |mat[0]| != |mat| { return None; }
    var ok, m, inv := Triangulate(f, mat);
    if !ok { return None; }
    ghost var md := m;
    var row := |mat|;
    while row > 0
      invariant 0 <= row <= |mat| && Backward(f, mat, md, inv, row)
      invariant IsMatrix(m, |mat|, |mat|) && (debug ==> m == md) && forall r :: 0 <= r < row ==> m[r] == md[r]
    {
      row := row - 1;
      m, inv, md := BackwardRow(f, debug, mat, m, inv, row, md);
    }
    assert debug ==> forall i, c :: 0 <= i < |m| && 0 <= c < |m[i]| ==> m[i][c] == if i == c then f.one else f.zero;
    LeftInverseIsRight(f, mat, inv);
    return Some(inv);
  }

  /** Regularity of the whole matrix is not enough: the exchange of two coordinates is its own inverse, and
      elimination without pivoting refuses it because its first leading block is zero. */
  lemma ExchangeRefused<T(!new)>(f: Field<T>)
    requires f.Lawful()
    ensures var mat := [[f.zero, f.one], [f.one, f.zero]];
            LeftInverse(f, mat, mat) && !LeadingRegular(f, mat, 1)
  {
    var mat := [[f.zero, f.one], [f.one, f.zero]];
    assert Column(mat, 0) == Unit(f, 2, 1) && Column(mat, 1) == Unit(f, 2, 0);
    assert mat[0] == Unit(f, 2, 1) && mat[1] == Unit(f, 2, 0);
    forall i, c | 0 <= i < 2 && 0 <= c < 2 ensures Unit(f, 2, i)[c] == Dot(f, mat[i], Column(mat, c)) {
      DotUnit(f, 2, 1 - i, Column(mat, c));
    }
    assert KillsLeading(f, mat, 1, mat[1]);
    assert mat[1][0] != Zeros(f, 2)[0];
  }
}

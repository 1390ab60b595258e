/** Vectors and matrices over a field, as sequences. */
module LinearAlgebra {
  import opened Fields

  type Matrix<T> = seq<seq<T>>

  ghost predicate IsMatrix<T>(m: Matrix<T>, rows: nat, cols: nat) {
    |m| == rows && forall i :: 0 <= i < rows ==> |m[i]| == cols
  }

  /** The sum of products, accumulated from the left. */
  function Dot<T(!new)>(f: Field<T>, u: seq<T>, v: seq<T>): T
    requires |u| == |v|
  {
    if |u| == 0 then f.zero
    else f.add(Dot(f, u[..|u| - 1], v[..|v| - 1]), f.mul(u[|u| - 1], v[|v| - 1]))
  }

  /** `u + c * w` */
  function Axpy<T(!new)>(f: Field<T>, c: T, w: seq<T>, u: seq<T>): (r: seq<T>)
    requires |w| == |u|
    ensures |r| == |u| && forall i :: 0 <= i < |u| ==> r[i] == f.add(u[i], f.mul(c, w[i]))
  {
    seq(|u|, i requires 0 <= i < |u| => f.add(u[i], f.mul(c, w[i])))
  }

  function Column<T(!new)>(m: Matrix<T>, c: nat): (r: seq<T>)
    requires forall i :: 0 <= i < |m| ==> c < |m[i]|
    ensures |r| == |m| && forall i :: 0 <= i < |m| ==> r[i] == m[i][c]
  {
    seq(|m|, i requires 0 <= i < |m| => m[i][c])
  }

  function Unit<T(!new)>(f: Field<T>, n: nat, i: nat): (r: seq<T>)
    ensures |r| == n && forall k :: 0 <= k < n ==> r[k] == if k == i then f.one else f.zero
  {
    seq(n, k => if k == i then f.one else f.zero)
  }

  function Zeros<T(!new)>(f: Field<T>, n: nat): (r: seq<T>)
    ensures |r| == n && forall k :: 0 <= k < n ==> r[k] == f.zero
  {
    seq(n, _ => f.zero)
  }

  function MatVec<T(!new)>(f: Field<T>, m: Matrix<T>, v: seq<T>): (r: seq<T>)
    requires forall i :: 0 <= i < |m| ==> |m[i]| == |v|
    ensures |r| == |m| && forall i :: 0 <= i < |m| ==> r[i] == Dot(f, m[i], v)
  {
    seq(|m|, i requires 0 <= i < |m| => Dot(f, m[i], v))
  }

  function VecMat<T(!new)>(f: Field<T>, u: seq<T>, m: Matrix<T>, cols: nat): (r: seq<T>)
    requires IsMatrix(m, |u|, cols)
    ensures |r| == cols && forall c :: 0 <= c < cols ==> r[c] == Dot(f, u, Column(m, c))
  {
    seq(cols, c requires 0 <= c < cols => Dot(f, u, Column(m, c)))
  }

  // ---------------------------------------------------------------- dot products

  lemma {:induction false} DotAxpy<T(!new)>(f: Field<T>, c: T, w: seq<T>, u: seq<T>, v: seq<T>)
    requires f.Lawful() && |w| == |u| == |v|
    ensures Dot(f, Axpy(f, c, w, u), v) == f.add(Dot(f, u, v), f.mul(c, Dot(f, w, v)))
  {
    var n := |u| - 1;
    if n < 0 {
      f.MulZero(c);
      f.AddZero(f.zero);
    } else {
      var a, b := Dot(f, u[..n], v[..n]), Dot(f, w[..n], v[..n]);
      DotAxpy(f, c, w[..n], u[..n], v[..n]);
      assert Axpy(f, c, w, u)[..n] == Axpy(f, c, w[..n], u[..n]);
      AxpyTerm(f, c, a, b, u[n], w[n], v[n]);
    }
  }

  lemma AxpyTerm<T(!new)>(f: Field<T>, c: T, a: T, b: T, x: T, y: T, z: T)
    requires f.Lawful()
    ensures f.add(f.add(a, f.mul(c, b)), f.mul(f.add(x, f.mul(c, y)), z))
         == f.add(f.add(a, f.mul(x, z)), f.mul(c, f.add(b, f.mul(y, z))))
  {
    f.MulAdd(x, f.mul(c, y), z);
    assert f.MulAssociates(c, y, z);
    assert f.Distributes(c, b, f.mul(y, z));
    f.Interchange(a, f.mul(c, b), f.mul(x, z), f.mul(c, f.mul(y, z)));
  }

  lemma {:induction false} DotCommutes<T(!new)>(f: Field<T>, u: seq<T>, v: seq<T>)
    requires f.Lawful() && |u| == |v|
    ensures Dot(f, u, v) == Dot(f, v, u)
  {
    var n := |u| - 1;
    if n >= 0 {
      DotCommutes(f, u[..n], v[..n]);
      assert f.MulCommutes(u[n], v[n]);
    }
  }

  lemma {:induction false} DotZeros<T(!new)>(f: Field<T>, u: seq<T>, v: seq<T>)
    requires f.Lawful() && |u| == |v| && forall i :: 0 <= i < |u| ==> u[i] == f.zero
    ensures Dot(f, u, v) == f.zero
  {
    var n := |u| - 1;
    if n >= 0 {
      DotZeros(f, u[..n], v[..n]);
      f.MulZero(v[n]);
      f.AddZero(f.zero);
    }
  }

  /** A unit vector picks out one component. */
  lemma {:induction false} DotUnit<T(!new)>(f: Field<T>, n: nat, i: nat, v: seq<T>)
    requires f.Lawful() && |v| == n && i < n
    ensures Dot(f, Unit(f, n, i), v) == v[i]
    decreases n
  {
    var u, k := Unit(f, n, i), n - 1;
    if i == k {
      DotZeros(f, u[..k], v[..k]);
      f.MulOne(v[k]);
      f.AddZero(v[k]);
    } else {
      assert u[..k] == Unit(f, k, i);
      DotUnit(f, k, i, v[..k]);
      f.MulZero(v[k]);
      f.AddZero(v[i]);
    }
  }

  /** `(u B) z == u (B z)` */
  lemma {:induction false} DotAssociates<T(!new)>(f: Field<T>, u: seq<T>, m: Matrix<T>, cols: nat, z: seq<T>)
    requires f.Lawful() && IsMatrix(m, |u|, cols) && |z| == cols
    ensures Dot(f, VecMat(f, u, m, cols), z) == Dot(f, u, MatVec(f, m, z))
    decreases |u|
  {
    var n := |u| - 1;
    if n < 0 {
      DotZeros(f, VecMat(f, u, m, cols), z);
    } else {
      var u', m' := u[..n], m[..n];
      DotAssociates(f, u', m', cols, z);
      DotAxpy(f, u[n], m[n], VecMat(f, u', m', cols), z);
      assert VecMat(f, u, m, cols) == Axpy(f, u[n], m[n], VecMat(f, u', m', cols)) by {
        forall c | 0 <= c < cols ensures VecMat(f, u, m, cols)[c] == Axpy(f, u[n], m[n], VecMat(f, u', m', cols))[c] {
          assert Column(m, c)[..n] == Column(m', c);
        }
      }
      assert MatVec(f, m, z)[..n] == MatVec(f, m', z);
    }
  }
}

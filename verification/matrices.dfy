/** Fixed-size vectors and matrices of reals, as rows of rows.

    The C source works on `double v[n]` and `double m[r][c]` fields of a
    struct; here a vector is a `seq<real>` and a matrix a `seq<seq<real>>`
    whose shape is stated by `IsMatrix`. Writing one cell of a matrix is
    `SetEntry`, the value-level counterpart of `m[i][j] = v`.
 */
module Matrices {

  type Vector = seq<real>
  type Matrix = seq<seq<real>>

  /** m has exactly `rows` rows of exactly `cols` entries each. */
  predicate IsMatrix(m: Matrix, rows: nat, cols: nat)
  {
    |m| == rows && forall i :: 0 <= i < rows ==> |m[i]| == cols
  }

  /** A square matrix equal to its own transpose. */
  predicate Symmetric(m: Matrix)
  {
    IsMatrix(m, |m|, |m|) &&
    forall i, j :: 0 <= i < |m| && 0 <= j < |m| ==> m[i][j] == m[j][i]
  }

  /** The matrix m with the single cell (i, j) overwritten by v. */
  function SetEntry(m: Matrix, i: nat, j: nat, v: real): (r: Matrix)
    requires i < |m| && j < |m[i]|
    ensures |r| == |m|
    ensures forall a {:trigger r[a]} :: 0 <= a < |m| ==> |r[a]| == |m[a]|
    ensures forall a, b {:trigger r[a][b]} :: 0 <= a < |m| && 0 <= b < |m[a]| ==>
      r[a][b] == (if a == i && b == j then v else m[a][b])
  {
    m[i := m[i][j := v]]
  }

  /** The loop `for (i = 0; i < n; ++i) m[i][i] = v;` on a square matrix:
      the first n diagonal cells become v and every other cell keeps its
      value, so symmetry is preserved. */
  function FillDiagonal(m: Matrix, n: nat, v: real): (r: Matrix)
    requires IsMatrix(m, |m|, |m|) && n <= |m|
    ensures IsMatrix(r, |m|, |m|)
    ensures forall a, b {:trigger r[a][b]} :: 0 <= a < |m| && 0 <= b < |m| ==>
      r[a][b] == (if a == b && a < n then v else m[a][b])
    ensures Symmetric(m) ==> Symmetric(r)
  {
    if n == 0 then m else SetEntry(FillDiagonal(m, n - 1, v), n - 1, n - 1, v)
  }

  /** Two matrices of the same shape that agree cell by cell are equal. */
  lemma MatrixExtensionality(a: Matrix, b: Matrix, rows: nat, cols: nat)
    requires IsMatrix(a, rows, cols) && IsMatrix(b, rows, cols)
    requires forall i, j :: 0 <= i < rows && 0 <= j < cols ==> a[i][j] == b[i][j]
    ensures a == b
  {
    forall i | 0 <= i < rows
      ensures a[i] == b[i]
    {
      assert |a[i]| == |b[i]| == cols;
    }
  }

  /** Sum of u[k] * v[k] over k < n, accumulated from index 0 upwards. */
  function DotPrefix(u: Vector, v: Vector, n: nat): real
    requires n <= |u| && n <= |v|
  {
    if n == 0 then 0.0 else DotPrefix(u, v, n - 1) + u[n - 1] * v[n - 1]
  }

  function Dot(u: Vector, v: Vector): real
    requires |u| == |v|
  {
    DotPrefix(u, v, |u|)
  }

  /** Matrix-vector product m * v. */
  function MatVec(m: Matrix, v: Vector): (r: Vector)
    requires forall i :: 0 <= i < |m| ==> |m[i]| == |v|
    ensures |r| == |m|
    ensures forall i :: 0 <= i < |m| ==> r[i] == Dot(m[i], v)
  {
    seq(|m|, i requires 0 <= i < |m| => Dot(m[i], v))
  }

  /** A prefix sum over a vector that is zero outside the two indices a and b
      picks up exactly the terms at a and b that lie inside the prefix. */
  lemma {:induction false} DotPrefixOfTwoEntries(u: Vector, v: Vector, a: nat, b: nat, n: nat)
    requires |u| == |v| && n <= |u| && a != b
    requires forall k :: 0 <= k < |u| && k != a && k != b ==> u[k] == 0.0
    ensures DotPrefix(u, v, n) ==
      (if a < n then u[a] * v[a] else 0.0) + (if b < n then u[b] * v[b] else 0.0)
  {
    if n > 0 {
      DotPrefixOfTwoEntries(u, v, a, b, n - 1);
    }
  }

  /** The dot product with a row that has at most two non-zero entries. */
  lemma DotOfTwoEntries(u: Vector, v: Vector, a: nat, b: nat)
    requires |u| == |v| && a < |u| && b < |u| && a != b
    requires forall k :: 0 <= k < |u| && k != a && k != b ==> u[k] == 0.0
    ensures Dot(u, v) == u[a] * v[a] + u[b] * v[b]
  {
    DotPrefixOfTwoEntries(u, v, a, b, |u|);
  }
}

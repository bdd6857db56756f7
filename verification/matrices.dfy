/**
 Dense real matrices as values (`seq<seq<real>>`) and their link to the
 in-place `array2<real>` buffers the algorithm mutates.
 */
module Matrices {

  type Matrix = seq<seq<real>>

  /** `m` has `rows` rows of `cols` cells each. */
  predicate IsShape(m: Matrix, rows: nat, cols: nat) {
    |m| == rows && forall i :: 0 <= i < rows ==> |m[i]| == cols
  }

  predicate IsSquare(m: Matrix, n: nat) {
    IsShape(m, n, n)
  }

  predicate Symmetric(m: Matrix, n: nat)
    requires IsSquare(m, n)
  {
    forall i, j :: 0 <= i < n && 0 <= j < n ==> m[i][j] == m[j][i]
  }

  /** `np.zeros((rows, cols))` */
  function Zeros(rows: nat, cols: nat): (m: Matrix)
    ensures IsShape(m, rows, cols)
  {
    seq(rows, i => seq(cols, j => 0.0))
  }

  /** `np.identity(n)` */
  function Identity(n: nat): (m: Matrix)
    ensures IsSquare(m, n)
  {
    seq(n, i => seq(n, j => if i == j then 1.0 else 0.0))
  }

  /** `m.T` for an m with `cols` columns. */
  function Transpose(m: Matrix, cols: nat): (t: Matrix)
    requires IsShape(m, |m|, cols)
    ensures IsShape(t, cols, |m|)
    ensures forall i, j :: 0 <= i < cols && 0 <= j < |m| ==> t[i][j] == m[j][i]
  {
    seq(cols, i requires 0 <= i < cols => seq(|m|, j requires 0 <= j < |m| => m[j][i]))
  }

  /** Column `j` of `m`, top to bottom. */
  function Column(m: Matrix, j: nat): (c: seq<real>)
    requires forall i :: 0 <= i < |m| ==> j < |m[i]|
    ensures |c| == |m|
  {
    seq(|m|, i requires 0 <= i < |m| => m[i][j])
  }

  /** The current contents of an array buffer, as a value. */
  function Snapshot(a: array2<real>): (m: Matrix)
    reads a
    ensures IsShape(m, a.Length0, a.Length1)
    ensures forall i, j :: 0 <= i < a.Length0 && 0 <= j < a.Length1 ==> m[i][j] == a[i, j]
  {
    seq(a.Length0, i requires 0 <= i < a.Length0 reads a =>
      seq(a.Length1, j requires 0 <= j < a.Length1 reads a => a[i, j]))
  }

  /** Two matrices of one shape that agree cell by cell are equal. */
  lemma {:induction false} CellwiseEqual(m: Matrix, n: Matrix, rows: nat, cols: nat)
    requires IsShape(m, rows, cols) && IsShape(n, rows, cols)
    requires forall i, j :: 0 <= i < rows && 0 <= j < cols ==> m[i][j] == n[i][j]
    ensures m == n
  {
    forall i | 0 <= i < rows
      ensures m[i] == n[i]
    {
      assert forall j :: 0 <= j < cols ==> m[i][j] == n[i][j];
    }
  }

  /** A fresh buffer holding `m` (what numpy does when it materialises a result). */
  method ToArray(m: Matrix, rows: nat, cols: nat) returns (a: array2<real>)
    requires IsShape(m, rows, cols)
    ensures fresh(a)
    ensures a.Length0 == rows && a.Length1 == cols
    ensures Snapshot(a) == m
  {
    a := new real[rows, cols]((i, j) requires 0 <= i < rows && 0 <= j < cols => m[i][j]);
    CellwiseEqual(Snapshot(a), m, rows, cols);
  }

  /** `x.copy()` */
  method Copy(x: array2<real>) returns (a: array2<real>)
    ensures fresh(a)
    ensures a.Length0 == x.Length0 && a.Length1 == x.Length1
    ensures Snapshot(a) == Snapshot(x)
  {
    a := ToArray(Snapshot(x), x.Length0, x.Length1);
  }
}

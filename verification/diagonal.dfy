/**
 `update_diagonal` of `puma_loop` (lines 142-147): the diagonal of a square
 similarity matrix is replaced, row by row, by `std * num * exp(2 alpha step)`
 where `std` is the spread of that row's off-diagonal cells (the diagonal is
 first set to NaN, and `nanstd` skips it). The standard deviation and the
 exponential are floating point and are taken as given functions.
 */
module DiagonalUpdate {
  import opened Matrices

  /** Row i without its diagonal cell: what `nanstd` sees once the diagonal is NaN. */
  function OffDiagonalRow(m: Matrix, n: nat, i: nat): (r: seq<real>)
    requires IsSquare(m, n) && i < n
    ensures |r| == n - 1
  {
    m[i][..i] + m[i][i + 1..]
  }

  /** The new diagonal value of every row: `diagonal_std * num * exp(2 * alpha * step)`. */
  function DiagonalFill(m: Matrix, n: nat, num: nat, growth: real, stdev: seq<real> -> real): (fill: seq<real>)
    requires IsSquare(m, n)
    ensures |fill| == n
  {
    seq(n, i requires 0 <= i < n => stdev(OffDiagonalRow(m, n, i)) * (num as real) * growth)
  }

  /** The matrix after `update_diagonal`, with `growth` standing for `exp(2 * alpha * step)`. */
  function Stabilize(m: Matrix, n: nat, num: nat, growth: real, stdev: seq<real> -> real): (r: Matrix)
    requires IsSquare(m, n)
    ensures IsSquare(r, n)
  {
    var fill := DiagonalFill(m, n, num, growth, stdev);
    seq(n, i requires 0 <= i < n => seq(n, j requires 0 <= j < n => if i == j then fill[i] else m[i][j]))
  }

  /** Only the diagonal changes: every off-diagonal cell is the same before and after. */
  lemma StabilizeKeepsOffDiagonal(m: Matrix, n: nat, num: nat, growth: real, stdev: seq<real> -> real)
    requires IsSquare(m, n)
    ensures forall i, j :: 0 <= i < n && 0 <= j < n && i != j ==>
      Stabilize(m, n, num, growth, stdev)[i][j] == m[i][j]
  {
  }

  /**
   The old diagonal does not matter: two matrices that agree off the
   diagonal stabilize to the same matrix.
   */
  lemma StabilizeIgnoresDiagonal(m: Matrix, m': Matrix, n: nat, num: nat, growth: real, stdev: seq<real> -> real)
    requires IsSquare(m, n) && IsSquare(m', n)
    requires forall i, j :: 0 <= i < n && 0 <= j < n && i != j ==> m[i][j] == m'[i][j]
    ensures Stabilize(m, n, num, growth, stdev) == Stabilize(m', n, num, growth, stdev)
  {
    forall i | 0 <= i < n
      ensures OffDiagonalRow(m, n, i) == OffDiagonalRow(m', n, i)
    {
      var row, row' := OffDiagonalRow(m, n, i), OffDiagonalRow(m', n, i);
      forall q | 0 <= q < n - 1 ensures row[q] == row'[q] {
        if q < i {
          assert row[q] == m[i][q] && row'[q] == m'[i][q];
        } else {
          assert row[q] == m[i][q + 1] && row'[q] == m'[i][q + 1];
        }
      }
    }
    var fill, fill' := DiagonalFill(m, n, num, growth, stdev), DiagonalFill(m', n, num, growth, stdev);
    forall i | 0 <= i < n ensures fill[i] == fill'[i] {
      assert OffDiagonalRow(m, n, i) == OffDiagonalRow(m', n, i);
    }
    CellwiseEqual(Stabilize(m, n, num, growth, stdev), Stabilize(m', n, num, growth, stdev), n, n);
  }

  /** Changing only the diagonal keeps a symmetric matrix symmetric. */
  lemma StabilizeSymmetric(m: Matrix, n: nat, num: nat, growth: real, stdev: seq<real> -> real)
    requires IsSquare(m, n) && Symmetric(m, n)
    ensures Symmetric(Stabilize(m, n, num, growth, stdev), n)
  {
  }

  /**
   Lines 142-147 on a square buffer: the fill values are computed from the
   off-diagonal cells, then written with `np.fill_diagonal`.
   */
  method UpdateDiagonal(d: array2<real>, num: nat, alpha: real, step: nat,
                        stdev: seq<real> -> real, exp: real -> real)
    requires d.Length0 == d.Length1
    modifies d
    ensures Snapshot(d) == Stabilize(old(Snapshot(d)), d.Length0, num, exp(2.0 * alpha * (step as real)), stdev)
  {
    var n := d.Length0;
    var fill := DiagonalFill(Snapshot(d), n, num, exp(2.0 * alpha * (step as real)), stdev);
    for i := 0 to n
      invariant forall p, q :: 0 <= p < n && 0 <= q < n ==> d[p, q] == if p == q && p < i then fill[p] else old(d[p, q])
    {
      d[i, i] := fill[i];
    }
    CellwiseEqual(Snapshot(d), Stabilize(old(Snapshot(d)), n, num, exp(2.0 * alpha * (step as real)), stdev), n, n);
  }
}

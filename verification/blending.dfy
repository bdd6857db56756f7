/**
 The learning-rate blend `M *= (1 - alpha); M += alpha * W` that the loop
 applies in place to the motif, PPI and correlation matrices.
 */
module Blending {
  import opened Matrices

  /** The fixed learning rate `alpha = 0.1`. */
  const ALPHA: real := 0.1

  /** The blend of `m` towards `w`, cell by cell. */
  function Blend(m: Matrix, w: Matrix, alpha: real, rows: nat, cols: nat): (r: Matrix)
    requires IsShape(m, rows, cols) && IsShape(w, rows, cols)
    ensures IsShape(r, rows, cols)
  {
    seq(rows, i requires 0 <= i < rows =>
      seq(cols, j requires 0 <= j < cols => (1.0 - alpha) * m[i][j] + alpha * w[i][j]))
  }

  /** Blending two symmetric matrices gives a symmetric matrix. */
  lemma BlendSymmetric(m: Matrix, w: Matrix, alpha: real, n: nat)
    requires IsSquare(m, n) && IsSquare(w, n)
    requires Symmetric(m, n) && Symmetric(w, n)
    ensures Symmetric(Blend(m, w, alpha, n, n), n)
  {
  }

  /** With 0 <= alpha <= 1 every blended cell lies between the old cell and the new estimate. */
  lemma BlendBetween(m: Matrix, w: Matrix, alpha: real, rows: nat, cols: nat, i: nat, j: nat)
    requires IsShape(m, rows, cols) && IsShape(w, rows, cols)
    requires 0.0 <= alpha <= 1.0 && i < rows && j < cols
    ensures var r := Blend(m, w, alpha, rows, cols)[i][j];
      (m[i][j] <= w[i][j] ==> m[i][j] <= r <= w[i][j]) &&
      (w[i][j] <= m[i][j] ==> w[i][j] <= r <= m[i][j])
  {
    var r := Blend(m, w, alpha, rows, cols)[i][j];
    var d := w[i][j] - m[i][j];
    assert r == m[i][j] + alpha * d;
    assert r == w[i][j] - (1.0 - alpha) * d;
    if d >= 0.0 {
      assert alpha * d >= 0.0 && (1.0 - alpha) * d >= 0.0;
    } else {
      assert alpha * d <= 0.0 && (1.0 - alpha) * d <= 0.0;
    }
  }

  /**
   With the fixed rate, each blended cell is 0.9 times as far from the new
   estimate as the old cell was: the blend moves a tenth of the way.
   */
  lemma BlendContracts(m: Matrix, w: Matrix, rows: nat, cols: nat, i: nat, j: nat)
    requires IsShape(m, rows, cols) && IsShape(w, rows, cols)
    requires i < rows && j < cols
    ensures Blend(m, w, ALPHA, rows, cols)[i][j] - w[i][j] == 0.9 * (m[i][j] - w[i][j])
  {
  }

  /** A matrix that already equals the estimate is a fixed point of the blend. */
  lemma BlendFixedPoint(m: Matrix, alpha: real, rows: nat, cols: nat)
    requires IsShape(m, rows, cols)
    ensures Blend(m, m, alpha, rows, cols) == m
  {
    forall i, j | 0 <= i < rows && 0 <= j < cols
      ensures Blend(m, m, alpha, rows, cols)[i][j] == m[i][j]
    {
      assert (1.0 - alpha) * m[i][j] + alpha * m[i][j] == m[i][j];
    }
    CellwiseEqual(Blend(m, m, alpha, rows, cols), m, rows, cols);
  }

  /** `m *= factor`, in place. */
  method ScaleInPlace(m: array2<real>, factor: real)
    modifies m
    ensures forall i, j :: 0 <= i < m.Length0 && 0 <= j < m.Length1 ==> m[i, j] == factor * old(m[i, j])
  {
    for i := 0 to m.Length0
      invariant forall p, q :: 0 <= p < i && 0 <= q < m.Length1 ==> m[p, q] == factor * old(m[p, q])
      invariant forall p, q :: i <= p < m.Length0 && 0 <= q < m.Length1 ==> m[p, q] == old(m[p, q])
    {
      for j := 0 to m.Length1
        invariant forall p, q :: 0 <= p < i && 0 <= q < m.Length1 ==> m[p, q] == factor * old(m[p, q])
        invariant forall q :: 0 <= q < j ==> m[i, q] == factor * old(m[i, q])
        invariant forall p, q :: i <= p < m.Length0 && 0 <= q < m.Length1 && (p > i || q >= j) ==> m[p, q] == old(m[p, q])
      {
        m[i, j] := factor * m[i, j];
      }
    }
  }

  /** `m += factor * w`, in place. */
  method AddScaledInPlace(m: array2<real>, w: Matrix, factor: real)
    requires IsShape(w, m.Length0, m.Length1)
    modifies m
    ensures forall i, j :: 0 <= i < m.Length0 && 0 <= j < m.Length1 ==> m[i, j] == old(m[i, j]) + factor * w[i][j]
  {
    for i := 0 to m.Length0
      invariant forall p, q :: 0 <= p < i && 0 <= q < m.Length1 ==> m[p, q] == old(m[p, q]) + factor * w[p][q]
      invariant forall p, q :: i <= p < m.Length0 && 0 <= q < m.Length1 ==> m[p, q] == old(m[p, q])
    {
      for j := 0 to m.Length1
        invariant forall p, q :: 0 <= p < i && 0 <= q < m.Length1 ==> m[p, q] == old(m[p, q]) + factor * w[p][q]
        invariant forall q :: 0 <= q < j ==> m[i, q] == old(m[i, q]) + factor * w[i][q]
        invariant forall p, q :: i <= p < m.Length0 && 0 <= q < m.Length1 && (p > i || q >= j) ==> m[p, q] == old(m[p, q])
      {
        m[i, j] := m[i, j] + factor * w[i][j];
      }
    }
  }

  /**
   Lines 162-163, 169-170 and 181-182: the two in-place numpy updates
   together leave `Blend(old m, w)` in the buffer, with its shape unchanged.
   */
  method BlendInPlace(m: array2<real>, w: Matrix, alpha: real)
    requires IsShape(w, m.Length0, m.Length1)
    modifies m
    ensures Snapshot(m) == Blend(old(Snapshot(m)), w, alpha, m.Length0, m.Length1)
  {
    ScaleInPlace(m, 1.0 - alpha);
    AddScaledInPlace(m, w, alpha);
    CellwiseEqual(Snapshot(m), Blend(old(Snapshot(m)), w, alpha, m.Length0, m.Length1), m.Length0, m.Length1);
  }
}

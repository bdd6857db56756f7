/**
 The microRNA constraint mask applied to the PPI matrix after each PPI
 update (lines 173-176): the rows and columns of the constrained TFs are
 reset to the pre-loop PPI matrix `TFCoopInit`, and the diagonal is meant
 to keep the value it had just before the mask.

 Line 173 takes `ppi_matrix.diagonal()`, which numpy returns as a read-only
 VIEW of the matrix, not a copy. Lines 174-175 therefore also change what
 that view shows, and line 176 writes back the already-overwritten diagonal.
 As written, a constrained TF's diagonal cell ends up at its `TFCoopInit`
 value. `MaskAsWritten` models the code as it behaves, and is the one the
 loop uses; `Mask` models the intended save-and-restore.
 */
module ConstraintMask {
  import opened Matrices

  /** Every constrained index names a TF of an n x n PPI matrix. */
  predicate ValidIndices(s1: seq<nat>, n: nat) {
    forall k :: 0 <= k < |s1| ==> s1[k] < n
  }

  /** The mask as intended: constrained rows and columns from `init`, the diagonal from `cur`. */
  function Mask(cur: Matrix, init: Matrix, s1: seq<nat>, n: nat): (r: Matrix)
    requires IsSquare(cur, n) && IsSquare(init, n)
    ensures IsSquare(r, n)
  {
    seq(n, i requires 0 <= i < n => seq(n, j requires 0 <= j < n =>
      if i == j then cur[i][i]
      else if i in s1 || j in s1 then init[i][j]
      else cur[i][j]))
  }

  /** The mask as the code behaves: the diagonal restore re-reads overwritten cells. */
  function MaskAsWritten(cur: Matrix, init: Matrix, s1: seq<nat>, n: nat): (r: Matrix)
    requires IsSquare(cur, n) && IsSquare(init, n)
    ensures IsSquare(r, n)
  {
    seq(n, i requires 0 <= i < n => seq(n, j requires 0 <= j < n =>
      if i in s1 || j in s1 then init[i][j] else cur[i][j]))
  }

  /**
   As written, the diagonal of every constrained TF is its `TFCoopInit`
   value, and so differs from the value before the mask whenever the two
   differ. The smallest case: a 1 x 1 matrix holding 2.0, `TFCoopInit`
   holding 1.0 and TF 0 constrained gives 1.0, not 2.0.
   */
  lemma MaskAsWrittenLosesDiagonal(cur: Matrix, init: Matrix, s1: seq<nat>, n: nat)
    requires IsSquare(cur, n) && IsSquare(init, n)
    ensures forall k :: 0 <= k < |s1| && s1[k] < n ==>
      MaskAsWritten(cur, init, s1, n)[s1[k]][s1[k]] == init[s1[k]][s1[k]]
    ensures MaskAsWritten([[2.0]], [[1.0]], [0], 1)[0][0] == 1.0 != [[2.0]][0][0]
  {
    assert 0 in [0];
  }

  /**
   The intended properties. For a constrained TF k and any other TF j, the
   cells (k, j) and (j, k) come from `init`; every diagonal cell keeps its
   value from before the mask; a cell whose row and column are both
   unconstrained is untouched.
   */
  lemma MaskPinsConstrained(cur: Matrix, init: Matrix, s1: seq<nat>, n: nat)
    requires IsSquare(cur, n) && IsSquare(init, n)
    ensures var r := Mask(cur, init, s1, n);
      (forall k, j :: 0 <= k < n && 0 <= j < n && k in s1 && j != k ==>
        r[k][j] == init[k][j] && r[j][k] == init[j][k]) &&
      (forall i :: 0 <= i < n ==> r[i][i] == cur[i][i]) &&
      (forall i, j :: 0 <= i < n && 0 <= j < n && i !in s1 && j !in s1 ==> r[i][j] == cur[i][j])
  {
  }

  /**
   The code as written: for a constrained TF k and every TF j, diagonal
   included, the cells (k, j) and (j, k) come from `init`; a cell whose row
   and column are both unconstrained is untouched.
   */
  lemma MaskAsWrittenPins(cur: Matrix, init: Matrix, s1: seq<nat>, n: nat)
    requires IsSquare(cur, n) && IsSquare(init, n)
    ensures var r := MaskAsWritten(cur, init, s1, n);
      (forall k, j :: 0 <= k < n && 0 <= j < n && k in s1 ==>
        r[k][j] == init[k][j] && r[j][k] == init[j][k]) &&
      (forall i, j :: 0 <= i < n && 0 <= j < n && i !in s1 && j !in s1 ==> r[i][j] == cur[i][j])
  {
  }

  /**
   The two masks differ only on the diagonal cells of constrained TFs: there
   the code leaves `init`'s value, the intended mask the value before the mask.
   */
  lemma MasksDifferOnlyOnConstrainedDiagonal(cur: Matrix, init: Matrix, s1: seq<nat>, n: nat)
    requires IsSquare(cur, n) && IsSquare(init, n)
    ensures forall i, j :: 0 <= i < n && 0 <= j < n ==>
      (MaskAsWritten(cur, init, s1, n)[i][j] == Mask(cur, init, s1, n)[i][j] ||
       (i == j && i in s1))
    ensures forall i :: 0 <= i < n && i in s1 ==>
      MaskAsWritten(cur, init, s1, n)[i][i] == init[i][i] && Mask(cur, init, s1, n)[i][i] == cur[i][i]
  {
  }

  /** Applying the mask a second time with the same `init` and `s1` changes nothing. */
  lemma MaskIdempotent(cur: Matrix, init: Matrix, s1: seq<nat>, n: nat)
    requires IsSquare(cur, n) && IsSquare(init, n)
    ensures Mask(Mask(cur, init, s1, n), init, s1, n) == Mask(cur, init, s1, n)
  {
    CellwiseEqual(Mask(Mask(cur, init, s1, n), init, s1, n), Mask(cur, init, s1, n), n, n);
  }

  /** The code as written is idempotent as well. */
  lemma MaskAsWrittenIdempotent(cur: Matrix, init: Matrix, s1: seq<nat>, n: nat)
    requires IsSquare(cur, n) && IsSquare(init, n)
    ensures MaskAsWritten(MaskAsWritten(cur, init, s1, n), init, s1, n) == MaskAsWritten(cur, init, s1, n)
  {
    CellwiseEqual(MaskAsWritten(MaskAsWritten(cur, init, s1, n), init, s1, n), MaskAsWritten(cur, init, s1, n), n, n);
  }

  /** Masking a symmetric matrix with a symmetric `init` keeps it symmetric. */
  lemma MaskSymmetric(cur: Matrix, init: Matrix, s1: seq<nat>, n: nat)
    requires IsSquare(cur, n) && IsSquare(init, n)
    requires Symmetric(cur, n) && Symmetric(init, n)
    ensures Symmetric(Mask(cur, init, s1, n), n)
  {
  }

  /** The code as written also keeps a symmetric matrix symmetric, given a symmetric `init`. */
  lemma MaskAsWrittenSymmetric(cur: Matrix, init: Matrix, s1: seq<nat>, n: nat)
    requires IsSquare(cur, n) && IsSquare(init, n)
    requires Symmetric(cur, n) && Symmetric(init, n)
    ensures Symmetric(MaskAsWritten(cur, init, s1, n), n)
  {
  }

  /** Lines 174-175: `ppi[s1] = init[s1]`, then `ppi[:, s1] = init[:, s1]`. */
  method OverwriteConstrained(ppi: array2<real>, init: array2<real>, s1: seq<nat>)
    requires ppi != init
    requires ppi.Length0 == ppi.Length1 == init.Length0 == init.Length1
    requires ValidIndices(s1, ppi.Length0)
    modifies ppi
    ensures forall p, q :: 0 <= p < ppi.Length0 && 0 <= q < ppi.Length1 ==>
      ppi[p, q] == if p in s1 || q in s1 then init[p, q] else old(ppi[p, q])
  {
    var n := ppi.Length0;
    for idx := 0 to |s1|
      invariant forall p, q :: 0 <= p < n && 0 <= q < n ==>
        ppi[p, q] == if p in s1[..idx] then init[p, q] else old(ppi[p, q])
    {
      var k := s1[idx];
      for j := 0 to n
        invariant forall p, q :: 0 <= p < n && 0 <= q < n ==>
          ppi[p, q] == if p in s1[..idx] || (p == k && q < j) then init[p, q] else old(ppi[p, q])
      {
        ppi[k, j] := init[k, j];
      }
      assert s1[..idx + 1] == s1[..idx] + [k];
    }
    for idx := 0 to |s1|
      invariant forall p, q :: 0 <= p < n && 0 <= q < n ==>
        ppi[p, q] == if p in s1 || q in s1[..idx] then init[p, q] else old(ppi[p, q])
    {
      var k := s1[idx];
      for i := 0 to n
        invariant forall p, q :: 0 <= p < n && 0 <= q < n ==>
          ppi[p, q] == if p in s1 || q in s1[..idx] || (q == k && p < i) then init[p, q] else old(ppi[p, q])
      {
        ppi[i, k] := init[i, k];
      }
      assert s1[..idx + 1] == s1[..idx] + [k];
    }
    assert s1[..|s1|] == s1;
  }

  /**
   Lines 173-176 as intended: the diagonal is COPIED before the overwrite
   and written back after it.
   */
  method ApplyMask(ppi: array2<real>, init: array2<real>, s1: seq<nat>)
    requires ppi != init
    requires ppi.Length0 == ppi.Length1 == init.Length0 == init.Length1
    requires ValidIndices(s1, ppi.Length0)
    modifies ppi
    ensures Snapshot(ppi) == Mask(old(Snapshot(ppi)), Snapshot(init), s1, ppi.Length0)
  {
    var n := ppi.Length0;
    var saved := seq(n, i requires 0 <= i < n reads ppi => ppi[i, i]);
    OverwriteConstrained(ppi, init, s1);
    for i := 0 to n
      invariant forall p, q :: 0 <= p < n && 0 <= q < n ==>
        ppi[p, q] == if p == q && p < i then saved[p]
                     else if p in s1 || q in s1 then init[p, q] else old(ppi[p, q])
    {
      ppi[i, i] := saved[i];
    }
    CellwiseEqual(Snapshot(ppi), Mask(old(Snapshot(ppi)), Snapshot(init), s1, n), n, n);
  }

  /**
   Lines 173-176 as written: `TFCoopDiag` is a view of the matrix, so the
   restore reads each diagonal cell after the overwrite and writes it back.
   */
  method ApplyMaskAsWritten(ppi: array2<real>, init: array2<real>, s1: seq<nat>)
    requires ppi != init
    requires ppi.Length0 == ppi.Length1 == init.Length0 == init.Length1
    requires ValidIndices(s1, ppi.Length0)
    modifies ppi
    ensures Snapshot(ppi) == MaskAsWritten(old(Snapshot(ppi)), Snapshot(init), s1, ppi.Length0)
  {
    var n := ppi.Length0;
    OverwriteConstrained(ppi, init, s1);
    for i := 0 to n
      invariant forall p, q :: 0 <= p < n && 0 <= q < n ==>
        ppi[p, q] == if p in s1 || q in s1 then init[p, q] else old(ppi[p, q])
    {
      ppi[i, i] := ppi[i, i];  // `np.fill_diagonal(ppi_matrix, TFCoopDiag)` through the view
    }
    CellwiseEqual(Snapshot(ppi), MaskAsWritten(old(Snapshot(ppi)), Snapshot(init), s1, n), n, n);
  }
}

/**
 The convergence loop of `Puma.puma_loop` (lines 150-187). Each iteration
 forms the estimate `W` from the two-argument T-function, measures the
 distance `hamming` between the motif matrix and `W`, blends the motif
 matrix towards `W`, and, only while `hamming > 0.001`, updates the PPI
 matrix (T-function, diagonal update, blend, constraint mask) and the
 correlation matrix (T-function of the transpose, diagonal update, blend).
 The step counter advances once per iteration.

 The floating-point primitives are given as functions in `Numerics`: the
 element-wise `a / sqrt(b)`, `nanstd`, `math.exp` and the distance
 `mean(|M - W|)`. The source loop has no iteration cap; here it runs for at
 most `fuel` iterations, and nothing is claimed about convergence.
 */
module Puma {
  import opened Matrices
  import opened Affinity
  import opened Blending
  import opened DiagonalUpdate
  import opened ConstraintMask

  /** The convergence threshold of `while hamming > 0.001`. */
  const THRESHOLD: real := 0.001

  /** The floating-point operations the loop relies on, left uninterpreted. */
  datatype Numerics = Numerics(
    divRoot: (real, real) -> real,        // a / sqrt(b), element-wise
    stdev: seq<real> -> real,             // np.nanstd of a row
    exp: real -> real,                    // math.exp
    distance: (Matrix, Matrix) -> real)   // np.abs(M - W).mean()

  /** The loop's variables: the three matrices, `step` and `hamming`. */
  datatype LoopState = LoopState(motif: Matrix, ppi: Matrix, corr: Matrix, step: nat, hamming: real)

  predicate WellShaped(s: LoopState, tfs: nat, genes: nat) {
    IsShape(s.motif, tfs, genes) && IsSquare(s.ppi, tfs) && IsSquare(s.corr, genes)
  }

  /** Before the first iteration: `step = 0`, `hamming = 1`. */
  function Start(corr: Matrix, motif: Matrix, ppi: Matrix): (s: LoopState)
    ensures s.step == 0 && s.hamming > THRESHOLD
  {
    LoopState(motif, ppi, corr, 0, 1.0)
  }

  /** Line 160: `W = 0.5 * (t_function(ppi, motif) + t_function(motif, corr))`. */
  function Estimate(motif: Matrix, ppi: Matrix, corr: Matrix, tfs: nat, genes: nat, divRoot: (real, real) -> real): (w: Matrix)
    requires IsShape(motif, tfs, genes) && IsSquare(ppi, tfs) && IsSquare(corr, genes)
    ensures IsShape(w, tfs, genes)
  {
    var r := TransformPair(ppi, motif, tfs, genes, divRoot);
    var a := TransformPair(motif, corr, genes, genes, divRoot);
    seq(tfs, i requires 0 <= i < tfs => seq(genes, j requires 0 <= j < genes => 0.5 * (r[i][j] + a[i][j])))
  }

  /** `exp(2 * alpha * step)`, the growth factor of the diagonal update. */
  function Growth(ops: Numerics, step: nat): real {
    ops.exp(2.0 * ALPHA * (step as real))
  }

  /** Lines 167-176: the PPI update, blended and masked as the code does it (the diagonal re-read through the view). */
  function NextPpi(ppi: Matrix, motif: Matrix, init: Matrix, s1: seq<nat>, tfs: nat, genes: nat, step: nat, ops: Numerics): (r: Matrix)
    requires IsSquare(ppi, tfs) && IsShape(motif, tfs, genes) && IsSquare(init, tfs)
    ensures IsSquare(r, tfs)
  {
    var update := Stabilize(TransformSelf(motif, genes, ops.divRoot), tfs, tfs, Growth(ops, step), ops.stdev);
    MaskAsWritten(Blend(ppi, update, ALPHA, tfs, tfs), init, s1, tfs)
  }

  /** Lines 179-182: the correlation update from the transposed motif matrix, blended. */
  function NextCorr(corr: Matrix, motif: Matrix, tfs: nat, genes: nat, step: nat, ops: Numerics): (r: Matrix)
    requires IsSquare(corr, genes) && IsShape(motif, tfs, genes)
    ensures IsSquare(r, genes)
  {
    var update := Stabilize(TransformSelf(Transpose(motif, genes), tfs, ops.divRoot), genes, genes, Growth(ops, step), ops.stdev);
    Blend(corr, update, ALPHA, genes, genes)
  }

  /**
   One iteration of the loop body. The counter advances by one; the PPI and
   correlation matrices change only when the new `hamming` exceeds the
   threshold, the same test that decides whether the loop goes on.
   */
  function Iterate(s: LoopState, init: Matrix, s1: seq<nat>, tfs: nat, genes: nat, ops: Numerics): (r: LoopState)
    requires WellShaped(s, tfs, genes) && IsSquare(init, tfs)
    ensures WellShaped(r, tfs, genes)
    ensures r.step == s.step + 1
    ensures r.hamming <= THRESHOLD ==> r.ppi == s.ppi && r.corr == s.corr
  {
    var w := Estimate(s.motif, s.ppi, s.corr, tfs, genes, ops.divRoot);
    var hamming := ops.distance(s.motif, w);
    var motif := Blend(s.motif, w, ALPHA, tfs, genes);
    if hamming > THRESHOLD then
      LoopState(motif, NextPpi(s.ppi, motif, init, s1, tfs, genes, s.step, ops),
                NextCorr(s.corr, motif, tfs, genes, s.step, ops), s.step + 1, hamming)
    else
      LoopState(motif, s.ppi, s.corr, s.step + 1, hamming)
  }

  /** `while hamming > 0.001`, for at most `fuel` iterations. */
  function Run(s: LoopState, init: Matrix, s1: seq<nat>, tfs: nat, genes: nat, ops: Numerics, fuel: nat): (r: LoopState)
    requires WellShaped(s, tfs, genes) && IsSquare(init, tfs)
    decreases fuel
  {
    if fuel == 0 || s.hamming <= THRESHOLD then s
    else Run(Iterate(s, init, s1, tfs, genes, ops), init, s1, tfs, genes, ops, fuel - 1)
  }

  /** For every constrained TF k and every TF j, cells (k, j) and (j, k) equal `init`'s. */
  predicate Pinned(ppi: Matrix, init: Matrix, s1: seq<nat>, n: nat)
    requires IsSquare(ppi, n) && IsSquare(init, n)
  {
    forall k, j :: 0 <= k < n && 0 <= j < n && k in s1 ==>
      ppi[k][j] == init[k][j] && ppi[j][k] == init[j][k]
  }

  /** What every iteration preserves: shapes, symmetry of PPI and correlation, pinned PPI cells. */
  predicate LoopInvariant(s: LoopState, init: Matrix, s1: seq<nat>, tfs: nat, genes: nat) {
    WellShaped(s, tfs, genes) && IsSquare(init, tfs) &&
    Symmetric(s.ppi, tfs) && Symmetric(s.corr, genes) && Symmetric(init, tfs) &&
    Pinned(s.ppi, init, s1, tfs)
  }

  /** The state before the loop satisfies the invariant: the PPI matrix is `TFCoopInit` itself. */
  lemma StartEstablishesInvariant(corr: Matrix, motif: Matrix, ppi: Matrix, s1: seq<nat>, tfs: nat, genes: nat)
    requires IsShape(motif, tfs, genes) && IsSquare(ppi, tfs) && IsSquare(corr, genes)
    requires Symmetric(ppi, tfs) && Symmetric(corr, genes)
    ensures LoopInvariant(Start(corr, motif, ppi), ppi, s1, tfs, genes)
  {
  }

  /** The PPI update leaves the PPI matrix symmetric and pinned. */
  lemma NextPpiSymmetricPinned(ppi: Matrix, motif: Matrix, init: Matrix, s1: seq<nat>, tfs: nat, genes: nat, step: nat, ops: Numerics)
    requires IsSquare(ppi, tfs) && IsShape(motif, tfs, genes) && IsSquare(init, tfs)
    requires Symmetric(ppi, tfs) && Symmetric(init, tfs)
    ensures Symmetric(NextPpi(ppi, motif, init, s1, tfs, genes, step, ops), tfs)
    ensures Pinned(NextPpi(ppi, motif, init, s1, tfs, genes, step, ops), init, s1, tfs)
  {
    var t := TransformSelf(motif, genes, ops.divRoot);
    TransformSelfSymmetric(motif, genes, ops.divRoot);
    var update := Stabilize(t, tfs, tfs, Growth(ops, step), ops.stdev);
    StabilizeSymmetric(t, tfs, tfs, Growth(ops, step), ops.stdev);
    var blended := Blend(ppi, update, ALPHA, tfs, tfs);
    BlendSymmetric(ppi, update, ALPHA, tfs);
    MaskAsWrittenSymmetric(blended, init, s1, tfs);
    MaskAsWrittenPins(blended, init, s1, tfs);
  }

  /** The correlation update leaves the correlation matrix symmetric. */
  lemma NextCorrSymmetric(corr: Matrix, motif: Matrix, tfs: nat, genes: nat, step: nat, ops: Numerics)
    requires IsSquare(corr, genes) && IsShape(motif, tfs, genes) && Symmetric(corr, genes)
    ensures Symmetric(NextCorr(corr, motif, tfs, genes, step, ops), genes)
  {
    var mt := Transpose(motif, genes);
    var t := TransformSelf(mt, tfs, ops.divRoot);
    TransformSelfSymmetric(mt, tfs, ops.divRoot);
    var update := Stabilize(t, genes, genes, Growth(ops, step), ops.stdev);
    StabilizeSymmetric(t, genes, genes, Growth(ops, step), ops.stdev);
    BlendSymmetric(corr, update, ALPHA, genes);
  }

  /** One iteration preserves the invariant. */
  lemma IteratePreservesInvariant(s: LoopState, init: Matrix, s1: seq<nat>, tfs: nat, genes: nat, ops: Numerics)
    requires LoopInvariant(s, init, s1, tfs, genes)
    ensures LoopInvariant(Iterate(s, init, s1, tfs, genes, ops), init, s1, tfs, genes)
  {
    var w := Estimate(s.motif, s.ppi, s.corr, tfs, genes, ops.divRoot);
    var motif := Blend(s.motif, w, ALPHA, tfs, genes);
    NextPpiSymmetricPinned(s.ppi, motif, init, s1, tfs, genes, s.step, ops);
    NextCorrSymmetric(s.corr, motif, tfs, genes, s.step, ops);
  }

  /**
   After an iteration that does not converge, the constrained PPI cells are
   `init`'s whatever they held before.
   */
  lemma IteratePinsWhenRunning(s: LoopState, init: Matrix, s1: seq<nat>, tfs: nat, genes: nat, ops: Numerics)
    requires WellShaped(s, tfs, genes) && IsSquare(init, tfs)
    requires Iterate(s, init, s1, tfs, genes, ops).hamming > THRESHOLD
    ensures Pinned(Iterate(s, init, s1, tfs, genes, ops).ppi, init, s1, tfs)
  {
    var w := Estimate(s.motif, s.ppi, s.corr, tfs, genes, ops.divRoot);
    var motif := Blend(s.motif, w, ALPHA, tfs, genes);
    var update := Stabilize(TransformSelf(motif, genes, ops.divRoot), tfs, tfs, Growth(ops, s.step), ops.stdev);
    MaskAsWrittenPins(Blend(s.ppi, update, ALPHA, tfs, tfs), init, s1, tfs);
  }

  /**
   A motif matrix that already equals its estimate `W` is a fixed point of
   the motif update at lines 162-163, whatever the distance function reports.
   */
  lemma IterateKeepsMotifAtEstimate(s: LoopState, init: Matrix, s1: seq<nat>, tfs: nat, genes: nat, ops: Numerics)
    requires WellShaped(s, tfs, genes) && IsSquare(init, tfs)
    requires Estimate(s.motif, s.ppi, s.corr, tfs, genes, ops.divRoot) == s.motif
    ensures Iterate(s, init, s1, tfs, genes, ops).motif == s.motif
  {
    BlendFixedPoint(s.motif, ALPHA, tfs, genes);
  }

  /** The whole run preserves the invariant. */
  lemma {:induction false} RunPreservesInvariant(s: LoopState, init: Matrix, s1: seq<nat>, tfs: nat, genes: nat, ops: Numerics, fuel: nat)
    requires LoopInvariant(s, init, s1, tfs, genes)
    ensures LoopInvariant(Run(s, init, s1, tfs, genes, ops, fuel), init, s1, tfs, genes)
    decreases fuel
  {
    if fuel > 0 && s.hamming > THRESHOLD {
      IteratePreservesInvariant(s, init, s1, tfs, genes, ops);
      RunPreservesInvariant(Iterate(s, init, s1, tfs, genes, ops), init, s1, tfs, genes, ops, fuel - 1);
    }
  }

  /** A run that has fuel left and has not converged performs one iteration, then the rest of the run. */
  lemma RunUnfold(s: LoopState, init: Matrix, s1: seq<nat>, tfs: nat, genes: nat, ops: Numerics, fuel: nat)
    requires WellShaped(s, tfs, genes) && IsSquare(init, tfs)
    requires fuel > 0 && s.hamming > THRESHOLD
    ensures Run(s, init, s1, tfs, genes, ops, fuel) == Run(Iterate(s, init, s1, tfs, genes, ops), init, s1, tfs, genes, ops, fuel - 1)
  {
  }

  /** A run with no fuel left, or at a distance within the threshold, stays where it is. */
  lemma RunStops(s: LoopState, init: Matrix, s1: seq<nat>, tfs: nat, genes: nat, ops: Numerics, fuel: nat)
    requires WellShaped(s, tfs, genes) && IsSquare(init, tfs)
    requires fuel == 0 || s.hamming <= THRESHOLD
    ensures Run(s, init, s1, tfs, genes, ops, fuel) == s
  {
  }

  /**
   The run stops either because `hamming` reached the threshold or because
   the fuel ran out; the counter has advanced once per iteration run.
   */
  lemma {:induction false} RunSteps(s: LoopState, init: Matrix, s1: seq<nat>, tfs: nat, genes: nat, ops: Numerics, fuel: nat)
    requires WellShaped(s, tfs, genes) && IsSquare(init, tfs)
    ensures var r := Run(s, init, s1, tfs, genes, ops, fuel);
      s.step <= r.step <= s.step + fuel &&
      (r.hamming <= THRESHOLD || r.step == s.step + fuel) &&
      (r.step == s.step <==> r == s)
    decreases fuel
  {
    if fuel > 0 && s.hamming > THRESHOLD {
      RunSteps(Iterate(s, init, s1, tfs, genes, ops), init, s1, tfs, genes, ops, fuel - 1);
    }
  }

  /**
   Lines 160-187 on the three buffers, for one iteration at counter `step`.
   `TFCoopInit` is `init`; the fresh buffers stand for the arrays numpy
   allocates for each T-function result.
   */
  method IterateInPlace(motif: array2<real>, ppi: array2<real>, corr: array2<real>, init: array2<real>,
                        s1: seq<nat>, ops: Numerics, step: nat, ghost s: LoopState, ghost pinned: Matrix)
                        returns (hamming: real)
    requires motif != ppi && motif != corr && ppi != corr && init != motif && init != ppi && init != corr
    requires ppi.Length0 == ppi.Length1 == motif.Length0 == init.Length0 == init.Length1
    requires corr.Length0 == corr.Length1 == motif.Length1
    requires ValidIndices(s1, ppi.Length0)
    requires s.motif == Snapshot(motif) && s.ppi == Snapshot(ppi) && s.corr == Snapshot(corr) && s.step == step
    requires pinned == Snapshot(init)
    modifies motif, ppi, corr
    ensures LoopState(Snapshot(motif), Snapshot(ppi), Snapshot(corr), step + 1, hamming) ==
      Iterate(s, pinned, s1, motif.Length0, motif.Length1, ops)
  {
    var tfs, genes := motif.Length0, motif.Length1;
    var w := Estimate(Snapshot(motif), Snapshot(ppi), Snapshot(corr), tfs, genes, ops.divRoot);
    hamming := ops.distance(Snapshot(motif), w);
    BlendInPlace(motif, w, ALPHA);
    assert Snapshot(motif) == Blend(s.motif, w, ALPHA, tfs, genes);
    if hamming > THRESHOLD {
      UpdatePpi(ppi, motif, init, s1, ops, step);
      UpdateCorr(corr, motif, ops, step);
    }
  }

  /** Lines 167-176 on the PPI buffer, with the mask as the code applies it. */
  method UpdatePpi(ppi: array2<real>, motif: array2<real>, init: array2<real>, s1: seq<nat>, ops: Numerics, step: nat)
    requires motif != ppi && init != ppi
    requires ppi.Length0 == ppi.Length1 == motif.Length0 == init.Length0 == init.Length1
    requires ValidIndices(s1, ppi.Length0)
    modifies ppi
    ensures Snapshot(ppi) == NextPpi(old(Snapshot(ppi)), Snapshot(motif), Snapshot(init), s1,
                                     motif.Length0, motif.Length1, step, ops)
  {
    var tfs, genes := motif.Length0, motif.Length1;
    var m := Snapshot(motif);
    ghost var p0, i0 := Snapshot(ppi), Snapshot(init);
    var t := TransformSelf(m, genes, ops.divRoot);
    var ppiUpdate := ToArray(t, tfs, tfs);
    UpdateDiagonal(ppiUpdate, tfs, ALPHA, step, ops.stdev, ops.exp);
    var update := Snapshot(ppiUpdate);
    assert update == Stabilize(t, tfs, tfs, Growth(ops, step), ops.stdev);
    BlendInPlace(ppi, update, ALPHA);
    assert Snapshot(ppi) == Blend(p0, update, ALPHA, tfs, tfs);
    assert Snapshot(init) == i0 && Snapshot(motif) == m;
    ApplyMaskAsWritten(ppi, init, s1);
    assert Snapshot(ppi) == MaskAsWritten(Blend(p0, update, ALPHA, tfs, tfs), i0, s1, tfs);
  }

  /** Lines 179-182 on the correlation buffer. */
  method UpdateCorr(corr: array2<real>, motif: array2<real>, ops: Numerics, step: nat)
    requires motif != corr
    requires corr.Length0 == corr.Length1 == motif.Length1
    modifies corr
    ensures Snapshot(corr) == NextCorr(old(Snapshot(corr)), Snapshot(motif), motif.Length0, motif.Length1, step, ops)
  {
    var tfs, genes := motif.Length0, motif.Length1;
    var m := Snapshot(motif);
    var t := TransformSelf(Transpose(m, genes), tfs, ops.divRoot);
    var corrUpdate := ToArray(t, genes, genes);
    UpdateDiagonal(corrUpdate, genes, ALPHA, step, ops.stdev, ops.exp);
    var update := Snapshot(corrUpdate);
    assert update == Stabilize(t, genes, genes, Growth(ops, step), ops.stdev);
    BlendInPlace(corr, update, ALPHA);
    assert Snapshot(motif) == m;
  }

  /**
   `puma_loop` on the three buffers, with `TFCoopInit = ppi_matrix.copy()`.
   The buffers end in the state the specification `Run` gives, and the
   counter and last `hamming` are returned.
   */
  method PumaLoop(corr: array2<real>, motif: array2<real>, ppi: array2<real>,
                  s1: seq<nat>, ops: Numerics, fuel: nat) returns (step: nat, hamming: real)
    requires motif != ppi && motif != corr && ppi != corr
    requires ppi.Length0 == ppi.Length1 == motif.Length0
    requires corr.Length0 == corr.Length1 == motif.Length1
    requires ValidIndices(s1, ppi.Length0)
    modifies motif, ppi, corr
    ensures LoopState(Snapshot(motif), Snapshot(ppi), Snapshot(corr), step, hamming) ==
      Run(Start(old(Snapshot(corr)), old(Snapshot(motif)), old(Snapshot(ppi))), old(Snapshot(ppi)), s1,
          motif.Length0, motif.Length1, ops, fuel)
  {
    var init := Copy(ppi);
    step, hamming := Converge(corr, motif, ppi, init, s1, ops, fuel);
  }

  /** Lines 155-187: the `while` loop itself, with `TFCoopInit` already taken. */
  method Converge(corr: array2<real>, motif: array2<real>, ppi: array2<real>, init: array2<real>,
                  s1: seq<nat>, ops: Numerics, fuel: nat) returns (step: nat, hamming: real)
    requires motif != ppi && motif != corr && ppi != corr && init != motif && init != ppi && init != corr
    requires ppi.Length0 == ppi.Length1 == motif.Length0 == init.Length0 == init.Length1
    requires corr.Length0 == corr.Length1 == motif.Length1
    requires ValidIndices(s1, ppi.Length0)
    modifies motif, ppi, corr
    ensures LoopState(Snapshot(motif), Snapshot(ppi), Snapshot(corr), step, hamming) ==
      Run(Start(old(Snapshot(corr)), old(Snapshot(motif)), old(Snapshot(ppi))), Snapshot(init), s1,
          motif.Length0, motif.Length1, ops, fuel)
  {
    var tfs, genes := motif.Length0, motif.Length1;
    ghost var pinned := Snapshot(init);
    ghost var cur := Start(Snapshot(corr), Snapshot(motif), Snapshot(ppi));
    ghost var goal := Run(cur, pinned, s1, tfs, genes, ops, fuel);
    ghost var rest: nat := fuel;
    step, hamming := 0, 1.0;
    while step < fuel && hamming > THRESHOLD
      invariant rest == fuel - step
      invariant Snapshot(init) == pinned
      invariant cur == LoopState(Snapshot(motif), Snapshot(ppi), Snapshot(corr), step, hamming)
      invariant WellShaped(cur, tfs, genes)
      invariant Run(cur, pinned, s1, tfs, genes, ops, rest) == goal
      decreases rest
    {
      ghost var next;
      hamming, next := Advance(motif, ppi, corr, init, s1, ops, step, cur, pinned, rest);
      step, rest, cur := step + 1, rest - 1, next;
    }
    RunStops(cur, pinned, s1, tfs, genes, ops, rest);
  }

  /**
   One pass of the loop body seen from the whole run: what is left of the
   run after the pass is what was left of it before.
   */
  method Advance(motif: array2<real>, ppi: array2<real>, corr: array2<real>, init: array2<real>,
                 s1: seq<nat>, ops: Numerics, step: nat, ghost s: LoopState, ghost pinned: Matrix, ghost left: nat)
                 returns (hamming: real, ghost next: LoopState)
    requires motif != ppi && motif != corr && ppi != corr && init != motif && init != ppi && init != corr
    requires ppi.Length0 == ppi.Length1 == motif.Length0 == init.Length0 == init.Length1
    requires corr.Length0 == corr.Length1 == motif.Length1
    requires ValidIndices(s1, ppi.Length0)
    requires s == LoopState(Snapshot(motif), Snapshot(ppi), Snapshot(corr), step, s.hamming)
    requires pinned == Snapshot(init)
    requires left > 0 && s.hamming > THRESHOLD
    modifies motif, ppi, corr
    ensures next == LoopState(Snapshot(motif), Snapshot(ppi), Snapshot(corr), step + 1, hamming)
    ensures WellShaped(next, motif.Length0, motif.Length1)
    ensures Run(next, pinned, s1, motif.Length0, motif.Length1, ops, left - 1) ==
      Run(s, pinned, s1, motif.Length0, motif.Length1, ops, left)
  {
    RunUnfold(s, pinned, s1, motif.Length0, motif.Length1, ops, left);
    hamming := IterateInPlace(motif, ppi, corr, init, s1, ops, step, s, pinned);
    next := Iterate(s, pinned, s1, motif.Length0, motif.Length1, ops);
  }
}

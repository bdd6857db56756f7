# PUMA message-passing core, modelled in Dafny

PUMA (`pypanda/puma.py`, class `Puma`) infers a gene regulatory network by
reconciling three matrices:
- a TF x gene motif prior;
- a TF x TF protein-protein interaction (PPI) matrix;
- a gene x gene co-expression matrix.

A convergence loop updates the three matrices in turn. PPI rows and columns
of TFs with a microRNA correspondence are pinned to their pre-loop values.

This project models the exact, non-floating-point parts of that class:

- `matrices.dfy` (`Matrices`): dense real matrices as values
  (`seq<seq<real>>`), and `Snapshot`, which links them to the `array2<real>`
  buffers that the algorithm updates in place.
- `construction.dfy` (`NetworkConstruction`): the name-to-index
  dictionaries, and the motif prior and PPI matrix built from edge tables
  by writes through a flat view. The PPI writes go in both orientations.
- `mir_lookup.dfy` (`MirLookup`): the constrained-TF lookup. It uses
  `searchsorted` (a binary search for the leftmost insertion point) over
  the sorted TF names, in Python's string order.
- `blending.dfy` (`Blending`): the in-place blend
  `M *= (1 - alpha); M += alpha * W` with `alpha = 0.1`.
- `affinity.dfy` (`Affinity`): the T-function's dot products and the
  argument of its normaliser. The final `a / sqrt(b)` is a given function.
- `diagonal.dfy` (`DiagonalUpdate`): `update_diagonal`. The standard
  deviation and the exponential are given functions; the model fixes which
  cells change and what each new diagonal value depends on.
- `constraint_mask.dfy` (`ConstraintMask`): the microRNA constraint mask,
  both as the code behaves and as intended (see Findings).
- `puma.dfy` (`Puma`): the loop. A pure specification `Iterate`/`Run` of
  the loop state, methods that update the three buffers in place and are
  proved equal to it, and the invariants the loop keeps.
- `export.dfy` (`ResultExport`): the expanded (TF, gene, prior, posterior)
  table and the alignment of its four vectors.
- `option.dfy` (`Options`): the `Option` type.

The floating-point primitives of the loop are fields of the datatype
`Puma.Numerics` and stay uninterpreted:
- element-wise `a / sqrt(b)`;
- `np.nanstd` of a row;
- `math.exp`;
- the distance `np.abs(M - W).mean()`.

Every property proved about the loop holds whatever these functions are.

Behaviour of the code that is easy to misread, and that the model keeps:
- `update_diagonal` is called with `num_tfs` for the TF x TF matrix and
  `num_genes` for the gene x gene matrix, so each diagonal is scaled by
  the matrix's own dimension (puma.py:168, 180).
- In the expanded table the TF index varies fastest: position p holds TF
  `p mod T` and gene `p div T`.
- A miR name that is not a TF is not dropped. It resolves to its insertion
  point, which is a different TF. A name after the last TF makes
  `sort_idx[...]` raise `IndexError`, modelled as `None`.
- The diagonal "restore" of the constraint mask does not restore: a
  constrained TF's diagonal ends at its `TFCoopInit` value. The loop
  model does the same (see Findings).

## Model

| member | source | states |
|---|---|---|
| Matrices.Zeros | pypanda/puma.py:63 | `np.zeros((num_tfs, num_genes))`: a rows x cols matrix |
| Matrices.Identity | pypanda/puma.py:70 | `np.identity(num_tfs)`: an n x n matrix |
| Matrices.Transpose | pypanda/puma.py:179 | `motif_matrix.T`: a cols x rows matrix whose cell (i, j) is the input's cell (j, i) |
| NetworkConstruction.IndexMap | pypanda/puma.py:50-51 | the dictionary's keys are exactly the names, and each name maps to the position of its last occurrence |
| NetworkConstruction.Resolve | pypanda/puma.py:64-72 | lookup succeeds exactly when every name of the table is a dictionary key (KeyError otherwise); each resolved edge carries the looked-up indices and the table's weight |
| NetworkConstruction.ResolvedEdgesInBounds | pypanda/puma.py:64-66 | edges resolved against the name lists point at those very names, so they fit the matrix |
| NetworkConstruction.Scatter | pypanda/puma.py:66-67 | the writes `m.ravel()[idx] = weights` keep the rows x cols shape; `ScatterCell` gives every cell |
| NetworkConstruction.MotifPrior | pypanda/puma.py:63-67 | the motif prior is a TF x gene matrix; `MotifPriorCell` gives every cell |
| NetworkConstruction.PpiMatrix | pypanda/puma.py:70-76 | the PPI matrix is TF x TF; `PpiCell`, `PpiUntouched` and `PpiSymmetric` give its cells |
| NetworkConstruction.ScatterCell | pypanda/puma.py:66-67 | after the flat-view writes, a cell holds the weight of the last edge at that cell, or its starting value if no edge names it |
| NetworkConstruction.MotifPriorCell | pypanda/puma.py:63-67 | a motif cell that no edge names is 0; otherwise it holds the weight of the last edge for that (TF, gene) pair |
| NetworkConstruction.PpiCell | pypanda/puma.py:70-76 | a PPI cell (i, j) is the last (j, i)-edge weight if there is one, else the last (i, j)-edge weight, else the identity value |
| NetworkConstruction.PpiUntouched | pypanda/puma.py:70-76 | a cell that no PPI edge names in either orientation keeps its identity value: 1 on the diagonal, 0 off it |
| NetworkConstruction.PpiEdgeBothWays | pypanda/puma.py:73-76 | with no repeated unordered pair, every PPI edge's weight is found at both (tf1, tf2) and (tf2, tf1) |
| NetworkConstruction.PpiSymmetric | pypanda/puma.py:73-76 | when no unordered TF pair is listed twice, the constructed PPI matrix is symmetric |
| NetworkConstruction.PpiRepeatedPairAsymmetric | pypanda/puma.py:73-76 | the no-repeat condition is needed: edges (0,1,1.0) then (1,0,2.0) give an asymmetric matrix |
| NetworkConstruction.BuildMotif | pypanda/puma.py:63-67 | the buffer built from a zero matrix by the edge writes is the motif prior specification |
| NetworkConstruction.BuildPpi | pypanda/puma.py:70-76 | the buffer built from the identity by the (tf1, tf2) writes, then the (tf2, tf1) writes, is the PPI specification |
| NetworkConstruction.ScatterInto | pypanda/puma.py:67 | writing the edges in order into a buffer leaves the specified scatter of its old contents |
| MirLookup.Below | pypanda/puma.py:33 | Python's `<` on `str`, the order of `sorted` and `searchsorted`: a name is never below itself (irreflexive, with `BelowTransitive` for transitivity) |
| MirLookup.SearchSorted | pypanda/puma.py:47 | the binary search returns the leftmost insertion point: every name before it is below the key, none from it on |
| MirLookup.ExactMatch | pypanda/puma.py:45-47 | for a strictly sorted TF list, the insertion point of a name in the list is that name's own index |
| MirLookup.ConstrainedIndices | pypanda/puma.py:45-47 | `s1` exists exactly when every miR name has a valid insertion point (IndexError otherwise); each entry is that insertion point, and names that are TFs resolve to their own TF |
| Matrices.Copy | pypanda/puma.py:153 | `TFCoopInit` is a fresh buffer with the PPI matrix's contents |
| Blending.Blend | pypanda/puma.py:162-163 | the blended matrix keeps the rows x cols shape; `BlendBetween` and `BlendContracts` give its cells |
| Blending.BlendInPlace | pypanda/puma.py:162-163 | the two in-place updates leave exactly the blend of the old buffer towards W, with the shape unchanged |
| Blending.ScaleInPlace | pypanda/puma.py:162 | `*= (1 - alpha)` scales every cell and nothing else |
| Blending.AddScaledInPlace | pypanda/puma.py:163 | `+= alpha * W` adds to every cell and nothing else |
| Blending.BlendSymmetric | pypanda/puma.py:169-170 | blending two symmetric matrices gives a symmetric matrix |
| Blending.BlendBetween | pypanda/puma.py:157-163 | for 0 <= alpha <= 1 each blended cell lies between the old cell and the W cell |
| Blending.BlendContracts | pypanda/puma.py:157-163 | with alpha = 0.1 each blended cell's distance to W is 0.9 times the old distance |
| Blending.BlendFixedPoint | pypanda/puma.py:162-163 | blending a matrix with itself leaves it unchanged; used by `Puma.IterateKeepsMotifAtEstimate` |
| Affinity.TransformSelf | pypanda/puma.py:133-136 | `t_function(x)` is a square matrix with one row and column per row of x; `TransformSelfSymmetric` and `NormaliserNonNegative` give its properties |
| Affinity.TransformPair | pypanda/puma.py:137-139 | `t_function(x, y)` has x's row count and y's column count; `SelfIsPairWithTranspose` relates it to the single-argument form |
| Affinity.TransformSelfSymmetric | pypanda/puma.py:133-136 | the single-argument T-function result is symmetric, for any element-wise division-by-root |
| Affinity.SelfIsPairWithTranspose | pypanda/puma.py:131-139 | `t_function(x)` equals `t_function(x, x.T)` |
| Affinity.NormaliserNonNegative | pypanda/puma.py:135-139 | the argument of the normaliser's square root is at least half the sum of the two squared norms, hence never negative |
| DiagonalUpdate.Stabilize | pypanda/puma.py:142-147 | `update_diagonal` keeps the n x n shape; `StabilizeKeepsOffDiagonal` and `StabilizeIgnoresDiagonal` give its cells |
| DiagonalUpdate.StabilizeKeepsOffDiagonal | pypanda/puma.py:142-147 | `update_diagonal` leaves every off-diagonal cell unchanged |
| DiagonalUpdate.StabilizeIgnoresDiagonal | pypanda/puma.py:144-146 | the new diagonal depends only on off-diagonal cells: matrices agreeing off the diagonal give the same result |
| DiagonalUpdate.StabilizeSymmetric | pypanda/puma.py:142-147 | a symmetric matrix stays symmetric |
| DiagonalUpdate.UpdateDiagonal | pypanda/puma.py:142-147 | the in-place update leaves the buffer equal to the specification, with `growth = exp(2 * alpha * step)` |
| ConstraintMask.MaskAsWritten | pypanda/puma.py:173-176 | the mask as the code applies it keeps the n x n shape; `MaskAsWrittenPins` gives its cells; the loop uses it |
| ConstraintMask.Mask | pypanda/puma.py:173-176 | the mask as intended (diagonal saved and restored) keeps the n x n shape; `MaskPinsConstrained` gives its cells |
| ConstraintMask.MaskAsWrittenPins | pypanda/puma.py:173-176 | as written, for constrained k and every j, diagonal included, cells (k, j) and (j, k) equal `TFCoopInit`; cells with unconstrained row and column are unchanged |
| ConstraintMask.MasksDifferOnlyOnConstrainedDiagonal | pypanda/puma.py:173-176 | the code's mask and the intended mask agree on every cell except a constrained TF's diagonal, where the code leaves `TFCoopInit`'s value and the intended mask the value before the mask |
| ConstraintMask.MaskAsWrittenSymmetric | pypanda/puma.py:174-176 | the mask as written keeps a symmetric matrix symmetric, given a symmetric `TFCoopInit` |
| ConstraintMask.MaskAsWrittenLosesDiagonal | pypanda/puma.py:173-176 | as written, each constrained TF's diagonal ends at its `TFCoopInit` value, e.g. 1.0 instead of 2.0 |
| ConstraintMask.MaskPinsConstrained | pypanda/puma.py:173-176 | for constrained k and j != k, cells (k, j) and (j, k) equal `TFCoopInit`; every diagonal cell keeps its pre-mask value; cells with unconstrained row and column are unchanged |
| ConstraintMask.MaskIdempotent | pypanda/puma.py:173-176 | applying the mask twice with the same `TFCoopInit` and `s1` equals applying it once |
| ConstraintMask.MaskAsWrittenIdempotent | pypanda/puma.py:174-175 | the as-written mask is idempotent as well |
| ConstraintMask.MaskSymmetric | pypanda/puma.py:174-176 | masking a symmetric matrix with a symmetric `TFCoopInit` keeps it symmetric |
| ConstraintMask.OverwriteConstrained | pypanda/puma.py:174-175 | after the row, then column, overwrite, a cell is `TFCoopInit`'s when its row or column is constrained, else unchanged |
| ConstraintMask.ApplyMask | pypanda/puma.py:173-176 | the save-copy, overwrite and restore leave the buffer equal to the intended mask of its old contents |
| ConstraintMask.ApplyMaskAsWritten | pypanda/puma.py:173-176 | restoring through the diagonal view leaves the buffer equal to the as-written mask |
| Puma.Start | pypanda/puma.py:155-156 | the loop starts at step 0 with a distance above the threshold, so the body runs at least once |
| Puma.Estimate | pypanda/puma.py:160 | W has the motif matrix's TF x gene shape |
| Puma.NextPpi | pypanda/puma.py:167-176 | the PPI update (T-function, diagonal update, blend, then the mask as the code applies it) keeps the TF x TF shape |
| Puma.NextCorr | pypanda/puma.py:179-182 | the correlation update keeps the gene x gene shape |
| Puma.Iterate | pypanda/puma.py:158-187 | one iteration keeps all three shapes and advances the counter by one; when the new distance is at or below 0.001, PPI and correlation are unchanged |
| Puma.StartEstablishesInvariant | pypanda/puma.py:153-156 | with symmetric inputs the starting state meets the loop invariant, as the PPI matrix is `TFCoopInit` itself |
| Puma.NextPpiSymmetricPinned | pypanda/puma.py:167-176 | the PPI update keeps the PPI matrix symmetric and pins the constrained rows and columns, diagonal included, to `TFCoopInit` |
| Puma.NextCorrSymmetric | pypanda/puma.py:179-182 | the correlation update keeps the correlation matrix symmetric |
| Puma.IteratePreservesInvariant | pypanda/puma.py:158-187 | one iteration preserves shapes, PPI and correlation symmetry and the pinned PPI cells |
| Puma.IteratePinsWhenRunning | pypanda/puma.py:165-176 | after a non-converging iteration the constrained PPI rows and columns, diagonal included, equal `TFCoopInit`, whatever they held before |
| Puma.IterateKeepsMotifAtEstimate | pypanda/puma.py:160-163 | when the estimate W equals the motif matrix, the iteration leaves the motif matrix unchanged |
| Puma.RunPreservesInvariant | pypanda/puma.py:155-187 | every state the loop reaches satisfies the invariant |
| Puma.RunSteps | pypanda/puma.py:155-187 | the loop stops because the distance is at or below 0.001 or because the cap ran out; the counter advanced once per iteration run |
| Puma.UpdatePpi | pypanda/puma.py:167-176 | the in-place PPI update, with the diagonal written back through the view, equals the PPI specification |
| Puma.UpdateCorr | pypanda/puma.py:179-182 | the in-place correlation update equals the correlation specification |
| Puma.IterateInPlace | pypanda/puma.py:159-187 | one iteration on the three buffers equals `Iterate`, and returns the new distance |
| Puma.PumaLoop | pypanda/puma.py:150-187 | `puma_loop` takes `TFCoopInit` as a copy of the PPI buffer, and the three buffers end in the state `Run` specifies from the starting state; it returns the counter and the last distance |
| Puma.Converge | pypanda/puma.py:155-187 | the `while` loop on the three buffers ends in the state `Run` specifies, for a `TFCoopInit` it does not change |
| Puma.Advance | pypanda/puma.py:158-187 | one pass of the loop body on the buffers, taken while iterations are left and the distance is above 0.001, leaves the rest of the run the same as the whole run was before the pass |
| Puma.RunUnfold | pypanda/puma.py:158-165 | a run with iterations left and a distance above 0.001 does one iteration, then the rest of the run |
| Puma.RunStops | pypanda/puma.py:158 | a run with no iterations left, or at a distance at or below 0.001, leaves the state as it is |
| ResultExport.Tile | pypanda/puma.py:192 | `np.tile(s, (n, 1)).flatten()` has n times the length of s; `TileAt` gives every position |
| ResultExport.Repeat | pypanda/puma.py:193 | `np.repeat(s, k)` has k times the length of s; `RepeatAt` gives every position |
| ResultExport.FlattenColumns | pypanda/puma.py:194-195 | `flatten(order='F')` of a rows x cols matrix has rows * cols entries; `FlattenColumnsAt` gives every position |
| ResultExport.Expand | pypanda/puma.py:191-197 | the stacked table has T * G rows; `ExpandAligned` and `ExpandCovers` give every row |
| ResultExport.TileAt | pypanda/puma.py:192 | the tiled TF labels hold `unique_tfs[i]` at position `c * T + i` |
| ResultExport.RepeatAt | pypanda/puma.py:193 | the repeated gene labels hold `gene_names[c]` at position `c * T + i` |
| ResultExport.FlattenColumnsAt | pypanda/puma.py:194-195 | the column-major flatten holds `m[i][c]` at position `c * T + i` |
| ResultExport.ExpandAligned | pypanda/puma.py:191-197 | the table has T * G rows, and row p is (`unique_tfs[p mod T]`, `gene_names[p div T]`, prior and posterior at `[p mod T][p div T]`) |
| ResultExport.ExpandCovers | pypanda/puma.py:191-197 | every (TF, gene) cell appears, at position `gene * T + tf`, with its own labels and weights |
| ResultExport.ExpandIfRetained | pypanda/puma.py:190-191 | the table is built exactly when the names and prior were kept (`save_memory=False`) |

## Findings

| source | as written | input that shows it | evidently intended | confidence | as-written member | corrected member |
|---|---|---|---|---|---|---|
| pypanda/puma.py:173-176 | `TFCoopDiag = ppi_matrix.diagonal()` is a read-only view of the matrix (numpy 1.9 and later), so the row and column overwrites also change it, and `fill_diagonal` writes back `TFCoopInit`'s diagonal for constrained TFs | 1 x 1 PPI matrix `[[2.0]]`, `TFCoopInit = [[1.0]]`, `s1 = [0]`: the diagonal ends as 1.0 | the diagonal keeps its value from just before the mask (2.0); a `.copy()` of the diagonal does this | high (numpy view semantics); not executed | ConstraintMask.MaskAsWritten (with MaskAsWrittenLosesDiagonal, ApplyMaskAsWritten) | ConstraintMask.Mask (with MaskPinsConstrained, ApplyMask) |

The loop model (`Puma.NextPpi`, `Puma.UpdatePpi`) follows the code and
uses `MaskAsWritten`. The intended `Mask` is given beside it with its own
properties, and `ConstraintMask.MasksDifferOnlyOnConstrainedDiagonal`
states exactly where the two differ.

## Left out

- `_normalize_network` (puma.py:112-126): the z-scores, `sqrt(2)` and
  NaN-driven masks are floating-point behaviour. The loop takes
  already-normalised matrices.
- The numeric value of the T-function, of `nanstd`, of `math.exp` and of
  the distance `mean(|M - W|)`. These are fields of `Puma.Numerics` and
  stay uninterpreted. Real arithmetic also stands in for float rounding in
  the blend and the dot products.
- NaN: `nanstd` would also skip NaN cells off the diagonal. The model has
  no NaN; the only skipped cell is the diagonal.
- PumaLoop: runs for at most `fuel` iterations. The source loop has no
  cap, its termination depends on float contraction, and no convergence
  is claimed.
- Reading the expression, motif, PPI and miR files, and `np.corrcoef`
  with its NaN clean-up (puma.py:25-60). Also the `/tmp` checkpoints
  (puma.py:96-100) and the `del` statements that release memory
  (puma.py:89-91, 103). The only trace of `save_memory` is the
  `Option<Metadata>` taken by `ResultExport.ExpandIfRetained`.
- `sorted(set(...))` for the TF names (puma.py:33) is not computed. Its
  result is required to be strictly sorted (`MirLookup.StrictlySorted`),
  and `np.argsort` on it is the identity.
- The duplicate-index order of numpy fancy assignment is taken as
  sequential, last write wins.
- The `Puma` constructor does not exist as one composed operation. Its
  steps are modelled separately: construction, lookup, loop and export.
  The model keeps no object whose `motif_matrix` is shared with the loop.
  The final motif matrix is passed to `ResultExport.Expand` as a value.
- `np.column_stack` turns every column into strings. `ExportRow` keeps the
  labels and the weights in their own types.
- `save_puma_results` (puma.py:200-215) only chooses an output format.
- Plotting: `top_network_plot`, `__shape_plot_network` and
  `__create_plot` (puma.py:216-265). These are UI; they also read an
  attribute the class never sets.
- `Timer`, `print` and the timing calls are logging only.

/**
 The result expander at the end of `puma_loop` (lines 191-197): one row per
 (TF, gene) cell, built from four aligned vectors. TF labels come from
 `np.tile(unique_tfs, (G, 1)).flatten()`, gene labels from
 `np.repeat(gene_names, T)`, and both weight matrices are flattened in
 column-major (`order='F'`) order. The TF index varies fastest: position
 p holds TF `p mod T` and gene `p div T`.
 */
module ResultExport {
  import opened Matrices
  import opened Options

  /** `np.tile(s, (n, 1)).flatten()`: n copies of `s`, one after the other. */
  function Tile<T>(s: seq<T>, n: nat): (r: seq<T>)
    ensures |r| == n * |s|
  {
    if n == 0 then [] else Tile(s, n - 1) + s
  }

  /** `np.repeat(s, k)`: every element of `s` k times in a row. */
  function Repeat<T>(s: seq<T>, k: nat): (r: seq<T>)
    ensures |r| == |s| * k
  {
    if |s| == 0 then [] else seq(k, _ => s[0]) + Repeat(s[1..], k)
  }

  /** `m` has `rows` rows of at least `cols` cells. */
  predicate HasColumns(m: Matrix, rows: nat, cols: nat) {
    |m| == rows && forall i :: 0 <= i < rows ==> cols <= |m[i]|
  }

  /**
   The first `cols` columns of `m`, column after column; for a rows x cols
   matrix this is `m.flatten(order='F')`.
   */
  function FlattenColumns(m: Matrix, rows: nat, cols: nat): (r: seq<real>)
    requires HasColumns(m, rows, cols)
    ensures |r| == cols * rows
  {
    if cols == 0 then [] else FlattenColumns(m, rows, cols - 1) + Column(m, cols - 1)
  }

  lemma MulMonotone(a: nat, b: nat, k: nat)
    requires a <= b
    ensures a * k <= b * k
  {
    assert b * k == a * k + (b - a) * k;
  }

  lemma {:induction false} TileAt<T>(s: seq<T>, n: nat, c: nat, i: nat)
    requires c < n && i < |s|
    ensures c * |s| + i < |Tile(s, n)| && Tile(s, n)[c * |s| + i] == s[i]
  {
    if c < n - 1 {
      TileAt(s, n - 1, c, i);
      assert |Tile(s, n - 1)| == (n - 1) * |s|;
    } else {
      assert |Tile(s, n - 1)| == c * |s|;
    }
  }

  lemma {:induction false} RepeatAt<T>(s: seq<T>, k: nat, c: nat, i: nat)
    requires c < |s| && i < k
    ensures c * k + i < |Repeat(s, k)| && Repeat(s, k)[c * k + i] == s[c]
  {
    if c > 0 {
      RepeatAt(s[1..], k, c - 1, i);
      assert c * k + i == k + ((c - 1) * k + i);
    }
  }

  lemma {:induction false} FlattenColumnsAt(m: Matrix, rows: nat, cols: nat, c: nat, i: nat)
    requires HasColumns(m, rows, cols) && c < cols && i < rows
    ensures c * rows + i < |FlattenColumns(m, rows, cols)| && FlattenColumns(m, rows, cols)[c * rows + i] == m[i][c]
  {
    if c < cols - 1 {
      FlattenColumnsAt(m, rows, cols - 1, c, i);
      assert |FlattenColumns(m, rows, cols - 1)| == (cols - 1) * rows;
    } else {
      assert |FlattenColumns(m, rows, cols - 1)| == c * rows;
    }
  }

  /** One line of `np.column_stack((tfs, genes, motif, force))`. */
  datatype ExportRow = ExportRow(tf: string, gene: string, motif: real, force: real)

  /**
   The names and the prior the expander needs; `Puma(save_memory=True)`
   deletes them, and then no table is built.
   */
  datatype Metadata = Metadata(uniqueTfs: seq<string>, geneNames: seq<string>, motifUnnormalized: Matrix)

  predicate Consistent(meta: Metadata, force: Matrix) {
    IsShape(meta.motifUnnormalized, |meta.uniqueTfs|, |meta.geneNames|) &&
    IsShape(force, |meta.uniqueTfs|, |meta.geneNames|)
  }

  /** Lines 192-197: the four vectors, stacked as columns. */
  function Expand(meta: Metadata, force: Matrix): (rows: seq<ExportRow>)
    requires Consistent(meta, force)
    ensures |rows| == |meta.uniqueTfs| * |meta.geneNames|
  {
    var t, g := |meta.uniqueTfs|, |meta.geneNames|;
    var tfs := Tile(meta.uniqueTfs, g);
    var genes := Repeat(meta.geneNames, t);
    var motif := FlattenColumns(meta.motifUnnormalized, t, g);
    var posterior := FlattenColumns(force, t, g);
    seq(t * g, p requires 0 <= p < t * g => ExportRow(tfs[p], genes[p], motif[p], posterior[p]))
  }

  /** The expander runs only while the metadata has been kept (`hasattr(self, 'unique_tfs')`). */
  function ExpandIfRetained(meta: Option<Metadata>, force: Matrix): (r: Option<seq<ExportRow>>)
    requires meta.Some? ==> Consistent(meta.value, force)
    ensures r.Some? <==> meta.Some?
  {
    match meta
    case None => None
    case Some(m) => Some(Expand(m, force))
  }


  /**
   The four vectors are aligned: the row at position p names TF `p mod T`
   and gene `p div T`, and carries the prior and the posterior weight of
   exactly that (TF, gene) cell. There are T * G rows.
   */
  lemma ExpandAligned(meta: Metadata, force: Matrix, p: nat)
    requires Consistent(meta, force)
    requires p < |meta.uniqueTfs| * |meta.geneNames|
    ensures var t, g := |meta.uniqueTfs|, |meta.geneNames|;
      |Expand(meta, force)| == t * g &&
      p % t < t && p / t < g &&
      Expand(meta, force)[p] ==
        ExportRow(meta.uniqueTfs[p % t], meta.geneNames[p / t],
                  meta.motifUnnormalized[p % t][p / t], force[p % t][p / t])
  {
    var t, g := |meta.uniqueTfs|, |meta.geneNames|;
    var c, i := p / t, p % t;
    assert p == c * t + i;
    assert c < g;
    TileAt(meta.uniqueTfs, g, c, i);
    RepeatAt(meta.geneNames, t, c, i);
    FlattenColumnsAt(meta.motifUnnormalized, t, g, c, i);
    FlattenColumnsAt(force, t, g, c, i);
  }

  /** Every (TF, gene) cell appears in the table, at position `gene * T + tf`. */
  lemma ExpandCovers(meta: Metadata, force: Matrix, tf: nat, gene: nat)
    requires Consistent(meta, force)
    requires tf < |meta.uniqueTfs| && gene < |meta.geneNames|
    ensures var t := |meta.uniqueTfs|;
      gene * t + tf < |Expand(meta, force)| &&
      Expand(meta, force)[gene * t + tf] ==
        ExportRow(meta.uniqueTfs[tf], meta.geneNames[gene], meta.motifUnnormalized[tf][gene], force[tf][gene])
  {
    var t, g := |meta.uniqueTfs|, |meta.geneNames|;
    MulMonotone(gene + 1, g, t);
    assert gene * t + tf < t * g;
    TileAt(meta.uniqueTfs, g, gene, tf);
    RepeatAt(meta.geneNames, t, gene, tf);
    FlattenColumnsAt(meta.motifUnnormalized, t, g, gene, tf);
    FlattenColumnsAt(force, t, g, gene, tf);
  }
}

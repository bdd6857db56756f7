/**
 Construction of the dense motif prior (TFs x genes) and the PPI matrix
 (TFs x TFs) from edge lists, as `Puma.__init__` does it: names are turned
 into indices through `{name: position}` dictionaries, and the weights are
 scattered into a zero (motif) or identity (PPI) matrix through a flat view,
 one write per edge, later writes overwriting earlier ones.
 */
module NetworkConstruction {
  import opened Matrices
  import opened Options

  /** One line of the motif or PPI table: two names and a weight. */
  datatype NamedEdge = NamedEdge(source: string, target: string, weight: real)

  /** The same edge after both names have been looked up. */
  datatype Edge = Edge(row: nat, col: nat, weight: real)


  /**
   `{x: i for i, x in enumerate(names)}`: every name maps to the position of
   its LAST occurrence, because later entries of the comprehension win.
   */
  function IndexMap(names: seq<string>): (m: map<string, nat>)
    ensures forall x :: x in m <==> x in names
    ensures forall x :: x in m ==> m[x] < |names| && names[m[x]] == x
    ensures forall x, k :: x in m && m[x] < k < |names| ==> names[k] != x
  {
    if |names| == 0 then map[]
    else IndexMap(names[..|names| - 1])[names[|names| - 1] := |names| - 1]
  }

  /** Every name of the table is a key of its dictionary. */
  predicate Resolvable(rowIndex: map<string, nat>, colIndex: map<string, nat>, table: seq<NamedEdge>) {
    forall k :: 0 <= k < |table| ==> table[k].source in rowIndex && table[k].target in colIndex
  }

  /**
   `[tf2idx[x] for x in column 0]` and `[gene2idx[x] for x in column 1]`,
   zipped with column 2. A name missing from its dictionary raises `KeyError`
   in the source; here the result is `None`.
   */
  function Resolve(rowIndex: map<string, nat>, colIndex: map<string, nat>, table: seq<NamedEdge>): (r: Option<seq<Edge>>)
    ensures r.Some? <==> Resolvable(rowIndex, colIndex, table)
    ensures r.Some? ==> |r.value| == |table|
    ensures r.Some? ==> forall k :: 0 <= k < |table| ==>
      r.value[k].row == rowIndex[table[k].source] &&
      r.value[k].col == colIndex[table[k].target] &&
      r.value[k].weight == table[k].weight
  {
    if |table| == 0 then Some([])
    else
      var last := table[|table| - 1];
      match Resolve(rowIndex, colIndex, table[..|table| - 1])
      case None => None
      case Some(front) =>
        if last.source in rowIndex && last.target in colIndex then
          Some(front + [Edge(rowIndex[last.source], colIndex[last.target], last.weight)])
        else None
  }

  /** Every edge lands inside a rows x cols matrix. */
  predicate InBounds(edges: seq<Edge>, rows: nat, cols: nat) {
    forall k :: 0 <= k < |edges| ==> edges[k].row < rows && edges[k].col < cols
  }

  /**
   Resolving names against the dictionaries of two name lists yields edges
   that point at exactly those names, hence inside the matrix.
   */
  lemma ResolvedEdgesInBounds(rowNames: seq<string>, colNames: seq<string>, table: seq<NamedEdge>)
    requires Resolve(IndexMap(rowNames), IndexMap(colNames), table).Some?
    ensures var edges := Resolve(IndexMap(rowNames), IndexMap(colNames), table).value;
      InBounds(edges, |rowNames|, |colNames|) &&
      forall k :: 0 <= k < |edges| ==>
        rowNames[edges[k].row] == table[k].source && colNames[edges[k].col] == table[k].target
  {
  }

  /** One write `m[e.row, e.col] = e.weight`. */
  function Write(m: Matrix, e: Edge): (r: Matrix)
    requires e.row < |m| && e.col < |m[e.row]|
  {
    m[e.row := m[e.row][e.col := e.weight]]
  }

  /** The edges written in order into `m`, `m.ravel()[idx] = weights`. */
  function Scatter(m: Matrix, edges: seq<Edge>, rows: nat, cols: nat): (r: Matrix)
    requires IsShape(m, rows, cols) && InBounds(edges, rows, cols)
    ensures IsShape(r, rows, cols)
  {
    if |edges| == 0 then m
    else Write(Scatter(m, edges[..|edges| - 1], rows, cols), edges[|edges| - 1])
  }

  predicate At(e: Edge, i: nat, j: nat) {
    e.row == i && e.col == j
  }

  /** No edge after the k-th one writes cell (i, j). */
  predicate LastAt(edges: seq<Edge>, k: nat, i: nat, j: nat) {
    forall l :: k < l < |edges| ==> !At(edges[l], i, j)
  }

  /** The weight of the last edge at (i, j), if there is one. */
  function LastWrite(edges: seq<Edge>, i: nat, j: nat): (w: Option<real>)
    ensures w.None? <==> forall k :: 0 <= k < |edges| ==> !At(edges[k], i, j)
  {
    if |edges| == 0 then None
    else if At(edges[|edges| - 1], i, j) then Some(edges[|edges| - 1].weight)
    else LastWrite(edges[..|edges| - 1], i, j)
  }

  /** The edge that wins a cell: no later edge writes that cell. */
  lemma {:induction false} LastWriteIsLastEdge(edges: seq<Edge>, k: nat, i: nat, j: nat)
    requires k < |edges| && At(edges[k], i, j)
    requires LastAt(edges, k, i, j)
    ensures LastWrite(edges, i, j) == Some(edges[k].weight)
  {
    if k < |edges| - 1 {
      LastWriteIsLastEdge(edges[..|edges| - 1], k, i, j);
    }
  }

  /** A written value comes from some edge at that cell. */
  lemma {:induction false} LastWriteFromEdge(edges: seq<Edge>, i: nat, j: nat)
    requires LastWrite(edges, i, j).Some?
    ensures exists k :: 0 <= k < |edges| && At(edges[k], i, j) && edges[k].weight == LastWrite(edges, i, j).value
  {
    if !At(edges[|edges| - 1], i, j) {
      LastWriteFromEdge(edges[..|edges| - 1], i, j);
      var k :| 0 <= k < |edges| - 1 && At(edges[..|edges| - 1][k], i, j)
        && edges[..|edges| - 1][k].weight == LastWrite(edges, i, j).value;
      assert edges[k] == edges[..|edges| - 1][k];
    }
  }

  /**
   Cell (i, j) after the scatter holds the last weight written there, and
   its starting value when no edge names it.
   */
  lemma {:induction false} ScatterCell(m: Matrix, edges: seq<Edge>, rows: nat, cols: nat, i: nat, j: nat)
    requires IsShape(m, rows, cols) && InBounds(edges, rows, cols)
    requires i < rows && j < cols
    ensures Scatter(m, edges, rows, cols)[i][j] ==
      match LastWrite(edges, i, j)
      case Some(w) => w
      case None => m[i][j]
  {
    if |edges| > 0 {
      ScatterCell(m, edges[..|edges| - 1], rows, cols, i, j);
    }
  }

  /** The motif prior: the edges scattered into a TFs x genes zero matrix. */
  function MotifPrior(edges: seq<Edge>, tfs: nat, genes: nat): (m: Matrix)
    requires InBounds(edges, tfs, genes)
    ensures IsShape(m, tfs, genes)
  {
    Scatter(Zeros(tfs, genes), edges, tfs, genes)
  }

  /** A motif cell is the last weight given to its (TF, gene) pair, 0 when there is none. */
  lemma MotifPriorCell(edges: seq<Edge>, tfs: nat, genes: nat, i: nat, j: nat)
    requires InBounds(edges, tfs, genes) && i < tfs && j < genes
    ensures (forall k :: 0 <= k < |edges| ==> !At(edges[k], i, j)) ==> MotifPrior(edges, tfs, genes)[i][j] == 0.0
    ensures forall k :: 0 <= k < |edges| && At(edges[k], i, j) && LastAt(edges, k, i, j) ==>
      MotifPrior(edges, tfs, genes)[i][j] == edges[k].weight
  {
    ScatterCell(Zeros(tfs, genes), edges, tfs, genes, i, j);
    forall k | 0 <= k < |edges| && At(edges[k], i, j) && LastAt(edges, k, i, j)
      ensures MotifPrior(edges, tfs, genes)[i][j] == edges[k].weight
    {
      LastWriteIsLastEdge(edges, k, i, j);
    }
  }

  /** The edges with their two endpoints exchanged (`(idx_tf2, idx_tf1)`). */
  function Swapped(edges: seq<Edge>): (r: seq<Edge>)
    ensures |r| == |edges|
    ensures forall k :: 0 <= k < |edges| ==> r[k] == Edge(edges[k].col, edges[k].row, edges[k].weight)
  {
    seq(|edges|, k requires 0 <= k < |edges| => Edge(edges[k].col, edges[k].row, edges[k].weight))
  }

  /** Writing the swapped edges at (i, j) is writing the edges at (j, i). */
  lemma {:induction false} LastWriteSwapped(edges: seq<Edge>, i: nat, j: nat)
    ensures LastWrite(Swapped(edges), i, j) == LastWrite(edges, j, i)
  {
    if |edges| > 0 {
      assert Swapped(edges)[..|edges| - 1] == Swapped(edges[..|edges| - 1]);
      LastWriteSwapped(edges[..|edges| - 1], i, j);
    }
  }

  /**
   The PPI matrix: the identity, then every edge written at (tf1, tf2), then
   every edge written again at (tf2, tf1).
   */
  function PpiMatrix(edges: seq<Edge>, tfs: nat): (m: Matrix)
    requires InBounds(edges, tfs, tfs)
    ensures IsSquare(m, tfs)
  {
    Scatter(Scatter(Identity(tfs), edges, tfs, tfs), Swapped(edges), tfs, tfs)
  }

  /** A PPI cell: the (j, i) orientation wins over the (i, j) one, which wins over the identity. */
  lemma PpiCell(edges: seq<Edge>, tfs: nat, i: nat, j: nat)
    requires InBounds(edges, tfs, tfs) && i < tfs && j < tfs
    ensures PpiMatrix(edges, tfs)[i][j] ==
      match LastWrite(edges, j, i)
      case Some(w) => w
      case None =>
        match LastWrite(edges, i, j)
        case Some(w) => w
        case None => if i == j then 1.0 else 0.0
  {
    ScatterCell(Scatter(Identity(tfs), edges, tfs, tfs), Swapped(edges), tfs, tfs, i, j);
    ScatterCell(Identity(tfs), edges, tfs, tfs, i, j);
    LastWriteSwapped(edges, i, j);
  }

  /**
   Cells that no edge names, in either orientation, keep their identity
   value: 1 on the diagonal and 0 elsewhere.
   */
  lemma PpiUntouched(edges: seq<Edge>, tfs: nat, i: nat, j: nat)
    requires InBounds(edges, tfs, tfs) && i < tfs && j < tfs
    requires forall k :: 0 <= k < |edges| ==> !At(edges[k], i, j) && !At(edges[k], j, i)
    ensures PpiMatrix(edges, tfs)[i][j] == if i == j then 1.0 else 0.0
  {
    PpiCell(edges, tfs, i, j);
  }

  /** A named edge is written at both of its cells, whichever orientation. */
  lemma PpiEdgeBothWays(edges: seq<Edge>, tfs: nat, k: nat)
    requires InBounds(edges, tfs, tfs) && k < |edges|
    requires NoRepeatedPair(edges)
    ensures PpiMatrix(edges, tfs)[edges[k].row][edges[k].col] == edges[k].weight
    ensures PpiMatrix(edges, tfs)[edges[k].col][edges[k].row] == edges[k].weight
  {
    var e := edges[k];
    assert forall l :: k < l < |edges| ==> !At(edges[l], e.row, e.col) by {
      forall l | k < l < |edges| ensures !At(edges[l], e.row, e.col) {
        assert !SamePair(edges[k], edges[l]);
      }
    }
    assert forall l :: k < l < |edges| ==> !At(edges[l], e.col, e.row) by {
      forall l | k < l < |edges| ensures !At(edges[l], e.col, e.row) {
        assert !SamePair(edges[k], edges[l]);
      }
    }
    LastWriteIsLastEdge(edges, k, e.row, e.col);
    PpiCell(edges, tfs, e.row, e.col);
    PpiCell(edges, tfs, e.col, e.row);
    if e.row != e.col {
      // the reversed orientation of this pair is never written
      if LastWrite(edges, e.col, e.row).Some? {
        LastWriteFromEdge(edges, e.col, e.row);
        var l :| 0 <= l < |edges| && At(edges[l], e.col, e.row) && edges[l].weight == LastWrite(edges, e.col, e.row).value;
        assert l != k;
        assert SamePair(edges[k], edges[l]) && SamePair(edges[l], edges[k]);
      }
    }
  }

  /** Two edges name the same unordered pair of TFs. */
  predicate SamePair(e: Edge, f: Edge) {
    (e.row == f.row && e.col == f.col) || (e.row == f.col && e.col == f.row)
  }

  /** No unordered pair of TFs occurs twice in the PPI table. */
  predicate NoRepeatedPair(edges: seq<Edge>) {
    forall k, l :: 0 <= k < l < |edges| ==> !SamePair(edges[k], edges[l])
  }

  /** When no unordered pair is listed twice, the PPI matrix is symmetric. */
  lemma PpiSymmetric(edges: seq<Edge>, tfs: nat)
    requires InBounds(edges, tfs, tfs) && NoRepeatedPair(edges)
    ensures Symmetric(PpiMatrix(edges, tfs), tfs)
  {
    var m := PpiMatrix(edges, tfs);
    forall i, j | 0 <= i < tfs && 0 <= j < tfs
      ensures m[i][j] == m[j][i]
    {
      PpiCell(edges, tfs, i, j);
      PpiCell(edges, tfs, j, i);
      if i != j && LastWrite(edges, i, j).Some? && LastWrite(edges, j, i).Some? {
        LastWriteFromEdge(edges, i, j);
        LastWriteFromEdge(edges, j, i);
        var k :| 0 <= k < |edges| && At(edges[k], i, j);
        var l :| 0 <= l < |edges| && At(edges[l], j, i);
        assert SamePair(edges[k], edges[l]) && SamePair(edges[l], edges[k]);
        assert false;
      }
    }
  }

  /** Without the no-repeat condition symmetry fails: (0, 1, 1.0) then (1, 0, 2.0). */
  lemma PpiRepeatedPairAsymmetric()
    ensures var edges := [Edge(0, 1, 1.0), Edge(1, 0, 2.0)];
      PpiMatrix(edges, 2)[0][1] == 2.0 && PpiMatrix(edges, 2)[1][0] == 1.0
  {
    var edges := [Edge(0, 1, 1.0), Edge(1, 0, 2.0)];
    PpiCell(edges, 2, 0, 1);
    PpiCell(edges, 2, 1, 0);
    LastWriteIsLastEdge(edges, 1, 1, 0);
    LastWriteIsLastEdge(edges, 0, 0, 1);
  }

  /**
   Lines 63-67: a zero TFs x genes buffer, then one write per motif edge
   through the flat view.
   */
  method BuildMotif(edges: seq<Edge>, tfs: nat, genes: nat) returns (m: array2<real>)
    requires InBounds(edges, tfs, genes)
    ensures fresh(m)
    ensures m.Length0 == tfs && m.Length1 == genes
    ensures Snapshot(m) == MotifPrior(edges, tfs, genes)
  {
    m := ToArray(Zeros(tfs, genes), tfs, genes);
    ScatterInto(m, edges);
  }

  /**
   Lines 70-76: an identity TFs x TFs buffer, the edges written as
   (tf1, tf2), then again as (tf2, tf1).
   */
  method BuildPpi(edges: seq<Edge>, tfs: nat) returns (m: array2<real>)
    requires InBounds(edges, tfs, tfs)
    ensures fresh(m)
    ensures m.Length0 == tfs && m.Length1 == tfs
    ensures Snapshot(m) == PpiMatrix(edges, tfs)
  {
    m := ToArray(Identity(tfs), tfs, tfs);
    ScatterInto(m, edges);
    ScatterInto(m, Swapped(edges));
  }

  /** `a.ravel()[idx] = weights`: the writes happen in edge order. */
  method ScatterInto(a: array2<real>, edges: seq<Edge>)
    requires InBounds(edges, a.Length0, a.Length1)
    modifies a
    ensures Snapshot(a) == Scatter(old(Snapshot(a)), edges, a.Length0, a.Length1)
  {
    ghost var start := Snapshot(a);
    for k := 0 to |edges|
      invariant Snapshot(a) == Scatter(start, edges[..k], a.Length0, a.Length1)
    {
      ghost var before := Snapshot(a);
      var e := edges[k];
      a[e.row, e.col] := e.weight;
      assert edges[..k + 1][..k] == edges[..k];
      CellwiseEqual(Snapshot(a), Write(before, e), a.Length0, a.Length1);
    }
    assert edges[..|edges|] == edges;
  }
}

/**
 The T-function of `puma_loop` (lines 131-140): a cosine-like similarity
 between rows of one matrix, or between rows of one matrix and columns of
 another. The exact part is the dot products and the normaliser's argument;
 the final `a / sqrt(b)` is floating point and is taken as a given function
 `divRoot(a, b)`.
 */
module Affinity {
  import opened Matrices

  /** The dot product of two vectors of one length. */
  function Dot(u: seq<real>, v: seq<real>): real
    requires |u| == |v|
  {
    if |u| == 0 then 0.0 else u[0] * v[0] + Dot(u[1..], v[1..])
  }

  /** `np.square(u).sum()` */
  function SumSq(u: seq<real>): real {
    if |u| == 0 then 0.0 else u[0] * u[0] + SumSq(u[1..])
  }

  function Abs(a: real): real {
    if a < 0.0 then -a else a
  }

  lemma {:induction false} DotCommutes(u: seq<real>, v: seq<real>)
    requires |u| == |v|
    ensures Dot(u, v) == Dot(v, u)
  {
    if |u| > 0 {
      DotCommutes(u[1..], v[1..]);
    }
  }

  /** `|u|^2 + |v|^2 - 2 u.v` and `|u|^2 + |v|^2 + 2 u.v` are squared norms, so never negative. */
  lemma {:induction false} DotBounded(u: seq<real>, v: seq<real>)
    requires |u| == |v|
    ensures SumSq(u) + SumSq(v) - 2.0 * Dot(u, v) >= 0.0
    ensures SumSq(u) + SumSq(v) + 2.0 * Dot(u, v) >= 0.0
  {
    if |u| > 0 {
      DotBounded(u[1..], v[1..]);
      var a, b := u[0], v[0];
      assert SumSq(u) == a * a + SumSq(u[1..]);
      assert SumSq(v) == b * b + SumSq(v[1..]);
      assert Dot(u, v) == a * b + Dot(u[1..], v[1..]);
      SquareNonNegative(a - b);
      SquareNonNegative(a + b);
      assert a * a + b * b - 2.0 * (a * b) == (a - b) * (a - b);
      assert a * a + b * b + 2.0 * (a * b) == (a + b) * (a + b);
    }
  }

  lemma SquareNonNegative(c: real)
    ensures c * c >= 0.0
  {
    if c < 0.0 {
      assert c * c == (-c) * (-c);
    }
  }

  /**
   The argument of the square root in the normaliser is at least half the
   sum of the two squared norms, so it is never negative.
   */
  lemma NormaliserNonNegative(u: seq<real>, v: seq<real>)
    requires |u| == |v|
    ensures 2.0 * (SumSq(u) + SumSq(v) - Abs(Dot(u, v))) >= SumSq(u) + SumSq(v) >= 0.0
  {
    DotBounded(u, v);
  }

  /**
   Single-argument form, `t_function(x)` for x with k columns:
   `A = x . x^T`, `s[i] = sum(x[i]^2)`, each cell `A[i][j] / sqrt(s[j] + s[i] - |A[i][j]|)`.
   */
  function TransformSelf(x: Matrix, k: nat, divRoot: (real, real) -> real): (a: Matrix)
    requires IsShape(x, |x|, k)
    ensures IsSquare(a, |x|)
  {
    seq(|x|, i requires 0 <= i < |x| =>
      seq(|x|, j requires 0 <= j < |x| =>
        var dot := Dot(x[i], x[j]);
        divRoot(dot, SumSq(x[j]) + SumSq(x[i]) - Abs(dot))))
  }

  /**
   Two-argument form, `t_function(x, y)` for x (p x k) and y (k x q):
   `A = x . y`, each cell divided by the root of column j's squared norm in y
   plus row i's squared norm in x minus `|A[i][j]|`.
   */
  function TransformPair(x: Matrix, y: Matrix, k: nat, q: nat, divRoot: (real, real) -> real): (a: Matrix)
    requires IsShape(x, |x|, k) && IsShape(y, k, q)
    ensures IsShape(a, |x|, q)
  {
    seq(|x|, i requires 0 <= i < |x| =>
      seq(q, j requires 0 <= j < q =>
        var dot := Dot(x[i], Column(y, j));
        divRoot(dot, SumSq(Column(y, j)) + SumSq(x[i]) - Abs(dot))))
  }

  /**
   The single-argument result is symmetric, whatever `divRoot` is: both the
   dot products and the normaliser's argument are symmetric in (i, j).
   */
  lemma TransformSelfSymmetric(x: Matrix, k: nat, divRoot: (real, real) -> real)
    requires IsShape(x, |x|, k)
    ensures Symmetric(TransformSelf(x, k, divRoot), |x|)
  {
    forall i, j | 0 <= i < |x| && 0 <= j < |x|
      ensures TransformSelf(x, k, divRoot)[i][j] == TransformSelf(x, k, divRoot)[j][i]
    {
      DotCommutes(x[i], x[j]);
    }
  }

  /**
   `t_function(x)` is `t_function(x, x.T)`: the single-argument form is the
   two-argument form applied to the matrix and its transpose.
   */
  lemma SelfIsPairWithTranspose(x: Matrix, k: nat, divRoot: (real, real) -> real)
    requires IsShape(x, |x|, k)
    ensures TransformPair(x, Transpose(x, k), k, |x|, divRoot) == TransformSelf(x, k, divRoot)
  {
    var t := Transpose(x, k);
    forall j | 0 <= j < |x|
      ensures Column(t, j) == x[j]
    {
      assert forall i :: 0 <= i < k ==> Column(t, j)[i] == x[j][i];
    }
    CellwiseEqual(TransformPair(x, t, k, |x|, divRoot), TransformSelf(x, k, divRoot), |x|, |x|);
  }
}

/**
 * Exact linear algebra over real matrices, the specification side of the
 * rank-2 operations: the row-major view of a flat buffer, the matrix
 * product as sums of products, the identity, and the elementary row and
 * column operations that Gauss-Jordan elimination performs.
 */
module Matrices {
  import opened Layout
  import opened Elementwise

  /** A matrix as its sequence of rows. */
  type Matrix = seq<seq<real>>

  ghost predicate IsMatrix(m: Matrix, rows: nat, cols: nat)
  {
    |m| == rows && forall i :: 0 <= i < rows ==> |m[i]| == cols
  }

  /** The first len terms of the dot product: the sum of x[k] * y[k] for k < len. */
  ghost function Inner(x: seq<real>, y: seq<real>, len: nat): real
    requires len <= |x| && len <= |y|
  {
    if len == 0 then 0.0 else Inner(x, y, len - 1) + x[len - 1] * y[len - 1]
  }

  ghost function Column(m: Matrix, j: nat): seq<real>
    requires forall i :: 0 <= i < |m| ==> j < |m[i]|
  {
    seq(|m|, i requires 0 <= i < |m| => m[i][j])
  }

  /** The matrix product: entry (i, j) is row i of a times column j of b. */
  ghost function MatMul(a: Matrix, b: Matrix, rows: nat, inner: nat, cols: nat): (c: Matrix)
    requires IsMatrix(a, rows, inner) && IsMatrix(b, inner, cols)
    ensures IsMatrix(c, rows, cols)
  {
    seq(rows, i requires 0 <= i < rows =>
      seq(cols, j requires 0 <= j < cols => Inner(a[i], Column(b, j), inner)))
  }

  /** The unit vector e_j of length n. */
  ghost function Unit(n: nat, j: nat): seq<real>
  {
    seq(n, k requires 0 <= k < n => if k == j then 1.0 else 0.0)
  }

  /** The n x n identity: row i is e_i. */
  ghost function Identity(n: nat): (m: Matrix)
    ensures IsMatrix(m, n, n)
  {
    seq(n, i requires 0 <= i < n => Unit(n, i))
  }

  // ---------------------------------------------------------------------
  // The row-major view of a flat buffer

  lemma CellInRange(i: nat, j: nat, rows: nat, cols: nat)
    requires i < rows && j < cols
    ensures i * cols + j < rows * cols
  {
    MulMono(i + 1, rows, cols);
  }

  /** Element (i, j) of a rows x cols matrix stored row by row lives at i * cols + j. */
  ghost function Mat(s: seq<real>, rows: nat, cols: nat): (m: Matrix)
    requires |s| == rows * cols
    ensures IsMatrix(m, rows, cols)
  {
    seq(rows, i requires 0 <= i < rows =>
      seq(cols, j requires 0 <= j < cols => CellInRange(i, j, rows, cols); s[i * cols + j]))
  }

  lemma MatCell(s: seq<real>, rows: nat, cols: nat, i: nat, j: nat)
    requires |s| == rows * cols && i < rows && j < cols
    ensures i * cols + j < |s| && Mat(s, rows, cols)[i][j] == s[i * cols + j]
  {
    CellInRange(i, j, rows, cols);
  }

  /** Row j of the buffer is the segment [j * cols, j * cols + cols). */
  lemma RowSegment(a: nat, b: nat, j: nat, cols: nat)
    requires b < cols
    ensures j * cols <= a * cols + b < j * cols + cols <==> a == j
  {
    if a < j {
      MulMono(a + 1, j, cols);
    } else if j < a {
      MulMono(j + 1, a, cols);
    }
  }

  lemma RowInRange(j: nat, rows: nat, cols: nat)
    requires j < rows
    ensures j * cols + cols <= rows * cols
  {
    MulMono(j + 1, rows, cols);
  }

  /** A buffer that differs from s only in row j, where it holds w, is viewed as Mat(s) with row j replaced by w. */
  lemma MatReplaceRow(s: seq<real>, s': seq<real>, rows: nat, cols: nat, j: nat, w: seq<real>)
    requires |s| == |s'| == rows * cols && j < rows && |w| == cols
    requires j * cols + cols <= |s|
    requires forall k :: 0 <= k < cols ==> s'[j * cols + k] == w[k]
    requires forall q :: 0 <= q < |s| && !(j * cols <= q < j * cols + cols) ==> s'[q] == s[q]
    ensures Mat(s', rows, cols) == Mat(s, rows, cols)[j := w]
  {
    var m, m' := Mat(s, rows, cols), Mat(s', rows, cols);
    forall a | 0 <= a < rows
      ensures m'[a] == m[j := w][a]
    {
      forall b | 0 <= b < cols
        ensures m'[a][b] == m[j := w][a][b]
      {
        MatCell(s, rows, cols, a, b);
        MatCell(s', rows, cols, a, b);
        RowSegment(a, b, j, cols);
      }
    }
  }

  /** Writing one element of the buffer writes the corresponding entry of the matrix view. */
  lemma MatUpdate(s: seq<real>, rows: nat, cols: nat, i: nat, j: nat, v: real)
    requires |s| == rows * cols && i < rows && j < cols
    ensures i * cols + j < |s|
    ensures Mat(s[i * cols + j := v], rows, cols) == Mat(s, rows, cols)[i := Mat(s, rows, cols)[i][j := v]]
  {
    CellInRange(i, j, rows, cols);
    RowInRange(i, rows, cols);
    var m := Mat(s, rows, cols);
    var s', w := s[i * cols + j := v], m[i][j := v];
    forall k | 0 <= k < cols
      ensures s'[i * cols + k] == w[k]
    {
      MatCell(s, rows, cols, i, k);
    }
    MatReplaceRow(s, s', rows, cols, i, w);
  }

  /** Two buffers with the same matrix view are the same buffer. */
  lemma MatInjective(s: seq<real>, s': seq<real>, rows: nat, cols: nat)
    requires |s| == |s'| == rows * cols && Mat(s, rows, cols) == Mat(s', rows, cols)
    ensures s == s'
  {
    forall q | 0 <= q < |s|
      ensures s[q] == s'[q]
    {
      QuotientBound(q, rows, cols);
      MatCell(s, rows, cols, q / cols, q % cols);
      MatCell(s', rows, cols, q / cols, q % cols);
    }
  }

  /** Scaling the buffer scales the matrix view. */
  lemma MatScale(s: seq<real>, rows: nat, cols: nat, c: real)
    requires |s| == rows * cols
    ensures Mat(Scale(s, c), rows, cols) == ScaleMatrix(Mat(s, rows, cols), c)
  {
    var lhs, rhs := Mat(Scale(s, c), rows, cols), ScaleMatrix(Mat(s, rows, cols), c);
    forall i | 0 <= i < rows
      ensures lhs[i] == rhs[i]
    {
      forall j | 0 <= j < cols
        ensures lhs[i][j] == rhs[i][j]
      {
        MatCell(s, rows, cols, i, j);
        MatCell(Scale(s, c), rows, cols, i, j);
      }
    }
  }

  // ---------------------------------------------------------------------
  // Elementary row operations (applied to the working copy and the result)

  /** x - f * y, element by element. */
  ghost function RowMinus(x: seq<real>, y: seq<real>, f: real): seq<real>
    requires |x| == |y|
  {
    seq(|x|, k requires 0 <= k < |x| => x[k] - f * y[k])
  }

  ghost function SwapRows(m: Matrix, i: nat, p: nat): Matrix
    requires i < |m| && p < |m|
  {
    m[i := m[p]][p := m[i]]
  }

  ghost function DivideRow(m: Matrix, i: nat, d: real): Matrix
    requires i < |m| && d != 0.0
  {
    m[i := Divide(m[i], d)]
  }

  /** Row j minus f times row i. */
  ghost function SubtractRow(m: Matrix, j: nat, i: nat, f: real): Matrix
    requires i < |m| && j < |m| && |m[j]| == |m[i]|
  {
    m[j := RowMinus(m[j], m[i], f)]
  }

  // ---------------------------------------------------------------------
  // Column operations: the inverses of the row operations, applied on the right

  /** x with elements i and p exchanged. */
  ghost function SwapAt(x: seq<real>, i: nat, p: nat): seq<real>
    requires i < |x| && p < |x|
  {
    x[i := x[p]][p := x[i]]
  }

  /** x with element i multiplied by d. */
  ghost function ScaleAt(x: seq<real>, i: nat, d: real): seq<real>
    requires i < |x|
  {
    x[i := x[i] * d]
  }

  /** x with f times element j added to element i. */
  ghost function AddAt(x: seq<real>, i: nat, j: nat, f: real): seq<real>
    requires i < |x| && j < |x|
  {
    x[i := x[i] + f * x[j]]
  }

  ghost function SwapColumns(m: Matrix, i: nat, p: nat): Matrix
    requires forall r :: 0 <= r < |m| ==> i < |m[r]| && p < |m[r]|
  {
    seq(|m|, r requires 0 <= r < |m| => SwapAt(m[r], i, p))
  }

  ghost function ScaleColumn(m: Matrix, i: nat, d: real): Matrix
    requires forall r :: 0 <= r < |m| ==> i < |m[r]|
  {
    seq(|m|, r requires 0 <= r < |m| => ScaleAt(m[r], i, d))
  }

  /** Column i plus f times column j. */
  ghost function AddColumn(m: Matrix, i: nat, j: nat, f: real): Matrix
    requires forall r :: 0 <= r < |m| ==> i < |m[r]| && j < |m[r]|
  {
    seq(|m|, r requires 0 <= r < |m| => AddAt(m[r], i, j, f))
  }

  // ---------------------------------------------------------------------
  // Sums

  /** Changing one term of a dot product changes the sum by exactly that term. */
  lemma {:induction false} InnerUpdate(x: seq<real>, y: seq<real>, len: nat, k: nat, a: real, b: real)
    requires k < len <= |x| && len <= |y|
    ensures Inner(x[k := a], y[k := b], len) == Inner(x, y, len) - x[k] * y[k] + a * b
  {
    if k < len - 1 {
      InnerUpdate(x, y, len - 1, k, a, b);
    } else {
      InnerPrefix(x, x[k := a], y, y[k := b], len - 1);
    }
  }

  /** A dot product whose terms all vanish is zero. */
  lemma {:induction false} InnerNoTerm(x: seq<real>, y: seq<real>, len: nat)
    requires len <= |x| && len <= |y|
    requires forall k :: 0 <= k < len ==> x[k] * y[k] == 0.0
    ensures Inner(x, y, len) == 0.0
  {
    if len > 0 {
      InnerNoTerm(x, y, len - 1);
    }
  }

  /** A dot product with one possibly non-zero term is that term. */
  lemma {:induction false} InnerOneTerm(x: seq<real>, y: seq<real>, len: nat, a: nat)
    requires a < len <= |x| && len <= |y|
    requires forall k :: 0 <= k < len && k != a ==> x[k] * y[k] == 0.0
    ensures Inner(x, y, len) == x[a] * y[a]
  {
    if a < len - 1 {
      InnerOneTerm(x, y, len - 1, a);
    } else {
      InnerNoTerm(x, y, len - 1);
    }
  }

  /** A dot product with two possibly non-zero terms is their sum. */
  lemma {:induction false} InnerTwoTerms(x: seq<real>, y: seq<real>, len: nat, a: nat, b: nat)
    requires a < len && b < len && a != b && len <= |x| && len <= |y|
    requires forall k :: 0 <= k < len && k != a && k != b ==> x[k] * y[k] == 0.0
    ensures Inner(x, y, len) == x[a] * y[a] + x[b] * y[b]
  {
    if a < len - 1 && b < len - 1 {
      InnerTwoTerms(x, y, len - 1, a, b);
    } else if a == len - 1 {
      InnerOneTerm(x, y, len - 1, b);
    } else {
      InnerOneTerm(x, y, len - 1, a);
    }
  }

  /** The sum of the first len terms depends only on the first len elements. */
  lemma {:induction false} InnerPrefix(x: seq<real>, x': seq<real>, y: seq<real>, y': seq<real>, len: nat)
    requires len <= |x| && len <= |x'| && len <= |y| && len <= |y'|
    requires forall k :: 0 <= k < len ==> x[k] == x'[k] && y[k] == y'[k]
    ensures Inner(x, y, len) == Inner(x', y', len)
  {
    if len > 0 {
      InnerPrefix(x, x', y, y', len - 1);
    }
  }

  /** The dot product is linear in its first argument (subtraction of a multiple). */
  lemma {:induction false} InnerMinus(x: seq<real>, y: seq<real>, f: real, z: seq<real>, len: nat)
    requires |x| == |y| && len <= |x| && len <= |z|
    ensures Inner(RowMinus(x, y, f), z, len) == Inner(x, z, len) - f * Inner(y, z, len)
  {
    if len > 0 {
      InnerMinus(x, y, f, z, len - 1);
      var k := len - 1;
      assert RowMinus(x, y, f)[k] * z[k] == x[k] * z[k] - f * (y[k] * z[k]);
    }
  }

  /** The dot product is linear in its first argument (division by a scalar). */
  lemma {:induction false} InnerDiv(x: seq<real>, d: real, z: seq<real>, len: nat)
    requires d != 0.0 && len <= |x| && len <= |z|
    ensures Inner(Divide(x, d), z, len) == Inner(x, z, len) / d
  {
    if len > 0 {
      InnerDiv(x, d, z, len - 1);
      var k := len - 1;
      assert Divide(x, d)[k] * z[k] == (x[k] * z[k]) / d;
    }
  }

  /** Dotting with e_j picks element j. */
  lemma {:induction false} InnerUnitRight(x: seq<real>, n: nat, j: nat, len: nat)
    requires len <= |x| && len <= n
    ensures Inner(x, Unit(n, j), len) == if j < len then x[j] else 0.0
  {
    if len > 0 {
      InnerUnitRight(x, n, j, len - 1);
    }
  }

  /** Dotting e_i with y picks element i. */
  lemma {:induction false} InnerUnitLeft(y: seq<real>, n: nat, i: nat, len: nat)
    requires len <= |y| && len <= n
    ensures Inner(Unit(n, i), y, len) == if i < len then y[i] else 0.0
  {
    if len > 0 {
      InnerUnitLeft(y, n, i, len - 1);
    }
  }

  // ---------------------------------------------------------------------
  // The identity is neutral for the product

  lemma MatMulIdentityRight(a: Matrix, rows: nat, n: nat)
    requires IsMatrix(a, rows, n)
    ensures MatMul(a, Identity(n), rows, n, n) == a
  {
    var c := MatMul(a, Identity(n), rows, n, n);
    forall i | 0 <= i < rows
      ensures c[i] == a[i]
    {
      forall j | 0 <= j < n
        ensures c[i][j] == a[i][j]
      {
        assert Column(Identity(n), j) == Unit(n, j);
        InnerUnitRight(a[i], n, j, n);
      }
    }
  }

  lemma MatMulIdentityLeft(a: Matrix, n: nat, cols: nat)
    requires IsMatrix(a, n, cols)
    ensures MatMul(Identity(n), a, n, n, cols) == a
  {
    var c := MatMul(Identity(n), a, n, n, cols);
    forall i | 0 <= i < n
      ensures c[i] == a[i]
    {
      forall j | 0 <= j < cols
        ensures c[i][j] == a[i][j]
      {
        InnerUnitLeft(Column(a, j), n, i, n);
      }
    }
  }

  // ---------------------------------------------------------------------
  // A row operation on the left factor is the same row operation on the product

  lemma MatMulSwapRows(r: Matrix, a: Matrix, rows: nat, inner: nat, cols: nat, i: nat, p: nat)
    requires IsMatrix(r, rows, inner) && IsMatrix(a, inner, cols) && i < rows && p < rows
    ensures IsMatrix(SwapRows(r, i, p), rows, inner)
    ensures MatMul(SwapRows(r, i, p), a, rows, inner, cols) == SwapRows(MatMul(r, a, rows, inner, cols), i, p)
  {
  }

  lemma MatMulDivideRow(r: Matrix, a: Matrix, rows: nat, inner: nat, cols: nat, i: nat, d: real)
    requires IsMatrix(r, rows, inner) && IsMatrix(a, inner, cols) && i < rows && d != 0.0
    ensures IsMatrix(DivideRow(r, i, d), rows, inner)
    ensures MatMul(DivideRow(r, i, d), a, rows, inner, cols) == DivideRow(MatMul(r, a, rows, inner, cols), i, d)
  {
    var lhs, rhs := MatMul(DivideRow(r, i, d), a, rows, inner, cols), DivideRow(MatMul(r, a, rows, inner, cols), i, d);
    forall j | 0 <= j < cols
      ensures lhs[i][j] == rhs[i][j]
    {
      InnerDiv(r[i], d, Column(a, j), inner);
    }
    assert lhs[i] == rhs[i];
  }

  lemma MatMulSubtractRow(r: Matrix, a: Matrix, rows: nat, inner: nat, cols: nat, j: nat, i: nat, f: real)
    requires IsMatrix(r, rows, inner) && IsMatrix(a, inner, cols) && i < rows && j < rows
    ensures IsMatrix(SubtractRow(r, j, i, f), rows, inner)
    ensures MatMul(SubtractRow(r, j, i, f), a, rows, inner, cols) == SubtractRow(MatMul(r, a, rows, inner, cols), j, i, f)
  {
    var lhs, rhs := MatMul(SubtractRow(r, j, i, f), a, rows, inner, cols), SubtractRow(MatMul(r, a, rows, inner, cols), j, i, f);
    forall c | 0 <= c < cols
      ensures lhs[j][c] == rhs[j][c]
    {
      InnerMinus(r[j], r[i], f, Column(a, c), inner);
    }
    assert lhs[j] == rhs[j];
  }

  // ---------------------------------------------------------------------
  // A row operation on the right factor undone by the inverse column operation on the left factor

  lemma InnerSwapBoth(x: seq<real>, y: seq<real>, n: nat, i: nat, p: nat)
    requires |x| == |y| == n && i < n && p < n
    ensures Inner(SwapAt(x, i, p), SwapAt(y, i, p), n) == Inner(x, y, n)
  {
    if i != p {
      InnerUpdate(x, y, n, i, x[p], y[p]);
      InnerUpdate(x[i := x[p]], y[i := y[p]], n, p, x[i], y[i]);
    } else {
      assert SwapAt(x, i, p) == x && SwapAt(y, i, p) == y;
    }
  }

  lemma InnerScaleBoth(x: seq<real>, y: seq<real>, n: nat, i: nat, d: real)
    requires |x| == |y| == n && i < n && d != 0.0
    ensures Inner(ScaleAt(x, i, d), y[i := y[i] / d], n) == Inner(x, y, n)
  {
    InnerUpdate(x, y, n, i, x[i] * d, y[i] / d);
    assert (x[i] * d) * (y[i] / d) == x[i] * y[i];
  }

  lemma InnerAddSubtract(x: seq<real>, y: seq<real>, n: nat, j: nat, i: nat, f: real)
    requires |x| == |y| == n && i < n && j < n && i != j
    ensures Inner(AddAt(x, i, j, f), y[j := y[j] - f * y[i]], n) == Inner(x, y, n)
  {
    assert AddAt(x, i, j, f) == x[i := x[i] + f * x[j]];
    var y1 := y[j := y[j] - f * y[i]];
    InnerUpdate(x, y, n, j, x[j], y[j] - f * y[i]);
    assert x[j := x[j]] == x;
    assert Inner(x, y1, n) == Inner(x, y, n) - f * (x[j] * y[i]) by {
      assert x[j] * (y[j] - f * y[i]) == x[j] * y[j] - f * (x[j] * y[i]);
    }
    InnerUpdate(x, y1, n, i, x[i] + f * x[j], y1[i]);
    assert y1[i := y1[i]] == y1;
    assert y1[i] == y[i];
    assert (x[i] + f * x[j]) * y[i] == x[i] * y[i] + f * (x[j] * y[i]);
  }

  lemma MatMulSwapBoth(s: Matrix, t: Matrix, rows: nat, n: nat, cols: nat, i: nat, p: nat)
    requires IsMatrix(s, rows, n) && IsMatrix(t, n, cols) && i < n && p < n
    ensures IsMatrix(SwapColumns(s, i, p), rows, n) && IsMatrix(SwapRows(t, i, p), n, cols)
    ensures MatMul(SwapColumns(s, i, p), SwapRows(t, i, p), rows, n, cols) == MatMul(s, t, rows, n, cols)
  {
    var s', t' := SwapColumns(s, i, p), SwapRows(t, i, p);
    var lhs, rhs := MatMul(s', t', rows, n, cols), MatMul(s, t, rows, n, cols);
    forall r | 0 <= r < rows
      ensures lhs[r] == rhs[r]
    {
      forall c | 0 <= c < cols
        ensures lhs[r][c] == rhs[r][c]
      {
        assert Column(t', c) == SwapAt(Column(t, c), i, p);
        InnerSwapBoth(s[r], Column(t, c), n, i, p);
      }
    }
  }

  lemma MatMulScaleBoth(s: Matrix, t: Matrix, rows: nat, n: nat, cols: nat, i: nat, d: real)
    requires IsMatrix(s, rows, n) && IsMatrix(t, n, cols) && i < n && d != 0.0
    ensures IsMatrix(ScaleColumn(s, i, d), rows, n) && IsMatrix(DivideRow(t, i, d), n, cols)
    ensures MatMul(ScaleColumn(s, i, d), DivideRow(t, i, d), rows, n, cols) == MatMul(s, t, rows, n, cols)
  {
    var s', t' := ScaleColumn(s, i, d), DivideRow(t, i, d);
    var lhs, rhs := MatMul(s', t', rows, n, cols), MatMul(s, t, rows, n, cols);
    forall r | 0 <= r < rows
      ensures lhs[r] == rhs[r]
    {
      forall c | 0 <= c < cols
        ensures lhs[r][c] == rhs[r][c]
      {
        var y := Column(t, c);
        assert Column(t', c) == y[i := y[i] / d];
        InnerScaleBoth(s[r], y, n, i, d);
      }
    }
  }

  lemma MatMulAddSubtract(s: Matrix, t: Matrix, rows: nat, n: nat, cols: nat, j: nat, i: nat, f: real)
    requires IsMatrix(s, rows, n) && IsMatrix(t, n, cols) && i < n && j < n && i != j
    ensures IsMatrix(AddColumn(s, i, j, f), rows, n) && IsMatrix(SubtractRow(t, j, i, f), n, cols)
    ensures MatMul(AddColumn(s, i, j, f), SubtractRow(t, j, i, f), rows, n, cols) == MatMul(s, t, rows, n, cols)
  {
    var s', t' := AddColumn(s, i, j, f), SubtractRow(t, j, i, f);
    var lhs, rhs := MatMul(s', t', rows, n, cols), MatMul(s, t, rows, n, cols);
    forall r | 0 <= r < rows
      ensures lhs[r] == rhs[r]
    {
      forall c | 0 <= c < cols
        ensures lhs[r][c] == rhs[r][c]
      {
        var y := Column(t, c);
        forall k | 0 <= k < n
          ensures Column(t', c)[k] == y[j := y[j] - f * y[i]][k]
        {
          if k == j {
            assert t'[k] == RowMinus(t[j], t[i], f);
          }
        }
        assert Column(t', c) == y[j := y[j] - f * y[i]];
        InnerAddSubtract(s[r], y, n, j, i, f);
      }
    }
  }

  // ---------------------------------------------------------------------
  // Vectors, associativity and singularity

  ghost function Zeros(n: nat): seq<real>
  {
    seq(n, k => 0.0)
  }

  /** The matrix-vector product: element l is row l of m times v. */
  ghost function MatVec(m: Matrix, v: seq<real>, len: nat): (w: seq<real>)
    requires forall l :: 0 <= l < |m| ==> len <= |m[l]|
    requires len <= |v|
    ensures |w| == |m|
  {
    seq(|m|, l requires 0 <= l < |m| => Inner(m[l], v, len))
  }

  /** The vector-matrix product: element k is x times column k of b. */
  ghost function VecMat(x: seq<real>, b: Matrix, inner: nat, cols: nat): (w: seq<real>)
    requires IsMatrix(b, inner, cols) && inner <= |x|
    ensures |w| == cols
  {
    seq(cols, k requires 0 <= k < cols => Inner(x, Column(b, k), inner))
  }

  /**
   * A square matrix is singular when it sends some non-zero vector to zero.
   */
  ghost predicate Singular(a: Matrix, n: nat)
    requires IsMatrix(a, n, n)
  {
    exists v :: |v| == n && v != Zeros(n) && MatVec(a, v, n) == Zeros(n)
  }

  /** m scaled by c, entry by entry. */
  ghost function ScaleMatrix(m: Matrix, c: real): (m': Matrix)
    ensures |m'| == |m| && forall r :: 0 <= r < |m| ==> |m'[r]| == |m[r]|
  {
    seq(|m|, r requires 0 <= r < |m| => Scale(m[r], c))
  }

  lemma {:induction false} InnerZeroRight(x: seq<real>, z: seq<real>, len: nat)
    requires len <= |x| && len <= |z|
    requires forall k :: 0 <= k < len ==> z[k] == 0.0
    ensures Inner(x, z, len) == 0.0
  {
    if len > 0 {
      InnerZeroRight(x, z, len - 1);
    }
  }

  /** The dot product is linear in its second argument. */
  lemma {:induction false} InnerLinear(x: seq<real>, y: seq<real>, z: seq<real>, w: seq<real>, c: real, len: nat)
    requires len <= |x| && len <= |y| && len <= |z| && len <= |w|
    requires forall k :: 0 <= k < len ==> w[k] == y[k] + c * z[k]
    ensures Inner(x, w, len) == Inner(x, y, len) + c * Inner(x, z, len)
  {
    if len > 0 {
      InnerLinear(x, y, z, w, c, len - 1);
      var k := len - 1;
      assert x[k] * w[k] == x[k] * y[k] + c * (x[k] * z[k]);
    }
  }

  lemma {:induction false} InnerScaleLeft(x: seq<real>, c: real, z: seq<real>, len: nat)
    requires len <= |x| && len <= |z|
    ensures Inner(Scale(x, c), z, len) == c * Inner(x, z, len)
  {
    if len > 0 {
      InnerScaleLeft(x, c, z, len - 1);
      var k := len - 1;
      assert Scale(x, c)[k] * z[k] == c * (x[k] * z[k]);
    }
  }

  lemma {:induction false} InnerScaleRight(x: seq<real>, z: seq<real>, c: real, len: nat)
    requires len <= |x| && len <= |z|
    ensures Inner(x, Scale(z, c), len) == c * Inner(x, z, len)
  {
    if len > 0 {
      InnerScaleRight(x, z, c, len - 1);
      var k := len - 1;
      assert x[k] * Scale(z, c)[k] == c * (x[k] * z[k]);
    }
  }

  /** Taking one more column of b into b z adds that column scaled by the matching entry of z. */
  lemma MatVecStep(b: Matrix, z: seq<real>, inner: nat, cols: nat, m: nat)
    requires IsMatrix(b, inner, cols) && 0 < m <= cols && cols <= |z|
    ensures forall k :: 0 <= k < inner ==>
      MatVec(b, z, m)[k] == MatVec(b, z, m - 1)[k] + z[m - 1] * Column(b, m - 1)[k]
  {
    forall k | 0 <= k < inner
      ensures MatVec(b, z, m)[k] == MatVec(b, z, m - 1)[k] + z[m - 1] * Column(b, m - 1)[k]
    {
      assert MatVec(b, z, m)[k] == Inner(b[k], z, m) && MatVec(b, z, m - 1)[k] == Inner(b[k], z, m - 1);
    }
  }

  /** One more term on the left of the associativity equation matches one more column on the right. */
  lemma InnerAssocStep(x: seq<real>, y: seq<real>, z: seq<real>, prev: seq<real>, next: seq<real>, col: seq<real>, inner: nat, m: nat)
    requires 0 < m <= |y| && m <= |z| && inner <= |x| && inner <= |prev| && inner <= |next| && inner <= |col|
    requires y[m - 1] == Inner(x, col, inner)
    requires Inner(y, z, m - 1) == Inner(x, prev, inner)
    requires forall k :: 0 <= k < inner ==> next[k] == prev[k] + z[m - 1] * col[k]
    ensures Inner(y, z, m) == Inner(x, next, inner)
  {
    InnerLinear(x, prev, col, next, z[m - 1], inner);
  }

  /** Summing first over the inner index of x b and then against z equals x against b z. */
  lemma {:induction false} InnerAssoc(x: seq<real>, b: Matrix, z: seq<real>, inner: nat, cols: nat, m: nat)
    requires IsMatrix(b, inner, cols) && inner <= |x| && m <= cols && cols <= |z|
    ensures Inner(VecMat(x, b, inner, cols), z, m) == Inner(x, MatVec(b, z, m), inner)
  {
    if m == 0 {
      InnerZeroRight(x, MatVec(b, z, 0), inner);
    } else {
      var y, col := VecMat(x, b, inner, cols), Column(b, m - 1);
      InnerAssoc(x, b, z, inner, cols, m - 1);
      MatVecStep(b, z, inner, cols, m);
      assert y[m - 1] == Inner(x, col, inner);
      InnerAssocStep(x, y, z, MatVec(b, z, m - 1), MatVec(b, z, m), col, inner, m);
    }
  }

  /** (s t) v == s (t v). */
  lemma MatVecMatMul(s: Matrix, t: Matrix, v: seq<real>, rows: nat, inner: nat, cols: nat)
    requires IsMatrix(s, rows, inner) && IsMatrix(t, inner, cols) && |v| == cols
    ensures MatVec(MatMul(s, t, rows, inner, cols), v, cols) == MatVec(s, MatVec(t, v, cols), inner)
  {
    var st := MatMul(s, t, rows, inner, cols);
    forall l | 0 <= l < rows
      ensures MatVec(st, v, cols)[l] == MatVec(s, MatVec(t, v, cols), inner)[l]
    {
      assert st[l] == VecMat(s[l], t, inner, cols);
      InnerAssoc(s[l], t, v, inner, cols, cols);
    }
  }

  /** The matrix product is associative. */
  lemma MatMulAssoc(a: Matrix, b: Matrix, c: Matrix, rows: nat, k1: nat, k2: nat, cols: nat)
    requires IsMatrix(a, rows, k1) && IsMatrix(b, k1, k2) && IsMatrix(c, k2, cols)
    ensures MatMul(MatMul(a, b, rows, k1, k2), c, rows, k2, cols) == MatMul(a, MatMul(b, c, k1, k2, cols), rows, k1, cols)
  {
    var ab, bc := MatMul(a, b, rows, k1, k2), MatMul(b, c, k1, k2, cols);
    var lhs, rhs := MatMul(ab, c, rows, k2, cols), MatMul(a, bc, rows, k1, cols);
    forall i | 0 <= i < rows
      ensures lhs[i] == rhs[i]
    {
      forall j | 0 <= j < cols
        ensures lhs[i][j] == rhs[i][j]
      {
        assert ab[i] == VecMat(a[i], b, k1, k2);
        assert Column(bc, j) == MatVec(b, Column(c, j), k2);
        InnerAssoc(a[i], b, Column(c, j), k1, k2, k2);
      }
    }
  }

  lemma MatVecIdentity(v: seq<real>, n: nat)
    requires |v| == n
    ensures MatVec(Identity(n), v, n) == v
  {
    forall l | 0 <= l < n
      ensures MatVec(Identity(n), v, n)[l] == v[l]
    {
      InnerUnitLeft(v, n, l, n);
    }
  }

  lemma MatVecZeros(m: Matrix, rows: nat, n: nat)
    requires IsMatrix(m, rows, n)
    ensures MatVec(m, Zeros(n), n) == Zeros(rows)
  {
    forall l | 0 <= l < rows
      ensures MatVec(m, Zeros(n), n)[l] == 0.0
    {
      InnerZeroRight(m[l], Zeros(n), n);
    }
  }

  /** A matrix with a left inverse sends only the zero vector to zero, so it is not singular. */
  lemma InvertibleNotSingular(a: Matrix, x: Matrix, n: nat)
    requires IsMatrix(a, n, n) && IsMatrix(x, n, n) && MatMul(x, a, n, n, n) == Identity(n)
    ensures !Singular(a, n)
  {
    forall v | |v| == n && MatVec(a, v, n) == Zeros(n)
      ensures v == Zeros(n)
    {
      MatVecMatMul(x, a, v, n, n, n);
      MatVecZeros(x, n, n);
      MatVecIdentity(v, n);
    }
  }

  /** Scaling the left factor scales the product. */
  lemma MatMulScaleLeft(x: Matrix, a: Matrix, c: real, rows: nat, inner: nat, cols: nat)
    requires IsMatrix(x, rows, inner) && IsMatrix(a, inner, cols)
    ensures IsMatrix(ScaleMatrix(x, c), rows, inner)
    ensures MatMul(ScaleMatrix(x, c), a, rows, inner, cols) == ScaleMatrix(MatMul(x, a, rows, inner, cols), c)
  {
    var lhs, rhs := MatMul(ScaleMatrix(x, c), a, rows, inner, cols), ScaleMatrix(MatMul(x, a, rows, inner, cols), c);
    forall i | 0 <= i < rows
      ensures lhs[i] == rhs[i]
    {
      forall j | 0 <= j < cols
        ensures lhs[i][j] == rhs[i][j]
      {
        InnerScaleLeft(x[i], c, Column(a, j), inner);
      }
    }
  }

  /** Scaling the right factor scales the product. */
  lemma MatMulScaleRight(a: Matrix, x: Matrix, c: real, rows: nat, inner: nat, cols: nat)
    requires IsMatrix(a, rows, inner) && IsMatrix(x, inner, cols)
    ensures IsMatrix(ScaleMatrix(x, c), inner, cols)
    ensures MatMul(a, ScaleMatrix(x, c), rows, inner, cols) == ScaleMatrix(MatMul(a, x, rows, inner, cols), c)
  {
    var lhs, rhs := MatMul(a, ScaleMatrix(x, c), rows, inner, cols), ScaleMatrix(MatMul(a, x, rows, inner, cols), c);
    forall i | 0 <= i < rows
      ensures lhs[i] == rhs[i]
    {
      forall j | 0 <= j < cols
        ensures lhs[i][j] == rhs[i][j]
      {
        forall l | 0 <= l < inner
          ensures Column(ScaleMatrix(x, c), j)[l] == Scale(Column(x, j), c)[l]
        {
          assert ScaleMatrix(x, c)[l] == Scale(x[l], c);
        }
        assert Column(ScaleMatrix(x, c), j) == Scale(Column(x, j), c);
        InnerScaleRight(a[i], Column(x, j), c, inner);
      }
    }
  }

  /** A left inverse and a right inverse of the same matrix coincide: x == x (a y) == (x a) y == y. */
  lemma InverseUnique(a: Matrix, x: Matrix, y: Matrix, n: nat)
    requires IsMatrix(a, n, n) && IsMatrix(x, n, n) && IsMatrix(y, n, n)
    requires MatMul(x, a, n, n, n) == Identity(n) && MatMul(a, y, n, n, n) == Identity(n)
    ensures x == y
  {
    MatMulAssoc(x, a, y, n, n, n, n);
    MatMulIdentityLeft(y, n, n);
    MatMulIdentityRight(x, n, n);
  }

  lemma ScaleByOne(m: Matrix)
    ensures ScaleMatrix(m, 1.0) == m
  {
    forall r | 0 <= r < |m|
      ensures ScaleMatrix(m, 1.0)[r] == m[r]
    {
      assert Scale(m[r], 1.0) == m[r];
    }
  }
}

/**
 * The steps of Gauss-Jordan elimination with partial pivoting as the
 * inverse of a tensor performs them: pivot selection in a column, and the
 * row swap, row division and row elimination that are applied together to
 * the working copy and to the result, both n x n buffers stored row by row.
 */
module GaussJordan {
  import opened Layout
  import opened Elementwise
  import opened Matrices

  function Abs(x: real): real
  {
    if x < 0.0 then -x else x
  }

  /** The pivot search of one column: the first row among i..n-1 whose |t(row, i)| is largest. */
  method SelectPivot(t: array<real>, n: nat, i: nat) returns (p: nat)
    requires t.Length == n * n && i < n
    ensures i <= p < n
    ensures forall row :: i <= row < n ==> Abs(Mat(t[..], n, n)[row][i]) <= Abs(Mat(t[..], n, n)[p][i])
    ensures forall row :: i <= row < p ==> Abs(Mat(t[..], n, n)[row][i]) < Abs(Mat(t[..], n, n)[p][i])
  {
    ghost var m := Mat(t[..], n, n);
    p := i;
    var j := i + 1;
    while j < n
      invariant i < j <= n && i <= p < j
      invariant forall row :: i <= row < j ==> Abs(m[row][i]) <= Abs(m[p][i])
      invariant forall row :: i <= row < p ==> Abs(m[row][i]) < Abs(m[p][i])
    {
      MatCell(t[..], n, n, j, i);
      MatCell(t[..], n, n, p, i);
      if Abs(t[j * n + i]) > Abs(t[p * n + i]) {
        p := j;
      }
      j := j + 1;
    }
  }

  // ---------------------------------------------------------------------
  // Progress of the elimination

  /** The first i columns of t are already those of the identity. */
  ghost predicate ReducedThrough(t: Matrix, n: nat, i: nat)
    requires IsMatrix(t, n, n) && i <= n
  {
    forall r, c :: 0 <= r < n && 0 <= c < i ==> t[r][c] == if r == c then 1.0 else 0.0
  }

  /** Exchanging row i with a row below it keeps the first i columns reduced. */
  lemma SwapKeepsReduced(t: Matrix, n: nat, i: nat, p: nat)
    requires IsMatrix(t, n, n) && i <= p < n && ReducedThrough(t, n, i)
    ensures IsMatrix(SwapRows(t, i, p), n, n) && ReducedThrough(SwapRows(t, i, p), n, i)
  {
  }

  /** Dividing row i keeps the first i columns reduced, since row i is zero there. */
  lemma DivideKeepsReduced(t: Matrix, n: nat, i: nat, d: real)
    requires IsMatrix(t, n, n) && i < n && d != 0.0 && ReducedThrough(t, n, i)
    ensures IsMatrix(DivideRow(t, i, d), n, n) && ReducedThrough(DivideRow(t, i, d), n, i)
  {
    var t' := DivideRow(t, i, d);
    forall r, c | 0 <= r < n && 0 <= c < i
      ensures t'[r][c] == if r == c then 1.0 else 0.0
    {
      if r == i {
        assert t'[r][c] == t[i][c] / d;
      }
    }
  }

  /** Subtracting a multiple of row i from another row keeps the first i columns reduced. */
  lemma SubtractKeepsReduced(t: Matrix, n: nat, j: nat, i: nat, f: real)
    requires IsMatrix(t, n, n) && i < n && j < n && j != i && ReducedThrough(t, n, i)
    ensures IsMatrix(SubtractRow(t, j, i, f), n, n) && ReducedThrough(SubtractRow(t, j, i, f), n, i)
  {
    var t' := SubtractRow(t, j, i, f);
    forall r, c | 0 <= r < n && 0 <= c < i
      ensures t'[r][c] == if r == c then 1.0 else 0.0
    {
      if r == j {
        assert t'[r][c] == t[j][c] - f * t[i][c];
      }
    }
  }

  /** Once every column is reduced the working copy is the identity. */
  lemma FullyReduced(t: Matrix, n: nat)
    requires IsMatrix(t, n, n) && ReducedThrough(t, n, n)
    ensures t == Identity(n)
  {
    forall r | 0 <= r < n
      ensures t[r] == Identity(n)[r]
    {
      assert t[r] == Unit(n, r);
    }
  }

  /**
   * What Gauss-Jordan keeps while it works on column i: the result R maps the
   * original A to the working copy T (R A == T), and a matrix S, the product of
   * the inverses of the steps so far, maps T back to A and R back to the identity.
   */
  ghost predicate EliminationInvariant(t: Matrix, r: Matrix, a: Matrix, s: Matrix, n: nat, i: nat)
  {
    IsMatrix(t, n, n) && IsMatrix(r, n, n) && IsMatrix(a, n, n) && IsMatrix(s, n, n) && i <= n &&
    MatMul(r, a, n, n, n) == t && MatMul(s, t, n, n, n) == a && MatMul(s, r, n, n, n) == Identity(n) &&
    ReducedThrough(t, n, i)
  }

  /** The row swap of step i keeps the invariant, with S gaining the column swap. */
  lemma SwapStep(t: Matrix, r: Matrix, a: Matrix, s: Matrix, n: nat, i: nat, p: nat)
    requires i <= p < n && EliminationInvariant(t, r, a, s, n, i)
    ensures IsMatrix(SwapRows(t, i, p), n, n) && IsMatrix(SwapRows(r, i, p), n, n)
    ensures EliminationInvariant(SwapRows(t, i, p), SwapRows(r, i, p), a, SwapColumns(s, i, p), n, i)
  {
    MatMulSwapRows(r, a, n, n, n, i, p);
    MatMulSwapBoth(s, t, n, n, n, i, p);
    MatMulSwapBoth(s, r, n, n, n, i, p);
    SwapKeepsReduced(t, n, i, p);
  }

  /** Dividing row i by the pivot keeps the invariant, with S gaining the column scaling. */
  lemma DivideStep(t: Matrix, r: Matrix, a: Matrix, s: Matrix, n: nat, i: nat, d: real)
    requires i < n && d != 0.0 && EliminationInvariant(t, r, a, s, n, i)
    ensures IsMatrix(DivideRow(t, i, d), n, n) && IsMatrix(DivideRow(r, i, d), n, n)
    ensures EliminationInvariant(DivideRow(t, i, d), DivideRow(r, i, d), a, ScaleColumn(s, i, d), n, i)
    ensures t[i][i] == d ==> DivideRow(t, i, d)[i][i] == 1.0
  {
    MatMulDivideRow(r, a, n, n, n, i, d);
    MatMulScaleBoth(s, t, n, n, n, i, d);
    MatMulScaleBoth(s, r, n, n, n, i, d);
    DivideKeepsReduced(t, n, i, d);
  }

  /** Eliminating column i from row j keeps the invariant, with S gaining the column addition. */
  lemma SubtractStep(t: Matrix, r: Matrix, a: Matrix, s: Matrix, n: nat, j: nat, i: nat, f: real)
    requires i < n && j < n && j != i && EliminationInvariant(t, r, a, s, n, i)
    ensures IsMatrix(SubtractRow(t, j, i, f), n, n) && IsMatrix(SubtractRow(r, j, i, f), n, n)
    ensures EliminationInvariant(SubtractRow(t, j, i, f), SubtractRow(r, j, i, f), a, AddColumn(s, i, j, f), n, i)
  {
    MatMulSubtractRow(r, a, n, n, n, j, i, f);
    MatMulAddSubtract(s, t, n, n, n, j, i, f);
    MatMulAddSubtract(s, r, n, n, n, j, i, f);
    SubtractKeepsReduced(t, n, j, i, f);
  }

  /**
   * When every column is reduced, R is a two-sided inverse of A: T is the
   * identity, so R A == I, and S == S T == A, so A R == S R == I.
   */
  lemma EliminationComplete(t: Matrix, r: Matrix, a: Matrix, s: Matrix, n: nat)
    requires EliminationInvariant(t, r, a, s, n, n)
    ensures MatMul(r, a, n, n, n) == Identity(n) && MatMul(a, r, n, n, n) == Identity(n)
  {
    FullyReduced(t, n);
    MatMulIdentityRight(s, n, n);
  }

  /**
   * When column i has no non-zero entry at or below the diagonal, the vector
   * that takes e_i and cancels column i against the reduced columns before it
   * is sent to zero by the working copy, hence by the original matrix.
   */
  lemma ZeroPivotSingular(t: Matrix, s: Matrix, a: Matrix, n: nat, i: nat)
    requires IsMatrix(t, n, n) && IsMatrix(s, n, n) && IsMatrix(a, n, n) && i < n
    requires ReducedThrough(t, n, i)
    requires forall r :: i <= r < n ==> t[r][i] == 0.0
    requires MatMul(s, t, n, n, n) == a
    ensures Singular(a, n)
  {
    var v := seq(n, c requires 0 <= c < n => if c < i then -t[c][i] else if c == i then 1.0 else 0.0);
    CancellingVector(t, v, n, i);
    MatVecMatMul(s, t, v, n, n, n);
    MatVecZeros(s, n, n);
    assert v[i] != Zeros(n)[i];
  }

  /** The vector built from e_i and column i above the diagonal is sent to zero by t. */
  lemma CancellingVector(t: Matrix, v: seq<real>, n: nat, i: nat)
    requires IsMatrix(t, n, n) && i < n && |v| == n
    requires ReducedThrough(t, n, i)
    requires forall r :: i <= r < n ==> t[r][i] == 0.0
    requires forall c :: 0 <= c < n ==> v[c] == if c < i then -t[c][i] else if c == i then 1.0 else 0.0
    ensures MatVec(t, v, n) == Zeros(n)
  {
    forall r | 0 <= r < n
      ensures MatVec(t, v, n)[r] == 0.0
    {
      if r < i {
        InnerTwoTerms(t[r], v, n, r, i);
      } else {
        InnerOneTerm(t[r], v, n, i);
      }
    }
  }

  /** s' is s with the n-element segments starting at bi and bp exchanged. */
  ghost predicate SegmentsSwapped(s: seq<real>, s': seq<real>, n: nat, bi: nat, bp: nat)
  {
    |s'| == |s| && bi + n <= |s| && bp + n <= |s| &&
    (forall q :: bi <= q < bi + n ==> s'[q] == s[q - bi + bp]) &&
    (forall q :: bp <= q < bp + n ==> s'[q] == s[q - bp + bi]) &&
    (forall q :: 0 <= q < |s| && !(bi <= q < bi + n) && !(bp <= q < bp + n) ==> s'[q] == s[q])
  }

  /** s' is s with the n elements starting at bi divided by d. */
  ghost predicate SegmentDivided(s: seq<real>, s': seq<real>, n: nat, bi: nat, d: real)
    requires d != 0.0
  {
    |s'| == |s| && bi + n <= |s| &&
    (forall q :: bi <= q < bi + n ==> s'[q] == s[q] / d) &&
    (forall q :: 0 <= q < |s| && !(bi <= q < bi + n) ==> s'[q] == s[q])
  }

  /** s' is s with the n elements starting at bj reduced by f times those starting at bi. */
  ghost predicate SegmentSubtracted(s: seq<real>, s': seq<real>, n: nat, bj: nat, bi: nat, f: real)
  {
    |s'| == |s| && bj + n <= |s| && bi + n <= |s| &&
    (forall q :: bj <= q < bj + n ==> s'[q] == s[q] - f * s[q - bj + bi]) &&
    (forall q :: 0 <= q < |s| && !(bj <= q < bj + n) ==> s'[q] == s[q])
  }

  /** Two buffers that differ exactly by exchanging the segments of rows i and p, which start at bi and bp. */
  lemma SwappedBuffer(s: seq<real>, s': seq<real>, n: nat, i: nat, p: nat, bi: nat, bp: nat)
    requires |s| == n * n && i < n && p < n && i != p && bi == i * n && bp == p * n
    requires SegmentsSwapped(s, s', n, bi, bp)
    ensures Mat(s', n, n) == SwapRows(Mat(s, n, n), i, p)
  {
    RowInRange(i, n, n);
    RowInRange(p, n, n);
    var m := Mat(s, n, n);
    var mid := seq(|s|, q requires 0 <= q < |s| => if i * n <= q < i * n + n then s'[q] else s[q]);
    forall k | 0 <= k < n
      ensures mid[i * n + k] == m[p][k] && s'[p * n + k] == m[i][k]
    {
      MatCell(s, n, n, p, k);
      MatCell(s, n, n, i, k);
      assert s'[i * n + k] == s[p * n + k];
      assert s'[p * n + k] == s[i * n + k];
    }
    MatReplaceRow(s, mid, n, n, i, m[p]);
    forall q | 0 <= q < |s| && !(p * n <= q < p * n + n)
      ensures s'[q] == mid[q]
    {
    }
    forall q | 0 <= q < |s| && p * n <= q < p * n + n
      ensures mid[q] == s[q]
    {
      RowSegment(p, q - p * n, i, n);
    }
    MatReplaceRow(mid, s', n, n, p, m[i]);
  }

  /** The segments of two different rows i and p of an n x n buffer lie inside it and do not overlap. */
  lemma DisjointRows(n: nat, i: nat, p: nat, bi: nat, bp: nat)
    requires i < n && p < n && i != p && bi == i * n && bp == p * n
    ensures bi + n <= n * n && bp + n <= n * n && (bi + n <= bp || bp + n <= bi)
  {
    RowInRange(i, n, n);
    RowInRange(p, n, n);
    if i < p { MulMono(i + 1, p, n); } else { MulMono(p + 1, i, n); }
  }

  /** Dividing the segment of row i divides row i of the matrix view. */
  lemma DividedBuffer(s: seq<real>, s': seq<real>, n: nat, i: nat, bi: nat, d: real)
    requires |s| == n * n && i < n && bi == i * n && d != 0.0
    requires SegmentDivided(s, s', n, bi, d)
    ensures Mat(s', n, n) == DivideRow(Mat(s, n, n), i, d)
  {
    var m := Mat(s, n, n);
    forall k | 0 <= k < n
      ensures s'[bi + k] == Divide(m[i], d)[k]
    {
      MatCell(s, n, n, i, k);
    }
    MatReplaceRow(s, s', n, n, i, Divide(m[i], d));
  }

  /** Subtracting f times the segment of row i from that of row j does the same to the rows of the matrix view. */
  lemma SubtractedBuffer(s: seq<real>, s': seq<real>, n: nat, j: nat, i: nat, bj: nat, bi: nat, f: real)
    requires |s| == n * n && i < n && j < n && bi == i * n && bj == j * n
    requires SegmentSubtracted(s, s', n, bj, bi, f)
    ensures Mat(s', n, n) == SubtractRow(Mat(s, n, n), j, i, f)
  {
    var m := Mat(s, n, n);
    var w := RowMinus(m[j], m[i], f);
    forall k | 0 <= k < n
      ensures s'[bj + k] == w[k]
    {
      SubtractedCell(s, s', n, bj, bi, f, k);
      MatCell(s, n, n, i, k);
      MatCell(s, n, n, j, k);
      var x, y := s[bj + k], s[bi + k];
      assert m[j][k] == x && m[i][k] == y;
      assert w[k] == x - f * y;
    }
    MatReplaceRow(s, s', n, n, j, w);
  }

  /** One element of the subtracted segment. */
  lemma SubtractedCell(s: seq<real>, s': seq<real>, n: nat, bj: nat, bi: nat, f: real, k: nat)
    requires SegmentSubtracted(s, s', n, bj, bi, f) && k < n
    ensures bj + k < |s| && bi + k < |s| && s'[bj + k] == s[bj + k] - f * s[bi + k]
  {
    assert bj <= bj + k < bj + n;
    assert bj + k - bj + bi == bi + k;
  }

  /** Exchanges rows i and p of both buffers. */
  method SwapRowsInPlace(t: array<real>, r: array<real>, n: nat, i: nat, p: nat)
    requires t.Length == n * n && r.Length == n * n && t != r && i < n && p < n && i != p
    modifies t, r
    ensures Mat(t[..], n, n) == SwapRows(old(Mat(t[..], n, n)), i, p)
    ensures Mat(r[..], n, n) == SwapRows(old(Mat(r[..], n, n)), i, p)
  {
    var bi, bp := i * n, p * n;
    DisjointRows(n, i, p, bi, bp);
    SwapSegments(t, n, bi, bp);
    SwapSegments(r, n, bi, bp);
    SwappedBuffer(old(t[..]), t[..], n, i, p, bi, bp);
    SwappedBuffer(old(r[..]), r[..], n, i, p, bi, bp);
  }

  /** The element loop of the row swap: exchanges the n elements starting at bi with those starting at bp. */
  method SwapSegments(a: array<real>, n: nat, bi: nat, bp: nat)
    requires bi + n <= a.Length && bp + n <= a.Length
    requires bi + n <= bp || bp + n <= bi
    modifies a
    ensures SegmentsSwapped(old(a[..]), a[..], n, bi, bp)
  {
    var k := 0;
    while k < n
      invariant 0 <= k <= n
      invariant forall q :: bi <= q < bi + k ==> a[q] == old(a[q - bi + bp])
      invariant forall q :: bp <= q < bp + k ==> a[q] == old(a[q - bp + bi])
      invariant forall q :: 0 <= q < a.Length && !(bi <= q < bi + k) && !(bp <= q < bp + k) ==> a[q] == old(a[q])
    {
      a[bi + k], a[bp + k] := a[bp + k], a[bi + k];
      k := k + 1;
    }
  }

  /** Divides row i of both buffers by d, the pivot value read before the loop. */
  method DivideRowInPlace(t: array<real>, r: array<real>, n: nat, i: nat, d: real)
    requires t.Length == n * n && r.Length == n * n && t != r && i < n && d != 0.0
    modifies t, r
    ensures Mat(t[..], n, n) == DivideRow(old(Mat(t[..], n, n)), i, d)
    ensures Mat(r[..], n, n) == DivideRow(old(Mat(r[..], n, n)), i, d)
  {
    var bi := i * n;
    RowInRange(i, n, n);
    DivideSegment(t, n, bi, d);
    DivideSegment(r, n, bi, d);
    DividedBuffer(old(t[..]), t[..], n, i, bi, d);
    DividedBuffer(old(r[..]), r[..], n, i, bi, d);
  }

  /** The element loop of the normalisation: divides the n elements starting at bi by d. */
  method DivideSegment(a: array<real>, n: nat, bi: nat, d: real)
    requires bi + n <= a.Length && d != 0.0
    modifies a
    ensures SegmentDivided(old(a[..]), a[..], n, bi, d)
  {
    var k := 0;
    while k < n
      invariant 0 <= k <= n
      invariant forall q :: bi <= q < bi + k ==> a[q] == old(a[q]) / d
      invariant forall q :: 0 <= q < a.Length && !(bi <= q < bi + k) ==> a[q] == old(a[q])
    {
      a[bi + k] := a[bi + k] / d;
      k := k + 1;
    }
  }

  /** Subtracts f times row i from row j (j != i) in both buffers. */
  method SubtractRowInPlace(t: array<real>, r: array<real>, n: nat, j: nat, i: nat, f: real)
    requires t.Length == n * n && r.Length == n * n && t != r && i < n && j < n && i != j
    modifies t, r
    ensures Mat(t[..], n, n) == SubtractRow(old(Mat(t[..], n, n)), j, i, f)
    ensures Mat(r[..], n, n) == SubtractRow(old(Mat(r[..], n, n)), j, i, f)
  {
    var bi, bj := i * n, j * n;
    DisjointRows(n, i, j, bi, bj);
    SubtractSegment(t, n, bj, bi, f);
    SubtractSegment(r, n, bj, bi, f);
    SubtractedBuffer(old(t[..]), t[..], n, j, i, bj, bi, f);
    SubtractedBuffer(old(r[..]), r[..], n, j, i, bj, bi, f);
  }

  /** The element loop of the elimination: the n elements at bj lose f times those at bi. */
  method SubtractSegment(a: array<real>, n: nat, bj: nat, bi: nat, f: real)
    requires bi + n <= a.Length && bj + n <= a.Length
    requires bi + n <= bj || bj + n <= bi
    modifies a
    ensures SegmentSubtracted(old(a[..]), a[..], n, bj, bi, f)
  {
    var k := 0;
    while k < n
      invariant 0 <= k <= n
      invariant forall q :: bj <= q < bj + k ==> a[q] == old(a[q]) - f * old(a[q - bj + bi])
      invariant forall q :: 0 <= q < a.Length && !(bj <= q < bj + k) ==> a[q] == old(a[q])
    {
      var x, y := a[bj + k], a[bi + k];
      assert x == old(a[bj + k]) && y == old(a[bi + k]);
      a[bj + k] := x - f * y;
      k := k + 1;
    }
    assert forall q :: bj <= q < bj + n ==> a[..][q] == old(a[..])[q] - f * old(a[..])[q - bj + bi];
    assert forall q :: 0 <= q < a.Length && !(bj <= q < bj + n) ==> a[..][q] == old(a[..])[q];
  }

  /**
   * Step i of the elimination, on the working copy t and the result r: pick
   * the pivot row, give up when the pivot is zero, otherwise swap it into
   * row i, divide row i by it and clear column i from every other row.
   * On success column i is reduced as well; on failure A is singular.
   */
  method ReduceColumn(t: array<real>, r: array<real>, n: nat, i: nat, ghost a: Matrix, ghost s: Matrix)
    returns (ok: bool, pivot: nat, ghost s': Matrix)
    requires t.Length == n * n && r.Length == n * n && t != r && i < n
    requires EliminationInvariant(Mat(t[..], n, n), Mat(r[..], n, n), a, s, n, i)
    modifies t, r
    ensures i <= pivot < n
    ensures forall row :: i <= row < n ==> Abs(old(Mat(t[..], n, n))[row][i]) <= Abs(old(Mat(t[..], n, n))[pivot][i])
    ensures forall row :: i <= row < pivot ==> Abs(old(Mat(t[..], n, n))[row][i]) < Abs(old(Mat(t[..], n, n))[pivot][i])
    ensures ok <==> old(Mat(t[..], n, n))[pivot][i] != 0.0
    ensures !ok ==> IsMatrix(a, n, n) && Singular(a, n) && t[..] == old(t[..]) && r[..] == old(r[..])
    ensures ok ==> EliminationInvariant(Mat(t[..], n, n), Mat(r[..], n, n), a, s', n, i + 1)
    ensures ok ==>
      var d := old(Mat(t[..], n, n))[pivot][i];
      var tp := DivideRow(BringUp(old(Mat(t[..], n, n)), n, i, pivot), i, d);
      Mat(t[..], n, n) == ClearColumn(tp, tp, n, i) &&
      Mat(r[..], n, n) == ClearColumn(tp, DivideRow(BringUp(old(Mat(r[..], n, n)), n, i, pivot), i, d), n, i)
  {
    pivot := SelectPivot(t, n, i);
    MatCell(t[..], n, n, pivot, i);
    if t[pivot * n + i] == 0.0 {
      PivotZero(Mat(t[..], n, n), Mat(r[..], n, n), a, s, n, i, pivot);
      return false, pivot, s;
    }
    s' := PivotRow(t, r, n, i, pivot, a, s);
    s' := EliminateColumn(t, r, n, i, a, s');
    ok := true;
  }

  /** Brings the pivot row p into row i (when p != i) and divides row i by the pivot, leaving t(i, i) == 1. */
  method PivotRow(t: array<real>, r: array<real>, n: nat, i: nat, p: nat, ghost a: Matrix, ghost s: Matrix)
    returns (ghost s': Matrix)
    requires t.Length == n * n && r.Length == n * n && t != r && i <= p < n
    requires EliminationInvariant(Mat(t[..], n, n), Mat(r[..], n, n), a, s, n, i)
    requires Mat(t[..], n, n)[p][i] != 0.0
    modifies t, r
    ensures EliminationInvariant(Mat(t[..], n, n), Mat(r[..], n, n), a, s', n, i)
    ensures Mat(t[..], n, n)[i][i] == 1.0
    ensures Mat(t[..], n, n) == DivideRow(BringUp(old(Mat(t[..], n, n)), n, i, p), i, old(Mat(t[..], n, n))[p][i])
    ensures Mat(r[..], n, n) == DivideRow(BringUp(old(Mat(r[..], n, n)), n, i, p), i, old(Mat(t[..], n, n))[p][i])
  {
    s' := s;
    if p != i {
      s' := SwapPivot(t, r, n, i, p, a, s);
    }
    s' := NormaliseRow(t, r, n, i, a, s');
  }

  /** Row p brought up to row i: the two rows exchanged, or m itself when p == i. */
  ghost function BringUp(m: Matrix, n: nat, i: nat, p: nat): (m': Matrix)
    requires IsMatrix(m, n, n) && i < n && p < n
    ensures IsMatrix(m', n, n) && m'[i] == m[p]
  {
    if p == i then m else SwapRows(m, i, p)
  }

  /**
   * The elimination of column i applied to m: every row but i loses f(row, i)
   * times row i, the factors being read from f before any row changes.
   */
  ghost function ClearColumn(f: Matrix, m: Matrix, n: nat, i: nat): (c: Matrix)
    requires IsMatrix(f, n, n) && IsMatrix(m, n, n) && i < n
    ensures IsMatrix(c, n, n)
  {
    seq(n, row requires 0 <= row < n => if row == i then m[i] else RowMinus(m[row], m[i], f[row][i]))
  }

  /** Exchanges row i with the pivot row p != i in both buffers; the pivot value is then at (i, i). */
  method SwapPivot(t: array<real>, r: array<real>, n: nat, i: nat, p: nat, ghost a: Matrix, ghost s: Matrix)
    returns (ghost s': Matrix)
    requires t.Length == n * n && r.Length == n * n && t != r && i < p < n
    requires EliminationInvariant(Mat(t[..], n, n), Mat(r[..], n, n), a, s, n, i)
    modifies t, r
    ensures EliminationInvariant(Mat(t[..], n, n), Mat(r[..], n, n), a, s', n, i)
    ensures Mat(t[..], n, n)[i][i] == old(Mat(t[..], n, n))[p][i]
    ensures Mat(t[..], n, n) == SwapRows(old(Mat(t[..], n, n)), i, p)
    ensures Mat(r[..], n, n) == SwapRows(old(Mat(r[..], n, n)), i, p)
  {
    ghost var tm, rm := Mat(t[..], n, n), Mat(r[..], n, n);
    SwapStep(tm, rm, a, s, n, i, p);
    SwapRowsInPlace(t, r, n, i, p);
    s' := SwapColumns(s, i, p);
    assert Mat(t[..], n, n) == SwapRows(tm, i, p);
  }

  /** Divides row i of both buffers by the pivot value t(i, i), which is not zero. */
  method NormaliseRow(t: array<real>, r: array<real>, n: nat, i: nat, ghost a: Matrix, ghost s: Matrix)
    returns (ghost s': Matrix)
    requires t.Length == n * n && r.Length == n * n && t != r && i < n
    requires EliminationInvariant(Mat(t[..], n, n), Mat(r[..], n, n), a, s, n, i)
    requires Mat(t[..], n, n)[i][i] != 0.0
    modifies t, r
    ensures EliminationInvariant(Mat(t[..], n, n), Mat(r[..], n, n), a, s', n, i)
    ensures Mat(t[..], n, n)[i][i] == 1.0
    ensures Mat(t[..], n, n) == DivideRow(old(Mat(t[..], n, n)), i, old(Mat(t[..], n, n))[i][i])
    ensures Mat(r[..], n, n) == DivideRow(old(Mat(r[..], n, n)), i, old(Mat(t[..], n, n))[i][i])
  {
    ghost var tm, rm := Mat(t[..], n, n), Mat(r[..], n, n);
    MatCell(t[..], n, n, i, i);
    var pivotVal := t[i * n + i];
    DivideStep(tm, rm, a, s, n, i, pivotVal);
    DivideRowInPlace(t, r, n, i, pivotVal);
    s' := ScaleColumn(s, i, pivotVal);
  }

  /** A zero at the pivot chosen for column i means the whole column from row i down is zero, so A is singular. */
  lemma PivotZero(t: Matrix, r: Matrix, a: Matrix, s: Matrix, n: nat, i: nat, p: nat)
    requires EliminationInvariant(t, r, a, s, n, i) && i <= p < n && t[p][i] == 0.0
    requires forall row :: i <= row < n ==> Abs(t[row][i]) <= Abs(t[p][i])
    ensures Singular(a, n)
  {
    forall row | i <= row < n
      ensures t[row][i] == 0.0
    {
      assert Abs(t[row][i]) <= Abs(t[p][i]);
    }
    ZeroPivotSingular(t, s, a, n, i);
  }

  /** The elimination loop of step i: once t(i, i) == 1, row j loses t(j, i) times row i for every j != i. */
  method EliminateColumn(t: array<real>, r: array<real>, n: nat, i: nat, ghost a: Matrix, ghost s: Matrix)
    returns (ghost s': Matrix)
    requires t.Length == n * n && r.Length == n * n && t != r && i < n
    requires EliminationInvariant(Mat(t[..], n, n), Mat(r[..], n, n), a, s, n, i)
    requires Mat(t[..], n, n)[i][i] == 1.0
    modifies t, r
    ensures EliminationInvariant(Mat(t[..], n, n), Mat(r[..], n, n), a, s', n, i + 1)
    ensures Mat(t[..], n, n) == ClearColumn(old(Mat(t[..], n, n)), old(Mat(t[..], n, n)), n, i)
    ensures Mat(r[..], n, n) == ClearColumn(old(Mat(t[..], n, n)), old(Mat(r[..], n, n)), n, i)
  {
    ghost var tm, rm := Mat(t[..], n, n), Mat(r[..], n, n);
    s' := s;
    for j := 0 to n
      invariant EliminationInvariant(Mat(t[..], n, n), Mat(r[..], n, n), a, s', n, i)
      invariant Mat(t[..], n, n)[i][i] == 1.0
      invariant forall row :: 0 <= row < j && row != i ==> Mat(t[..], n, n)[row][i] == 0.0
      invariant ClearedBefore(Mat(t[..], n, n), Mat(r[..], n, n), tm, rm, n, i, j)
    {
      if j != i {
        ghost var tc, rc := Mat(t[..], n, n), Mat(r[..], n, n);
        s' := EliminateRow(t, r, n, j, i, a, s');
        ClearedStep(tc, rc, tm, rm, n, i, j);
      } else {
        ClearedPastPivot(Mat(t[..], n, n), Mat(r[..], n, n), tm, rm, n, i);
      }
    }
    ClearedAll(Mat(t[..], n, n), Mat(r[..], n, n), tm, rm, n, i);
  }

  /**
   * The elimination of column i has reached row j: rows before j other than i
   * are those of ClearColumn, and row i and the rows from j on are untouched.
   */
  ghost predicate ClearedBefore(tc: Matrix, rc: Matrix, tm: Matrix, rm: Matrix, n: nat, i: nat, j: nat)
    requires IsMatrix(tc, n, n) && IsMatrix(rc, n, n) && IsMatrix(tm, n, n) && IsMatrix(rm, n, n) && i < n
  {
    tc[i] == tm[i] && rc[i] == rm[i] &&
    (forall row :: j <= row < n ==> tc[row] == tm[row] && rc[row] == rm[row]) &&
    (forall row :: 0 <= row < j && row < n && row != i ==>
      tc[row] == ClearColumn(tm, tm, n, i)[row] && rc[row] == ClearColumn(tm, rm, n, i)[row])
  }

  /** Eliminating row j != i moves the elimination on by one row. */
  lemma ClearedStep(tc: Matrix, rc: Matrix, tm: Matrix, rm: Matrix, n: nat, i: nat, j: nat)
    requires IsMatrix(tc, n, n) && IsMatrix(rc, n, n) && IsMatrix(tm, n, n) && IsMatrix(rm, n, n)
    requires i < n && j < n && j != i && ClearedBefore(tc, rc, tm, rm, n, i, j)
    ensures IsMatrix(SubtractRow(tc, j, i, tc[j][i]), n, n) && IsMatrix(SubtractRow(rc, j, i, tc[j][i]), n, n)
    ensures ClearedBefore(SubtractRow(tc, j, i, tc[j][i]), SubtractRow(rc, j, i, tc[j][i]), tm, rm, n, i, j + 1)
  {
    var tc', rc' := SubtractRow(tc, j, i, tc[j][i]), SubtractRow(rc, j, i, tc[j][i]);
    assert tc'[j] == ClearColumn(tm, tm, n, i)[j];
    assert rc'[j] == ClearColumn(tm, rm, n, i)[j];
  }

  /** Row i is the pivot row and is skipped. */
  lemma ClearedPastPivot(tc: Matrix, rc: Matrix, tm: Matrix, rm: Matrix, n: nat, i: nat)
    requires IsMatrix(tc, n, n) && IsMatrix(rc, n, n) && IsMatrix(tm, n, n) && IsMatrix(rm, n, n)
    requires i < n && ClearedBefore(tc, rc, tm, rm, n, i, i)
    ensures ClearedBefore(tc, rc, tm, rm, n, i, i + 1)
  {
  }

  /** Once every row is reached, the buffers are those of ClearColumn. */
  lemma ClearedAll(tc: Matrix, rc: Matrix, tm: Matrix, rm: Matrix, n: nat, i: nat)
    requires IsMatrix(tc, n, n) && IsMatrix(rc, n, n) && IsMatrix(tm, n, n) && IsMatrix(rm, n, n)
    requires i < n && ClearedBefore(tc, rc, tm, rm, n, i, n)
    ensures tc == ClearColumn(tm, tm, n, i) && rc == ClearColumn(tm, rm, n, i)
  {
    assert forall row :: 0 <= row < n ==> tc[row] == ClearColumn(tm, tm, n, i)[row];
    assert forall row :: 0 <= row < n ==> rc[row] == ClearColumn(tm, rm, n, i)[row];
  }

  /** Row j != i loses t(j, i) times row i in both buffers, which clears t(j, i) and leaves the other rows alone. */
  method EliminateRow(t: array<real>, r: array<real>, n: nat, j: nat, i: nat, ghost a: Matrix, ghost s: Matrix)
    returns (ghost s': Matrix)
    requires t.Length == n * n && r.Length == n * n && t != r && i < n && j < n && j != i
    requires EliminationInvariant(Mat(t[..], n, n), Mat(r[..], n, n), a, s, n, i)
    requires Mat(t[..], n, n)[i][i] == 1.0
    modifies t, r
    ensures EliminationInvariant(Mat(t[..], n, n), Mat(r[..], n, n), a, s', n, i)
    ensures forall row :: 0 <= row < n && row != j ==> Mat(t[..], n, n)[row] == old(Mat(t[..], n, n))[row]
    ensures Mat(t[..], n, n)[j][i] == 0.0
    ensures Mat(t[..], n, n) == SubtractRow(old(Mat(t[..], n, n)), j, i, old(Mat(t[..], n, n))[j][i])
    ensures Mat(r[..], n, n) == SubtractRow(old(Mat(r[..], n, n)), j, i, old(Mat(t[..], n, n))[j][i])
  {
    ghost var tm, rm := Mat(t[..], n, n), Mat(r[..], n, n);
    MatCell(t[..], n, n, j, i);
    var factor := t[j * n + i];
    SubtractStep(tm, rm, a, s, n, j, i, factor);
    SubtractRowInPlace(t, r, n, j, i, factor);
    s' := AddColumn(s, i, j, factor);
    assert Mat(t[..], n, n) == SubtractRow(tm, j, i, factor);
    assert Mat(t[..], n, n)[j][i] == RowMinus(tm[j], tm[i], factor)[i];
  }
}

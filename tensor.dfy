/**
 * The dense tensor: a shape, the row-major strides derived from it and a
 * flat buffer of elements. Shape and strides are fixed once constructed;
 * the elements are updated in place by the element setter and the compound
 * assignments. Every failure the class reports by throwing is a Result (or
 * an Outcome for the compound assignments) tagged with the exception kind.
 */
module Tensors {
  import opened Outcomes
  import opened Layout
  import opened Elementwise
  import opened Matrices
  import opened GaussJordan

  class Tensor {
    const shape: seq<nat>
    const strides: seq<nat>
    const data: array<real>

    /** What every constructor but the defaulted one establishes. */
    ghost predicate Valid()
    {
      strides == RowMajorStrides(shape) && data.Length == Product(shape)
    }

    /** The rank-2 view: entry (i, j) is the element at i * shape[1] + j. */
    ghost function AsMatrix(): (m: Matrix)
      reads data
      requires Valid() && |shape| == 2
      ensures IsMatrix(m, shape[0], shape[1])
    {
      ProductPair(shape);
      Mat(data[..], shape[0], shape[1])
    }

    // -------------------------------------------------------------------
    // Construction

    /** The stride table of shape, filled from the last dimension backwards. */
    static method ComputeStrides(shape: seq<nat>) returns (strides: seq<nat>)
      ensures strides == RowMajorStrides(shape)
    {
      var st := new nat[|shape|];
      if |shape| == 0 {
        return st[..];
      }
      var current: nat := 1;
      var i := |shape| - 1;
      while i >= 0
        invariant -1 <= i < |shape|
        invariant current == Product(shape[i + 1..])
        invariant forall d :: i < d < |shape| ==> st[d] == Product(shape[d + 1..])
      {
        st[i] := current;
        assert shape[i..][1..] == shape[i + 1..];
        current := current * shape[i];
        i := i - 1;
      }
      strides := st[..];
    }

    /** The number of elements of a shape: the product of its dimensions. */
    static method ElementCount(shape: seq<nat>) returns (total: nat)
      ensures total == Product(shape)
    {
      total := 1;
      for k := 0 to |shape|
        invariant total == Product(shape[..k])
      {
        assert shape[..k + 1] == shape[..k] + [shape[k]];
        ProductSnoc(shape[..k], shape[k]);
        total := total * shape[k];
      }
      assert shape[..|shape|] == shape;
    }

    /** A zero-filled tensor of the given shape. */
    constructor(shape: seq<nat>)
      ensures this.shape == shape && Valid() && fresh(data)
      ensures forall k :: 0 <= k < data.Length ==> data[k] == 0.0
    {
      this.shape := shape;
      var total := ElementCount(shape);
      data := new real[total](_ => 0.0);
      var st := ComputeStrides(shape);
      strides := st;
    }

    /** A tensor holding flat, whose length the caller has checked against the shape. */
    constructor Init(shape: seq<nat>, flat: seq<real>)
      requires |flat| == Product(shape)
      ensures this.shape == shape && Valid() && fresh(data) && data[..] == flat
    {
      this.shape := shape;
      data := new real[|flat|](k requires 0 <= k < |flat| => flat[k]);
      var st := ComputeStrides(shape);
      strides := st;
    }

    /** The shape-and-data constructor: fails unless the data has exactly one element per index tuple. */
    static method FromData(shape: seq<nat>, flat: seq<real>) returns (r: Result<Tensor>)
      ensures r.Err? <==> |flat| != Product(shape)
      ensures r.Err? ==> r.kind == InvalidArgument
      ensures r.Ok? ==> fresh(r.value) && fresh(r.value.data) && r.value.Valid()
      ensures r.Ok? ==> r.value.shape == shape && r.value.data[..] == flat
    {
      var total := ElementCount(shape);
      if |flat| != total {
        return Err(InvalidArgument);
      }
      var t := new Tensor.Init(shape, flat);
      return Ok(t);
    }

    /**
     * The defaulted constructor: no dimensions and no elements. A shape with
     * no dimensions stands for one element, so this tensor breaks Valid().
     */
    constructor Default()
      ensures shape == [] && strides == [] && data.Length == 0
      ensures !Valid()
    {
      shape := [];
      strides := [];
      data := new real[0];
    }

    /** A copy with its own buffer (the copy constructor). */
    constructor CopyOf(src: Tensor)
      ensures shape == src.shape && strides == src.strides && fresh(data) && data[..] == src.data[..]
    {
      shape := src.shape;
      strides := src.strides;
      var contents := src.data[..];
      data := new real[|contents|](k requires 0 <= k < |contents| => contents[k]);
    }

    /** The identity matrix of order n: a zero n x n tensor whose diagonal is then set to 1. */
    static method Eye(n: nat) returns (res: Tensor)
      ensures fresh(res) && fresh(res.data) && res.Valid() && res.shape == [n, n]
      ensures res.AsMatrix() == Identity(n)
    {
      res := new Tensor([n, n]);
      ProductPair([n, n]);
      forall p, q | 0 <= p < n && 0 <= q < n
        ensures res.AsMatrix()[p][q] == 0.0
      {
        MatCell(res.data[..], n, n, p, q);
      }
      for i := 0 to n
        invariant fresh(res.data) && res.Valid() && res.shape == [n, n]
        invariant forall p, q :: 0 <= p < n && 0 <= q < n ==>
                    res.AsMatrix()[p][q] == if p == q && p < i then 1.0 else 0.0
      {
        assert InBounds([i, i], res.shape);
        var _ := res.Put([i, i], 1.0);
      }
      forall p | 0 <= p < n
        ensures res.AsMatrix()[p] == Identity(n)[p]
      {
        assert res.AsMatrix()[p] == Unit(n, p);
      }
    }

    // -------------------------------------------------------------------
    // Accessors

    /** The number of stored elements. */
    function TotalSize(): (size: nat)
      ensures Valid() ==> size == Product(shape)
    {
      data.Length
    }

    /** The rank: one stride per dimension on every tensor but the defaulted one. */
    function Dimensions(): (rank: nat)
      ensures rank == |shape|
      ensures Valid() ==> rank == |strides|
    {
      |shape|
    }

    // -------------------------------------------------------------------
    // Indexing

    /**
     * The flat offset of an index tuple: the rank must match, then every
     * index must lie within its dimension (a negative index, once read as
     * an unsigned size, never does).
     */
    method FlatIndex(idx: seq<int>) returns (r: Result<nat>)
      requires |strides| == |shape|
      ensures r == Err(InvalidArgument) <==> |idx| != |shape|
      ensures r == Err(OutOfRange) <==> |idx| == |shape| && !InBounds(idx, shape)
      ensures r.Err? ==> r.kind == InvalidArgument || r.kind == OutOfRange
      ensures r.Ok? ==> InBounds(idx, shape) && r.value == Offset(idx, strides)
      ensures r.Ok? && Valid() ==> r.value < data.Length
    {
      if |idx| != |shape| {
        return Err(InvalidArgument);
      }
      var flat: nat := 0;
      for i := 0 to |idx|
        invariant forall d :: 0 <= d < i ==> 0 <= idx[d] < shape[d]
        invariant flat == Offset(idx[..i], strides[..i])
      {
        if idx[i] < 0 || idx[i] >= shape[i] {
          return Err(OutOfRange);
        }
        assert idx[..i + 1] == idx[..i] + [idx[i]];
        assert strides[..i + 1] == strides[..i] + [strides[i]];
        OffsetSnoc(idx[..i], strides[..i], idx[i], strides[i]);
        flat := flat + idx[i] * strides[i];
      }
      assert idx[..|idx|] == idx && strides[..|strides|] == strides;
      if Valid() {
        OffsetBound(idx, shape);
      }
      return Ok(flat);
    }

    /** Reads the element at idx (the call operator on a const tensor). */
    method At(idx: seq<int>) returns (r: Result<real>)
      requires Valid()
      ensures r.Err? <==> !InBounds(idx, shape)
      ensures r.Err? ==> r.kind == if |idx| != |shape| then InvalidArgument else OutOfRange
      ensures r.Ok? ==> 0 <= Offset(idx, strides) < data.Length && r.value == data[Offset(idx, strides)]
      ensures r.Ok? && |shape| == 2 ==> r.value == AsMatrix()[idx[0]][idx[1]]
    {
      var flat := FlatIndex(idx);
      if flat.Err? {
        return Err(flat.kind);
      }
      if |shape| == 2 {
        assert idx == [idx[0], idx[1]];
        RankTwoOffset(idx[0], idx[1]);
        MatCell(data[..], shape[0], shape[1], idx[0], idx[1]);
      }
      return Ok(data[flat.value]);
    }

    /** Reads entry (i, j) of a matrix through the call operator, whose bounds checks then pass. */
    method Entry(i: nat, j: nat) returns (v: real)
      requires Valid() && |shape| == 2 && i < shape[0] && j < shape[1]
      ensures v == AsMatrix()[i][j]
    {
      assert InBounds([i, j], shape);
      var r := At([i, j]);
      v := r.value;
    }

    /** Writes v at idx (the call operator used as an assignment target). */
    method Put(idx: seq<int>, v: real) returns (o: Outcome)
      requires Valid()
      modifies data
      ensures o.Fail? <==> !InBounds(idx, shape)
      ensures o.Fail? ==> o.kind == (if |idx| != |shape| then InvalidArgument else OutOfRange) && data[..] == old(data[..])
      ensures o == Pass ==> 0 <= Offset(idx, strides) < data.Length && data[..] == old(data[..])[Offset(idx, strides) := v]
      ensures o == Pass && |shape| == 2 ==>
                AsMatrix() == old(AsMatrix())[idx[0] := old(AsMatrix())[idx[0]][idx[1] := v]]
    {
      var flat := FlatIndex(idx);
      if flat.Err? {
        return Fail(flat.kind);
      }
      if |shape| == 2 {
        assert idx == [idx[0], idx[1]];
        RankTwoOffset(idx[0], idx[1]);
        MatUpdate(data[..], shape[0], shape[1], idx[0], idx[1], v);
      }
      data[flat.value] := v;
      return Pass;
    }

    /** For a matrix, the offset of (i, j) is i * shape[1] + j. */
    lemma RankTwoOffset(i: int, j: int)
      requires Valid() && |shape| == 2 && 0 <= i < shape[0] && 0 <= j < shape[1]
      ensures Offset([i, j], strides) == i * shape[1] + j
      ensures Product(shape) == shape[0] * shape[1]
    {
      ProductPair(shape);
      assert Offset([j], [1]) == j * 1 + Offset([], []);
      assert Offset([i, j], strides) == i * shape[1] + Offset([j], [1]);
    }

    // -------------------------------------------------------------------
    // Element-wise arithmetic

    /** this += other: fails on a shape mismatch before changing anything. */
    method AddAssign(other: Tensor) returns (o: Outcome)
      requires Valid() && other.Valid()
      modifies data
      ensures o.Fail? <==> shape != other.shape
      ensures o.Fail? ==> o.kind == InvalidArgument && data[..] == old(data[..])
      ensures o == Pass ==> data[..] == Add(old(data[..]), old(other.data[..]))
    {
      if shape != other.shape {
        return Fail(InvalidArgument);
      }
      var i := 0;
      while i < data.Length
        invariant 0 <= i <= data.Length
        invariant forall k :: 0 <= k < i ==> data[k] == old(data[k]) + old(other.data[k])
        invariant forall k :: i <= k < data.Length ==> data[k] == old(data[k]) && other.data[k] == old(other.data[k])
      {
        data[i] := data[i] + other.data[i];
        i := i + 1;
      }
      return Pass;
    }

    /** this -= other: fails on a shape mismatch before changing anything. */
    method SubAssign(other: Tensor) returns (o: Outcome)
      requires Valid() && other.Valid()
      modifies data
      ensures o.Fail? <==> shape != other.shape
      ensures o.Fail? ==> o.kind == InvalidArgument && data[..] == old(data[..])
      ensures o == Pass ==> data[..] == Sub(old(data[..]), old(other.data[..]))
    {
      if shape != other.shape {
        return Fail(InvalidArgument);
      }
      var i := 0;
      while i < data.Length
        invariant 0 <= i <= data.Length
        invariant forall k :: 0 <= k < i ==> data[k] == old(data[k]) - old(other.data[k])
        invariant forall k :: i <= k < data.Length ==> data[k] == old(data[k]) && other.data[k] == old(other.data[k])
      {
        data[i] := data[i] - other.data[i];
        i := i + 1;
      }
      return Pass;
    }

    /** The element-wise product, as a new tensor of the same shape. */
    method Hadamard(other: Tensor) returns (r: Result<Tensor>)
      requires Valid() && other.Valid()
      ensures r.Err? <==> shape != other.shape
      ensures r.Err? ==> r.kind == InvalidArgument
      ensures r.Ok? ==> fresh(r.value) && fresh(r.value.data) && r.value.Valid() && r.value.shape == shape
      ensures r.Ok? ==> r.value.data[..] == Elementwise.Hadamard(data[..], other.data[..])
    {
      if shape != other.shape {
        return Err(InvalidArgument);
      }
      var res := new Tensor(shape);
      for i := 0 to data.Length
        invariant forall k :: 0 <= k < i ==> res.data[k] == data[k] * other.data[k]
      {
        res.data[i] := data[i] * other.data[i];
      }
      assert forall k :: 0 <= k < data.Length ==> res.data[..][k] == Elementwise.Hadamard(data[..], other.data[..])[k];
      assert |res.data[..]| == |Elementwise.Hadamard(data[..], other.data[..])|;
      assert res.data[..] == Elementwise.Hadamard(data[..], other.data[..]);
      return Ok(res);
    }

    /** this *= s: every element scaled. */
    method MulAssign(s: real)
      modifies data
      ensures data[..] == Scale(old(data[..]), s)
    {
      for i := 0 to data.Length
        invariant forall k :: 0 <= k < i ==> data[k] == old(data[k]) * s
        invariant forall k :: i <= k < data.Length ==> data[k] == old(data[k])
      {
        data[i] := data[i] * s;
      }
      assert forall k :: 0 <= k < data.Length ==> data[..][k] == Scale(old(data[..]), s)[k];
      assert |data[..]| == |Scale(old(data[..]), s)|;
      assert data[..] == Scale(old(data[..]), s);
    }

    /** this /= s: fails on a zero divisor before changing anything. */
    method DivAssign(s: real) returns (o: Outcome)
      modifies data
      ensures o.Fail? <==> s == 0.0
      ensures o.Fail? ==> o.kind == DomainError && data[..] == old(data[..])
      ensures o == Pass ==> s != 0.0 && data[..] == Divide(old(data[..]), s)
    {
      if s == 0.0 {
        return Fail(DomainError);
      }
      for i := 0 to data.Length
        invariant forall k :: 0 <= k < i ==> data[k] == old(data[k]) / s
        invariant forall k :: i <= k < data.Length ==> data[k] == old(data[k])
      {
        data[i] := data[i] / s;
      }
      return Pass;
    }

    // -------------------------------------------------------------------
    // Matrix product and inverse

    /** The matrix product of two rank-2 tensors with matching inner dimensions. */
    method Matmul(other: Tensor) returns (r: Result<Tensor>)
      requires Valid() && other.Valid()
      ensures r.Err? <==> |shape| != 2 || |other.shape| != 2 || shape[1] != other.shape[0]
      ensures r.Err? ==> r.kind == InvalidArgument
      ensures r.Ok? ==> fresh(r.value) && fresh(r.value.data) && r.value.Valid()
      ensures r.Ok? ==> r.value.shape == [shape[0], other.shape[1]] &&
                        r.value.AsMatrix() == MatMul(AsMatrix(), other.AsMatrix(), shape[0], shape[1], other.shape[1])
    {
      if |shape| != 2 || |other.shape| != 2 {
        return Err(InvalidArgument);
      }
      if shape[1] != other.shape[0] {
        return Err(InvalidArgument);
      }
      var rows, cols := shape[0], other.shape[1];
      var res := new Tensor([rows, cols]);
      ghost var c := MatMul(AsMatrix(), other.AsMatrix(), rows, shape[1], cols);
      ProductPair([rows, cols]);
      forall p, q | 0 <= p < rows && 0 <= q < cols
        ensures res.AsMatrix()[p][q] == 0.0
      {
        MatCell(res.data[..], rows, cols, p, q);
      }
      for i := 0 to rows
        invariant fresh(res.data) && res.Valid() && res.shape == [rows, cols]
        invariant forall p, q :: 0 <= p < rows && 0 <= q < cols ==>
                    res.AsMatrix()[p][q] == if p < i then c[p][q] else 0.0
      {
        ProductRow(other, res, i);
      }
      ghost var m := res.AsMatrix();
      forall p | 0 <= p < rows
        ensures m[p] == c[p]
      {
        assert forall q :: 0 <= q < cols ==> m[p][q] == c[p][q];
      }
      return Ok(res);
    }

    /** Row i of the product: entry (i, j) of res receives row i of this times column j of other, for every j. */
    method ProductRow(other: Tensor, res: Tensor, i: nat)
      requires Valid() && other.Valid() && res.Valid() && |shape| == 2 && |other.shape| == 2 && shape[1] == other.shape[0]
      requires res.shape == [shape[0], other.shape[1]] && i < shape[0]
      requires res.data != data && res.data != other.data
      requires forall p, q :: 0 <= p < shape[0] && 0 <= q < other.shape[1] ==>
                 res.AsMatrix()[p][q] == if p < i then MatMul(AsMatrix(), other.AsMatrix(), shape[0], shape[1], other.shape[1])[p][q] else 0.0
      modifies res.data
      ensures forall p, q :: 0 <= p < shape[0] && 0 <= q < other.shape[1] ==>
                res.AsMatrix()[p][q] == if p <= i then MatMul(AsMatrix(), other.AsMatrix(), shape[0], shape[1], other.shape[1])[p][q] else 0.0
    {
      ghost var c := MatMul(AsMatrix(), other.AsMatrix(), shape[0], shape[1], other.shape[1]);
      for j := 0 to other.shape[1]
        invariant forall p, q :: 0 <= p < shape[0] && 0 <= q < other.shape[1] ==>
                    res.AsMatrix()[p][q] == if p < i || (p == i && q < j) then c[p][q] else 0.0
      {
        var sum := ProductEntry(other, i, j);
        assert InBounds([i, j], res.shape);
        var _ := res.Put([i, j], sum);
      }
    }

    /** Entry (i, j) of the product: the running sum of this(i, k) * other(k, j) over the inner dimension. */
    method ProductEntry(other: Tensor, i: nat, j: nat) returns (sum: real)
      requires Valid() && other.Valid() && |shape| == 2 && |other.shape| == 2 && shape[1] == other.shape[0]
      requires i < shape[0] && j < other.shape[1]
      ensures sum == MatMul(AsMatrix(), other.AsMatrix(), shape[0], shape[1], other.shape[1])[i][j]
    {
      var inner := shape[1];
      ghost var a, b := AsMatrix(), other.AsMatrix();
      ghost var row, col := a[i], Column(b, j);
      sum := 0.0;
      for k := 0 to inner
        invariant sum == Inner(row, col, k)
        invariant AsMatrix() == a && other.AsMatrix() == b
      {
        var x := Entry(i, k);
        var y := other.Entry(k, j);
        assert x == row[k] && y == col[k];
        assert Inner(row, col, k + 1) == Inner(row, col, k) + x * y;
        sum := sum + x * y;
      }
    }

    /**
     * The inverse of a square matrix by Gauss-Jordan elimination with partial
     * pivoting on a working copy, the identity receiving the same row steps.
     * It fails exactly when the matrix is singular, and what it returns is a
     * two-sided inverse.
     */
    method Inverse() returns (r: Result<Tensor>)
      requires Valid()
      ensures r.Err? ==> r.kind == InvalidArgument || r.kind == RuntimeError
      ensures r == Err(InvalidArgument) <==> |shape| != 2 || shape[0] != shape[1]
      ensures r == Err(RuntimeError) <==> |shape| == 2 && shape[0] == shape[1] && Singular(AsMatrix(), shape[0])
      ensures r.Ok? ==> fresh(r.value) && fresh(r.value.data) && r.value.Valid() && r.value.shape == shape
      ensures r.Ok? ==> MatMul(r.value.AsMatrix(), AsMatrix(), shape[0], shape[0], shape[0]) == Identity(shape[0]) &&
                        MatMul(AsMatrix(), r.value.AsMatrix(), shape[0], shape[0], shape[0]) == Identity(shape[0])
    {
      if |shape| != 2 || shape[0] != shape[1] {
        return Err(InvalidArgument);
      }
      var n := shape[0];
      var result := Eye(n);
      var tmp := new Tensor.CopyOf(this);
      ProductPair(shape);
      ghost var a := AsMatrix();
      ghost var s := Identity(n);
      MatMulIdentityLeft(a, n, n);
      MatMulIdentityLeft(Identity(n), n, n);
      for i := 0 to n
        invariant fresh(result) && fresh(result.data) && fresh(tmp) && fresh(tmp.data)
        invariant result.Valid() && result.shape == [n, n] && tmp.Valid() && tmp.shape == [n, n]
        invariant EliminationInvariant(tmp.AsMatrix(), result.AsMatrix(), a, s, n, i)
      {
        var ok, pivot;
        ok, pivot, s := ReduceColumn(tmp.data, result.data, n, i, a, s);
        if !ok {
          return Err(RuntimeError);
        }
      }
      EliminationComplete(tmp.AsMatrix(), result.AsMatrix(), a, s, n);
      InvertibleNotSingular(a, result.AsMatrix(), n);
      return Ok(result);
    }
  }

  // ---------------------------------------------------------------------
  // The free operators

  /** lhs + rhs: a copy of lhs, then +=. */
  method Plus(lhs: Tensor, rhs: Tensor) returns (r: Result<Tensor>)
    requires lhs.Valid() && rhs.Valid()
    ensures r.Err? <==> lhs.shape != rhs.shape
    ensures r.Err? ==> r.kind == InvalidArgument
    ensures r.Ok? ==> fresh(r.value) && fresh(r.value.data) && r.value.Valid() && r.value.shape == lhs.shape
    ensures r.Ok? ==> r.value.data[..] == Add(lhs.data[..], rhs.data[..])
  {
    var copy := new Tensor.CopyOf(lhs);
    var o := copy.AddAssign(rhs);
    if o.Fail? {
      return Err(o.kind);
    }
    return Ok(copy);
  }

  /** lhs - rhs: a copy of lhs, then -=. */
  method Minus(lhs: Tensor, rhs: Tensor) returns (r: Result<Tensor>)
    requires lhs.Valid() && rhs.Valid()
    ensures r.Err? <==> lhs.shape != rhs.shape
    ensures r.Err? ==> r.kind == InvalidArgument
    ensures r.Ok? ==> fresh(r.value) && fresh(r.value.data) && r.value.Valid() && r.value.shape == lhs.shape
    ensures r.Ok? ==> r.value.data[..] == Sub(lhs.data[..], rhs.data[..])
  {
    var copy := new Tensor.CopyOf(lhs);
    var o := copy.SubAssign(rhs);
    if o.Fail? {
      return Err(o.kind);
    }
    return Ok(copy);
  }

  /** lhs * rhs between tensors: the matrix product. */
  method Times(lhs: Tensor, rhs: Tensor) returns (r: Result<Tensor>)
    requires lhs.Valid() && rhs.Valid()
    ensures r.Err? <==> |lhs.shape| != 2 || |rhs.shape| != 2 || lhs.shape[1] != rhs.shape[0]
    ensures r.Err? ==> r.kind == InvalidArgument
    ensures r.Ok? ==> fresh(r.value) && fresh(r.value.data) && r.value.Valid()
    ensures r.Ok? ==> r.value.shape == [lhs.shape[0], rhs.shape[1]] &&
                      r.value.AsMatrix() == MatMul(lhs.AsMatrix(), rhs.AsMatrix(), lhs.shape[0], lhs.shape[1], rhs.shape[1])
  {
    r := lhs.Matmul(rhs);
  }

  /**
   * lhs / rhs between tensors: lhs times the inverse of rhs. The inverse is
   * taken first, so its failures take precedence over a shape mismatch of lhs.
   * What it returns, multiplied by rhs, gives back lhs.
   */
  method Over(lhs: Tensor, rhs: Tensor) returns (r: Result<Tensor>)
    requires lhs.Valid() && rhs.Valid()
    ensures r.Err? ==> r.kind == InvalidArgument || r.kind == RuntimeError
    ensures r == Err(RuntimeError) <==> |rhs.shape| == 2 && rhs.shape[0] == rhs.shape[1] && Singular(rhs.AsMatrix(), rhs.shape[0])
    ensures r.Ok? ==> |lhs.shape| == 2 && |rhs.shape| == 2 && rhs.shape[0] == rhs.shape[1] == lhs.shape[1]
    ensures r.Ok? <==> |lhs.shape| == 2 && |rhs.shape| == 2 && rhs.shape[0] == rhs.shape[1] == lhs.shape[1] &&
                       !Singular(rhs.AsMatrix(), rhs.shape[0])
    ensures r.Ok? ==> fresh(r.value) && fresh(r.value.data) && r.value.Valid() && r.value.shape == lhs.shape &&
                      MatMul(r.value.AsMatrix(), rhs.AsMatrix(), lhs.shape[0], rhs.shape[0], rhs.shape[0]) == lhs.AsMatrix()
  {
    var inv := rhs.Inverse();
    if inv.Err? {
      return Err(inv.kind);
    }
    r := lhs.Matmul(inv.value);
    if r.Ok? {
      var n := rhs.shape[0];
      MatMulAssoc(lhs.AsMatrix(), inv.value.AsMatrix(), rhs.AsMatrix(), lhs.shape[0], n, n, n);
      MatMulIdentityRight(lhs.AsMatrix(), lhs.shape[0], n);
    }
  }

  /** A matrix times the identity of its column count is the same matrix, element for element. */
  method TimesEye(a: Tensor) returns (r: Result<Tensor>)
    requires a.Valid() && |a.shape| == 2
    ensures r.Ok? && r.value.shape == a.shape && r.value.data[..] == a.data[..]
  {
    var rows, n := a.shape[0], a.shape[1];
    ProductPair(a.shape);
    var id := Tensor.Eye(n);
    r := Times(a, id);
    var res := r.value;
    MatMulIdentityRight(a.AsMatrix(), rows, n);
    assert res.AsMatrix() == a.AsMatrix();
    ProductPair(res.shape);
    MatInjective(res.data[..], a.data[..], rows, n);
  }

  /** t * s and s * t: a copy of t, then *=. */
  method Scaled(t: Tensor, s: real) returns (res: Tensor)
    requires t.Valid()
    ensures fresh(res) && fresh(res.data) && res.Valid() && res.shape == t.shape
    ensures res.data[..] == Scale(t.data[..], s)
  {
    res := new Tensor.CopyOf(t);
    res.MulAssign(s);
  }

  /** t / s: a copy of t, then /=. */
  method DividedBy(t: Tensor, s: real) returns (r: Result<Tensor>)
    requires t.Valid()
    ensures r.Err? <==> s == 0.0
    ensures r.Err? ==> r.kind == DomainError
    ensures r.Ok? ==> s != 0.0 && fresh(r.value) && fresh(r.value.data) && r.value.Valid() && r.value.shape == t.shape
    ensures r.Ok? ==> r.value.data[..] == Divide(t.data[..], s)
  {
    var copy := new Tensor.CopyOf(t);
    var o := copy.DivAssign(s);
    if o.Fail? {
      return Err(o.kind);
    }
    return Ok(copy);
  }

  /** s / t: the inverse of t scaled by s, so that multiplying it by t on either side gives s times the identity. */
  method ScalarOver(s: real, t: Tensor) returns (r: Result<Tensor>)
    requires t.Valid()
    ensures r.Err? ==> r.kind == InvalidArgument || r.kind == RuntimeError
    ensures r == Err(InvalidArgument) <==> |t.shape| != 2 || t.shape[0] != t.shape[1]
    ensures r == Err(RuntimeError) <==> |t.shape| == 2 && t.shape[0] == t.shape[1] && Singular(t.AsMatrix(), t.shape[0])
    ensures r.Ok? ==> fresh(r.value) && fresh(r.value.data) && r.value.Valid() && r.value.shape == t.shape
    ensures r.Ok? ==> MatMul(r.value.AsMatrix(), t.AsMatrix(), t.shape[0], t.shape[0], t.shape[0]) == ScaleMatrix(Identity(t.shape[0]), s) &&
                      MatMul(t.AsMatrix(), r.value.AsMatrix(), t.shape[0], t.shape[0], t.shape[0]) == ScaleMatrix(Identity(t.shape[0]), s)
  {
    r := t.Inverse();
    if r.Err? {
      return;
    }
    var inv := r.value;
    ghost var m, before := inv.AsMatrix(), inv.data[..];
    inv.MulAssign(s);
    var n := t.shape[0];
    ProductPair(t.shape);
    MatScale(before, n, n, s);
    MatMulScaleLeft(m, t.AsMatrix(), s, n, n, n);
    MatMulScaleRight(t.AsMatrix(), m, s, n, n, n);
  }
}

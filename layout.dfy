/**
 * Row-major layout of a dense tensor: the element count of a shape, the
 * stride table derived from it, and the flat offset of an index tuple.
 */
module Layout {

  /** Number of elements of a tensor of this shape (1 for the rank-0 shape). */
  ghost function Product(shape: seq<nat>): nat
  {
    if shape == [] then 1 else shape[0] * Product(shape[1..])
  }

  /** Row-major strides: the stride of dimension d is the product of the dimensions after d. */
  ghost function RowMajorStrides(shape: seq<nat>): seq<nat>
  {
    seq(|shape|, d requires 0 <= d < |shape| => Product(shape[d + 1..]))
  }

  /** One index per dimension, each within its dimension (a negative index never is). */
  ghost predicate InBounds(idx: seq<int>, shape: seq<nat>)
  {
    |idx| == |shape| && forall d :: 0 <= d < |idx| ==> 0 <= idx[d] < shape[d]
  }

  /** The flat offset of an index tuple: the sum of idx[d] * strides[d]. */
  ghost function Offset(idx: seq<int>, strides: seq<nat>): int
    requires |idx| == |strides|
  {
    if idx == [] then 0 else idx[0] * strides[0] + Offset(idx[1..], strides[1..])
  }

  lemma {:induction false} ProductSnoc(shape: seq<nat>, m: nat)
    ensures Product(shape + [m]) == Product(shape) * m
  {
    if shape != [] {
      assert (shape + [m])[1..] == shape[1..] + [m];
      ProductSnoc(shape[1..], m);
    }
  }

  lemma ProductPair(shape: seq<nat>)
    requires |shape| == 2
    ensures Product(shape) == shape[0] * shape[1]
    ensures RowMajorStrides(shape) == [shape[1], 1]
  {
    assert shape[1..][1..] == [];
    assert Product(shape[1..]) == shape[1] * Product([]);
    assert shape[2..] == [];
  }

  /** The stride table of the tail of a shape is the tail of its stride table. */
  lemma StridesTail(shape: seq<nat>)
    requires shape != []
    ensures RowMajorStrides(shape)[1..] == RowMajorStrides(shape[1..])
    ensures RowMajorStrides(shape)[0] == Product(shape[1..])
  {
    var st, tl := RowMajorStrides(shape), RowMajorStrides(shape[1..]);
    forall d | 0 <= d < |tl|
      ensures st[1..][d] == tl[d]
    {
      assert shape[1..][d + 1..] == shape[d + 2..];
    }
  }

  /** The recurrence the stride loop follows: last stride 1, each stride the next one times the next dimension. */
  lemma StridesRecurrence(shape: seq<nat>)
    ensures |RowMajorStrides(shape)| == |shape|
    ensures shape != [] ==> RowMajorStrides(shape)[|shape| - 1] == 1
    ensures forall d :: 0 <= d < |shape| - 1 ==>
              RowMajorStrides(shape)[d] == RowMajorStrides(shape)[d + 1] * shape[d + 1]
  {
    var st := RowMajorStrides(shape);
    if shape != [] {
      assert shape[|shape|..] == [];
    }
    forall d | 0 <= d < |shape| - 1
      ensures st[d] == st[d + 1] * shape[d + 1]
    {
      assert shape[d + 1..][1..] == shape[d + 2..];
    }
  }

  /** Appending one more term to the sum, as the resolver loop does. */
  lemma {:induction false} OffsetSnoc(idx: seq<int>, strides: seq<nat>, x: int, y: nat)
    requires |idx| == |strides|
    ensures Offset(idx + [x], strides + [y]) == Offset(idx, strides) + x * y
  {
    if idx != [] {
      assert (idx + [x])[1..] == idx[1..] + [x];
      assert (strides + [y])[1..] == strides[1..] + [y];
      OffsetSnoc(idx[1..], strides[1..], x, y);
    }
  }

  lemma MulMono(a: int, b: int, c: nat)
    requires a <= b
    ensures a * c <= b * c
  {
    assert b * c - a * c == (b - a) * c;
  }

  /** Quotient and remainder are unique: a*p + x == b*p + y with 0 <= x, y < p forces a == b. */
  lemma DigitsUnique(a: int, b: int, x: int, y: int, p: nat)
    requires 0 <= x < p && 0 <= y < p && a * p + x == b * p + y
    ensures a == b && x == y
  {
    if a < b {
      MulMono(a + 1, b, p);
    } else if b < a {
      MulMono(b + 1, a, p);
    }
  }

  /** The quotient of an offset below m * p by p is below m. */
  lemma QuotientBound(q: int, m: nat, p: nat)
    requires 0 <= q < m * p
    ensures p > 0 && 0 <= q / p < m && q == (q / p) * p + q % p && 0 <= q % p < p
  {
    if p > 0 && q / p >= m {
      MulMono(m, q / p, p);
    }
  }

  /** An in-bounds index tuple lands inside the buffer: 0 <= offset < Product(shape). */
  lemma {:induction false} OffsetBound(idx: seq<int>, shape: seq<nat>)
    requires InBounds(idx, shape)
    ensures 0 <= Offset(idx, RowMajorStrides(shape)) < Product(shape)
  {
    if shape != [] {
      var st := RowMajorStrides(shape);
      StridesTail(shape);
      assert InBounds(idx[1..], shape[1..]);
      OffsetBound(idx[1..], shape[1..]);
      var p := Product(shape[1..]);
      assert Offset(idx, st) == idx[0] * p + Offset(idx[1..], RowMajorStrides(shape[1..]));
      MulMono(0, idx[0], p);
      MulMono(idx[0] + 1, shape[0], p);
    }
  }

  /** Two in-bounds tuples with the same offset are the same tuple. */
  lemma {:induction false} OffsetInjective(a: seq<int>, b: seq<int>, shape: seq<nat>)
    requires InBounds(a, shape) && InBounds(b, shape)
    requires Offset(a, RowMajorStrides(shape)) == Offset(b, RowMajorStrides(shape))
    ensures a == b
  {
    if shape != [] {
      StridesTail(shape);
      var tl := RowMajorStrides(shape[1..]);
      assert InBounds(a[1..], shape[1..]) && InBounds(b[1..], shape[1..]);
      OffsetBound(a[1..], shape[1..]);
      OffsetBound(b[1..], shape[1..]);
      var p := Product(shape[1..]);
      var x, y := Offset(a[1..], tl), Offset(b[1..], tl);
      assert a[0] * p + x == b[0] * p + y;
      DigitsUnique(a[0], b[0], x, y, p);
      OffsetInjective(a[1..], b[1..], shape[1..]);
      assert a == [a[0]] + a[1..] && b == [b[0]] + b[1..];
    }
  }

  /** Every offset below Product(shape) is the offset of some in-bounds tuple. */
  lemma {:induction false} OffsetSurjective(q: int, shape: seq<nat>)
    requires 0 <= q < Product(shape)
    ensures exists idx :: InBounds(idx, shape) && Offset(idx, RowMajorStrides(shape)) == q
  {
    if shape == [] {
      assert InBounds([], shape) && Offset([], RowMajorStrides(shape)) == q;
    } else {
      var p := Product(shape[1..]);
      QuotientBound(q, shape[0], p);
      var h, r := q / p, q % p;
      OffsetSurjective(r, shape[1..]);
      var tail :| InBounds(tail, shape[1..]) && Offset(tail, RowMajorStrides(shape[1..])) == r;
      var idx := [h] + tail;
      StridesTail(shape);
      assert idx[1..] == tail;
      assert InBounds(idx, shape) && Offset(idx, RowMajorStrides(shape)) == q;
    }
  }
}

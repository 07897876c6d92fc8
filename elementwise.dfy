/**
 * Element-by-element arithmetic on flat buffers: what the compound
 * assignments, the Hadamard product and the scalar operators compute.
 */
module Elementwise {

  ghost function Add(a: seq<real>, b: seq<real>): (c: seq<real>)
    requires |a| == |b|
    ensures |c| == |a|
  {
    seq(|a|, k requires 0 <= k < |a| => a[k] + b[k])
  }

  ghost function Sub(a: seq<real>, b: seq<real>): (c: seq<real>)
    requires |a| == |b|
    ensures |c| == |a|
  {
    seq(|a|, k requires 0 <= k < |a| => a[k] - b[k])
  }

  ghost function Hadamard(a: seq<real>, b: seq<real>): (c: seq<real>)
    requires |a| == |b|
    ensures |c| == |a|
  {
    seq(|a|, k requires 0 <= k < |a| => a[k] * b[k])
  }

  /** Every element multiplied by c. */
  ghost function Scale(a: seq<real>, c: real): (r: seq<real>)
    ensures |r| == |a|
  {
    seq(|a|, k requires 0 <= k < |a| => a[k] * c)
  }

  /** Every element divided by d. */
  ghost function Divide(a: seq<real>, d: real): (r: seq<real>)
    requires d != 0.0
    ensures |r| == |a|
  {
    seq(|a|, k requires 0 <= k < |a| => a[k] / d)
  }

  /** Subtraction undoes addition. */
  lemma AddThenSub(a: seq<real>, b: seq<real>)
    requires |a| == |b|
    ensures Sub(Add(a, b), b) == a
  {
    assert forall k :: 0 <= k < |a| ==> Sub(Add(a, b), b)[k] == a[k];
  }

  /** Addition undoes subtraction. */
  lemma SubThenAdd(a: seq<real>, b: seq<real>)
    requires |a| == |b|
    ensures Add(Sub(a, b), b) == a
  {
    assert forall k :: 0 <= k < |a| ==> Add(Sub(a, b), b)[k] == a[k];
  }

  lemma AddCommutes(a: seq<real>, b: seq<real>)
    requires |a| == |b|
    ensures Add(a, b) == Add(b, a)
  {
    assert forall k :: 0 <= k < |a| ==> Add(a, b)[k] == Add(b, a)[k];
  }

  lemma HadamardCommutes(a: seq<real>, b: seq<real>)
    requires |a| == |b|
    ensures Hadamard(a, b) == Hadamard(b, a)
  {
    assert forall k :: 0 <= k < |a| ==> Hadamard(a, b)[k] == Hadamard(b, a)[k];
  }

  /** Dividing by a non-zero scalar undoes scaling by it, and conversely. */
  lemma ScaleThenDivide(a: seq<real>, d: real)
    requires d != 0.0
    ensures Divide(Scale(a, d), d) == a && Scale(Divide(a, d), d) == a
  {
    assert forall k :: 0 <= k < |a| ==> Divide(Scale(a, d), d)[k] == a[k];
    assert forall k :: 0 <= k < |a| ==> Scale(Divide(a, d), d)[k] == a[k];
  }

  /** Dividing by d is scaling by 1 / d. */
  lemma DivideIsScale(a: seq<real>, d: real)
    requires d != 0.0
    ensures Divide(a, d) == Scale(a, 1.0 / d)
  {
    assert forall k :: 0 <= k < |a| ==> Divide(a, d)[k] == Scale(a, 1.0 / d)[k];
  }
}

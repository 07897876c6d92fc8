/**
 * The worked example of the library: A = [[4, 7], [2, 6]], B = [[1, 2], [3, 4]],
 * a 2 x 3 zero matrix Z with two elements set, and the 2 x 2 identity, run
 * through the tensor operations with every result pinned down. Also the
 * access through the defaulted constructor, and the construction that keeps
 * the element-count invariant.
 */
module Scenarios {
  import opened Outcomes
  import opened Layout
  import opened Elementwise
  import opened Matrices
  import opened Tensors

  /** The view of a four-element buffer as a 2 x 2 matrix. */
  lemma MatTwo(s: seq<real>)
    requires |s| == 4
    ensures Mat(s, 2, 2) == [[s[0], s[1]], [s[2], s[3]]]
  {
    var m := Mat(s, 2, 2);
    MatCell(s, 2, 2, 0, 0);
    MatCell(s, 2, 2, 0, 1);
    MatCell(s, 2, 2, 1, 0);
    MatCell(s, 2, 2, 1, 1);
    assert m[0] == [s[0], s[1]];
    assert m[1] == [s[2], s[3]];
  }

  /** A 2 x 2 matrix is the literal of its four entries. */
  lemma TwoByTwo(c: Matrix, c00: real, c01: real, c10: real, c11: real)
    requires IsMatrix(c, 2, 2)
    requires c[0][0] == c00 && c[0][1] == c01 && c[1][0] == c10 && c[1][1] == c11
    ensures c == [[c00, c01], [c10, c11]]
  {
    assert c[0] == [c00, c01];
    assert c[1] == [c10, c11];
  }

  /** Entry (i, j) of a 2 x 2 product, written out. */
  lemma MatMulTwo(a: Matrix, b: Matrix)
    requires IsMatrix(a, 2, 2) && IsMatrix(b, 2, 2)
    ensures forall i, j :: 0 <= i < 2 && 0 <= j < 2 ==>
              MatMul(a, b, 2, 2, 2)[i][j] == a[i][0] * b[0][j] + a[i][1] * b[1][j]
  {
    var c := MatMul(a, b, 2, 2, 2);
    forall i, j | 0 <= i < 2 && 0 <= j < 2
      ensures c[i][j] == a[i][0] * b[0][j] + a[i][1] * b[1][j]
    {
      var col := Column(b, j);
      assert col[0] == b[0][j] && col[1] == b[1][j];
      assert Inner(a[i], col, 1) == a[i][0] * col[0];
    }
  }

  lemma IdentityTwo()
    ensures Identity(2) == [[1.0, 0.0], [0.0, 1.0]]
  {
    assert Identity(2)[0] == Unit(2, 0) == [1.0, 0.0];
    assert Identity(2)[1] == Unit(2, 1) == [0.0, 1.0];
  }

  /** [[0.6, -0.7], [-0.2, 0.4]] is a two-sided inverse of A. */
  lemma ExampleInverseChecks()
    ensures MatMul(Mat([0.6, -0.7, -0.2, 0.4], 2, 2), Mat([4.0, 7.0, 2.0, 6.0], 2, 2), 2, 2, 2) == Identity(2)
    ensures MatMul(Mat([4.0, 7.0, 2.0, 6.0], 2, 2), Mat([0.6, -0.7, -0.2, 0.4], 2, 2), 2, 2, 2) == Identity(2)
  {
    var r := Mat([0.6, -0.7, -0.2, 0.4], 2, 2);
    var a := Mat([4.0, 7.0, 2.0, 6.0], 2, 2);
    MatTwo([0.6, -0.7, -0.2, 0.4]);
    MatTwo([4.0, 7.0, 2.0, 6.0]);
    IdentityTwo();
    MatMulTwo(r, a);
    TwoByTwo(MatMul(r, a, 2, 2, 2), 1.0, 0.0, 0.0, 1.0);
    MatMulTwo(a, r);
    TwoByTwo(MatMul(a, r, 2, 2, 2), 1.0, 0.0, 0.0, 1.0);
  }

  /** Strides of a 2 x 3 x 4 tensor, and how its index tuples resolve. */
  method StridesAndIndices() returns (strides: seq<nat>, inside: Result<nat>, wrongRank: Result<nat>,
                                      beyond: Result<nat>, negative: Result<nat>)
    ensures strides == [12, 4, 1]
    ensures inside == Ok(23)
    ensures wrongRank == Err(InvalidArgument)
    ensures beyond == Err(OutOfRange) && negative == Err(OutOfRange)
  {
    var t := new Tensor([2, 3, 4]);
    strides := t.strides;
    assert Product([4]) == 4 && Product([3, 4]) == 12 && Product([]) == 1;
    assert [2, 3, 4][1..] == [3, 4] && [2, 3, 4][2..] == [4] && [2, 3, 4][3..] == [];
    assert t.strides[0] == 12 && t.strides[1] == 4 && t.strides[2] == 1;
    inside := t.FlatIndex([1, 2, 3]);
    assert Offset([3], [1]) == 3;
    assert Offset([2, 3], [4, 1]) == 11;
    assert [1, 2, 3][1..] == [2, 3] && [2, 3][1..] == [3] && [3][1..] == [];
    assert t.strides[1..] == [4, 1] && [4, 1][1..] == [1] && [1][1..] == [];
    wrongRank := t.FlatIndex([1, 2]);
    beyond := t.FlatIndex([1, 3, 0]);
    negative := t.FlatIndex([-1, 0, 0]);
  }

  /** Z: a 2 x 3 zero matrix with Z(0, 1) = 5 and Z(1, 2) = 9. */
  method ExampleZ() returns (contents: seq<real>, rank: nat, shape: seq<nat>, size: nat)
    ensures contents == [0.0, 5.0, 0.0, 0.0, 0.0, 9.0] && rank == 2 && shape == [2, 3] && size == 6
  {
    var z := new Tensor([2, 3]);
    assert Product([2, 3]) == 6 by {
      assert [2, 3][1..] == [3] && [3][1..] == [];
    }
    assert z.strides == [3, 1] by {
      assert [2, 3][1..] == [3] && [2, 3][2..] == [];
    }
    assert InBounds([0, 1], z.shape) && InBounds([1, 2], z.shape);
    assert Offset([0, 1], [3, 1]) == 1 && Offset([1, 2], [3, 1]) == 5 by {
      assert [0, 1][1..] == [1] && [1, 2][1..] == [2] && [3, 1][1..] == [1];
      assert [1][1..] == [] && [2][1..] == [];
    }
    var o1 := z.Put([0, 1], 5.0);
    var o2 := z.Put([1, 2], 9.0);
    contents := z.data[..];
    rank := z.Dimensions();
    shape := z.shape;
    size := z.TotalSize();
  }

  /** A and B as built from their shapes and element lists. */
  method ExampleOperands() returns (a: seq<real>, b: seq<real>)
    ensures a == [4.0, 7.0, 2.0, 6.0] && b == [1.0, 2.0, 3.0, 4.0]
  {
    assert Product([2, 2]) == 4 by {
      assert [2, 2][1..] == [2] && [2][1..] == [];
    }
    var ta := Tensor.FromData([2, 2], [4.0, 7.0, 2.0, 6.0]);
    var tb := Tensor.FromData([2, 2], [1.0, 2.0, 3.0, 4.0]);
    a := ta.value.data[..];
    b := tb.value.data[..];
  }

  /** I = eye(2) holds [[1, 0], [0, 1]]. */
  method ExampleEye() returns (contents: seq<real>, shape: seq<nat>)
    ensures contents == [1.0, 0.0, 0.0, 1.0] && shape == [2, 2]
  {
    var e := Tensor.Eye(2);
    ProductPair(e.shape);
    IdentityTwo();
    BufferOfTwoByTwo(e.data[..], 1.0, 0.0, 0.0, 1.0);
    contents := e.data[..];
    shape := e.shape;
  }

  /** A + B, A - B, 2 A and the Hadamard product of A and B. */
  method ExampleElementwise() returns (sum: seq<real>, difference: seq<real>, doubled: seq<real>, hadamard: seq<real>)
    ensures sum == [5.0, 9.0, 5.0, 10.0]
    ensures difference == [3.0, 5.0, -1.0, 2.0]
    ensures doubled == [8.0, 14.0, 4.0, 12.0]
    ensures hadamard == [4.0, 14.0, 6.0, 24.0]
  {
    assert Product([2, 2]) == 4 by {
      assert [2, 2][1..] == [2] && [2][1..] == [];
    }
    var a := Tensor.FromData([2, 2], [4.0, 7.0, 2.0, 6.0]);
    var b := Tensor.FromData([2, 2], [1.0, 2.0, 3.0, 4.0]);
    var s := Plus(a.value, b.value);
    sum := s.value.data[..];
    var d := Minus(a.value, b.value);
    difference := d.value.data[..];
    var twice := Scaled(a.value, 2.0);
    doubled := twice.data[..];
    var h := a.value.Hadamard(b.value);
    hadamard := h.value.data[..];
  }

  /** A B = [[25, 36], [20, 28]]. */
  method ExampleProduct() returns (product: seq<real>)
    ensures product == [25.0, 36.0, 20.0, 28.0]
  {
    assert Product([2, 2]) == 4 by {
      assert [2, 2][1..] == [2] && [2][1..] == [];
    }
    var a := Tensor.FromData([2, 2], [4.0, 7.0, 2.0, 6.0]);
    var b := Tensor.FromData([2, 2], [1.0, 2.0, 3.0, 4.0]);
    var p := Times(a.value, b.value);
    var pt := p.value;
    MatTwo(a.value.data[..]);
    MatTwo(b.value.data[..]);
    MatMulTwo(a.value.AsMatrix(), b.value.AsMatrix());
    TwoByTwo(pt.AsMatrix(), 25.0, 36.0, 20.0, 28.0);
    MatTwo(pt.data[..]);
    product := pt.data[..];
    assert product[0] == 25.0 && product[1] == 36.0 && product[2] == 20.0 && product[3] == 28.0;
  }

  /** A is invertible, and a matrix whose product with A is the identity is [[0.6, -0.7], [-0.2, 0.4]]. */
  lemma ExampleInverseUnique(r: Matrix)
    requires IsMatrix(r, 2, 2)
    requires MatMul(r, Mat([4.0, 7.0, 2.0, 6.0], 2, 2), 2, 2, 2) == ScaleMatrix(Identity(2), 1.0)
    ensures r == [[0.6, -0.7], [-0.2, 0.4]]
  {
    ExampleInverseChecks();
    ScaleByOne(Identity(2));
    InverseUnique(Mat([4.0, 7.0, 2.0, 6.0], 2, 2), r, Mat([0.6, -0.7, -0.2, 0.4], 2, 2), 2);
    MatTwo([0.6, -0.7, -0.2, 0.4]);
  }

  lemma ExampleInvertible()
    ensures !Singular(Mat([4.0, 7.0, 2.0, 6.0], 2, 2), 2)
  {
    ExampleInverseChecks();
    InvertibleNotSingular(Mat([4.0, 7.0, 2.0, 6.0], 2, 2), Mat([0.6, -0.7, -0.2, 0.4], 2, 2), 2);
  }

  /** A buffer of four elements is determined by its 2 x 2 view. */
  lemma BufferOfTwoByTwo(s: seq<real>, c00: real, c01: real, c10: real, c11: real)
    requires |s| == 4 && Mat(s, 2, 2) == [[c00, c01], [c10, c11]]
    ensures s == [c00, c01, c10, c11]
  {
    MatTwo(s);
  }

  /** 1 / A = [[0.6, -0.7], [-0.2, 0.4]]. */
  method ExampleInverse() returns (inverse: seq<real>)
    ensures inverse == [0.6, -0.7, -0.2, 0.4]
  {
    assert Product([2, 2]) == 4 by {
      assert [2, 2][1..] == [2] && [2][1..] == [];
    }
    var a := Tensor.FromData([2, 2], [4.0, 7.0, 2.0, 6.0]);
    var at := a.value;
    ExampleInvertible();
    var r := ScalarOver(1.0, at);
    var rt := r.value;
    ExampleInverseUnique(rt.AsMatrix());
    BufferOfTwoByTwo(rt.data[..], 0.6, -0.7, -0.2, 0.4);
    inverse := rt.data[..];
  }

  /** A (1 / A) is the identity: [[1, 0], [0, 1]]. */
  method ExampleInverseCheck() returns (check: seq<real>)
    ensures check == [1.0, 0.0, 0.0, 1.0]
  {
    assert Product([2, 2]) == 4 by {
      assert [2, 2][1..] == [2] && [2][1..] == [];
    }
    var a := Tensor.FromData([2, 2], [4.0, 7.0, 2.0, 6.0]);
    var at := a.value;
    ExampleInvertible();
    var r := ScalarOver(1.0, at);
    var rt := r.value;
    var p := Times(at, rt);
    var pt := p.value;
    ScaleByOne(Identity(2));
    IdentityTwo();
    BufferOfTwoByTwo(pt.data[..], 1.0, 0.0, 0.0, 1.0);
    check := pt.data[..];
  }

  /**
   * The call operator with no index on a default-constructed tensor: the
   * rank check passes (no indices, no dimensions), the offset is 0, and the
   * buffer it indexes has no elements.
   */
  method DefaultScalarAccess() returns (offset: Result<nat>, size: nat)
    ensures offset == Ok(0) && size == 0
  {
    var t := new Tensor.Default();
    offset := t.FlatIndex([]);
    size := t.TotalSize();
  }

  /** The default tensor built as the shape constructor builds the rank-0 shape: one zero element at offset 0. */
  method IntendedDefault() returns (t: Tensor, offset: Result<nat>)
    ensures t.shape == [] && t.Valid() && t.data[..] == [0.0]
    ensures offset == Ok(0) && offset.value < t.data.Length
  {
    t := new Tensor([]);
    offset := t.FlatIndex([]);
  }
}

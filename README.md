# NumC dense tensor, modelled in Dafny

NumC's `tensor` (src/common/tensor.hpp) is a row-major, multi-dimensional
array of floating-point elements. It has three fields: a shape, the strides
derived from the shape, and a flat element buffer. The class provides:

- a bounds-checked index resolver and the call operator built on it;
- the compound assignments `+=`, `-=`, `*=` and `/=`;
- the Hadamard (element-wise) product;
- the rank-2 matrix product;
- the identity constructor `eye`;
- Gauss-Jordan inversion with partial pivoting;
- the free operators built from these.

This project models that class imperatively:

- `Tensors.Tensor` is a class with `shape`, `strides` and an `array<real>` buffer.
- Every loop of the source is a `while`/`for` loop with its invariants.
- Every `throw` is a `Result` (or `Outcome`) tagged with the exception's kind.

The modules:

- `Outcomes`: the four exception kinds the class throws (`invalid_argument`, `out_of_range`, `runtime_error`, `domain_error`), and the `Result`/`Outcome` wrappers.
- `Layout`: the shape arithmetic. It defines the element count `Product`, the row-major stride table `RowMajorStrides` and the flat offset `Offset` of an index tuple. It proves the stride recurrence and that an in-bounds tuple lands in the buffer. It also proves that the offset map is a bijection between in-bounds tuples and `0 .. Product(shape) - 1`.
- `Elementwise`: the element-wise meaning of `+=`, `-=`, `hadamard`, `*=` and `/=` on sequences, and the algebra relating them (`+` undone by `-`, division undone by scaling).
- `Matrices`: the row-major matrix view `Mat` of a buffer, matrix product, identity, the three elementary row operations used by the inverse, singularity (a non-zero vector in the kernel), associativity, and the uniqueness of inverses.
- `GaussJordan`: the in-place steps of `inverse`, working on the two buffers `tmp` and `result`:
  - pivot selection (`SelectPivot`);
  - row swap, row normalisation and elimination;
  - one column's reduction (`ReduceColumn`).

  The invariant it keeps (`EliminationInvariant`) holds for a ghost matrix `S`. It says:
  - `result · A == tmp`;
  - `S · tmp == A` and `S · result == I`;
  - columns `0 .. i-1` of `tmp` are unit vectors.

  From it follow `result · A == I` and `A · result == I` on success. On a zero pivot it follows that `A` is singular.
- `Tensors`: the class, its constructors and operations, and the free operators `+ - * /`.
- `Scenarios`: the library's own demonstration (examples/tensors.cpp), with every printed value pinned down, and the default-constructor finding.

Rounding is not modelled: `T` is `real`. Under exact arithmetic:

- the pivot, normalise and eliminate steps are exactly the row operations the code performs;
- `inverse` fails exactly when the matrix is singular.

A rank mismatch of the index tuple (src/common/tensor.hpp:30), a shape mismatch (lines 80, 86 and 92), a non-matrix operand or mismatched inner dimensions in `matmul` (lines 101 and 105) and a non-square `inverse` (line 130) all throw `std::invalid_argument`, so the model reports `InvalidArgument` for each.

## Model

| member | source | states |
|---|---|---|
| `Layout.StridesRecurrence` | src/common/tensor.hpp:17-25 | the stride table has one entry per dimension, the last stride is 1 and `strides[d] == strides[d+1] * shape[d+1]` |
| `Layout.StridesTail` | src/common/tensor.hpp:17-25 | the first stride is the product of the trailing dimensions, and dropping the first dimension drops the first stride |
| `Layout.ProductPair` | src/common/tensor.hpp:43-48 | a rank-2 shape `{r, c}` has `r * c` elements and strides `[c, 1]` |
| `Layout.OffsetBound` | src/common/tensor.hpp:27-38 | an in-bounds index tuple resolves to an offset `0 <= offset < product(shape)`, so the access of the call operator stays inside the buffer |
| `Layout.OffsetInjective` | src/common/tensor.hpp:27-38 | two in-bounds index tuples with the same offset are the same tuple |
| `Layout.OffsetSurjective` | src/common/tensor.hpp:27-38 | every offset below `product(shape)` is reached by some in-bounds index tuple |
| `Layout.OffsetSnoc` | src/common/tensor.hpp:32-37 | extending the tuple by one index adds `index * stride`, the running sum of the resolver's loop |
| `Layout.ProductSnoc` | src/common/tensor.hpp:44-45 | the running product over the dimensions, one dimension more |
| `Elementwise.AddThenSub` | src/common/tensor.hpp:79-89 | subtracting what `+=` added restores the elements |
| `Elementwise.SubThenAdd` | src/common/tensor.hpp:79-89 | adding what `-=` subtracted restores the elements |
| `Elementwise.AddCommutes` | src/common/tensor.hpp:186 | element-wise addition does not depend on the order of the operands |
| `Elementwise.HadamardCommutes` | src/common/tensor.hpp:91-96 | the Hadamard product does not depend on the order of the operands |
| `Elementwise.ScaleThenDivide` | src/common/tensor.hpp:175-184 | for a non-zero scalar, `/=` undoes `*=` and `*=` undoes `/=` |
| `Elementwise.DivideIsScale` | src/common/tensor.hpp:180-184 | dividing by `d` is scaling by `1 / d` |
| `Matrices.MatCell` | src/common/tensor.hpp:67-77 | entry `(i, j)` of the row-major view of a buffer is element `i * cols + j` |
| `Matrices.MatUpdate` | src/common/tensor.hpp:67-71 | writing element `i * cols + j` changes exactly entry `(i, j)` of the matrix view |
| `Matrices.MatInjective` | src/common/tensor.hpp:13-15 | two buffers with the same matrix view are equal |
| `Matrices.MatScale` | src/common/tensor.hpp:175-178 | scaling the buffer scales every entry of the matrix view |
| `Matrices.MatMulIdentityRight` | src/common/tensor.hpp:98-125 | `matmul(A, eye(n)) == A` for any `r x n` matrix `A` |
| `Matrices.MatMulIdentityLeft` | src/common/tensor.hpp:98-125 | `matmul(eye(n), A) == A` for any `n x c` matrix `A` |
| `Matrices.MatMulAssoc` | src/common/tensor.hpp:98-125 | the matrix product is associative |
| `Matrices.MatVecMatMul` | src/common/tensor.hpp:98-125 | applying a product to a vector is applying its factors in turn |
| `Matrices.InnerAssoc` | src/common/tensor.hpp:114-123 | the two orders of summing a double sum of row-times-column products agree |
| `Matrices.MatMulSwapRows` | src/common/tensor.hpp:148-153 | swapping two rows of `result` swaps the same rows of `result · A` |
| `Matrices.MatMulDivideRow` | src/common/tensor.hpp:155-159 | dividing a row of `result` divides the same row of `result · A` |
| `Matrices.MatMulSubtractRow` | src/common/tensor.hpp:161-169 | subtracting `factor` times row `i` from row `j` of `result` does the same to `result · A` |
| `Matrices.MatMulSwapBoth` | src/common/tensor.hpp:148-153 | a row swap of `tmp` is undone by the same column swap of a left factor |
| `Matrices.MatMulScaleBoth` | src/common/tensor.hpp:155-159 | dividing a row of `tmp` is undone by scaling the same column of a left factor |
| `Matrices.MatMulAddSubtract` | src/common/tensor.hpp:161-169 | subtracting a multiple of row `i` from row `j` of `tmp` is undone by adding the multiple of column `j` to column `i` of a left factor |
| `Matrices.InvertibleNotSingular` | src/common/tensor.hpp:127-173 | a matrix with a left inverse has no non-zero vector in its kernel |
| `Matrices.InverseUnique` | src/common/tensor.hpp:127-173 | a left inverse and a right inverse of the same matrix are equal |
| `Matrices.MatMulScaleLeft` | src/common/tensor.hpp:197-201 | scaling the left factor scales the product |
| `Matrices.MatMulScaleRight` | src/common/tensor.hpp:197-201 | scaling the right factor scales the product |
| `Matrices.ScaleByOne` | src/common/tensor.hpp:197-201 | scaling by 1 leaves a matrix unchanged |
| `GaussJordan.SelectPivot` | src/common/tensor.hpp:137-141 | the pivot row is in `i .. n-1`, its `abs(tmp(pivot, i))` is maximal, and no earlier row in that range reaches it (the strict `>` keeps the first maximum) |
| `GaussJordan.SwapStep` | src/common/tensor.hpp:148-153 | swapping rows `i` and `pivot` of both `tmp` and `result` keeps `result · A == tmp` and the reduced columns |
| `GaussJordan.DivideStep` | src/common/tensor.hpp:155-159 | dividing row `i` of both by the pivot keeps the invariant and makes `tmp(i, i) == 1` |
| `GaussJordan.SubtractStep` | src/common/tensor.hpp:161-169 | eliminating row `j != i` with `factor` keeps the invariant |
| `GaussJordan.SwapKeepsReduced` | src/common/tensor.hpp:148-153 | a swap among rows `i .. n-1` keeps columns `0 .. i-1` unit vectors |
| `GaussJordan.DivideKeepsReduced` | src/common/tensor.hpp:155-159 | normalising row `i` keeps columns `0 .. i-1` unit vectors |
| `GaussJordan.SubtractKeepsReduced` | src/common/tensor.hpp:161-169 | eliminating with row `i` keeps columns `0 .. i-1` unit vectors |
| `GaussJordan.FullyReduced` | src/common/tensor.hpp:170-172 | when all `n` columns are unit vectors, `tmp` is the identity |
| `GaussJordan.EliminationComplete` | src/common/tensor.hpp:170-172 | after the last column, `result · A == I` and `A · result == I` |
| `GaussJordan.ZeroPivotSingular` | src/common/tensor.hpp:143-146 | if column `i` of `tmp` is zero from row `i` down, `A` has a non-zero kernel vector |
| `GaussJordan.CancellingVector` | src/common/tensor.hpp:143-146 | with columns before `i` reduced and column `i` zero from row `i` down, `tmp` sends `e_i` minus column `i`'s upper part to zero |
| `GaussJordan.PivotZero` | src/common/tensor.hpp:143-146 | a zero at the maximal pivot means column `i` is zero from row `i` down, so `A` is singular |
| `GaussJordan.SwappedBuffer` | src/common/tensor.hpp:148-153 | exchanging two row segments of the buffer swaps two rows of the matrix view |
| `GaussJordan.DividedBuffer` | src/common/tensor.hpp:155-159 | dividing a row segment divides one row of the matrix view |
| `GaussJordan.SubtractedBuffer` | src/common/tensor.hpp:161-169 | subtracting a multiple of one row segment from another does the same to the matrix view |
| `GaussJordan.SwapRowsInPlace` | src/common/tensor.hpp:148-153 | the `k` loop that swaps rows `i` and `pivot` of `tmp` and `result` in place, run once per buffer |
| `GaussJordan.SwapSegments` | src/common/tensor.hpp:149-152 | the element-by-element exchange of two disjoint row segments of one buffer |
| `GaussJordan.DivideRowInPlace` | src/common/tensor.hpp:155-159 | the `k` loop dividing row `i` of `tmp` and `result` by the pivot value, run once per buffer |
| `GaussJordan.DivideSegment` | src/common/tensor.hpp:156-159 | the element-by-element division of one row segment |
| `GaussJordan.SubtractRowInPlace` | src/common/tensor.hpp:163-167 | the `k` loop subtracting `factor` times row `i` from row `j` of `tmp` and `result`, run once per buffer |
| `GaussJordan.SubtractSegment` | src/common/tensor.hpp:164-167 | the element-by-element subtraction of a multiple of one row segment from another |
| `GaussJordan.PivotRow` | src/common/tensor.hpp:148-159 | the swap (when `pivot != i`) followed by normalisation keeps the invariant and leaves `tmp(i, i) == 1`; each buffer becomes itself with row `pivot` brought up to row `i` and that row divided by the original `tmp(pivot, i)` |
| `GaussJordan.SwapPivot` | src/common/tensor.hpp:148-153 | the swap of row `i` with a later pivot row keeps the invariant and brings the pivot value to `(i, i)`; each buffer becomes itself with rows `i` and `pivot` exchanged |
| `GaussJordan.NormaliseRow` | src/common/tensor.hpp:155-159 | dividing row `i` of both buffers by the non-zero `tmp(i, i)` keeps the invariant and makes `tmp(i, i) == 1`; each buffer becomes itself with row `i` divided by the old `tmp(i, i)` |
| `GaussJordan.EliminateRow` | src/common/tensor.hpp:162-168 | for one row `j != i`, subtracting `tmp(j, i)` times row `i` clears `tmp(j, i)`, leaves the other rows of `tmp` as they were and keeps the invariant; each buffer becomes itself with `tmp(j, i)` times row `i` subtracted from row `j` |
| `GaussJordan.EliminateColumn` | src/common/tensor.hpp:161-169 | the `j` loop over all other rows keeps the invariant for one more column; each buffer becomes `ClearColumn`: row `i` unchanged and every other row `j` minus the original `tmp(j, i)` times row `i` |
| `GaussJordan.ReduceColumn` | src/common/tensor.hpp:137-169 | one step of the outer loop: it returns the first row at or below `i` where the absolute value of `tmp(row, i)` is largest, and fails exactly when that entry is zero, leaving both buffers as they were, with `A` singular; otherwise the invariant holds for columns `0 .. i`, and each buffer is the pivot row brought up, divided by the pivot and then cleared by `ClearColumn` |
| `Tensors.Tensor.ComputeStrides` | src/common/tensor.hpp:17-25 | the descending loop yields the row-major stride table (empty for an empty shape) |
| `Tensors.Tensor.ElementCount` | src/common/tensor.hpp:44-45 | the product loop yields `product(shape)` (1 for an empty shape) |
| `Tensors.Tensor.constructor` | src/common/tensor.hpp:43-48 | the shape constructor gives `product(shape)` elements, all zero, and row-major strides |
| `Tensors.Tensor.Init` | src/common/tensor.hpp:50-55 | the shape-and-data constructor, once the size check has passed, holds exactly the given data |
| `Tensors.Tensor.FromData` | src/common/tensor.hpp:50-55 | fails with `invalid_argument` exactly when the data length differs from `product(shape)`; otherwise it holds the shape and the data |
| `Tensors.Tensor.Default` | src/common/tensor.hpp:41 | the defaulted constructor has an empty shape, empty strides and no elements, which breaks the element-count invariant |
| `Tensors.Tensor.CopyOf` | src/common/tensor.hpp:135 | the copy has the same shape, strides and elements in a buffer of its own |
| `Tensors.Tensor.Eye` | src/common/tensor.hpp:61-65 | `eye(n)` has shape `{n, n}`, 1 on the diagonal and 0 elsewhere |
| `Tensors.Tensor.TotalSize` | src/common/tensor.hpp:58 | the element count is `product(shape)` for every tensor but the defaulted one |
| `Tensors.Tensor.Dimensions` | src/common/tensor.hpp:59 | the rank is the number of dimensions, and on every valid tensor it is also the number of strides |
| `Tensors.Tensor.FlatIndex` | src/common/tensor.hpp:27-38 | `invalid_argument` exactly on a rank mismatch; `out_of_range` exactly when some index is outside its dimension (a negative one included); otherwise the offset `Σ indices[d] * strides[d]`, inside the buffer |
| `Tensors.Tensor.At` | src/common/tensor.hpp:73-77 | the const call operator fails as the resolver does and otherwise reads the element at the offset, entry `(i, j)` for a matrix |
| `Tensors.Tensor.Entry` | src/common/tensor.hpp:73-77 | reading `(i, j)` of a matrix through the call operator, with `i` and `j` in range, gives entry `(i, j)` of its matrix view |
| `Tensors.Tensor.Put` | src/common/tensor.hpp:67-71 | assigning through the call operator fails as the resolver does with nothing changed, and otherwise changes exactly the element at the offset |
| `Tensors.Tensor.RankTwoOffset` | src/common/tensor.hpp:27-38 | for a matrix the offset of `(i, j)` is `i * shape[1] + j` |
| `Tensors.Tensor.AddAssign` | src/common/tensor.hpp:79-83 | fails with `invalid_argument` on a shape mismatch with nothing changed; otherwise every element becomes `old[k] + other[k]` |
| `Tensors.Tensor.SubAssign` | src/common/tensor.hpp:85-89 | fails with `invalid_argument` on a shape mismatch with nothing changed; otherwise every element becomes `old[k] - other[k]` |
| `Tensors.Tensor.Hadamard` | src/common/tensor.hpp:91-96 | fails with `invalid_argument` on a shape mismatch; otherwise a fresh tensor of the same shape with elements `a[k] * b[k]` |
| `Tensors.Tensor.MulAssign` | src/common/tensor.hpp:175-178 | every element is multiplied by the scalar |
| `Tensors.Tensor.DivAssign` | src/common/tensor.hpp:180-184 | fails with `domain_error` exactly on a zero scalar with nothing changed; otherwise every element is divided by it |
| `Tensors.Tensor.Matmul` | src/common/tensor.hpp:98-125 | fails with `invalid_argument` unless both are matrices with matching inner dimensions; otherwise shape `{rows, cols}` and entry `(i, j)` is `Σ_k lhs(i, k) * rhs(k, j)` |
| `Tensors.Tensor.ProductRow` | src/common/tensor.hpp:115-122 | the `j` loop fills row `i` of the product and leaves the rest as it was |
| `Tensors.Tensor.ProductEntry` | src/common/tensor.hpp:116-120 | the `k` loop accumulates row `i` of `lhs` times column `j` of `rhs` |
| `Tensors.Tensor.Inverse` | src/common/tensor.hpp:127-173 | `invalid_argument` exactly when not a square matrix; `runtime_error` exactly when the matrix is singular; otherwise a fresh matrix `R` with `R · A == I` and `A · R == I`, the receiver untouched |
| `Tensors.Plus` | src/common/tensor.hpp:186 | `lhs + rhs` fails as `+=` does; otherwise a fresh tensor with elements `lhs[k] + rhs[k]`, both operands unchanged |
| `Tensors.Minus` | src/common/tensor.hpp:187 | `lhs - rhs` fails as `-=` does; otherwise a fresh tensor with elements `lhs[k] - rhs[k]`, both operands unchanged |
| `Tensors.Times` | src/common/tensor.hpp:189 | `lhs * rhs` is the matrix product, with its failures |
| `Tensors.TimesEye` | src/common/tensor.hpp:189 | `A * eye(n)` is `A`, element for element |
| `Tensors.Over` | src/common/tensor.hpp:191 | `lhs / rhs` takes the inverse of `rhs` first (its failures come first), then the product; the result times `rhs` gives back `lhs` |
| `Tensors.Scaled` | src/common/tensor.hpp:193-194 | `t * s` and `s * t` are a fresh tensor with every element scaled |
| `Tensors.DividedBy` | src/common/tensor.hpp:195 | `t / s` fails with `domain_error` exactly on a zero scalar; otherwise a fresh tensor with every element divided |
| `Tensors.ScalarOver` | src/common/tensor.hpp:197-201 | `s / t` fails as `inverse` does; otherwise its product with `t`, on either side, is `s` times the identity |
| `Scenarios.StridesAndIndices` | src/common/tensor.hpp:17-38 | a `2 x 3 x 4` tensor has strides `[12, 4, 1]`; `(1, 2, 3)` resolves to 23; a rank mismatch, an index past its dimension and a negative index fail with the right kinds |
| `Scenarios.ExampleZ` | examples/tensors.cpp:9-31 | Z = zeros(2, 3) with `Z(0,1) = 5`, `Z(1,2) = 9` holds `[0, 5, 0, 0, 0, 9]`, has rank 2, shape `(2, 3)` and 6 elements |
| `Scenarios.ExampleOperands` | examples/tensors.cpp:7-8 | A and B hold the element lists they were built from, `[4, 7, 2, 6]` and `[1, 2, 3, 4]` |
| `Scenarios.ExampleEye` | examples/tensors.cpp:10 | I = eye(2) has shape `(2, 2)` and holds `[1, 0, 0, 1]` |
| `Scenarios.ExampleElementwise` | examples/tensors.cpp:20-25 | with A = `[[4,7],[2,6]]` and B = `[[1,2],[3,4]]`: `A + B`, `A - B`, `2A` and the Hadamard product |
| `Scenarios.ExampleProduct` | examples/tensors.cpp:24 | `A * B == [[25, 36], [20, 28]]` |
| `Scenarios.ExampleInverse` | examples/tensors.cpp:26 | `1 / A == [[0.6, -0.7], [-0.2, 0.4]]` |
| `Scenarios.ExampleInverseCheck` | examples/tensors.cpp:27 | `A * (1 / A)` is the identity |
| `Scenarios.ExampleInverseUnique` | examples/tensors.cpp:26 | the only matrix whose product with A is the identity is `[[0.6, -0.7], [-0.2, 0.4]]` |
| `Scenarios.DefaultScalarAccess` | src/common/tensor.hpp:41 | on a default-constructed tensor the empty index tuple resolves to offset 0 while the buffer has no elements |
| `Scenarios.IntendedDefault` | src/common/tensor.hpp:43-48 | a rank-0 tensor built by the shape constructor has one element, and offset 0 is inside it |

## Left out

- Floating-point rounding: the element type is `real`. The exact-zero pivot test and the pivot comparison are exact, so the success of `inverse` coincides with non-singularity, which rounding does not guarantee.
- `size_t` arithmetic is unbounded: the products of dimensions and strides cannot wrap around.
- Tensors.Tensor.FlatIndex: the index arguments are `int`. A negative argument is rejected as out of range, as its conversion to `size_t` makes it in the source, which holds as long as no dimension exceeds 2^63; the model does not represent that bound.
- The `Log::Error` calls before some of the throws write to the console and have no effect on the tensor; they are not modelled.
- The text of each exception's message is not modelled, only its kind.
- The stream operator `operator<<` (src/common/tensor.hpp:204-226) is output formatting and is not modelled.
- `shape()` returns the `shape` field directly; it has no separate member.
- The copy assignment operator is not modelled. Shape and strides are `const` in the model, and the buffer is only ever written in place. The copy constructor is `Tensors.Tensor.CopyOf`; the by-value parameters of the free operators are copies made with it.
- On a default-constructed tensor the model admits reading its size, rank and flat index, `*=` (`Tensors.Tensor.MulAssign`) and `/=` (`Tensors.Tensor.DivAssign`), which touch no shape information; every other operation requires the element-count invariant `Valid()`, which that tensor breaks; see the finding below.
- The `k` loops of the row swap, the normalisation and the elimination update `tmp` and `result` in one pass; the model runs the element loop once for `tmp` and then once for `result`. The two buffers are distinct, so the final contents are the same; the interleaving of the writes is not modelled.
- The call operator takes any number of arguments; the model passes them as one sequence of `int`.
- Inside `inverse` the model reads and writes `tmp` and `result` at `row * n + column` directly, where the source goes through the call operator and `get_flat_index`. Every index there is below `n`, so the resolver cannot throw, and `Tensors.Tensor.RankTwoOffset` proves that its offset for `(i, j)` is `i * n + j`.
- Complex numbers, vectors, function wrappers, the special-function catalogues and the distributions (src/common/complex.*, src/common/vector.*, src/common/function.hpp, src/analysis/, src/statistics/) are not part of this model.

## Findings

| source | as written | input that shows it | evidently intended | confidence | as-written member | corrected member |
|---|---|---|---|---|---|---|
| src/common/tensor.hpp:41 | `tensor() = default` leaves an empty shape and an empty buffer. An empty shape has one index tuple, the empty one, and the resolver accepts it with offset 0. So `t()` on a default tensor indexes element 0 of an empty buffer, which is undefined behaviour. | `tensor<> t; t();` | a rank-0 tensor holds one element, as the shape constructor gives for the shape `{}` | medium, not executed | `Scenarios.DefaultScalarAccess` | `Scenarios.IntendedDefault` |

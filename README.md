# nnfw matrix engine, modelled in Dafny

This project models the matrix engine of the `nnfw` crate. `NnfwMatrix` is a
dense matrix kept as a flat row-major buffer (`matrix`) plus its `rows` and
`cols` counts. Cell `(r, c)` lives at flat position `r * cols + c`. The
matrix is fed by `def`, a closed enum of 14 numeric alternatives that
`compact` converts to a number.

Files and modules:

- `def_type.dfy`, module `DefType`: the `def` enum as the datatype `Def`.
  Every integer alternative carries a range-constrained payload: `Int8` to
  `Int128`, `Uint8` to `Uint128`, and `ISize`/`USize` at 64 bits. The two
  float alternatives carry `real`s. `Lo`/`Hi` give each integer
  alternative's range.
- `row_major.dfy`, module `RowMajor`: flat positions (`Offset`) and the facts
  about them: in-bounds, injective, and every position is some cell's. It
  also holds `Filled` (`vec![x; n]`) and `Grid`, the two-dimensional view
  of a buffer (one sequence per row) that the element-wise and
  transposition lemmas are stated against.
- `matrix_spec.dfy`, module `MatrixSpec`: what each operation computes, as
  functions on buffers. `Cellwise` covers `+ - *`, `Quotient` covers
  `/ value`, `MatMul` (built on `RowColSum`, the left-to-right `k`
  accumulation) covers the product, `Dot` covers the dot product, and
  `Transposed` covers the transpose. The module also holds the
  properties proved about these functions.
- `nnfw_matrix.dfy`, module `Matrix`: the class `NnfwMatrix` with the
  fields `matrix: seq<real>`, `rows`, `cols`. `new` and `merge_ethernal`
  are constructors. `retrive`, `zero_mat`, `ones_mat` and `compact` are
  functions. The in-place operations are methods with `modifies` clauses,
  looping as the source does. The `ensures` of each arithmetic method
  (`add`, `subtract`, `hadamard`, `divide_scalar`, `matmul`,
  `dot_product`, `transpose`) ties the result to the matching
  `MatrixSpec` function of the old state, and gives the new shape.
  `reclaim` and `claim_matrix` state their new buffer through `Compact`,
  position by position. `Valid()` is the buffer-length invariant
  `|matrix| == rows * cols`.
- `demo.dfy`, module `Demo`: client code built only on the class
  contracts. It holds concrete examples on uniform matrices (the first
  step of the commented-out walk-through in `src/main.rs`, a subtraction
  and a product), an ingestion example, and transposing twice.

Each `assert_eq!`/`assert_ne!` panic and each implicit index panic in the
source becomes a `requires` clause. Arithmetic is on `real`.

## Model

| member | source | states |
|---|---|---|
| RowMajor.OffsetInBounds | src/matrix/_2d_array.rs:67-69 | a cell with `r < rows` and `c < cols` has flat position `r*cols + c < rows*cols` |
| RowMajor.OffsetInjective | src/matrix/_2d_array.rs:72-74 | two cells with columns below `cols` share a flat position only if they are the same cell, so a write at one cell's position touches no other cell |
| RowMajor.GridUpdate | src/matrix/_2d_array.rs:72-74 | writing flat position `r*cols + c` changes the two-dimensional view at `(r, c)` and nowhere else |
| Matrix.NnfwMatrix.constructor | src/matrix/_2d_array.rs:13-19 | `new(rows, cols, fill)`: the fields are the given `rows` and `cols`, and the buffer has `rows*cols` cells, all equal to `fill` |
| Matrix.NnfwMatrix.MergeEthernal | src/matrix/_2d_array.rs:33-36 | requires `len == rows*cols`; stores the buffer and the dimensions unchanged |
| Matrix.NnfwMatrix.Retrive | src/matrix/_2d_array.rs:67-69 | reads flat position `r*cols + c` without changing state, demanding only that this position exists in the buffer; under the length invariant, for `r < rows` and `c < cols` the value read is cell `(r, c)` of the two-dimensional view |
| Matrix.NnfwMatrix.Reclaim | src/matrix/_2d_array.rs:72-74 | the buffer gets `compact(value)` at `r*cols + c`; every other position, `rows`, `cols` and the length are unchanged; `retrive(r, c)` then returns `compact(value)`; inside the shape only grid cell `(r, c)` changes |
| Matrix.NnfwMatrix.ZeroMat | src/matrix/_2d_array.rs:89-91 | a buffer of `rows*cols` cells, all `0.0` |
| Matrix.NnfwMatrix.OnesMat | src/matrix/_2d_array.rs:94-96 | a buffer of `rows*cols` cells, all `1.0` |
| Matrix.NnfwMatrix.NeutralBuffers | src/matrix/_2d_array.rs:89-96 | adding the zero buffer and taking the Hadamard product with the ones buffer both leave a matrix's buffer as it was |
| Matrix.NnfwMatrix.Compact | src/matrix/_2d_array.rs:99-116 | total over all 14 alternatives; an 8-, 16- or 32-bit integer payload, and any wider one of magnitude at most `2^53`, becomes exactly its value; every integer payload becomes a whole number between its type's bounds, both included (non-negative for the unsigned ones); a float payload is kept |
| Matrix.NnfwMatrix.ClaimMatrix | src/matrix/_2d_array.rs:121-141 | requires the length invariant and `data.len() == rows*cols`; afterwards position `i` holds `compact(data[i])` for every `i`, so the old contents play no part; the shape is unchanged; cell `(r, c)` holds the conversion of `data[r*cols + c]` |
| Matrix.NnfwMatrix.Add | src/matrix/_operations.rs:7-14 | requires `another` to be a different matrix, the length invariant on both operands, equal `rows` and equal `cols`; afterwards `matrix[i] == old[i] + another[i]` for every `i`; the shape and `another` are unchanged |
| Matrix.NnfwMatrix.Subtract | src/matrix/_operations.rs:16-23 | requires `another` to be a different matrix, the length invariant on both operands, equal `rows` and equal `cols`; afterwards `matrix[i] == old[i] - another[i]` for every `i`; the shape and `another` are unchanged |
| Matrix.NnfwMatrix.Hadamard | src/matrix/_operations.rs:26-33 | requires `another` to be a different matrix, the length invariant on both operands, equal `rows` and equal `cols`; afterwards `matrix[i] == old[i] * another[i]` for every `i`; the shape and `another` are unchanged |
| Matrix.NnfwMatrix.DivideScalar | src/matrix/_operations.rs:36-42 | requires `value != 0`; afterwards every position holds `old[i] / value`; the shape is unchanged |
| Matrix.NnfwMatrix.Matmul | src/matrix/_operations.rs:46-73 | requires `another` to be a different matrix, `self.cols == another.rows` and the length invariant on both operands; afterwards `rows` is the old `rows`, `cols` is `another.cols` and the buffer is the product of the old buffer with `another`'s; `another` is unchanged |
| Matrix.NnfwMatrix.DotProduct | src/matrix/_operations.rs:75-94 | requires equal `rows`, equal `cols` and the length invariant on both operands; returns `Σ_i self[i] * another[i]`, changing neither operand |
| Matrix.NnfwMatrix.Transpose | src/matrix/_operations.rs:97-109 | requires the length invariant; afterwards the buffer is the transpose of the old one, and `rows` and `cols` are swapped |
| MatrixSpec.CellwiseGrid | src/matrix/_operations.rs:7-33 | combining two equally shaped flat buffers position by position combines the matrices cell by cell: grid cell `(r, c)` of the result is `a(r, c) op b(r, c)` |
| MatrixSpec.CellwiseCommutes | src/matrix/_operations.rs:26-33 | `add` and `hadamard` give the same buffer whichever operand comes first |
| MatrixSpec.QuotientGrid | src/matrix/_operations.rs:36-42 | dividing by a non-zero `value` divides each grid cell by `value` |
| MatrixSpec.QuotientByOne | src/matrix/_operations.rs:36-42 | dividing every element by `1.0` leaves the buffer unchanged, for every buffer including the empty one |
| MatrixSpec.MatMul | src/matrix/_operations.rs:55-58 | the product of a `rows x inner` and an `inner x p` buffer has `rows * p` cells |
| MatrixSpec.MatMulCell | src/matrix/_operations.rs:60-68 | cell `(r, c)` of the product, at `r*p + c`, is `Σ_{k < inner} a[r*inner + k] * b[k*p + c]` |
| MatrixSpec.RowColSumUniform | src/matrix/_operations.rs:62-65 | the `k` accumulation over buffers that hold only `x` and only `y` gives `n * x * y` after `n` steps |
| MatrixSpec.MatMulUniform | src/matrix/_operations.rs:56-68 | the product of uniform matrices of `x` and `y` with inner dimension `n` is the uniform matrix of `n * x * y` |
| MatrixSpec.DotSymmetric | src/matrix/_operations.rs:89-93 | the dot product is the same with the operands swapped |
| MatrixSpec.DotUniform | src/matrix/_operations.rs:89-93 | the dot product of two uniform buffers of length `n` is `n * x * y` |
| MatrixSpec.Transposed | src/matrix/_operations.rs:98 | the transposed buffer has the same length, `rows * cols == cols * rows` |
| MatrixSpec.TransposedCell | src/matrix/_operations.rs:100-104 | new position `c*rows + r` holds old position `r*cols + c`, for every `r < rows`, `c < cols` |
| MatrixSpec.TransposeIndexBijective | src/matrix/_operations.rs:100-104 | the index map `(r, c) -> c*rows + r` sends the cells into the buffer, and `j -> (j % rows, j / rows)` is its inverse on both sides, so the map is a bijection between cells and positions |
| MatrixSpec.TransposeStep | src/matrix/_operations.rs:100-104 | one step of the loop, copying cell `(r, c)` to `c*rows + r`, extends the copied cells by one and leaves the cells already copied in place |
| MatrixSpec.TransposedComplete | src/matrix/_operations.rs:98-104 | once every cell has been copied, the new buffer is the transpose |
| MatrixSpec.TransposedGrid | src/matrix/_operations.rs:100-104 | grid cell `(c, r)` of the transpose is grid cell `(r, c)` of the original |
| MatrixSpec.TransposeInvolution | src/matrix/_operations.rs:97-109 | transposing a `rows x cols` buffer and then the resulting `cols x rows` buffer restores the original buffer |
| MatrixSpec.TransposedUniform | src/matrix/_operations.rs:97-109 | transposing a uniform matrix leaves its buffer unchanged |
| Demo.AddExample | src/main.rs:49-57 | `new(4,5,3.3)` plus `new(4,5,5.7)` has every cell `9.0` |
| Demo.SubtractExample | src/matrix/_operations.rs:16-23 | `new(4,5,3.3)` minus `new(4,5,5.7)` has every cell `-2.4` |
| Demo.MatmulExample | src/matrix/_operations.rs:46-73 | `new(4,5,3.3)` times `new(5,5,4.5)` is 4 x 5 with every cell `3.3 * 4.5 * 5 = 74.25` |
| Demo.IngestionExample | src/matrix/_2d_array.rs:121-141 | claiming `[I2(1), I4(2), U16(3)]` into a 1 x 3 matrix gives the buffer `[1.0, 2.0, 3.0]` |
| Demo.TransposeTwice | src/matrix/_operations.rs:97-109 | calling `transpose` twice restores the buffer, `rows` and `cols` |

## Left out

- `input_matrix` (stdin parsing), `log_matrix` and `log` (console printing) are I/O and are not modelled.
- `src/logistic/_logistic_regression.rs` and the driver in `src/main.rs` (random data, training, printing) are not part of this model. Of the commented-out walk-through in `src/main.rs`, only its first step (the addition) appears, as `Demo.AddExample`. Its later steps work on the result of an addition followed by a subtraction, and this model does not claim that value for `f64`.
- Floating point: elements are `real`, so rounding, NaN, infinities and signed zero are not modelled. The values in `Demo` are exact in real arithmetic; the program's `f64` results can differ in the last digits (for example `3.3 - 5.7`).
- For the same reason no float-inexact identity is claimed, in particular that `add` followed by `subtract` restores the original.
- Matrix.NnfwMatrix.Compact: for payloads of the 64- and 128-bit alternatives (`i64`, `i128`, `u64`, `u128`, `isize`, `usize`) whose magnitude exceeds `2^53`, the contract does not state the exact result, because `as f64` rounds those to the nearest representable value. Payloads up to `2^53` in magnitude are stated exactly. For the larger ones it states only what rounding keeps: a whole number between the type's bounds, both included (`i64::MAX as f64` is `2^63`). The body itself uses the exact payload, since elements are reals. The `f32` payload is a real here, and its exact widening to `f64` is the identity.
- `usize` overflow of `rows * cols`, and of the flat index `r * cols + c` computed by `retrive` and `reclaim`, is not modelled. Debug builds panic and release builds wrap around. A wrapped index can land inside the buffer, and those calls are excluded by the `requires Offset(r, c, cols) < |matrix|` of the model. Dimensions and indices are unbounded `nat`s. `isize` and `usize` payloads are taken to be 64 bits wide.
- Panics are not modelled as error values. Every `assert_eq!`/`assert_ne!` and every out-of-range index is a precondition. The code has no typed errors (shape mismatch, division by zero, index out of bounds, invalid shape), only panics, so the model follows the code.
- Zero dimensions are allowed, as in the code: `new(0, c, x)` builds an empty matrix and does not fail.
- `retrive` and `reclaim` demand only what the code demands: that the flat position `r*cols + c` exists in the buffer. A column at or past `cols` therefore reaches into the following row, exactly as in the code. Bounds on `r` and `c` taken separately are not required.
- Aliasing: `add`, `subtract`, `hadamard` and `matmul` take `&mut self` and `&another`, so Rust's borrow rules guarantee `another` is a different matrix. The model states this as `another != this`.
- `Vec` ownership and reallocation are not modelled; the buffer is a `seq` value that the methods reassign.

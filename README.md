# Fixed-size column-major matrix, modelled in Dafny

This project models the `Matrix<ROWS, COLS>` type of `src/matrix.rs`: a
matrix whose dimensions are fixed, holding `ROWS * COLS` elements in one flat
buffer in **column-major** order, so that `(row, col)` lives in slot
`col * ROWS + row`. The model covers construction (`from_array`,
`from_slice`, `filled`, `empty`, `identity_elems`, `identity`, `Default`,
`from_cols`), column extraction (`cols`), checked and panicking element
access for reading and writing (`get`, `get_unsafe`, `get_mut`,
`get_mut_unsafe`, and the `Index`/`IndexMut` operators built on them),
equality, elementwise addition and subtraction, scalar multiplication, and
the triple-loop matrix product.

Layout of the project:

- `Wrappers.dfy` — the `Option` datatype used where Rust returns `Option`.
- `ColumnMajor.dfy` — the pure part: the private `index` helper, the value
  of a buffer at `(row, col)`, columns and their concatenation, the partial
  sums the product accumulates, and the lemmas about them (the linearization
  is a bijection, a write changes one entry only, columns and `from_cols`
  are inverse, the identity is neutral for the product).
- `FixedMatrix.dfy` — class `Matrix` with constant fields `rows`, `cols`
  and the buffer `elems: array<real>`. The Rust associated functions become
  static methods; loops of the source (`identity_elems`, `add`, `sub`,
  `cols`, `mul`) are loops here, proved against the functions of
  `ColumnMajor`. Six closing client methods (`MatrixArraySanity`,
  `MatrixArrayIndex`, `MatrixMul`, `MatrixSizeMul`, `MatrixScalarMul` and
  `FailurePaths`) replay the five tests of `src/lib.rs` and the two failure
  paths through the contracts.

Modelling choices:

- Elements are exact `real`s; `f64` rounding is not modelled.
- The const-generic dimensions are the fields `rows` and `cols`, and the
  static methods take them as parameters. The compile-time shape match of
  `+`, `-` and `==` and the shared inner dimension `A_COL_B_ROW` of the
  product become `requires` clauses.
- A panic (`bounds_panic`, or an `unwrap` the source argues is safe) is a
  precondition; the fallible paths (`from_slice`, `get`, `get_mut`) return
  `Option` or a `found` flag.
- A `&mut f64` handed out by `get_mut`, `get_mut_unsafe` or `index_mut` is
  modelled by the write made through it: `GetMut` and `GetMutUnsafe` take
  the value to store.
- Zero dimensions are allowed, as in the code: nothing assumes `rows >= 1`
  or `cols >= 1`.
- `Default` is the identity, as the code has it.
- The tests in `src/lib.rs` (lines 19-30, 33-46 and 49-64) read the buffer
  given to `from_array` row by row. The code stores it column by column,
  and the model follows the code: `MatrixArrayIndex` shows that
  `from_array([0.5, 10.0, 0.0, 2.0])` has `0.0` at `(0, 1)` and `10.0` at
  `(1, 0)`; `MatrixMul` shows that entry `(0, 0)` of the product in
  `matrix_mul` is `133.5`, not the expected `852.06`; and `MatrixSizeMul`
  shows that entry `(0, 0)` of the matrix-vector product in
  `matrix_size_mul` is `47.99`, not the expected `254.97`. The tests at lines 13-16 (empty is all
  zeros) and 66-78 (scalar multiply) agree with the code.

## Model

| member | source | states |
|---|---|---|
| `ColumnMajor.Index` | src/matrix.rs:121-129 | A slot exists exactly when `row < rows && col < cols`; it is below `rows * cols`, and dividing it by `rows` gives back `col` with remainder `row` (column-major order) |
| `ColumnMajor.IndexInjective` | src/matrix.rs:123-129 | Two in-bounds pairs with the same slot are the same pair |
| `ColumnMajor.IndexOnto` | src/matrix.rs:29-30 | Every slot `k < rows * cols` is the slot of `(k % rows, k / rows)`, so the layout is a bijection between pairs and slots |
| `ColumnMajor.EntriesDetermine` | src/matrix.rs:174-176 | Two buffers of one shape are equal exactly when they agree at every `(row, col)` |
| `ColumnMajor.UpdateEntry` | src/matrix.rs:115-119 | Storing `v` in the slot of `(row, col)` makes that entry `v` and leaves every other entry as it was |
| `ColumnMajor.Column` | src/matrix.rs:89-92 | The slice taken for column `c` lies inside the buffer and has `rows` elements |
| `ColumnMajor.ColumnsOf` | src/matrix.rs:83-95 | There are `cols` columns, each of `rows` elements |
| `ColumnMajor.ColumnEntry` | src/matrix.rs:88-93 | Element `r` of column `c` is the entry at `(r, c)` |
| `ColumnMajor.FlattenAt` | src/matrix.rs:74-79 | Concatenating `cols` columns of `rows` elements gives `rows * cols` elements whose `(r, c)` entry is `columns[c][r]` |
| `ColumnMajor.ColumnsRoundTrip` | src/matrix.rs:73-95 | Concatenating the columns of a buffer gives the buffer back: `from_cols` of `cols(m)` is `m` |
| `ColumnMajor.FlattenRoundTrip` | src/matrix.rs:73-95 | Taking the columns of concatenated columns gives those columns back: `cols` of `from_cols(cs)` is `cs` |
| `ColumnMajor.IdentityLeftPrefix` | src/matrix.rs:245-248 | With the identity on the left, the sum over the first `k` cells is `b[(row, col)]` once `k > row` and `0.0` before |
| `ColumnMajor.IdentityLeftNeutral` | src/matrix.rs:238-255 | The identity (the `Default` matrix) times `b` has every entry of `b` |
| `ColumnMajor.IdentityRightPrefix` | src/matrix.rs:245-248 | With the identity on the right, the sum over the first `k` cells is `a[(row, col)]` once `k > col` and `0.0` before |
| `ColumnMajor.IdentityRightNeutral` | src/matrix.rs:238-255 | `a` times the identity has every entry of `a` |
| `FixedMatrix.Matrix.FromArray` | src/matrix.rs:38-40 | A buffer of exactly `rows * cols` elements becomes the matrix's elements unchanged, in order |
| `FixedMatrix.Matrix.FromSlice` | src/matrix.rs:42-47 | Yields a matrix exactly when the slice has `rows * cols` elements, and then its elements are the slice in order |
| `FixedMatrix.Matrix.Filled` | src/matrix.rs:49-52 | Every element is the given value |
| `FixedMatrix.Matrix.Empty` | src/matrix.rs:54-57 | Every element is `0.0` |
| `FixedMatrix.Matrix.IdentityElems` | src/matrix.rs:59-66 | The entry at `(r, c)` is `e` when `r == c` (hence `r < min(rows, cols)`) and `0.0` otherwise |
| `FixedMatrix.Matrix.Identity` | src/matrix.rs:68-71 | `1.0` on the diagonal and `0.0` elsewhere |
| `FixedMatrix.Matrix.Default` | src/matrix.rs:137-145 | The default matrix is the identity |
| `FixedMatrix.Matrix.FromCols` | src/matrix.rs:73-79 | The elements are the columns concatenated, so the entry at `(r, c)` is `columns[c][r]` |
| `FixedMatrix.Matrix.Cols` | src/matrix.rs:81-95 | `cols` fresh `rows x 1` matrices with pairwise distinct buffers (independent values, as Rust's array of `Copy` matrices); column `c` holds slots `c * rows .. c * rows + rows`, so its element `r` is the entry at `(r, c)` |
| `FixedMatrix.Matrix.Get` | src/matrix.rs:97-101 | `None` exactly when out of bounds; otherwise the entry at `(row, col)` |
| `FixedMatrix.Matrix.GetUnsafe` | src/matrix.rs:103-107 | Defined only in bounds (the source panics otherwise) and reads the same slot as `Get` |
| `FixedMatrix.Matrix.GetMut` | src/matrix.rs:109-113 | Writing through the optional reference: succeeds exactly in bounds, then changes only the slot of `(row, col)`; out of bounds nothing changes |
| `FixedMatrix.Matrix.GetMutUnsafe` | src/matrix.rs:115-119 | Writing `v` at an in-bounds `(row, col)`: reading there gives `v` afterwards, and every other entry is unchanged |
| `FixedMatrix.Matrix.Equals` | src/matrix.rs:169-177 | Matrices of one shape are equal exactly when every `(row, col)` entry agrees |
| `FixedMatrix.Matrix.Add` | src/matrix.rs:179-193 | Same shape; every element is the sum of the two operands' elements in that slot |
| `FixedMatrix.Matrix.Sub` | src/matrix.rs:195-209 | Same shape; every element is the left element minus the right one in that slot |
| `FixedMatrix.Matrix.Scale` | src/matrix.rs:211-223 | Same shape; every element multiplied by the scalar |
| `FixedMatrix.Matrix.Mul` | src/matrix.rs:225-256 | An `A_ROW x A_COL_B_ROW` matrix times an `A_COL_B_ROW x B_COL` matrix is `A_ROW x B_COL`, and its `(row, col)` is the sum over `cell` of `self[(row, cell)] * rhs[(cell, col)]`; every access in the loops is in bounds |

## Left out

- `f64` semantics: rounding, NaN and signed zero. Elements are exact reals, so `Equals` is plain equality (in the source NaN is unequal to itself, src/matrix.rs:174-176).
- Properties the code does not claim and that fail for `f64` (associativity of the product, distributivity of scalar multiplication over addition) are not stated.
- The panic message of `bounds_panic` (src/matrix.rs:131-134): an out-of-bounds panicking access is a precondition violation.
- The `Index` and `IndexMut` trait implementations (src/matrix.rs:147-167) delegate to `get_unsafe` and `get_mut_unsafe`; they are the accesses `GetUnsafe` and `GetMutUnsafe` and have no separate members.
- References: `get` returns a value instead of `&f64`, and `get_mut`/`get_mut_unsafe` are modelled by the single write made through the `&mut f64` they return.
- Copy semantics: `Matrix` is a class whose buffer every operation allocates afresh. Each constructing method ensures its result's buffer is fresh, and `Cols` also ensures its columns' buffers are pairwise distinct, so a write to one matrix leaves the others unchanged. Rust's implicit copies of whole matrices are not modelled as separate operations.
- The client methods `MatrixArraySanity`, `MatrixArrayIndex`, `MatrixMul`, `MatrixSizeMul`, `MatrixScalarMul` and `FailurePaths` model the tests of `src/lib.rs` (lines 12-78) and the failure paths, not the matrix itself; they carry no contract of their own and have no row in the table. The tests' epsilon comparison is replaced by exact equality of reals.
- `usize` overflow of `col * ROWS + row`: an in-bounds slot is below `ROWS * COLS`, the length of an array that exists, so it cannot overflow; dimensions are unbounded naturals.
- The nightly const-generic machinery, the `Sized` where-clauses, the `Clone`/`Copy`/`Debug` derives and the type aliases `Matrix2` … `Vector4` (src/matrix.rs:1-31): dimensions are runtime fields and preconditions.
- The test helper `assert_eq_array_epsilon` (src/lib.rs:82-92) and the test harness itself.

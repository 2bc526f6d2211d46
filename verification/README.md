# matrix-cpp: flat dense matrices and compressed sparse rows, in Dafny

This project models the matrix core of matrix-cpp. That core has three parts:

- `FMatrix<T, n, m>` is a fixed n-by-m grid kept as one flat array `_fmat[n*m]`. It offers:
  - checked access (`at`, which throws `out_of_range`) and unchecked access;
  - an element-wise sum, both as a new matrix and into the matrix itself;
  - scaling by a scalar, both as a new matrix and in place;
  - the triple-loop matrix product;
  - equality.
- `CSRMatrix<n, m>` is the compressed-sparse-row form of a matrix. It keeps three stores:
  - `_row`, the n + 1 row boundaries;
  - `_vals`, the non-zero values;
  - `_cols`, their columns.

  The matrix can be built by one row-major scan of a dense matrix or of a literal list. It converts back to the dense form and transposes by scattering into a dense matrix and compressing again. It also scales its values in place or on a copy, multiplies with a dense matrix row window by row window, and compares its stores.
- `Iterative_Multiplier` is the triple-loop implementation of the `Multiplier` strategy.

Elements are mathematical integers. The classes keep their dimensions as constant fields. Each method is specified against a value-level function of its inputs, and the properties of those functions are proved as lemmas. The modules are:

- `Grid` (grid.dfy) defines the row-major flat grid: `Index(m, i, j) = i * m + j`, and `Cell`, which reads a position past the end as zero.
- `DenseSpec` (dense_spec.dfy) holds:
  - the index exactly as fmatrix.hpp writes it;
  - the element-wise sum, the scaling and the product of flat grids.
- `Fmatrix` (fmatrix.dfy) defines class `FMatrix`, over an `array<int>`.
- `Mmult` (mmult.dfy) defines class `IterativeMultiplier`.
- `CsrScan` (csr_scan.dfy) holds:
  - the CSR value `Csr(row, vals, cols)` and its well-formedness;
  - `At`, the lookup to_fmatrix amounts to, in which a later entry of a row overwrites an earlier one;
  - the construction scan `Compress` and its facts.
- `CsrSpec` (csr_spec.dfy) holds:
  - `Expand`, the dense form of a CSR;
  - the round trip;
  - scaling, the sparse-times-dense kernel and the transpose, each tied to the dense operation.
- `CsrMatrix` (csr_matrix.dfy) defines class `CSRMatrix`. `_row` is an `array<nat>`, and `_vals` and `_cols` are `seq` fields that the methods reassign.
- `CsrExamples` (csr_examples.dfy) works the sparse 4-by-5 grid of the construction tests through the scan to its three stores.

The two headers disagree with the tests on the storage stride. fmatrix.hpp indexes with `i * n + j`, using the row count, in `index` and in `operator[]`, and every access of csr_matrix.hpp goes through `operator[]`. The non-square CSR tests (tests/csr_matrix_tests.cpp:30-37, :78-87 and :136-148) rely on the row-major stride m, `i * m + j`. The model keeps the stride as written in `DenseSpec.IndexAsWritten` and proves where it fails. Everything else uses the row-major `Grid.Index`, which is the same as the written stride on square matrices (see Findings).

## Model

| member | source | states |
|---|---|---|
| Grid.IndexInGrid | include/fmatrix.hpp:78 | a cell (i, j) with i < n, j < m lies inside the n*m storage, and the position one past row i is the first of row i + 1 |
| Grid.IndexDivMod | include/fmatrix.hpp:112-116 | the flat position of (i, j) splits back into row i and column j by division and remainder by m |
| Grid.GridPosition | include/fmatrix.hpp:78 | every position x < n*m is the index of exactly the cell (x / m, x % m) |
| Grid.IndexRowMajor | include/fmatrix.hpp:112-116 | the corrected index maps the cells one-to-one onto [0, n*m), ordered row-major, as both directions of two if-and-only-ifs |
| Grid.EarlierRow | include/fmatrix.hpp:112-116 | every cell of an earlier row lies before every cell of a later row |
| Grid.SameCellsSameGrid | include/fmatrix.hpp:212-216 | two n*m grids with equal cells are equal as flat sequences |
| Grid.WriteCell | include/fmatrix.hpp:92-98 | writing the position of cell (i, j) changes that cell and no other cell |
| DenseSpec.IndexAsWrittenSquare | include/fmatrix.hpp:112-116 | on a square matrix the index as written, i * n + j, is the row-major index |
| DenseSpec.IndexAsWrittenSquareRowMajor | include/fmatrix.hpp:112-116 | on an n-by-n matrix the written index is one-to-one onto [0, n*n) in row-major order, as the 3x3 access tests expect |
| DenseSpec.IndexAsWrittenCollides | include/fmatrix.hpp:112-116 | with 2 <= n < m the written index sends the distinct cells (0, n) and (1, 0) to one position |
| DenseSpec.IndexAsWrittenOverruns | include/fmatrix.hpp:112-116 | with m < n the written index of the last cell (n-1, m-1) is at least n*m, past the storage, while the row-major one is inside |
| DenseSpec.SumCommutative | include/fmatrix.hpp:120-127 | the entry-wise sum is commutative |
| DenseSpec.SumAssociative | include/fmatrix.hpp:120-127 | the entry-wise sum is associative |
| DenseSpec.ProductCell | include/fmatrix.hpp:183-202 | cell (i, j) of the n-by-p product is the sum over k < m of A[i][k] * B[k][j] |
| Fmatrix.FMatrix.constructor | include/fmatrix.hpp:78 | a default-constructed matrix has all n*m entries zero |
| Fmatrix.FMatrix.FromList | include/fmatrix.hpp:78 | brace initialisation stores the list in row-major order, zero past its end |
| Fmatrix.FMatrix.At | include/fmatrix.hpp:83-98 | fails with OutOfRange exactly when i >= n or j >= m; otherwise yields the entry at the flat index of (i, j), which is cell (i, j) |
| Fmatrix.FMatrix.AtUnsafe | include/fmatrix.hpp:100-110 | for a valid cell, the unchecked lookup yields what At yields |
| Fmatrix.FMatrix.Put | include/fmatrix.hpp:92-98 | assignment through `at`: OutOfRange and no change off the grid; otherwise that one cell becomes v and every other cell keeps its value |
| Fmatrix.FMatrix.Add | include/fmatrix.hpp:120-127 | returns a new matrix holding the entry-wise sum; neither operand changes |
| Fmatrix.FMatrix.AddInto | include/fmatrix.hpp:135-140 | this becomes the old this plus the old rhs, entry by entry; rhs is unchanged unless it is this same storage |
| Fmatrix.FMatrix.MultInto | include/fmatrix.hpp:148-153 | every entry is multiplied by s in place |
| Fmatrix.FMatrix.Multiply | include/fmatrix.hpp:161-181 | returns a new matrix with result[k] = s * this[k]; this is unchanged |
| Fmatrix.FMatrix.MultiplyMatrix | include/fmatrix.hpp:183-202 | the new n-by-p matrix is the product, each cell accumulated from zero over the m inner positions |
| Fmatrix.FMatrix.Equals | include/fmatrix.hpp:212-216 | true exactly when every cell of the two matrices agrees |
| Fmatrix.EqualsReflexiveSymmetric | include/fmatrix.hpp:212-216 | equality is reflexive and symmetric |
| Mmult.IterativeMultiplier.Apply | include/mmult.hpp:27-50 | C is the n-by-p product of A and B, the same grid FMatrix.MultiplyMatrix builds; A and B are not modified |
| CsrScan.RowScanFacts | include/csr_matrix.hpp:74-83 | the entries the scan appends for a row have strictly increasing columns, and each is the non-zero cell of its column |
| CsrScan.ScanFacts | include/csr_matrix.hpp:72-85 | every appended entry is non-zero and has a column below m |
| CsrScan.ScanToSplit | include/csr_matrix.hpp:72-85 | the scan state at cell (i, j) is the scan of the rows above followed by row i up to column j |
| CsrScan.ScanPrefix | include/csr_matrix.hpp:72-85 | the scan only appends: an earlier state is a prefix of a later one |
| CsrScan.CompressRowEntries | include/csr_matrix.hpp:84 | the entries between the running counts after rows i - 1 and i are exactly row i's entries |
| CsrScan.CompressRow | include/csr_matrix.hpp:84 | the window [_row[i], _row[i+1]) of _vals and _cols holds row i's values and columns |
| CsrScan.CompressRowEntry | include/csr_matrix.hpp:72-85 | stored entry k in row i's window is entry k - _row[i] of row i's scan |
| CsrScan.CompressRowSorted | include/csr_matrix.hpp:74-83 | within each row the stored columns are strictly increasing |
| CsrScan.CompressRowMonotone | include/csr_matrix.hpp:59 | _row has n + 1 boundaries, _row[0] = 0, and _row is non-decreasing |
| CsrScan.CompressWellFormed | include/csr_matrix.hpp:64-89 | the scan builds a well-formed CSR with no stored zero: the boundaries are monotone from 0, _row[n] = \|_vals\| = \|_cols\|, the columns are below m and sorted per row |
| CsrScan.CompressEntries | include/csr_matrix.hpp:76-80 | _vals[k] = A[i][_cols[k]] and is non-zero for every k in [_row[i], _row[i+1]) |
| CsrScan.ScanIsFilter | include/csr_matrix.hpp:72-85 | the values appended on reaching cell (i, j) are the non-zero entries of the grid before that cell, in order |
| CsrScan.ScanStepVals | include/csr_matrix.hpp:74-81 | one step of the scan appends the cell's value exactly when it is non-zero, and moves to the next flat position |
| CsrScan.CompressNonZeros | include/csr_matrix.hpp:32 | _vals is the list of non-zero cells in row-major order, so nnz() = _row[n] counts the non-zero cells |
| CsrScan.LookupWindow | include/csr_matrix.hpp:124-130 | a lookup in row i sees only the entries of its window |
| CsrScan.LookupPrefix | include/csr_matrix.hpp:124-130 | entries stored after a window do not change a lookup in it |
| CsrScan.RowLookup | include/csr_matrix.hpp:74-83 | looking up column j among row i's scanned entries below column j2 gives the cell when j < j2, and zero otherwise |
| CsrScan.RowLookupAppend | include/csr_matrix.hpp:76-81 | after appending (x, col), a lookup of col finds x and a lookup of any other column is unchanged |
| CsrScan.CompressAt | include/csr_matrix.hpp:64-132 | converting the CSR built from a grid back gives every cell of the grid |
| CsrScan.ScatterStep | include/csr_matrix.hpp:124-130 | writing entry k at (i, _cols[k]) extends the partly filled dense grid by exactly that entry |
| CsrScan.ScatterTransposedStep | include/csr_matrix.hpp:139-145 | writing entry k at (_cols[k], i) extends the partly filled transposed grid by exactly that entry |
| CsrScan.RowScanCellwise | include/csr_matrix.hpp:74-83 | the scan of a row depends on the grid only through that row's cells |
| CsrScan.ScanCellwise | include/csr_matrix.hpp:72-85 | the scan of the rows above i depends only on their cells |
| CsrScan.CompressPadded | include/csr_matrix.hpp:91-117 | scanning a short literal builds the same CSR as scanning it padded with zeros to n*m entries |
| CsrScan.ListGuardAsWrittenOverreads | include/csr_matrix.hpp:104-110 | with a literal two or more entries short of n*m, every position from \|il\| + 1 to n*m - 1 is a cell of the grid that the scan as written reads past the end of the list, while the corrected scan reads it as zero |
| CsrScan.StorageEquality | include/csr_matrix.hpp:211-217 | for well-formed operands, comparing _vals, _cols and only _row[0..n) is equality of all three stores |
| CsrSpec.ExpandCell | include/csr_matrix.hpp:119-132 | cell (i, j) of the dense form is the CSR's lookup of (i, j) |
| CsrSpec.ExpandCells | include/csr_matrix.hpp:119-132 | any n*m grid whose every cell is the CSR's lookup is the dense form |
| CsrSpec.CompressRoundTrip | include/csr_matrix.hpp:64-132 | the dense form of the CSR built from a literal of up to n*m entries is the literal padded with zeros; for a full grid A it is A itself |
| CsrSpec.CompressInjective | include/csr_matrix.hpp:64-89 | two full grids build equal CSRs exactly when they are equal |
| CsrSpec.LookupScale | include/csr_matrix.hpp:151-159 | looking up in the scaled values gives s times the lookup |
| CsrSpec.ScaleWellFormed | include/csr_matrix.hpp:151-159 | scaling keeps _row, _cols and the number of entries, so well-formedness is kept |
| CsrSpec.AtScale | include/csr_matrix.hpp:151-159 | every cell of the scaled CSR is s times the cell |
| CsrSpec.ScaleExpand | include/csr_matrix.hpp:151-179 | the dense form of the scaled CSR is the scaled dense form |
| CsrSpec.RowScanScaled | include/csr_matrix.hpp:74-83 | for s != 0 the scan of a row of the scaled grid finds the same columns with every value multiplied by s |
| CsrSpec.ScanScaled | include/csr_matrix.hpp:72-85 | for s != 0 the whole scan of the scaled grid is the scan of the grid with every value multiplied by s |
| CsrSpec.ScaleCompress | include/csr_matrix.hpp:151-159 | for s != 0, mult_into(s) on the CSR built from a grid gives exactly the stores built from the scaled grid, as the `A *= 2; A == CSRMatrix(B)` test compares |
| CsrSpec.ScaleByZero | include/csr_matrix.hpp:151-159 | scaling by zero gives an all-zero dense form, keeps nnz(), and leaves explicit zeros stored |
| CsrSpec.LookupAbsent | include/csr_matrix.hpp:124-130 | a column not stored in a window looks up as zero |
| CsrSpec.LookupDotStep | include/csr_matrix.hpp:192-195 | adding an entry whose column is not yet in the row adds exactly its own product term |
| CsrSpec.RowDotAsLookupDot | include/csr_matrix.hpp:192-195 | with sorted columns below m, the sparse sum over the window equals the dense dot product of the row's lookups with column j |
| CsrSpec.DenseDotOfExpand | include/csr_matrix.hpp:181-200 | the dense dot product over row i of the dense form is the dot product of row i's lookups |
| CsrSpec.SparseDotMatchesDense | include/csr_matrix.hpp:181-200 | the sum of _vals[k] * B[_cols[k]][j] over row i's window is cell (i, j) of the dense product of to_fmatrix() and B |
| CsrSpec.TransposedCell | include/csr_matrix.hpp:134-148 | cell (j, i) of the transposed grid is cell (i, j) |
| CsrSpec.TransposedCells | include/csr_matrix.hpp:139-145 | an m-by-n grid whose cell (j, i) is the CSR's cell (i, j) is the transpose of the dense form |
| CsrSpec.TransposeExpand | include/csr_matrix.hpp:134-148 | the transpose is a well-formed, zero-free m-by-n CSR whose dense form is the transpose of the dense form |
| CsrSpec.TransposeAt | include/csr_matrix.hpp:134-148 | transpose().to_fmatrix()[j][i] == to_fmatrix()[i][j] for all i < n, j < m |
| CsrSpec.TransposeInvolution | include/csr_matrix.hpp:134-148 | transposing twice gives back the same dense form |
| CsrMatrix.CSRMatrix.RowWindow | include/csr_matrix.hpp:59-61 | on a valid matrix each row window lies inside _vals and _cols and holds columns below m |
| CsrMatrix.CSRMatrix.ScanResult | include/csr_matrix.hpp:84 | stores that hold the running counts and the appended entries of the scan are Compress of the grid, and are valid |
| CsrMatrix.CSRMatrix.constructor | include/csr_matrix.hpp:24 | the default matrix stores nothing, and its dense form is all zero |
| CsrMatrix.CSRMatrix.FromDense | include/csr_matrix.hpp:64-89 | the scan with its running counter row_index builds Compress(A), which is well-formed, and _vals is the non-zero cells of A in row-major order |
| CsrMatrix.CSRMatrix.FromList | include/csr_matrix.hpp:91-117 | the same scan over the literal, with positions past its end read as zero, builds Compress(il) |
| CsrMatrix.CSRMatrix.Copy | include/csr_matrix.hpp:25 | the copy has the same three stores, in a new row array |
| CsrMatrix.CSRMatrix.ToFMatrix | include/csr_matrix.hpp:119-132 | the returned dense matrix is the dense form of the stores |
| CsrMatrix.CSRMatrix.Nnz | include/csr_matrix.hpp:32 | nnz() is the last row boundary and the number of stored columns |
| CsrMatrix.CSRMatrix.Transpose | include/csr_matrix.hpp:134-148 | the result is the m-by-n CSR compressed from the scattered transpose, a valid matrix |
| CsrMatrix.CSRMatrix.MultInto | include/csr_matrix.hpp:151-164 | every stored value is multiplied by s in place; _row, _cols and nnz() are unchanged and the matrix stays valid |
| CsrMatrix.CSRMatrix.Multiply | include/csr_matrix.hpp:165-179 | the scaled matrix is built on a copy; this matrix is unchanged |
| CsrMatrix.CSRMatrix.RowTimesColumn | include/csr_matrix.hpp:191-195 | the inner loop's sum over row i's window is the dot product of row i of the dense form with column j of B |
| CsrMatrix.CSRMatrix.MultiplyDense | include/csr_matrix.hpp:181-207 | the n-by-p result is the dense product of to_fmatrix() and B |
| CsrMatrix.CSRMatrix.Equals | include/csr_matrix.hpp:211-217 | on valid operands, true exactly when the three stores are equal |
| CsrMatrix.CSRMatrix.NotEquals | include/csr_matrix.hpp:219-223 | true exactly when the stores differ |
| CsrExamples.ScanExample | tests/csr_matrix_tests.cpp:28-37 | on the test's sparse 4-by-5 grid the scan finds nothing in rows 0 and 2, (5, col 0) and (8, col 1) in row 1, and (2, col 2) and (6, col 4) in row 3 |
| CsrExamples.CompressExample | tests/csr_matrix_tests.cpp:28-37 | building a CSR from that grid fills `_row` with 0, 0, 2, 2, 4, `_vals` with 5, 8, 2, 6 and `_cols` with 0, 1, 2, 4 |

## Left out

- The `Multiplier` interface (include/mmult.hpp:19-25) is not modelled. Its one implementation is the class `IterativeMultiplier`, which callers name directly, so dispatch through the interface is not captured.
- The operator spellings `+`, `+=`, `*=`, `*`, `()` and the friend `scalar * matrix` are not modelled as members: each only forwards to the named operation that is modelled, so `2 * A == A * 2` is one call on both sides.
- `reserve` and `shrink_to_fit` affect only capacity, and iterators, `begin` and `end` are views of the same storage. Neither is modelled.
- `double` arithmetic is not modelled. The entries are exact integers, which are all the tests use.
- The 32-bit wrap-around of `unsigned` indices is not modelled. Dimensions and positions are unbounded naturals.
- The friend `operator*(FMatrix, CSRMatrix)` at include/csr_matrix.hpp:51-52 is declared but never defined, so nothing is modelled for it.
- csr_matrix.hpp names a two-parameter `FMatrix<n, m>` while fmatrix.hpp declares `FMatrix<T, n, m>`, so the headers do not compile together. The model uses the one `FMatrix` class over `int`.
- Fmatrix.FMatrix.At: uses the row-major index `i * m + j`, not the written `i * n + j` of `index` and `operator[]`; the two agree on square matrices (Findings, row 1).
- Fmatrix.FMatrix.AtUnsafe: uses the row-major index `i * m + j`, not the written `i * n + j` of `index` and `operator[]`; the two agree on square matrices (Findings, row 1).
- Fmatrix.FMatrix.MultiplyMatrix: uses the row-major index `i * m + j`, not the written `i * n + j` of `index` and `operator[]`; the two agree on square matrices (Findings, row 1).
- Mmult.IterativeMultiplier.Apply: uses the row-major index `i * m + j`, not the written `i * n + j` of `index` and `operator[]`; the two agree on square matrices (Findings, row 1).
- CsrMatrix.CSRMatrix.FromDense: uses the row-major index `i * m + j`, not the written `i * n + j` of `index` and `operator[]`; the two agree on square matrices (Findings, row 1).
- CsrMatrix.CSRMatrix.ToFMatrix: uses the row-major index `i * m + j`, not the written `i * n + j` of `index` and `operator[]`; the two agree on square matrices (Findings, row 1).
- CsrMatrix.CSRMatrix.Transpose: uses the row-major index `i * m + j`, not the written `i * n + j` of `index` and `operator[]`; the two agree on square matrices (Findings, row 1).
- CsrMatrix.CSRMatrix.MultiplyDense: uses the row-major index `i * m + j`, not the written `i * n + j` of `index` and `operator[]`; the two agree on square matrices (Findings, row 1).
- Fmatrix.FMatrix.Put: writes at the row-major index `i * m + j`, not the written `i * n + j` of `index`; on a non-square matrix `at(i, j) = v` as written can overwrite another cell (for 2-by-3, `at(1, 0)` and `at(0, 2)` share position 2), which the model's "every other cell keeps its value" does not capture (Findings, row 1).
- CsrMatrix.CSRMatrix.RowTimesColumn: reads `B[_cols[k]][j]` at the row-major index `_cols[k] * p + j` of the m-by-p matrix B, not at the stride m that `operator[]` of B uses as written; the two agree when m == p (Findings, row 1).
- CsrMatrix.CSRMatrix.FromList reads positions past the end of the list as zero. The code as written reads past the end of the list, which is undefined behaviour (Findings, row 2).

## Findings

| source | as written | input that shows it | evidently intended | confidence | as-written member | corrected member |
|---|---|---|---|---|---|---|
| include/fmatrix.hpp:112-116 | `index(i, j)` and `operator[]` use the stride n, the row count | FMatrix with n = 2, m = 3: cells (0, 2) and (1, 0) both map to position 2; with n = 3, m = 2 the cell (2, 1) maps to 7, past the 6 entries | row-major stride m, `i * m + j` | high (not executed) | DenseSpec.IndexAsWrittenCollides | Grid.IndexRowMajor |
| include/csr_matrix.hpp:104-110 | the guard `it != il.end()` tests for equality with the end, while `++it` runs for every cell | a 3-by-4 CSR built from the list {1, 2, 3, 4}: after position 4 the iterator passes the end and the guard lets positions 5 to 11 be read | positions at or past the end of the list read as zero | high (not executed) | CsrScan.ListGuardAsWrittenOverreads | CsrMatrix.CSRMatrix.FromList |

# FiPy's PETSc matrix wrapper, modelled in Dafny

This project models `fipy/matrices/petscMatrix.py`, FiPy's wrapper around a
PETSc sparse matrix. It covers the classes `_PETScMatrix`,
`_PETScMatrixFromShape`, `_PETScMeshMatrix`, `_PETScIdentityMatrix` and
`_PETScIdentityMeshMatrix`. The model proves what the wrapper's operations do
to the matrix they hold.

The project has five modules:

- `Outcomes` (`outcomes.dfy`): `Option`, `Result` and the error kinds. These are
  the Python exceptions the wrapper can raise (`AttributeError`, `TypeError`,
  `ValueError`, `IndexError`) and the two PETSc errors it can trigger: a size mismatch, and an
  operation that needs an assembled matrix.
- `Csr` (`csr.dfy`): `_ijv2csr`, the conversion of unordered (column, row,
  value) triplets into compressed-sparse-row arrays. It uses a stable
  `lexsort`, a left-side `searchsorted` binary search over the sorted rows, and
  a 32-bit cast of the index arrays written out as two's-complement
  wrap-around. The ownership range `(start, end)` is a parameter.
- `MatStore` (`mat_store.dfy`): the PETSc `Mat` as a value: its shape, a map of
  stored entries (a missing key reads as 0), and an `assembled` flag. It defines
  `setValuesCSR` in insert and add mode as row-by-row writes. It also defines
  the algebra the wrapper delegates to PETSc: `+`, `-`, scaling, `matMult`,
  `mult` and `multTranspose`.
- `PETScMatrices` (`petsc_matrix.dfy`): the wrapper itself, as the class
  `PETScMatrix`. Its fields are:
  - `matrix`, the wrapped `Mat`;
  - `held`, which turns false once `flush` has deleted `matrix`;
  - `mesh`, which is set only for a mesh matrix;
  - `numberOfVariables` and `numberOfEquations`;
  - `cache`.

  The five Python classes become one class with named constructors. Every
  operation that reads the matrix assembles it first, and every write leaves it
  unassembled. An operation that reaches the `matrix` of a wrapper whose
  `matrix` was deleted fails with `AttributeError`. The exceptions are the
  `== 0` fast paths of `+`, `-`, `+=` and `-=`: they return `self` without
  touching `matrix`, so they succeed even then.
- `PETScExamples` (`doctests.dfy`): the usage examples in the source's
  docstrings, as client code whose exact outcome is proved. These are the
  `put`/`addAt` tables, `putDiagonal`, the identities, `L + I`, `L + 0`, `L + 3`,
  `L * x`, `x * L`, `L1 * L2`, the CSR arrays of the `_test` example, and mesh
  sizing with `flush`. The value of `numerix.pi` is a parameter `pi`, and every
  expected value is exact: the float tolerance of `allclose` is not modelled.

Operands of `+`, `-` and `*` are numbers, 1-D numpy arrays, Python lists or
other wrappers. Python's truth tests `other == 0` and `other != 0` are modelled
per operand kind:
- On an array of more than one element they fail with `ValueError`.
- On an empty array both are false.
- A list or a wrapper never equals 0.

The vector branches follow the code as written:
- `self * v` builds both PETSc work vectors with `self._shape[1]` entries.
  `mult` then needs a square matrix, and a non-square one fails with a PETSc
  size error.
- `v * self` with an array `v` copies `v` into a vector of `_shape[1]` entries
  without assembling first. A wrong length is a `ValueError` from petsc4py's
  assignment into the PETSc vector; an
  unassembled matrix or a non-square one is a PETSc error.

## Model

| member | source | states |
|---|---|---|
| Csr.Int32 | fipy/matrices/petscMatrix.py:227 | `astype('int32')` yields a 32-bit value, and any value already in range is kept |
| Csr.Int32s | fipy/matrices/petscMatrix.py:227 | the array cast keeps the length, lands in 32-bit range, and is the identity on in-range arrays |
| Csr.LexsortSortsStably | fipy/matrices/petscMatrix.py:221 | `lexsort([i, j])` is a permutation of the positions ordered by row `j`, then column `i`, with equal pairs kept in input order |
| Csr.SortedRows | fipy/matrices/petscMatrix.py:221-223 | the rows `j[ix]` put in lexsort order are sorted |
| Csr.SearchSorted | fipy/matrices/petscMatrix.py:223-224 | left-side `searchsorted`: every element before the result is below `x`, and every element from it on is at least `x` |
| Csr.SearchSortedCounts | fipy/matrices/petscMatrix.py:223-224 | the search result is the number of elements below `x` |
| Csr.SortedRowsCountBelow | fipy/matrices/petscMatrix.py:221-224 | sorting does not change how many rows lie below a bound |
| Csr.Ijv2CsrPermutes | fipy/matrices/petscMatrix.py:221-227 | `cols` and `vals` are the input columns and values under the one lexsort permutation |
| Csr.RowPtrCounts | fipy/matrices/petscMatrix.py:219-224 | `row_ptr` has `end - start + 1` entries, entry k counts the triplets whose row is below `start + k`, and the entries never decrease |
| Csr.RowPtrDelimitsRow | fipy/matrices/petscMatrix.py:219-225 | sorted triplet p belongs to row `start + k` exactly when `row_ptr[k] <= p < row_ptr[k + 1]` |
| Csr.RowPtrEmptyRow | fipy/matrices/petscMatrix.py:219-224 | two consecutive row pointers are equal exactly when no triplet has that row |
| Csr.RowPtrSpansAll | fipy/matrices/petscMatrix.py:219-224 | when every row is owned, the pointers start at 0 and end at the number of triplets |
| MatStore.SetValuesIjvIsApply | fipy/matrices/petscMatrix.py:186 | `setValuesCSR(*_ijv2csr(id2, id1, vector))` writes the triplets `(id1[n], id2[n], vector[n])` one by one in lexsort order |
| MatStore.ApplyAddAt | fipy/matrices/petscMatrix.py:278-279 | in add mode each entry gains the sum of every value written to it |
| MatStore.ApplyInsertAt | fipy/matrices/petscMatrix.py:186 | in insert mode each entry holds the last value written to it, or its old value |
| MatStore.ApplyKeys | fipy/matrices/petscMatrix.py:186 | either mode stores exactly the old keys plus the keys written |
| MatStore.KeySumLexsort | fipy/matrices/petscMatrix.py:221-225 | reordering the triplets by lexsort does not change the sum added at any entry |
| MatStore.SortedWrites | fipy/matrices/petscMatrix.py:221-225 | the sorted triplets write (r, c) exactly when some input pair is (r, c) |
| MatStore.SetValuesIjvKeys | fipy/matrices/petscMatrix.py:175-186 | `put` and `addAt` store exactly the old keys and the pairs written, so entries stay inside the shape |
| MatStore.PutMeaning | fipy/matrices/petscMatrix.py:175-186 | with distinct pairs, `put` sets entry `(id1[n], id2[n])` to `vector[n]` and leaves every other entry unchanged |
| MatStore.AddAtMeaning | fipy/matrices/petscMatrix.py:266-279 | `addAt` adds every `vector[n]` onto entry `(id1[n], id2[n])`, duplicates within the call included |
| MatStore.Sum | fipy/matrices/petscMatrix.py:76 | the PETSc sum holds `a + b` at every entry and stores the keys of either operand |
| MatStore.Difference | fipy/matrices/petscMatrix.py:89 | the PETSc difference holds `a - b` at every entry |
| MatStore.Scaled | fipy/matrices/petscMatrix.py:146 | scaling by `x` multiplies every entry by `x` and keeps the stored keys |
| MatStore.Product | fipy/matrices/petscMatrix.py:142 | each entry of the product is the dot product of row r and column c |
| MatStore.MatVecIsProduct | fipy/matrices/petscMatrix.py:151 | `mult` of `x` is the matrix product with `x` taken as a one-column matrix |
| MatStore.MatVecTransposedIsProduct | fipy/matrices/petscMatrix.py:162 | `multTranspose` of `x` is the matrix product with `x` taken as a one-row matrix on the left |
| MatStore.Transposed | fipy/matrices/petscMatrix.py:162 | the transpose holds (c, r) at (r, c) |
| MatStore.IdentityEntries | fipy/matrices/petscMatrix.py:403-413 | the identity of size n holds 1 on the diagonal below n and 0 elsewhere, inside the shape |
| MatStore.AddMat | fipy/matrices/petscMatrix.py:76 | `self.matrix + other.matrix` succeeds exactly on equal shapes and is the entrywise sum, else a size error |
| MatStore.SubMat | fipy/matrices/petscMatrix.py:89 | `self.matrix - other.matrix` succeeds exactly on equal shapes and is the entrywise difference |
| MatStore.ScaleMat | fipy/matrices/petscMatrix.py:146 | `self.matrix * other` keeps the shape and scales every entry |
| MatStore.MatMult | fipy/matrices/petscMatrix.py:136-142 | `matMult` needs both operands assembled and conforming, and gives a rows(a)-by-cols(b) product |
| MatStore.Mult | fipy/matrices/petscMatrix.py:148-152 | `mult(x, y)` needs an assembled matrix, `x` of length cols and `y` of length rows, and computes `A x` |
| MatStore.MultTranspose | fipy/matrices/petscMatrix.py:158-163 | `multTranspose(x, y)` needs an assembled matrix, `x` of length rows and `y` of length cols, and computes `x A` |
| MatStore.AddMatCommutes | fipy/matrices/petscMatrix.py:78 | `__radd__ = __add__` is sound: the sum succeeds and agrees in either order |
| MatStore.SubMatUndoesAddMat | fipy/matrices/petscMatrix.py:47-89 | subtracting what was added restores every entry |
| MatStore.NegatedPlusIsSubtraction | fipy/matrices/petscMatrix.py:91-92 | `-A + B` agrees with `B - A` in outcome and at every entry |
| MatStore.MatMultIdentity | fipy/matrices/petscMatrix.py:142 | a matrix times the identity of its column count is itself |
| MatStore.MultIdentity | fipy/matrices/petscMatrix.py:151 | the identity applied to a vector of its size gives the vector |
| MatStore.MultTransposeIsMultOfTransposed | fipy/matrices/petscMatrix.py:156-163 | the left product `x * A` is `A` transposed applied to `x` |
| PETScMatrices.ZeroTestsAgree | fipy/matrices/petscMatrix.py:39 | `other == 0` and `other != 0` fail together with `ValueError`, and they are each other's negation except on an empty array |
| PETScMatrices.Combined | fipy/matrices/petscMatrix.py:71-89 | `+`/`-` past the zero test: `AttributeError` unless both wrappers hold a matrix, a size error on unequal shapes, else the entrywise sum or difference |
| PETScMatrices.VectorOutcome | fipy/matrices/petscMatrix.py:144-154 | `self * v`: `TypeError` unless `v` has `cols` elements, a size error for a non-square matrix, else `A v` |
| PETScMatrices.MulOutcome | fipy/matrices/petscMatrix.py:103-154 | `*` dispatch: a wrapper gives a rows-by-other.cols product (a mesh matrix only for mesh times mesh), a number gives the scaled matrix, a vector gives a vector of `rows` elements or `TypeError` |
| PETScMatrices.IdsTargets | fipy/matrices/petscMatrix.py:240-252 | the pairs `(arange(n), arange(n))` are exactly the diagonal positions below n |
| PETScMatrices.KeySumOfIds | fipy/matrices/petscMatrix.py:281-289 | `addAt` on `(arange(n), arange(n))` adds `v[r]` at (r, r) for r < n and nothing elsewhere |
| PETScMatrices.NumpyArrayIsDense | fipy/matrices/petscMatrix.py:291-296 | `take` over `indices(shape)` reshaped to the shape holds entry (i, j) at `[i][j]` |
| PETScMatrices.GridPosition | fipy/matrices/petscMatrix.py:294-296 | the flat position `i * cols + j` of the raveled grid lies in the grid and names row i, column j |
| PETScMatrices.PETScMatrix.constructor | fipy/matrices/petscMatrix.py:12-21 | `_PETScMatrix(matrix)` holds the given matrix and has no mesh |
| PETScMatrices.PETScMatrix.FromShape | fipy/matrices/petscMatrix.py:312-333 | a new empty, unassembled rows-by-cols matrix, or the given one as it is |
| PETScMatrices.PETScMatrix.MeshMatrix | fipy/matrices/petscMatrix.py:336-353 | a mesh matrix has `numberOfEquations * numberOfCells` rows and `numberOfVariables * numberOfCells` columns |
| PETScMatrices.PETScMatrix.Identity | fipy/matrices/petscMatrix.py:403-413 | `_PETScIdentityMatrix(size)` is size-by-size with 1 on the diagonal and 0 elsewhere |
| PETScMatrices.PETScMatrix.IdentityMesh | fipy/matrices/petscMatrix.py:416-427 | the identity of a mesh is the identity of its cell count, and not a mesh matrix |
| PETScMatrices.IjvError | fipy/matrices/petscMatrix.py:186-225 | `put` and `addAt` fail exactly when the matrix was deleted (`AttributeError`), the ids differ in length (`lexsort`'s `ValueError`) or the vector is shorter than the ids (`IndexError` at `v[ix]`) |
| PETScMatrices.PETScMatrix.Put | fipy/matrices/petscMatrix.py:175-186 | on those errors the matrix is unchanged; otherwise the new matrix is the insert-mode `setValuesCSR` of the triplets, and with distinct pairs each target holds its value and the rest is unchanged |
| PETScMatrices.PETScMatrix.AddAt | fipy/matrices/petscMatrix.py:266-279 | on the same errors the matrix is unchanged; otherwise every entry gains the sum of the values aimed at it |
| PETScMatrices.PETScMatrix.PutDiagonal | fipy/matrices/petscMatrix.py:229-252 | a scalar is written on all `rows` diagonal entries, a vector of length k on the first k; everything else is unchanged |
| PETScMatrices.PETScMatrix.AddAtDiagonal | fipy/matrices/petscMatrix.py:281-289 | as `PutDiagonal`, adding onto the diagonal instead of overwriting it |
| PETScMatrices.PETScMatrix.Take | fipy/matrices/petscMatrix.py:254-260 | assembles, then returns one value per positional pair of `zip(id1, id2)` |
| PETScMatrices.PETScMatrix.TakeDiagonal | fipy/matrices/petscMatrix.py:262-264 | returns entry (k, k) for every row k |
| PETScMatrices.PETScMatrix.NumpyArray | fipy/matrices/petscMatrix.py:291-296 | the dense array is rows-by-cols and holds entry (i, j) at `[i][j]` |
| PETScMatrices.PETScMatrix.AssembleBoth | fipy/matrices/petscMatrix.py:72-75 | assembles `self.matrix`, then `other.matrix`, failing with `AttributeError` at the first that is missing |
| PETScMatrices.PETScMatrix.Add | fipy/matrices/petscMatrix.py:47-78 | `self + 0` is `self`; otherwise a new wrapper holding the sum, or the error of `Combined` |
| PETScMatrices.PETScMatrix.Sub | fipy/matrices/petscMatrix.py:80-89 | `self - 0` is `self`; otherwise a new wrapper holding the difference, or the error of `Combined` |
| PETScMatrices.PETScMatrix.IAdd | fipy/matrices/petscMatrix.py:38-45 | `self += 0` changes nothing; otherwise `self.matrix` becomes the sum |
| PETScMatrices.PETScMatrix.ISub | fipy/matrices/petscMatrix.py:94-101 | `self -= 0` changes nothing; otherwise `self.matrix` becomes the difference |
| PETScMatrices.PETScMatrix.Mul | fipy/matrices/petscMatrix.py:103-154 | the result is what `MulOutcome` computes from the state before the call, and both operands end up assembled |
| PETScMatrices.PETScMatrix.MulVector | fipy/matrices/petscMatrix.py:144-154 | the vector branch delivers `VectorOutcome` |
| PETScMatrices.PETScMatrix.RMul | fipy/matrices/petscMatrix.py:156-165 | an array on the left gets `multTranspose` without assembling first, a wrong length being `ValueError`; anything else is `self * other` |
| PETScMatrices.PETScMatrix.RSub | fipy/matrices/petscMatrix.py:91-92 | `other - self` is `(self * -1) + other` in a new plain wrapper; the other operand's entries are unchanged, only assembled when it was added |
| PETScMatrices.PETScMatrix.Flush | fipy/matrices/petscMatrix.py:370-376 | a mesh matrix drops its matrix unless `cache` is set, and deleting a missing matrix is `AttributeError`; other wrappers have no `flush` |
| PETScExamples.CsrOfAddAtExample | fipy/matrices/petscMatrix.py:382-395 | `addAt((1., 0., 2.), (0, 2, 1), (1, 2, 0))` hands PETSc row pointers [0, 1, 2, 3], columns [1, 0, 2] and values [1, 2, 0] |
| PETScExamples.StoredTestExample | fipy/matrices/petscMatrix.py:382-395 | that `addAt` leaves exactly (0, 1) = 1, (1, 0) = 2 and an explicit (2, 2) = 0 stored, which row by row are the arrays `getValuesCSR` is expected to return |
| PETScExamples.PutExample | fipy/matrices/petscMatrix.py:179-184 | the `put` docstring's 3-by-3 table |
| PETScExamples.AddAtExample | fipy/matrices/petscMatrix.py:270-276 | the `addAt` docstring's table: 12.3 at (0, 0), 2.96 at (1, 2), 2.2 at (2, 2) |
| PETScExamples.PutDiagonalExample | fipy/matrices/petscMatrix.py:233-243 | after `[3, 10, pi]` then `[10, 3]` the diagonal is (10, 3, pi) |
| PETScExamples.IdentityExample | fipy/matrices/petscMatrix.py:406-409 | `_PETScIdentityMatrix(size=3)` prints as the 3-by-3 identity |
| PETScExamples.IdentityMeshExample | fipy/matrices/petscMatrix.py:419-425 | the identity of a three-cell mesh is the 3-by-3 identity |
| PETScExamples.AddIdentityExample | fipy/matrices/petscMatrix.py:51-56 | `L + I` adds one along the diagonal |
| PETScExamples.AddNumberExample | fipy/matrices/petscMatrix.py:58-66 | `L + 0` is `L` itself and `L + 3` is an `AttributeError` |
| PETScExamples.MulVectorExample | fipy/matrices/petscMatrix.py:120-130 | `L1 * (1, 2, 3)` is (29, 2 pi, 2.5) and `(1, 2, 3) * L1` is (7.5, 10 + 2 pi, 3) |
| PETScExamples.MatMulExample | fipy/matrices/petscMatrix.py:107-118 | `L1 * L2` is the table of the `__mul__` docstring |
| PETScExamples.MeshFlushExample | fipy/matrices/petscMatrix.py:348-376 | a 4-cell mesh matrix with 2 variables and 3 equations is 12-by-8; after `flush`, writing and flushing again fail |
| PETScExamples.CachedFlushExample | fipy/matrices/petscMatrix.py:370-376 | with `cache` set, `flush` keeps the matrix and it can still be written |
| PETScExamples.MeshProductExample | fipy/matrices/petscMatrix.py:355-364 | mesh times mesh is a mesh matrix on the left mesh, and mesh times a number is a plain matrix |
| PETScExamples.ShortVectorExample | fipy/matrices/petscMatrix.py:219-225 | `put` and `addAt` with fewer values than pairs raise `IndexError`, ids of unequal lengths raise `ValueError`, and the matrix is left as it was |

## Left out

- PETSc and MPI plumbing is not modelled: matrix creation, `setSizes`, `setType`, preallocation, `Vec().createMPI` and communicators. The model runs on one process: a matrix owns rows 0 .. rows-1. The CSR lemmas are stated for any ownership range.
- `bandwidth` and `sizeHint` are not modelled: they are computed but never reach PETSc.
- `__getitem__`, `copy`, `getCoupledClass`, `_range`, `matvec` and `exportMmf` are not modelled. `exportMmf` is file I/O. The others only forward to PETSc or to `__mul__`.
- Printing of matrices is not modelled. The examples compare the dense `numpyArray` instead.
- The `_test` doctest harness function at the end of the file is not modelled.
- Floating point is not modelled: values are exact reals, so `allclose` tolerances have no counterpart.
- `sparseMatrix._SparseMatrix` is not part of this model. The `-self` used by `__rsub__` comes from it and is modelled as `self * -1`.
- PETScMatrices.PETScMatrix.Put: the effect of one call naming the same (row, column) twice is modelled as PETSc's row-by-row writes in sorted order, the last write winning. Its meaning is proved only for distinct pairs, because PETSc's insert mode is not specified for duplicates.
- PETScMatrices.PETScMatrix.Put: when no error comes first, its precondition excludes indices outside the shape, because PETSc's handling of them is not visible. It also excludes more than 2^31 - 1 pairs, rows or columns, whose 32-bit cast would wrap.
- PETScMatrices.PETScMatrix.AddAt: the same exclusions as Put, for the same reasons.
- PETScMatrices.PETScMatrix.PutDiagonal: its precondition excludes a vector longer than the number of rows or columns, which would write outside the shape, and more than 2^31 - 1 rows or columns.
- PETScMatrices.PETScMatrix.AddAtDiagonal: the same exclusions as PutDiagonal.
- PETScMatrices.PETScMatrix.Take: its precondition excludes zipped pairs outside the shape, because PETSc's handling of them is not visible.
- PETScMatrices.PETScMatrix.TakeDiagonal: its precondition excludes a matrix with more rows than columns, whose pairs (k, k) would leave the shape.
- Operand: two-dimensional numpy arrays and numpy scalars are not modelled. An operand is a number, a 1-D array, a list or a wrapper.
- PETScMatrices.PETScMatrix.RMul: numpy's own broadcasting of `array * wrapper` is not modelled. That is numpy calling `__rmul__` once per element, as a comment in the source notes; the model follows `__rmul__` as written.

# nml::algmat — a verified model of the mll matrix engine

`nml::algmat` (mll/Algmat.h) is the two-dimensional matrix of doubles on which every
classifier of the mll library is built. This project models it in Dafny:

- a matrix is a value `Mat(rows, cols, data)` whose `data` is the row-major flat buffer
  (`Matrices.Matrix` requires `|data| == rows * cols`); element `(i, j)` lives at
  offset `i * cols + j`;
- elements are `real`, so every arithmetic fact (sums, products, the cofactor expansion
  of `det`) is exact;
- where the library stops the program with `assert`, the model returns a typed
  `Result` (`Err(EmptyMatrix)`, `Err(ShapeMismatch)`, `Err(IndexOutOfRange)`,
  `Err(InvalidInterval)`, `Err(DivisionByZero)`, `Err(NonSquareMatrix)`,
  `Err(SingularMatrix)`, `Err(IndivisibleReshape)`).

Modules, one per part of the class:

| module | file | what it holds |
|---|---|---|
| `Matrices` | matrix.dfy | the matrix value, the row-major layout, rows, columns, `Swapped` |
| `Structure` | structure.dfy | `to_algmat`, `append`, `submat`, `minor`, `reshape`, `t`, `swap` as values |
| `Reductions` | reductions.dfy | `count`, `min`, `max`, `argmin`, `argmax`, `sum` along an axis |
| `Sorting` | sorting.dfy | `sort` as a value: each line sorted and a permutation of itself |
| `Elementwise` | elementwise.dfy | the checks and results of `+=`, `-=`, `*=`, `/=` as values |
| `Algebra` | algebra.dfy | `values`, `zeros`, `ones`, `eyes`, `permut`, `dot`, `det`, `cof`, `inv`, `diag`, `uniq` |
| `InPlace` | inplace.dfy | class `Algmat` over an `array<real>`: indexed access, the compound operators, `swap`, `sort` |

The axis argument follows the library: `-1` is the whole matrix, `0` works per column
(vertically: one result per column, or rows stacked/selected), `1` per row
(horizontally). The compound operators are the only members of mll/Algmat.h with
bodies; they are modelled as loops over the buffer of `InPlace.Algmat`, each proved
against the value-level operation of `Elementwise`. `swap` and `sort` mutate the
receiver and are likewise methods of `InPlace.Algmat` proved against `Structure.Swap`
and `Sorting.Sort`. Every other member is declared only, and is modelled as a pure
function from its declared signature and its documented meaning. The library's default
arguments are kept as Dafny parameter defaults: `axis = 0` for `append`, `submat`,
`minor` and `swap`, `desc = false, axis = 0` for `sort` (a plain `sort()` orders each
column), and `axis = -1` for `count`, `min`, `max`, `argmin`, `argmax` and `sum`.

## Model

| member | source | states |
|---|---|---|
| Structure.ToAlgmat | mll/Algmat.h:16 | the vector becomes one row of `|v|` columns holding the vector in order |
| Structure.ToAlgmatRows | mll/Algmat.h:17 | succeeds iff `nrows > 0` divides the length; the result has `nrows` rows and keeps the buffer; otherwise `IndivisibleReshape` |
| Structure.AppendAll | mll/Algmat.h:18 | succeeds iff the axis is 0 or 1, the list is non-empty and all matrices agree in the other extent (else `IndexOutOfRange`, `EmptyMatrix`, `ShapeMismatch` in that order); the stacked extent is the sum of the inputs' extents, the other extent that of the first; vertically the buffer is the inputs' buffers one after the other, horizontally row i is the inputs' rows i one after the other |
| Structure.AppendPair | mll/Algmat.h:18-19 | appending a two-element list is the same as appending the second matrix to the first |
| Structure.Append | mll/Algmat.h:19 | succeeds iff the axis is 0 with equal column counts or 1 with equal row counts (a bad axis is `IndexOutOfRange`, a shape clash `ShapeMismatch`); the result is `StackRows(a, b)` (axis 0) or `StackCols(a, b)` (axis 1), so rows or columns add up and keep their contents |
| Structure.StackRows | mll/Algmat.h:147 | vappend: the rows of `a` followed by the rows of `b`, each unchanged |
| Structure.StackCols | mll/Algmat.h:148 | happend: the columns of `a` followed by the columns of `b`, each unchanged |
| Structure.StackColsRows | mll/Algmat.h:148 | happend read by rows: row i of the result is row i of `a` followed by row i of `b` |
| Structure.StackRowsData | mll/Algmat.h:147 | stacking rows concatenates the two row-major buffers |
| Structure.AppendThenSubmatFirst | mll/Algmat.h:19-21 | selecting rows `[0, a.rows)` of `a` appended with `b` gives back `a` |
| Structure.AppendThenSubmatSecond | mll/Algmat.h:19-21 | selecting the last `b.rows` rows of `a` appended with `b` gives back `b` |
| Structure.TransposeStackRows | mll/Algmat.h:19-24 | transposing a vertical append is the horizontal append of the transposes |
| Structure.Submat | mll/Algmat.h:20 | succeeds iff the axis is 0 or 1 and the index lies inside that extent; the result is that one row (1×cols) or column (rows×1); otherwise `IndexOutOfRange` |
| Structure.StrideCount | mll/Algmat.h:21 | the count of indices `bi, bi+ii, …` is exactly those below `ei`: all counted ones are below it, the next is not |
| Structure.SubmatRange | mll/Algmat.h:21 | succeeds iff the axis is 0 or 1, `ii >= 1` and `0 <= bi < ei <= extent` (a bad axis or window is `IndexOutOfRange`, a bad interval `InvalidInterval`); the k-th selected row (column) is row (column) `bi + k*ii` of the input, and exactly the strides below `ei` are taken |
| Structure.SubmatStrideExample | mll/Algmat.h:21 | `submat(1, 4, 2)` of a five-row matrix holds rows 1 and 3, in that order |
| Structure.SubmatIsUnitWindow | mll/Algmat.h:20-21 | `submat(idx, axis)` equals `submat(idx, idx+1, 1, axis)` |
| Structure.StrideCountBound | mll/Algmat.h:21 | a window of width `ei - bi` never yields more lines than its width |
| Structure.UnitStride | mll/Algmat.h:21 | with interval 1 every index of `[bi, ei)` is taken |
| Structure.DropRow | mll/Algmat.h:151 | vminor: one row fewer; row k of the result is row k of the input before `idx` and row k+1 from `idx` on |
| Structure.DropCol | mll/Algmat.h:152 | hminor: one column fewer; column k is column k before `idx` and column k+1 from `idx` on |
| Structure.Minor | mll/Algmat.h:22 | succeeds iff the axis is 0 or 1 and the index is inside that extent; that extent shrinks by one and the other is unchanged; otherwise `IndexOutOfRange` |
| Structure.MinorKeepsOtherRows | mll/Algmat.h:22 | every row other than `idx` survives `minor(idx, 0)` unchanged, in its original order |
| Structure.MinorKeepsOtherCols | mll/Algmat.h:22 | every column other than `idx` survives `minor(idx, 1)` unchanged, in its original order |
| Structure.Reshape | mll/Algmat.h:23 | succeeds iff `nrows > 0` divides the element count; the buffer is kept and the row count is `nrows`; otherwise `IndivisibleReshape` |
| Structure.ReshapeRoundTrip | mll/Algmat.h:23 | reshaping back to the original row count restores the matrix |
| Structure.Transpose | mll/Algmat.h:24 | extents exchanged; row i of `t()` is column i of the input |
| Structure.TransposeAt | mll/Algmat.h:24 | element `(i, j)` of `t()` is element `(j, i)` of the input |
| Structure.TransposeInvolution | mll/Algmat.h:24 | `t(t(A)) == A` |
| Structure.SwapRows | mll/Algmat.h:153 | vswap: rows `fi` and `ti` exchanged, every other row unchanged, shape kept |
| Structure.SwapCols | mll/Algmat.h:154 | hswap: columns `fi` and `ti` exchanged, every other column unchanged, shape kept |
| Structure.Swap | mll/Algmat.h:25 | succeeds iff the axis is 0 or 1 and both indices lie in that extent; exactly the two lines are exchanged; otherwise `IndexOutOfRange` |
| Structure.SwapTwice | mll/Algmat.h:25 | swapping the same two lines twice restores the matrix |
| Reductions.CountIsMultiplicity | mll/Algmat.h:27 | counting a value along a line gives its multiplicity in that line |
| Reductions.Count | mll/Algmat.h:27 | succeeds iff the axis is -1, 0 or 1; the result is 1×1, 1×cols or rows×1 and holds how often `val` occurs in the whole matrix, each column or each row |
| Reductions.MinSeq | mll/Algmat.h:28 | the minimum of a non-empty line is one of its elements and no element is smaller |
| Reductions.MaxSeq | mll/Algmat.h:29 | the maximum of a non-empty line is one of its elements and no element is larger |
| Reductions.Min | mll/Algmat.h:28 | succeeds iff the axis is valid and the matrix non-empty (else `IndexOutOfRange` / `EmptyMatrix`); each cell is the minimum of the whole buffer, its column or its row |
| Reductions.Max | mll/Algmat.h:29 | as `Min`, with the maximum |
| Reductions.ArgMinSeq | mll/Algmat.h:30 | the position returned holds a smallest element and every earlier element is strictly larger (first occurrence) |
| Reductions.ArgMaxSeq | mll/Algmat.h:31 | the position returned holds a largest element and every earlier element is strictly smaller (first occurrence) |
| Reductions.ArgMin | mll/Algmat.h:30 | same checks as `Min`; each cell is a whole number naming the first position of the minimum of the buffer (row-major offset), its column or its row |
| Reductions.ArgMax | mll/Algmat.h:31 | as `ArgMin`, with the first position of the maximum |
| Reductions.Sum | mll/Algmat.h:32 | succeeds iff the axis is -1, 0 or 1; the cells hold the sum of the whole buffer, of each column or of each row |
| Reductions.SumConcat | mll/Algmat.h:32 | the sum of two concatenated lines is the sum of their sums |
| Reductions.RowSumsTotal | mll/Algmat.h:164 | the row sums add up to the sum of the whole matrix |
| Reductions.ColSumsTotal | mll/Algmat.h:163 | the column sums add up to the sum of the whole matrix |
| Reductions.SumAxesAgree | mll/Algmat.h:32 | summing `sum(A, 0)` or `sum(A, 1)` once more gives `sum(A, -1)` |
| Sorting.SortSeq | mll/Algmat.h:26 | the sorted line is in ascending (descending) order and holds the same multiset of elements |
| Sorting.SortedUnique | mll/Algmat.h:26 | two ordered lines with the same elements are equal, so the sort result does not depend on the algorithm or tie-breaking |
| Sorting.SortRows | mll/Algmat.h:156 | hsort: every row replaced by its sorted copy, shape kept |
| Sorting.SortCols | mll/Algmat.h:155 | vsort: every column replaced by its sorted copy, shape kept |
| Sorting.SortAll | mll/Algmat.h:26 | sort with axis -1: the shape is kept and the buffer is the ordered permutation of the old buffer |
| Sorting.Sort | mll/Algmat.h:26 | succeeds iff the axis is -1, 0 or 1; shape kept; every column (0), every row (1) or the whole buffer (-1) is ordered and a permutation of what it was; otherwise `IndexOutOfRange` |
| Sorting.SortDefault | mll/Algmat.h:26 | with the default arguments (`desc = false`, `axis = 0`) every column is sorted ascending |
| Sorting.SortSingleRow | mll/Algmat.h:26 | sorting a one-row matrix gives the unique ordered arrangement of its elements |
| Sorting.SortRowExample | mll/Algmat.h:26 | `sort(false, 1)` of `[[3, 1, 2]]` is `[[1, 2, 3]]` |
| Elementwise.Add | mll/Algmat.h:57-73 | succeeds iff both operands are non-empty with equal extents (emptiness reported first); every element is the sum of the two old elements |
| Elementwise.Sub | mll/Algmat.h:74-90 | as `Add`, with the difference |
| Elementwise.Mul | mll/Algmat.h:91-107 | as `Add`, with the product |
| Elementwise.Div | mll/Algmat.h:108-128 | as `Add`, and additionally every divisor nonzero (else `DivisionByZero`); every element is the quotient |
| Elementwise.AddAt | mll/Algmat.h:67-70 | `+=` read at row i, column j adds the two cells there |
| Elementwise.SubUndoesAdd | mll/Algmat.h:57-90 | `(A += B) -= B` gives back A |
| Elementwise.AddUndoesSub | mll/Algmat.h:57-90 | `(A -= B) += B` gives back A |
| Elementwise.DivUndoesMul | mll/Algmat.h:91-128 | for a divisor with no zero element, `(A *= B) /= B` gives back A |
| Elementwise.MulUndoesDiv | mll/Algmat.h:91-128 | for a divisor with no zero element, `(A /= B) *= B` gives back A |
| Elementwise.AddCommutes | mll/Algmat.h:67-70 | the sum does not depend on the order of the operands |
| Elementwise.MulCommutes | mll/Algmat.h:101-104 | the product does not depend on the order of the operands |
| Algebra.Values | mll/Algmat.h:38 | every element of the rows×cols result is `val` |
| Algebra.Zeros | mll/Algmat.h:39 | every element of the rows×cols result is 0 |
| Algebra.Ones | mll/Algmat.h:40 | every element of the rows×cols result is 1 |
| Algebra.ValuesData | mll/Algmat.h:38 | every slot of the buffer of `values` holds `val` |
| Algebra.ZerosReductions | mll/Algmat.h:28-39 | the whole-matrix sum, max and min of a non-empty zero matrix are 0 |
| Algebra.Unit | mll/Algmat.h:41 | a unit line has the requested length |
| Algebra.Eyes | mll/Algmat.h:41 | a len×len matrix whose row i is the i-th unit line |
| Algebra.EyesAt | mll/Algmat.h:41 | element `(i, j)` of `eyes` is 1 on the diagonal and 0 elsewhere |
| Algebra.Permut | mll/Algmat.h:42 | succeeds iff both indices are in `[0, len)`; row i is the unit line of the swapped index; otherwise `IndexOutOfRange` |
| Algebra.PermutIsSwappedEyes | mll/Algmat.h:42 | `permut(len, i0, i1)` is `eyes(len)` with rows i0 and i1 exchanged |
| Algebra.PermutSameIsEyes | mll/Algmat.h:42 | `permut(len, i, i)` is `eyes(len)` |
| Algebra.InnerComm | mll/Algmat.h:44 | the inner product of two lines is symmetric |
| Algebra.InnerZero | mll/Algmat.h:44 | the inner product with a zero line is 0 |
| Algebra.InnerUnit | mll/Algmat.h:44 | the inner product of the q-th unit line with v picks `v[q]` |
| Algebra.Dot | mll/Algmat.h:44 | succeeds iff the left column count equals the right row count (else `ShapeMismatch`); the result is rows×cols and cell `(i, j)` is row i times column j |
| Algebra.DotUnitRow | mll/Algmat.h:44 | a unit row on the left selects a row of the right operand |
| Algebra.DotEyesLeft | mll/Algmat.h:41-44 | `eyes(rows).dot(A) == A` |
| Algebra.DotEyesRight | mll/Algmat.h:41-44 | `A.dot(eyes(cols)) == A` |
| Algebra.DotPermutSwapsRows | mll/Algmat.h:42-44 | multiplying by `permut(rows, i0, i1)` on the left exchanges rows i0 and i1 |
| Algebra.PermutSquared | mll/Algmat.h:42-44 | a permutation matrix is its own inverse |
| Algebra.MinorAt | mll/Algmat.h:166 | the minor at `(i, j)` has one row and one column fewer |
| Algebra.MinorAtCell | mll/Algmat.h:166 | the minor's cell `(r, c)` is the input's cell at the skipped-over indices |
| Algebra.IsSquared | mll/Algmat.h:165 | a matrix is square exactly when `t()` keeps its shape; a square matrix holds `rows * rows` elements |
| Algebra.Expansion | mll/Algmat.h:166 | the 0×0 matrix expands to 1 and a 1×1 matrix to its element; larger values are pinned by `Algebra.Expansion2` (`ad - bc`), `Algebra.EyesExpansion` (1 for `eyes`) and `Algebra.ZeroRowExpansion` (0 with a zero row) |
| Algebra.Det | mll/Algmat.h:47 | succeeds iff the matrix is square and non-empty; otherwise `NonSquareMatrix` or `EmptyMatrix` |
| Algebra.Det1 | mll/Algmat.h:47 | the determinant of a 1×1 matrix is its element |
| Algebra.Expansion2 | mll/Algmat.h:166 | the expansion of a 2×2 matrix is `ad - bc` |
| Algebra.Det2 | mll/Algmat.h:47 | the determinant of a 2×2 matrix is `ad - bc` |
| Algebra.Minor2 | mll/Algmat.h:166 | each 1×1 minor of a 2×2 matrix is the diagonally opposite element |
| Algebra.ExampleDet | mll/Algmat.h:47 | `det([[1, 2], [3, 4]]) == -2` |
| Algebra.EyesMinorDiagonal | mll/Algmat.h:166 | removing row i and column i of `eyes(n)` leaves `eyes(n-1)` |
| Algebra.EyesExpansion | mll/Algmat.h:166 | the expansion of `eyes(n)` is 1 |
| Algebra.DetEyes | mll/Algmat.h:41-47 | `det(eyes(len)) == 1` for every `len > 0` |
| Algebra.ExpandFromZeroHead | mll/Algmat.h:166 | a first row that is zero from column j on contributes nothing from there |
| Algebra.ZeroRowExpansion | mll/Algmat.h:166 | a square matrix with a zero row has expansion 0 |
| Algebra.ZeroRowTerms | mll/Algmat.h:166 | with a zero row below the first, every first-row term vanishes |
| Algebra.DetPermut2 | mll/Algmat.h:42-47 | `det(permut(2, 0, 1)) == -1` |
| Algebra.Cof | mll/Algmat.h:45 | succeeds iff square and non-empty; cell `(i, j)` is the signed expansion of the minor at `(i, j)` |
| Algebra.EyesMinorOffDiagonal | mll/Algmat.h:41-45 | an off-diagonal minor of `eyes(n)` has expansion 0 |
| Algebra.EyesCofactor | mll/Algmat.h:41-45 | the cofactors of `eyes(n)` are 1 on the diagonal and 0 elsewhere |
| Algebra.CofEyes | mll/Algmat.h:45 | `eyes(n).cof() == eyes(n)` |
| Algebra.Inv | mll/Algmat.h:46 | succeeds iff square, non-empty and of nonzero determinant (else `NonSquareMatrix`, `EmptyMatrix`, `SingularMatrix`); cell `(i, j)` is cofactor `(j, i)` over the determinant |
| Algebra.InvEyes | mll/Algmat.h:41-46 | `eyes(n).inv() == eyes(n)` |
| Algebra.Inv2 | mll/Algmat.h:46 | the inverse of a regular 2×2 matrix is `[[d, -b], [-c, a]] / (ad - bc)` |
| Algebra.Inv2Data | mll/Algmat.h:46 | the buffer of the inverse of a regular 2×2 matrix, in row-major order |
| Algebra.ExampleInv | mll/Algmat.h:46 | `inv([[1, 2], [3, 4]]) == [[-2, 1], [1.5, -0.5]]` |
| Algebra.Diag | mll/Algmat.h:37 | a square matrix gives the column of its diagonal; a single row or column gives the square matrix with it on the diagonal and 0 elsewhere; any other shape is `NonSquareMatrix` |
| Algebra.DiagRoundTrip | mll/Algmat.h:37 | for every column vector, `diag(diag(v)) == v` |
| Algebra.Distinct | mll/Algmat.h:43 | no value repeats and exactly the values of the input occur |
| Algebra.Uniq | mll/Algmat.h:43 | a single row with no repeated value, holding exactly the values of the matrix |
| InPlace.Algmat.constructor | mll/Algmat.h:135-137 | a fresh buffer holding a copy of the given matrix |
| InPlace.Algmat.Filled | mll/Algmat.h:134 | a fresh rows×cols buffer every element of which is `val` |
| InPlace.Algmat.Get | mll/Algmat.h:55 | succeeds iff the cell is inside the shape (else `IndexOutOfRange`); the value is element j of row i, equally element i of column j |
| InPlace.Algmat.GetFlat | mll/Algmat.h:53 | succeeds iff the linear index is inside the buffer; the value is the element at row `k / cols`, column `k % cols` |
| InPlace.Algmat.Set | mll/Algmat.h:56 | succeeds iff the cell is inside the shape; then exactly that cell changes, otherwise nothing does |
| InPlace.Algmat.Fill | mll/Algmat.h:52 | every element becomes `val`, the shape is kept |
| InPlace.Algmat.AddAssign | mll/Algmat.h:57-73 | returns `Elementwise.Add` of the old operands; on refusal no element is written; on success the receiver holds the result and `mat1` is unchanged (unless it is the receiver) |
| InPlace.Algmat.SubAssign | mll/Algmat.h:74-90 | as `AddAssign`, against `Elementwise.Sub` |
| InPlace.Algmat.MulAssign | mll/Algmat.h:91-107 | as `AddAssign`, against `Elementwise.Mul` |
| InPlace.Algmat.DivAssign | mll/Algmat.h:108-128 | as `AddAssign`, against `Elementwise.Div`; the zero-divisor check completes before any write, so a refusal leaves the receiver untouched |
| InPlace.Algmat.VSwap | mll/Algmat.h:153 | the receiver becomes `Structure.SwapRows` of its old value |
| InPlace.Algmat.HSwap | mll/Algmat.h:154 | the receiver becomes `Structure.SwapCols` of its old value |
| InPlace.Algmat.Swap | mll/Algmat.h:25 | succeeds exactly when `Structure.Swap` does and then holds its result; a refusal changes nothing |
| InPlace.Algmat.HSort | mll/Algmat.h:156 | the receiver becomes `Sorting.SortRows` of its old value |
| InPlace.Algmat.VSort | mll/Algmat.h:155 | the receiver becomes `Sorting.SortCols` of its old value |
| InPlace.Algmat.FlatSort | mll/Algmat.h:26 | the receiver becomes `Sorting.SortAll` of its old value: the whole buffer ordered, shape kept |
| InPlace.Algmat.Sort | mll/Algmat.h:26 | succeeds iff the axis is -1, 0 or 1 and then holds `Sorting.Sort` of the old value; a refusal changes nothing |

## Left out

- `mean`, `var`, `std` (mll/Algmat.h:33-35) and `almost` (mll/Algmat.h:36): they depend on floating-point division, square roots and rounding tolerance; elements here are exact reals.
- IEEE double behaviour in general (rounding, infinities, NaN): every element is a `real`.
- Algebra.Values, Algebra.Zeros, Algebra.Ones, Algebra.Eyes and Algebra.Permut take natural sizes where the library takes `int`; what the library does with a negative size is not modelled.
- The default constructor `algmat()` (mll/Algmat.h:132) and `algmat(sz)` (mll/Algmat.h:133): the initial contents of the base buffer are not part of this model; `Filled` covers a constructor with a known fill value.
- The writable flat-index operator `operator()(idx)` (mll/Algmat.h:54): it hands out a reference into the buffer; cell writes are modelled by `Set` with a row and a column.
- The copy-assignment operator (mll/Algmat.h:51) and `copyObject` (mll/Algmat.h:146): Dafny values already have the copy semantics they provide; the copy constructor is `InPlace.Algmat.constructor`.
- The base types `ndarray`, `ndmatrix`, `msize` and the `prop::get` properties: they are not part of this model; a matrix is a flat buffer with a row and a column count.
- The reference that the compound operators return: `InPlace.Algmat.AddAssign` and its siblings return the new value of the receiver instead.
- The `assert` aborts of the library: each becomes an `Err` result, and the receiver is left untouched.
- Program/Program.cpp: the console program, dataset loading and classifiers are not part of this model.
- Algebra.Det: the determinant of a general permutation matrix (-1 for a proper exchange) is proved only for `permut(2, 0, 1)`; the closed form `ad - bc` only for 2×2 matrices.
- Algebra.Inv: `A.dot(A.inv())` equal to `eyes` is not proved; what is proved is the adjugate-over-determinant definition, `inv(eyes(n)) == eyes(n)` and the explicit 2×2 inverse.
- Algebra.Uniq: the order of the distinct values is not stated, since the library leaves it open; the model keeps values in order of first occurrence.
- Structure.Minor: its contract gives the shape only; which rows and columns survive is stated by `Structure.MinorKeepsOtherRows` and `Structure.MinorKeepsOtherCols`.

Decisions where the header declares a member without a body:

- `sort` with axis -1 orders the whole row-major buffer and keeps the shape.
- `submat(bi, ei, ii, axis)` needs `ii >= 1` (else `InvalidInterval`) and a non-empty window `0 <= bi < ei <= extent` (else `IndexOutOfRange`).
- `append` of an empty list is refused with `EmptyMatrix`.
- The expansion of the 0×0 matrix (the minor of a 1×1 matrix, used by its cofactor) is 1; `det` itself refuses the empty matrix.
- `diag` of a square matrix extracts its diagonal as a column; `diag` of a single row or column builds the diagonal matrix.
- `argmin`/`argmax` with axis -1 report the row-major offset; ties go to the first occurrence.

# Matrix indexing model

A Dafny model of the `Matrix` class of `matrix.py`: a `rows` by `cols` matrix
built from a flat row-major list, the two conversions between `(row, col)`
coordinates and flat offsets, and the subscript operator `m[key]` with all
its key forms. A key is an integer, a slice or a list of integers. It is
given alone (rows only, every column kept) or as a pair `(row_key, col_key)`.
Python's list semantics are written out explicitly:

- negative subscripts count from the end;
- `slice.indices` supplies defaults, wraps and clamps bounds, and takes any
  nonzero step;
- a list comprehension evaluates left to right, and the first exception
  escapes.

Files:

- `wrappers.dfy`: the exceptions (`ValueError`, `IndexError`, `TypeError`)
  and `Result`/`Option`.
- `arith.dfy`: four small lemmas on multiplication and Euclidean division.
- `pylist.dfy`: the Python list primitives.
- `matrix.dfy`: the matrix, its constructor and the coordinate conversions.
- `indexing.dfy`: keys and `m[key]` as the source evaluates it (`GetItem`).
  It also holds a positional statement of the same behaviour (`Reference`)
  and the theorem that the two agree.
- `properties.dfy`: the consequences callers rely on: shapes, order and
  repetition, and when each exception is raised.
- `scenarios.dfy`: concrete uses on the 3 by 3 matrix of 1 to 9.
- `corrected.dfy`: the finding below.

`m[key]` returns a new matrix and never changes `m`: the model is purely
functional, so `GetItem` cannot modify its argument.

## Model

| member | source | states |
|---|---|---|
| Matrices.New | matrix.py:4-10 | ValueError exactly when the flat list does not hold `rows * cols` elements; otherwise a well-formed `rows` by `cols` matrix whose element `(i, j)` is the flat element at offset `i * cols + j` |
| Matrices.NewThenFlatten | matrix.py:4-10 | a successful construction keeps every input element, in order: flattening its rows gives back the flat list |
| Matrices.FlattenThenNew | matrix.py:4-10 | every well-formed matrix is what the constructor builds from its own row-major flattening |
| Matrices.Flatten | matrix.py:54-68 | the row-major comprehension `[item for row in g for item in row]` is empty exactly when every row is, and is at least as long as any row; its length and cell offsets are stated by `Matrices.FlattenRectangular` |
| Matrices.FlattenRectangular | matrix.py:10 | rows of equal width `w` flatten to `rows * w` elements, with cell `(r, c)` at offset `r * w + c` |
| Matrices.Chunk | matrix.py:10 | cutting the flat list into `rows` chunks of `cols` gives a rectangular grid with cell `(r, c)` equal to flat element `r * cols + c` |
| Matrices.RowColToIndex | matrix.py:13-16 | IndexError exactly when `r` or `c` is outside the matrix; otherwise an offset in `[0, rows * cols)` where the flattening holds cell `(r, c)` |
| Matrices.IndexToRowCol | matrix.py:18-21 | IndexError exactly when `i` is outside `[0, rows * cols)`; otherwise the coordinates of a cell whose offset is `i`, and the division never sees a zero column count |
| Matrices.RowColRoundTrip | matrix.py:13-21 | converting a cell to its offset and back gives the same cell |
| Matrices.IndexRoundTrip | matrix.py:13-21 | converting an offset to a cell and back gives the same offset |
| PyList.At | matrix.py:42 | a list subscript succeeds exactly for `-n <= k < n`, counts from the end for negative `k`, and raises IndexError otherwise |
| PyList.MapAll | matrix.py:46 | a comprehension succeeds exactly when every element does, keeps the length and order, and otherwise raises the first failing element's exception |
| PyList.Gather | matrix.py:46 | `[xs[k] for k in ks]` keeps the order and repeats of `ks`, and raises IndexError exactly when some entry is out of range |
| PyList.AdjustBound | matrix.py:44 | a given slice bound in range wraps like a subscript; one below `-n` becomes 0 (or -1 for a negative step) and one at or past `n` becomes `n` (or `n - 1`) |
| PyList.Indices | matrix.py:44 | a slice's normalised bounds: ValueError exactly for a zero step; otherwise the step defaults to 1, an omitted start is 0 (or `n - 1` for a negative step), an omitted stop `n` (or -1), a given bound is adjusted by `PyList.AdjustBound`, and the bounds lie in `[0, n]` (positive step) or `[-1, n - 1]` (negative step) |
| PyList.Range | matrix.py:44 | `range(lo, hi, step)` is the progression `lo + j * step`, strictly inside the bounds, strictly monotone, and stops only once it reaches `hi` |
| PyList.SliceIndices | matrix.py:44 | the positions a slice selects lie inside the list, ascending for a positive step and descending for a negative one; ValueError exactly for a zero step; which positions they are is stated by `PyList.PosStepSlice` and `PyList.NegStepSlice` |
| PyList.SliceOf | matrix.py:44-64 | `xs[start:stop:step]` is ValueError exactly for a zero step and otherwise the elements at the positions SliceIndices selects, in that order; `PyList.PosStepSlice` and `PyList.NegStepSlice` pin those positions |
| PyList.PosStepSlice | matrix.py:44 | with a positive step a slice selects exactly `range(lo, hi, step)` for its bounds clamped into `[0, n]`, an omitted start being 0 and an omitted stop `n` |
| PyList.NegStepSlice | matrix.py:44 | with a negative step a slice selects exactly `range(lo, hi, step)` for its bounds clamped into `[-1, n - 1]`, an omitted start being `n - 1` and an omitted stop -1 |
| PyList.UnitSliceIsSegment | matrix.py:44 | a step-1 slice is the contiguous segment between its clamped bounds, and empty when they cross |
| Indexing.SelectRows | matrix.py:41-48 | the selected rows are exactly the rows at the positions the row key designates, with that key's exception when it fails |
| Indexing.SelectColumns | matrix.py:50-59 | every matrix the column step builds is well-formed with one row per selected row, and a column key of another kind is TypeError; its results for each key kind are stated by the three `*ColumnAgrees` lemmas |
| Indexing.ProjectColumn | matrix.py:51 | `[row[c] for row in sel]` succeeds exactly when every row has column `c`, giving that column in row order, and IndexError otherwise |
| Indexing.SliceRows | matrix.py:53 | slicing every selected row raises ValueError for a zero step only when there is a row, and otherwise keeps one sliced row per row |
| Indexing.GatherRows | matrix.py:56 | gathering the listed columns from every row succeeds exactly when each row has them all, and IndexError otherwise |
| Indexing.ScalarColumnAgrees | matrix.py:50-51 | an integer column key gives the sub-matrix of the selected rows at that one column, IndexError when it is out of range, and an empty 0 by 1 matrix with no row |
| Indexing.SliceColumnAgrees | matrix.py:52-54 | a slice column key gives the sub-matrix at the slice's columns; with no row selected `sliced_cols[0]` raises IndexError |
| Indexing.ListColumnAgrees | matrix.py:55-57 | a list column key gives the sub-matrix at the listed columns, IndexError when one is out of range, and an empty matrix with no row |
| Indexing.OneKeyAgrees | matrix.py:61-68 | the single-key form rebuilds exactly the selected rows with all their columns, or raises the selection's exception |
| Indexing.GetItem | matrix.py:35-70 | every successful `m[key]` is a well-formed matrix, and a single key keeps all `cols` columns; its full behaviour is stated by `Indexing.GetItemMatchesReference` |
| Indexing.GetItemMatchesReference | matrix.py:35-70 | for every matrix and every subscript, `m[key]` as evaluated equals the positional statement: the same matrix or the same exception |
| IndexingFacts.ResultIsValid | matrix.py:35-70 | every successful `m[key]` is a well-formed matrix, so the constructor's ValueError for a wrong length never fires inside it |
| IndexingFacts.ValueErrorOnlyFromZeroStep | matrix.py:35-70 | ValueError is raised exactly when a zero-step slice is applied: a single key, the row key, or the column key once some row was selected |
| IndexingFacts.TypeErrorCases | matrix.py:38-70 | TypeError exactly for a single key of another kind, a tuple not of length 2, or a row or (after a resolved row key) column key of another kind |
| IndexingFacts.ScalarColumnShape | matrix.py:50-51 | `m[rk, c]` has one column and one row per selected row holding that row's element `c`; IndexError when `c` is out of range and a row was selected |
| IndexingFacts.SliceColumnShape | matrix.py:52-54 | `m[rk, a:b:st]` has one row per selected row and `len(range(cols)[a:b:st])` columns, each row sliced the same way; IndexError with no row, ValueError for a zero step |
| IndexingFacts.ListRowsKeepOrder | matrix.py:66-68 | `m[rs]` succeeds exactly when every entry is in range, otherwise IndexError, and has one row per entry in the order given with repeats kept |
| IndexingFacts.ListKeysKeepOrder | matrix.py:45-57 | `m[rs, cs]` has cell `(i, j)` equal to cell `(rs[i], cs[j])` of `m`, and succeeds exactly when the rows are in range and, if any row was selected, the columns are too |
| IndexingFacts.OneKeyShape | matrix.py:61-68 | a single key keeps every column: an integer gives one row, a slice `len(data[k])` rows and a list one row per entry, and the flattening is that of the selected rows |
| IndexingFacts.CellIsOneByOne | matrix.py:41-51 | two integer keys give the 1 by 1 matrix of that cell, or IndexError when either is out of range |
| IndexingFacts.UnitSliceRows | matrix.py:63-65 | `m[a:b]` with `0 <= a <= b <= rows` is the run of rows `a` to `b - 1` |
| Scenarios.ConstructNine | matrix.py:4-10 | nine values build the 3 by 3 matrix row by row; eight values raise ValueError |
| Scenarios.ListRowsScalarColumn | matrix.py:45-51 | `m[[0, 2], 1]` equals `Matrix(2, 1, [2, 8])` |
| Scenarios.SliceRowsSliceColumns | matrix.py:43-54 | `m[0:2, 0:2]` equals `Matrix(2, 2, [1, 2, 4, 5])` |
| Scenarios.RepeatedRows | matrix.py:66-68 | `m[[2, 0, 2]]` repeats row 2 around row 0 |
| Scenarios.EveryOtherReversed | matrix.py:44 | `[0, 1, 2, 3, 4][::-2]` is `[4, 2, 0]` |
| Scenarios.ScalarRowBounds | matrix.py:61-62 | `m[10]` raises IndexError on three rows; `m[-1]` is the last row |
| Corrected.EmptyRowsFullColumns | matrix.py:52-54 | as written, `m[[], :]` raises IndexError while `m[[]]` is the empty 0 by `cols` matrix |
| Corrected.FixedAgreesOnSelection | matrix.py:35-59 | once some row is selected, the corrected evaluation equals the original one |
| Corrected.FixedEmptySelection | matrix.py:52-54 | corrected: with no row selected, a slice column key gives an empty matrix with `len(range(cols)[slice])` columns, or ValueError for a zero step |
| Corrected.FixedFullColumnsIsOneKey | matrix.py:35-68 | corrected: `m[k, :]` equals `m[k]` for every row key `k` |

## Left out

- `__str__` (matrix.py:23-33) is not modelled: it only formats text.
- The `Tensor` base class (matrix.py:1, 11) is not part of this model. The matrix keeps its own `rows`, `cols` and `data`.
- `rows` and `cols` are natural numbers. Python would also accept negative values whose product matches the list length. The model leaves them out.
- Keys are integers, slices, lists of integers, or "another kind" (`Other`). Not modelled: Python's `bool` counting as an `int`; list entries that are slices, which select sub-lists of rows at matrix.py:46 and 67; list entries that are neither integers nor slices, which raise TypeError there.
- Slice bounds and steps are integers or omitted. Other objects with an `__index__` method are not modelled.
- Element types are left abstract (`T`); nothing depends on them.
- Mutation is not modelled: the model is immutable, and `m[key]` returns a new matrix.
- `divmod` in `conv_i2rc` only ever sees a non-negative dividend and a positive divisor. There Python's floor division and Dafny's Euclidean division agree.

## Findings

| source | as written | input that shows it | evidently intended | confidence | as-written member | corrected member |
|---|---|---|---|---|---|---|
| matrix.py:52-54 | the column count of a slice column key is `len(sliced_cols[0])`, which raises IndexError when the row key selects no row | `m[[], :]` on any matrix raises IndexError, while `m[[]]` returns an empty 0 by `cols` matrix | the column count is the slice's length on `cols` columns, so `m[k, :]` equals `m[k]` for every `k` | medium, not executed | Corrected.EmptyRowsFullColumns | Corrected.FixedFullColumnsIsOneKey |

`Indexing.GetItem` keeps the behaviour as written, and the properties in
`properties.dfy` are about it. `Corrected.GetItemFixed` takes the column
count from `range(cols)[slice]`. It agrees with `GetItem` whenever some row
is selected.

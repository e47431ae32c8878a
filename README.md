# Binarize: threshold recoding of mlpack matrices

This project models `mlpack::data::Binarize`, mlpack's utility that recodes
the entries of a matrix against a threshold: an entry strictly greater than
the threshold becomes 1, an entry less than or equal to it becomes 0. mlpack
stores one data point per column, so a row is one *dimension* (feature). The
four overloads are:

- `Binarize(input, threshold, dimension)`: recodes row `dimension` of `input` in place;
- `Binarize(input, threshold)`: recodes every entry of `input` in place;
- `Binarize(input, output, threshold)`: gives `output` the shape of `input` and writes the recoded entries into it;
- `Binarize(input, output, threshold, dimension)`: documented to leave in `output` a copy of `input` with row `dimension` recoded.

Matrices are `array2<real>` indexed (row, column), as `arma::Mat` is, and
both the entries and the threshold are `real`: the source compares every
entry with a `double` threshold and nothing else. `Matrices.Cells` gives the
contents of an array as a value (`seq<seq<real>>`). Each overload is a method
that works on the array as the source's loops do, and its `ensures` ties the
final contents to a specification function on values:

- `Binarize.Recode` is the one-entry rule (1 strictly above the threshold, 0 otherwise, so the threshold itself gives 0);
- `Binarize.RecodeRow` is "row `dimension` recoded, every other row and the shape unchanged";
- `Binarize.RecodeAll` is "every entry recoded, the shape unchanged".

Lemmas relate these: recoding the whole matrix equals recoding each dimension
in turn, and recoding two different dimensions commutes.

The whole-matrix overloads loop `i` over the columns and `j` over the rows but
write cell `(i, j)`, that is row `i` and column `j`
(`src/mlpack/core/data/binarize.hpp:69-73`, `:107-111`). `TransposedWrites`
counts how often those loops write each cell. The lemmas prove that they
write each transposed position exactly once. They stay inside the matrix
exactly when it is square or has no cells, and then every cell is written
exactly once. The as-written methods take this as a precondition. The
corrected methods swap the index pair and work on every shape.

Line 147 of `binarize.hpp`, `output(input);`, does not assign `input` to
`output`. Taken as written, `output` keeps its own shape and contents, and
only row `dimension` receives new values, in its first `n_cols` entries.
The documentation at lines 119-139 says `output` receives the whole of
`input` with that row recoded. The model keeps both: the as-written method
and the documented one, plus a lemma that says exactly when the two agree.

## Model

| member | source | states |
|---|---|---|
| `Binarize.Recode` | src/mlpack/core/data/binarize.hpp:41-44 | the result is 1 exactly when the entry is strictly greater than the threshold and 0 exactly when it is less than or equal to it, so an entry equal to the threshold becomes 0 and every written value is 0 or 1 |
| `Binarize.RecodeSeq` | src/mlpack/core/data/binarize.hpp:39-45 | the recoded row has the row's length and holds, at every column, the recoding of the entry in that column |
| `Binarize.RecodeRow` | src/mlpack/core/data/binarize.hpp:15-18 | row `dimension` is recoded entry by entry, every other row is unchanged, and the number of rows and the row's length are unchanged; defined only for `dimension` below the row count |
| `Binarize.RecodeAll` | src/mlpack/core/data/binarize.hpp:48-51 | every entry of every row is recoded, and the number of rows and each row's length are unchanged |
| `Binarize.RecodeRowsBelowRows` | src/mlpack/core/data/binarize.hpp:34-46 | applying the per-dimension rule to dimensions 0 .. k-1 in turn recodes exactly those rows and leaves the rows from k on as they were |
| `Binarize.RecodeAllIsEveryRow` | src/mlpack/core/data/binarize.hpp:65-79 | binarizing the whole matrix gives the same matrix as binarizing each of its dimensions in turn with the per-dimension overload |
| `Binarize.RecodeRowsCommute` | src/mlpack/core/data/binarize.hpp:34-46 | binarizing two different dimensions gives the same matrix in either order, because each call touches only its own row |
| `Binarize.InnerWritesCount` | src/mlpack/core/data/binarize.hpp:71-77 | the inner loop for outer index i writes each cell (i, c) with c below the row count exactly once and no other cell |
| `Binarize.TransposedWritesCount` | src/mlpack/core/data/binarize.hpp:69-78 | the nested loops as written write cell (r, c) exactly once when r is below the column count and c below the row count, and never otherwise |
| `Binarize.TransposedLoopInBoundsIff` | src/mlpack/core/data/binarize.hpp:69-73 | every cell the loops write lies inside the matrix if and only if the matrix is square or has no rows or no columns |
| `Binarize.SquareLoopWritesEachCellOnce` | src/mlpack/core/data/binarize.hpp:69-78 | on an n x n matrix the loops write every cell exactly once and nothing outside it |
| `Binarize.BinarizeDimension` | src/mlpack/core/data/binarize.hpp:34-46 | for `dimension` below the row count, the array ends holding `RecodeRow` of its old contents: row `dimension` recoded, the other rows and the shape unchanged |
| `Binarize.BinarizeMatrixAsWritten` | src/mlpack/core/data/binarize.hpp:65-79 | with the loops indexing (i, j) as written, on a square or empty matrix the array ends holding every old entry recoded |
| `Binarize.BinarizeMatrix` | src/mlpack/core/data/binarize.hpp:48-64 | with the index pair in the documented order, a matrix of any shape ends holding every old entry recoded |
| `Binarize.BinarizeMatrixIntoAsWritten` | src/mlpack/core/data/binarize.hpp:100-117 | on a square or empty input, a new output of the input's shape holds every input entry recoded; the input is only read |
| `Binarize.BinarizeMatrixInto` | src/mlpack/core/data/binarize.hpp:81-99 | for an input of any shape, a new output of the input's shape holds every input entry recoded; the input is only read |
| `Binarize.AsWrittenRowInto` | src/mlpack/core/data/binarize.hpp:147-155 | as written, the caller's output keeps its shape and every row but `dimension`; in that row the first n_cols entries are the input's recoded entries and the rest are kept; defined only when that row and those columns exist in the output |
| `Binarize.AsWrittenMatchesDocumentedIff` | src/mlpack/core/data/binarize.hpp:119-155 | the as-written output equals the documented one if and only if the caller's output already had the input's shape and held the input's rows outside row `dimension` |
| `Binarize.AsWrittenRowIntoDiffers` | src/mlpack/core/data/binarize.hpp:147 | for input [[2], [3]], threshold 1, dimension 0 and a caller's output [[0], [0]], the as-written result is [[1], [0]] while the documented one is [[1], [3]] |
| `Binarize.BinarizeDimensionIntoAsWritten` | src/mlpack/core/data/binarize.hpp:141-156 | when row `dimension` and the first n_cols columns exist in the output, the output ends as `AsWrittenRowInto` of the old input and old output; input and output may be the same matrix |
| `Binarize.BinarizeDimensionInto` | src/mlpack/core/data/binarize.hpp:119-139 | for `dimension` below the row count, a new output holds `RecodeRow` of the input: a copy of the input with row `dimension` recoded; the input is only read |

## Findings

| source | as written | input that shows it | evidently intended | confidence | as-written member | corrected member |
|---|---|---|---|---|---|---|
| src/mlpack/core/data/binarize.hpp:69-73 and :107-111 | the loops run i over the columns and j over the rows but write `(i, j)`, which is row i and column j | a 1 x 2 matrix: the loops reach `(1, 0)`, and row 1 does not exist | every cell of a matrix of any shape is recoded, as the documentation at lines 48-51 and 81-83 says | high for the out-of-range access on non-square input; not executed | `Binarize.BinarizeMatrixAsWritten`, `Binarize.BinarizeMatrixIntoAsWritten`, `Binarize.TransposedLoopInBoundsIff` | `Binarize.BinarizeMatrix`, `Binarize.BinarizeMatrixInto` |
| src/mlpack/core/data/binarize.hpp:147 | `output(input);` does not assign `input` to `output`, so `output` keeps its own shape and contents | input [[2], [3]], threshold 1, dimension 0, caller's output [[0], [0]]: the result is [[1], [0]], not [[1], [3]]; with the documented empty `output`, writing `output(dimension, 0)` is out of range | `output` becomes a copy of `input` with row `dimension` recoded, as lines 119-139 say | medium: as written the statement either does not compile or has no effect on `output`; not executed | `Binarize.BinarizeDimensionIntoAsWritten`, `Binarize.AsWrittenRowIntoDiffers` | `Binarize.BinarizeDimensionInto` |

## Left out

- `src/mlpack/methods/hoeffding_trees/hoeffding_forest.hpp` is not part of this model. It only declares the forest class: training, classification and serialization live in `hoeffding_forest_impl.hpp`, which is not part of this model, and depend on the tree and dataset-information types and on random draws. Its one defined member, `NumTrees`, returns the size of the tree vector.
- The element type `T` is fixed to `real`. Floating point is not modelled: there is no NaN (which the source would recode to 0) and no rounding. The source also converts each entry to `double` to compare it with the threshold, and converts 1 and 0 back to `T`.
- Armadillo's bounds checks, which throw on an out-of-range index unless they are compiled out, become preconditions on the methods.
- `Binarize.BinarizeMatrixIntoAsWritten` and `Binarize.BinarizeMatrixInto` return a fresh array instead of resizing the caller's `output` with `copy_size`. The call where `output` and `input` are the same matrix is therefore not modelled for them. The old contents that `copy_size` may leave in `output` are not modelled either. Every cell is overwritten wherever the loops are in bounds.
- `Binarize.BinarizeDimensionInto` likewise returns a fresh array holding a copy of the input, rather than assigning into the caller's matrix.
- Column-major storage and Armadillo's memory management are not modelled; a matrix is a two-dimensional array indexed (row, column).

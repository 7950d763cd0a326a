# Saddle points of zero-sum games

A Dafny model of `nash.py`, a small analysis of a two-player zero-sum game
given by Player 1's payoff matrix (rows are Player 1's actions, columns are
Player 2's, each entry is what Player 1 wins). The file has four operations:

- `row_maximin`: each row's minimum, and the first row whose minimum is largest;
- `column_minimax`: each column's maximum, and the first column whose maximum is smallest;
- `row_and_column_elimination`: a loop that, while the matrix has more than
  two rows and more than two columns, deletes the rows that pass a "row test",
  then the columns that pass a "column test";
- `find_saddle_point`: eliminate, give up if fewer than two rows or columns
  remain, and otherwise report `(row, column, value)` when maximin equals minimax.

Files:

- `Scans.dfy` (module `Scans`): minimum, maximum, and first position of the
  maximum or minimum of a sequence (numpy's `min`, `max`, `argmax`, `argmin`).
- `Matrices.dfy` (module `Matrices`): a matrix value with an explicit shape
  (`rows`, `cols`, `entries`, and a rectangularity predicate `Valid`), columns,
  and numpy's `delete` along either axis.
- `Nash.dfy` (module `Nash`): the four operations and their properties.
  `row_maximin`, `column_minimax` and `find_saddle_point` are functions;
  `row_and_column_elimination` is a method with the source's `while` loop and
  early `break`, proved equal to the loop-free function `Eliminated`, which the
  function `FindSaddlePoint` uses.

What the code does, as opposed to what its comments say:

- The row test (`payoff[i, j] <= row_min[i]` for every `j`) selects exactly the
  constant rows, not dominated ones.
- The column test (`payoff[i, j] <= col_max[j]` for every `i`) holds for every
  column whenever a row is left, so the column pass deletes every column.
- So the loop runs at most one pass. A matrix with more than two rows and more
  than two columns comes out with no columns, and no saddle point is reported
  for it. If all its rows are constant, no row is left and the column maxima
  cannot be computed (numpy raises on an empty reduction): the model returns
  `Err(EmptyReduction)`.
- A saddle point can only be reported for a game with at least two rows and
  two columns and exactly two of one of them; the elimination leaves such a
  game alone, so the reported indices are indices of the original matrix.

The model follows the code, not its docstrings and comments. The docstring of
`row_and_column_elimination` (nash.py:29-31) promises "a reduced 2x2 payoff
matrix", and the comments at nash.py:34 and nash.py:39 speak of "strictly
dominated" rows and columns. The tests at nash.py:36 and nash.py:41 compare
each entry with its own row's minimum or its own column's maximum, not with
another row or column. As a result, a large matrix loses all its columns.
Separately, a game with fewer than two rows or columns, a 1 x 1 game among
them, gets `None` from the size guard at nash.py:60-61, as the comment there
says (`OneByOneExample`).

## Model

| member | source | states |
|---|---|---|
| `Scans.Min` | nash.py:10 | a row's minimum is one of its entries and at most every entry |
| `Scans.Max` | nash.py:22 | a column's maximum is one of its entries and at least every entry |
| `Scans.ArgMax` | nash.py:11 | an in-range position holding the largest value, every earlier position holding a strictly smaller one (first index on ties) |
| `Scans.ArgMin` | nash.py:23 | an in-range position holding the smallest value, every earlier position holding a strictly larger one (first index on ties) |
| `Nash.RowMaximin` | nash.py:3-13 | the returned row is in range and its value is that row's minimum; no row has a larger minimum; every earlier row has a strictly smaller minimum |
| `Nash.ColumnMinimax` | nash.py:15-25 | the returned column is in range and its value is that column's maximum; no column has a smaller maximum; every earlier column has a strictly larger maximum |
| `Nash.MaximinAtMostMinimax` | nash.py:10-25 | the maximin value never exceeds the minimax value |
| `Matrices.DeleteIndices` | nash.py:37 | `np.delete` along one axis leaves one element per surviving position; `DeleteKeepsOrder` says which element, in what order |
| `Matrices.KeptIndices` | nash.py:37 | the positions surviving a delete are exactly those in range and not deleted, in increasing order |
| `Matrices.DeleteKeepsOrder` | nash.py:37 | after a delete, the k-th survivor is the element at the k-th surviving position, so survivors keep their order |
| `Matrices.DeleteEverything` | nash.py:42 | deleting every position leaves no position |
| `Nash.NonConstantRows` | nash.py:36-37 | a row is kept exactly when it is a row of the matrix and not constant; never more rows than before |
| `Nash.RowPass` | nash.py:35-37 | the row pass gives a rectangular matrix with the same columns and no more rows; `RowTestSelectsConstantRows` and `RowPassKeepsNonConstantRows` say which rows remain |
| `Nash.RowTestSelectsConstantRows` | nash.py:35-36 | a row passes the row test exactly when it is constant |
| `Nash.RowPassKeepsNonConstantRows` | nash.py:35-37 | the row pass leaves exactly the non-constant rows, in their original order |
| `Nash.NoConstantRowDeleted` | nash.py:36-37 | with no constant row, the row pass keeps every row: the kept rows are the input's rows, unchanged |
| `Nash.AllConstantIffNoneKept` | nash.py:36-37 | no row survives the row pass exactly when every row is constant |
| `Nash.ColumnPass` | nash.py:40-42 | the column pass fails exactly when the matrix has no rows (the empty maximum at nash.py:40), and otherwise keeps every row and no more columns; `ColumnPassDeletesEveryColumn` says it keeps none |
| `Nash.ColumnPassDeletesEveryColumn` | nash.py:40-42 | with at least one row, every column passes the column test and the column pass leaves no column |
| `Nash.Eliminated` | nash.py:33-48 | the reduced matrix is rectangular with no more rows and no more columns than the input |
| `Nash.RowAndColumnElimination` | nash.py:27-48 | the loop computes `Eliminated`: nothing for a small matrix, otherwise one row pass and one column pass, failing when no row is left |
| `Nash.EliminationKeepsSmallMatrix` | nash.py:33-48 | a matrix with at most two rows or at most two columns comes back unchanged |
| `Nash.EliminationOfLargeMatrix` | nash.py:33-46 | a matrix with more than two rows and columns fails exactly when every row is constant, and otherwise comes back with no columns and its non-constant rows |
| `Nash.EliminationIdempotent` | nash.py:33-48 | eliminating the result again changes nothing |
| `Nash.FindSaddlePoint` | nash.py:50-73 | a reported row and column are indices of the input matrix, and the search fails only on a matrix with more than two rows and columns; `ReportedSaddlePointIsSaddleEntry`, `SaddleEntryIsReported` and the two `NoSaddlePoint` lemmas give the rest |
| `Nash.NoSaddlePointForThinMatrix` | nash.py:57-61 | fewer than two rows or columns, a 1 x 1 game included: no saddle point |
| `Nash.NoSaddlePointForLargeMatrix` | nash.py:33-61 | more than two rows and columns: no saddle point, and a failure exactly when every row is constant |
| `Nash.ReportedOnlyForUnreducedShape` | nash.py:57-71 | a saddle point is reported only for a game with at least two rows and columns and exactly two of one of them |
| `Nash.ReportedSaddlePointIsSaddleEntry` | nash.py:57-71 | a reported triple indexes the original matrix, its value is the maximin and the minimax value, and its entry is the minimum of its row and the maximum of its column |
| `Nash.SaddleEntryIsReported` | nash.py:57-71 | conversely, on such a game any entry that is minimal in its row and maximal in its column is reported, with its value |
| `Nash.TwoByTwoExample` | nash.py:84-91 | the game [[1, 2], [0, 3]] has its saddle point at row 0, column 0 with value 1 |
| `Nash.ThreeByThreeElimination` | nash.py:78-82 | elimination turns the game [[1, -1, 3], [2, 0, -2], [-1, 4, -1]] into 3 rows and no columns |
| `Nash.ThreeByThreeExample` | nash.py:78-82 | that game reports no saddle point |
| `Nash.OneByOneExample` | nash.py:60-61 | the 1 x 1 game [[5]] reports no saddle point |

## Left out

- The example driver under `__main__` and its printed output (nash.py:76-98): it is a demonstration only; its two matrices appear as example lemmas.
- Floating-point entries, NaN and numpy dtypes: entries are mathematical integers, so the equality test at nash.py:70 is exact. The code only compares entries (minimum, maximum, `<=`, `==`) and does no arithmetic on them, so integer width plays no part.
- Non-rectangular or non-numeric inputs: every operation requires a rectangular matrix (`Valid`).
- Nash.RowMaximin, Nash.ColumnMinimax: numpy raises on a matrix with no rows or no columns; these functions require at least one of each instead of modelling that error. `FindSaddlePoint` itself needs no such requirement, because the code never reaches them on such a matrix.
- `dominated_rows` and `dominated_cols` are Python lists in increasing order; the model keeps them as sets of positions, which is all `np.delete` uses.
- Copies versus views of numpy arrays: the model works on values and nothing is shared.

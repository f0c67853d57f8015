# Sudoku solver model

This project models the `Sudoku` class of `assignment1_3446778.py`, a solver for
N×N Sudoku grids where N is a perfect square and 0 marks an empty cell. It also
proves properties of the model. The class has three layers:

- **Grid accessors.** `set_grid`, `get_row`, `get_col`, `get_box_index` and
  `get_box`. The box width b is the integer square root of N, and box k is
  the b×b block whose first cell is at ((k / b) * b, (k % b) * b).
- **Rule validator.**
  - `is_set_correct` accepts a unit when each value lies in 0 .. len and no
    nonzero value occurs twice. A unit is a row, a column, or a box flattened
    row by row.
  - `check_cell` checks the row, column and box of one filled cell.
  - `check_sudoku` checks every row, then every column, then every box.
- **Recursive search.**
  - `step` walks the cells in row-major order. It skips filled cells. In an
    empty cell it tries 1 .. N in turn, and each value must pass
    `check_sudoku` before the search moves on.
  - `next_step` advances the cursor (row, col) to the next cell.
  - `clean_up` empties the cell again when no value leads to a solution.
  - `solve` starts the search at (0, 0).

Files:

- `box_arithmetic.dfy`: the integer square root, box index and box origin
  arithmetic, and the fact that a cell lies in its box.
- `rules.dfy`: the rules on grid values (`Board = seq<seq<int>>`).
  - `SetCorrect` is one unit.
  - `SudokuCorrect` is checked unit by unit in the validator's order.
  - `CellCorrect` is one cell.
  - `NoConflicts` is an independent cell-by-cell reference definition ("no
    two peers share a nonzero value").
  - There are lemmas connecting these definitions.
- `search.dfy`: the row-major cursor, and what the search may no longer change
  (`Frozen`). It also defines which solutions are still reachable
  (`Completes`) and the lemmas the search rests on.
- `sudoku.dfy`: the class `Sudoku`, with fields `grid` and `size`, and the
  search.
  - The class holds the constructor, `SetGrid`, the accessors, `IsSetCorrect`,
    `CheckCell`, `CheckSudoku` and `Solve`.
  - The whole-grid check (`CheckGrid`) and the search (`Step`, `NextStep`,
    `CleanUp`) take the grid as a value and give back the grid they leave.
    `Solve` stores the result in the object.

The main results:

- `Step` never changes a cell before the cursor or a cell that was filled on
  entry.
- When `Step` fails, it gives back exactly the grid it was given.
- When `Step` succeeds, the grid is correct and every cell from the cursor on
  is filled.
- `Step` succeeds whenever some correct full grid agrees with every fixed
  cell, so pruning never loses a solution.
- `Solve` therefore returns true exactly when the puzzle has a solution that
  keeps all clues. The solution it leaves holds 1 .. N in every cell.

The docstrings of `step`, `next_step` and `solve` and the tests
(`test_solve_exhaustive_search` calls `solve(False)`) speak of an exhaustive mode beside
backtracking. The code has no such mode:

- `step` always calls `check_sudoku()`;
- `next_step` always passes `backtracking=True`.

The model follows the code: the flag is accepted and ignored.

## Model

| member | source | states |
|---|---|---|
| BoxArithmetic.ISqrtBounds | assignment1_3446778.py:92 | the box width b = ISqrt(N) is the largest b with b*b <= N |
| BoxArithmetic.ISqrtOfSquare | assignment1_3446778.py:183 | for N = b*b the box width computed from N is exactly b |
| SudokuSolver.SquareSizesWellShaped | assignment1_3446778.py:24-26 | every b*b × b*b grid is well shaped: the class's domain is exactly the grids whose size is a perfect square |
| BoxArithmetic.BoxIndexInRange | assignment1_3446778.py:92-96 | the box index (row / b) * b + col / b of every cell lies in 0 .. N-1 |
| BoxArithmetic.BoxOriginInRange | assignment1_3446778.py:107-110 | the block of box k, from ((k / b) * b, (k % b) * b) and b cells wide and high, lies inside the grid |
| BoxArithmetic.InOwnBox | assignment1_3446778.py:92-110 | a cell lies inside the block of the box its box index names |
| BoxArithmetic.IndexInBox | assignment1_3446778.py:92-110 | every cell of the block of box k has box index k |
| BoxArithmetic.BoxMembership | assignment1_3446778.py:92-110 | the box index of a cell is k if and only if the cell lies in box k's block (the property the box tests check) |
| Rules.ColOf | assignment1_3446778.py:78 | column j has one entry per row, entry i being cell (i, j) |
| Rules.SliceCols | assignment1_3446778.py:110 | the column slice c0 .. c0+w-1 of every row, row by row |
| Rules.BoxOf | assignment1_3446778.py:107-110 | box k is b×b and its cell (i, j) is grid cell ((k / b) * b + i, (k % b) * b + j) |
| Rules.FlattenLength | assignment1_3446778.py:127-128 | flattening h rows of width w gives h*w values |
| Rules.FlattenAt | assignment1_3446778.py:127-128 | cell (i, j) of a block of width w is value i*w + j of its flattening |
| Rules.BoxCellAt | assignment1_3446778.py:127-128 | a flattened box has N values and value i*b + j is the box's cell (i, j) |
| Rules.BoxPosition | assignment1_3446778.py:107-128 | value t of flattened box k is the grid cell at offset (t / b, t % b) from the box origin, and that cell lies in box k |
| Rules.RowsCorrectIff | assignment1_3446778.py:185-188 | the row loop passes its first m rows exactly when each of those rows obeys the rules |
| Rules.ColsCorrectIff | assignment1_3446778.py:190-193 | the column loop passes its first m columns exactly when each of those columns obeys the rules |
| Rules.BoxesCorrectIff | assignment1_3446778.py:195-198 | the box loop passes its first m boxes exactly when each of those flattened boxes obeys the rules |
| Rules.UnitsCorrectIff | assignment1_3446778.py:183-199 | the whole-grid check holds exactly when all rows, all columns and all boxes obey the rules |
| Rules.UnitsGiveNoConflicts | assignment1_3446778.py:172-199 | when every unit obeys the rules, all values lie in 0 .. N and no two peers share a nonzero value |
| Rules.NoConflictsGiveUnits | assignment1_3446778.py:172-199 | when there is no conflict between peers, every row, column and box obeys the rules |
| Rules.SudokuCorrectIff | assignment1_3446778.py:172-199 | the validator's unit-by-unit definition and the cell-by-cell reference definition agree on every grid |
| Rules.BoxUnitSound | assignment1_3446778.py:163-168 | a box that passes rules out equal nonzero values in two of its distinct cells |
| Rules.CellUnitsSound | assignment1_3446778.py:151-170 | a filled cell whose check passes differs from every peer |
| Rules.NoConflictsBox | assignment1_3446778.py:195-198 | without conflicts between peers, each flattened box obeys the rules |
| Rules.AllCellsCorrectIff | assignment1_3446778.py:140-199 | the whole-grid check holds exactly when check_cell holds for every cell (both directions) |
| Rules.BlankingKeepsCorrect | assignment1_3446778.py:238 | emptying cells of a correct grid keeps it correct, so the check never rejects part of a solution |
| Rules.EmptyGridCorrect | assignment1_3446778.py:24-26 | the all-zero grid passes the whole-grid check |
| Rules.ConflictBreaksCorrect | assignment1_3446778.py:133-136 | two peers with the same nonzero value make the grid fail, whatever other cells are empty |
| Rules.SetCorrectExamples | unit_test.py:105-109 | the validator accepts [0,0,1,0,2,3,7,4,9] and [6,8,1,5,2,3,7,4,9], and rejects [6,6,1,5,2,3,7,4,9] and [0,0,1,0,2,3,7,1,9] |
| Search.Next | assignment1_3446778.py:264-268 | the next cursor is a cell or the end (N, 0); the measure row*N + col grows by exactly one; the end is reached exactly from (N-1, N-1); the cells before it are those before (row, col) plus (row, col) |
| Search.WrapColumn | assignment1_3446778.py:264 | (col + 1) % N is col + 1 before the last column and 0 after it |
| Search.SolvedValues | assignment1_3446778.py:235-242 | a full correct grid holds a value 1 .. N in every cell |
| Search.EndCompletion | assignment1_3446778.py:228-229 | at the end position a grid with a reachable solution passes the whole-grid check |
| Search.SkipFilledCell | assignment1_3446778.py:231-232 | skipping a filled cell keeps every reachable solution reachable |
| Search.PassFilledCell | assignment1_3446778.py:231-232 | what the next cell's step leaves fixed and filled, the skip leaves fixed and filled too |
| Search.PassWrittenCell | assignment1_3446778.py:236-242 | after writing an empty cell and a successful search onward, the clues and the earlier cells keep their values and all cells from the cursor on are filled |
| Search.SolutionValueAccepted | assignment1_3446778.py:236-238 | writing a reachable solution's own value passes the whole-grid check and keeps that solution reachable from the next cell |
| Search.SameCells | assignment1_3446778.py:244 | two N×N grids that agree on every cell are equal |
| SudokuSolver.CheckGrid | assignment1_3446778.py:183-199 | the three loops return true exactly when the grid is correct unit by unit |
| SudokuSolver.CleanUp | assignment1_3446778.py:287 | cell (row, col) becomes 0 and every other cell keeps its value |
| SudokuSolver.Step | assignment1_3446778.py:204-246 | earlier cells and clues are unchanged. On failure the given grid comes back unchanged. On success the grid is correct and filled from the cursor on. Success is certain whenever a reachable solution exists. |
| SudokuSolver.NextStep | assignment1_3446778.py:248-272 | the same promises as Step, made at the next cursor in row-major order |
| SudokuSolver.Sudoku.constructor | assignment1_3446778.py:24-26 | a size×size grid of zeros, which passes the whole-grid check |
| SudokuSolver.Sudoku.SetGrid | assignment1_3446778.py:46-54 | grid becomes the given grid and size its number of rows |
| SudokuSolver.Sudoku.GetRow | assignment1_3446778.py:57-67 | row rowId of the grid |
| SudokuSolver.Sudoku.GetCol | assignment1_3446778.py:69-79 | N entries, entry r being cell (r, colId) |
| SudokuSolver.Sudoku.GetBoxIndex | assignment1_3446778.py:81-96 | for a cell of the grid, a box index in 0 .. N-1 whose block contains the cell |
| SudokuSolver.Sudoku.GetBox | assignment1_3446778.py:98-111 | the slice from ((k / b) * b, (k % b) * b) is box k of the rules |
| SudokuSolver.Sudoku.AccessorsAgree | assignment1_3446778.py:66-110 | cell (row, col) is entry col of its row, entry row of its column, and the cell at its offset in box GetBoxIndex(row, col) |
| SudokuSolver.Sudoku.IsSetCorrect | assignment1_3446778.py:114-138 | true exactly when every value lies in 0 .. len and no nonzero value repeats (a box is flattened first) |
| SudokuSolver.Sudoku.CheckCell | assignment1_3446778.py:140-170 | true exactly when the cell is empty or its row, column and box all obey the rules |
| SudokuSolver.Sudoku.CheckSudoku | assignment1_3446778.py:172-199 | true exactly when every row, column and box of the object's grid obeys the rules |
| SudokuSolver.Sudoku.Solve | assignment1_3446778.py:289-302 | clues are kept and failure leaves the grid unchanged. On success the grid is a correct full solution with 1 .. N in every cell. Success happens exactly when such a solution exists. |

## Left out

- The console output of `step` (its `print` calls) and `__repr__` are left out. They only produce text.
- The float square root `int(np.sqrt(size))` is modelled as the exact integer
  square root `ISqrt`. The float zeros of `np.zeros` are integers here.
  The module-level random generator is unused by the class and not modelled.
- Several operations run on grid values rather than in place:
  - SudokuSolver.Step, SudokuSolver.NextStep, SudokuSolver.CleanUp and SudokuSolver.CheckGrid take
    the grid as a value and return the grid they leave. The source writes `self.grid[row, col]`
    in place and calls `check_sudoku` on the object.
  - The object's grid changes only when `Solve` stores the result.
  - The intermediate states are the same, but they cannot be observed through the object
    during the search.
  - Written over grid values, the search's contracts speak of values only, and the mutually
    recursive calls need no heap framing.
- SudokuSolver.Sudoku.SetGrid: copies the grid value. The source shares the caller's numpy array,
  so later writes through either name are visible to both. That aliasing is not modelled.
- SudokuSolver.Sudoku.GetRow, SudokuSolver.Sudoku.GetCol and SudokuSolver.Sudoku.GetBox
  return copies. The source returns numpy views, and nothing in the class writes through them.
- SudokuSolver.Sudoku.GetRow and SudokuSolver.Sudoku.GetCol require an index inside the grid.
  numpy also accepts negative indices, which count from the end.
- SudokuSolver.Sudoku.GetCol, SudokuSolver.Sudoku.GetBox, SudokuSolver.Sudoku.CheckCell,
  SudokuSolver.Sudoku.CheckSudoku and SudokuSolver.Sudoku.Solve require a square grid whose
  size is a perfect square (`Valid`). The class documents this as its domain. The source still
  runs on other sizes, but its boxes then do not tile the grid.
- SudokuSolver.Sudoku.GetBoxIndex requires a box width of at least 1. In the source, width 0
  divides by zero.
- The `backtracking` flag is kept as a parameter and has no effect, as in the code. There is
  no separate exhaustive mode. Because `Solve` succeeds exactly when a solution exists, any value
  of the flag gives the same answer.
- Recursion depth and running time are not modelled.
- The test harness (dynamic import, reflection tests, fixture loading) is not modelled. Only
  its assertions on the validator inform the lemmas.

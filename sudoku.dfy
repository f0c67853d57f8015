/** The Sudoku object: one mutable N×N grid (0 marks an empty cell), the
    checks of the rules over it, and the recursive depth-first search that
    fills the empty cells. The whole-grid check and the search are written
    over grid values: each search step takes the grid and gives back the
    grid it leaves behind. */
module SudokuSolver {
  import opened BoxArithmetic
  import opened Rules
  import opened Search

  /** grid is size×size and size is a perfect square. */
  ghost predicate WellShaped(grid: Board, size: nat)
  {
    IsGrid(grid, size) && ISqrt(size) * ISqrt(size) == size
  }

  /** Every grid whose size is a perfect square b*b is well shaped, so the
      checks and the search accept exactly the perfect-square sizes. */
  lemma SquareSizesWellShaped(grid: Board, b: nat)
    requires IsGrid(grid, b * b)
    ensures WellShaped(grid, b * b) && ISqrt(b * b) == b
  {
    ISqrtOfSquare(b);
  }

  /** Checks every row, then every column, then every box of grid. */
  method CheckGrid(grid: Board, size: nat) returns (ok: bool)
    requires WellShaped(grid, size)
    ensures ok == SudokuCorrect(grid, ISqrt(size))
  {
    var numBox := ISqrt(size);
    assert size > 0 ==> numBox > 0;
    for rowIdx := 0 to size
      invariant RowsCorrect(grid, rowIdx)
    {
      var rowNumbers := grid[rowIdx];
      var correct := Sudoku.IsSetCorrect(Line(rowNumbers));
      if !correct {
        assert !SudokuCorrect(grid, numBox) by {
          RowsCorrectIff(grid, size);
        }
        return false;
      }
    }
    for colIdx := 0 to size
      invariant ColsCorrect(grid, colIdx)
    {
      var colNumbers := ColOf(grid, colIdx);
      var correct := Sudoku.IsSetCorrect(Line(colNumbers));
      if !correct {
        assert !SudokuCorrect(grid, numBox) by {
          ColsCorrectIff(grid, size);
        }
        return false;
      }
    }
    for boxIdx := 0 to size
      invariant numBox > 0 ==> BoxesCorrect(grid, numBox, boxIdx)
    {
      var box := BoxOf(grid, numBox, boxIdx);
      var correct := Sudoku.IsSetCorrect(Block(box));
      if !correct {
        assert !SudokuCorrect(grid, numBox) by {
          BoxesCorrectIff(grid, numBox, size);
        }
        return false;
      }
    }
    return true;
  }

  /** grid with cell (row, col) emptied. */
  function CleanUp(grid: Board, size: nat, row: int, col: int): (cleaned: Board)
    requires IsGrid(grid, size) && 0 <= row < size && 0 <= col < size
    ensures IsGrid(cleaned, size) && cleaned[row][col] == 0
    ensures forall r, c :: 0 <= r < size && 0 <= c < size && (r != row || c != col) ==>
              cleaned[r][c] == grid[r][c]
  {
    grid[row := grid[row][col := 0]]
  }

  /** One search step at cursor (row, col) on grid, giving back the grid it
      leaves. At the end position it reports the whole-grid check; a filled
      cell is passed over; an empty cell gets 1 .. N in turn, each checked
      against the whole grid before the search moves on, and is emptied
      again when none leads to a solution. The backtracking flag does not
      change what the step does. */
  method Step(grid: Board, size: nat, row: int, col: int, backtracking: bool) returns (found: bool, result: Board)
    requires WellShaped(grid, size) && IsCursor(size, row, col)
    decreases size * size - (row * size + col), 1
    ensures IsGrid(result, size)
    ensures Frozen(grid, result, size, row, col)
    ensures !found ==> result == grid
    ensures found ==> SudokuCorrect(result, ISqrt(size)) && FilledFrom(result, size, row, col)
    ensures (exists s :: Completes(s, grid, ISqrt(size), row, col)) ==> found
  {
    ghost var b := ISqrt(size);
    ghost var completable := exists s :: Completes(s, grid, b, row, col);
    ghost var solution: Board := [];
    if completable {
      solution :| Completes(solution, grid, b, row, col);
    }
    if row == size && col == 0 {
      found := CheckGrid(grid, size);
      result := grid;
      if completable {
        EndCompletion(solution, grid, b);
      }
      return;
    }
    if grid[row][col] != 0 {
      if completable {
        SkipFilledCell(solution, grid, b, row, col);
      }
      found, result := NextStep(grid, size, row, col, backtracking);
      PassFilledCell(grid, result, size, row, col);
      return;
    }
    if completable {
      SolvedValues(solution, b);
    }
    ghost var next := Next(size, row, col);
    result := grid;
    for num := 1 to size + 1
      invariant IsGrid(result, size)
      invariant forall r, c :: 0 <= r < size && 0 <= c < size && (r != row || c != col) ==>
                  result[r][c] == grid[r][c]
      invariant completable ==> num <= solution[row][col]
    {
      result := result[row := result[row][col := num]];
      if completable && num == solution[row][col] {
        SolutionValueAccepted(solution, grid, result, b, row, col);
      }
      var ok := CheckGrid(result, size);
      if ok {
        var continued;
        found, continued := NextStep(result, size, row, col, backtracking);
        if found {
          PassWrittenCell(grid, result, continued, size, row, col);
          result := continued;
          return;
        }
        assert !Completes(solution, result, b, next.0, next.1);
      }
    }
    result := CleanUp(result, size, row, col);
    SameCells(result, grid, size);
    found := false;
  }

  /** Moves the cursor to the next cell in row-major order and continues
      the search there. */
  method NextStep(grid: Board, size: nat, row: int, col: int, backtracking: bool) returns (found: bool, result: Board)
    requires WellShaped(grid, size) && 0 <= row < size && 0 <= col < size
    decreases size * size - (row * size + col), 0
    ensures IsGrid(result, size)
    ensures Frozen(grid, result, size, Next(size, row, col).0, Next(size, row, col).1)
    ensures !found ==> result == grid
    ensures found ==> SudokuCorrect(result, ISqrt(size)) &&
                      FilledFrom(result, size, Next(size, row, col).0, Next(size, row, col).1)
    ensures (exists s :: Completes(s, grid, ISqrt(size), Next(size, row, col).0, Next(size, row, col).1)) ==>
              found
  {
    var nextCol := (col + 1) % size;
    var nextRow;
    if nextCol == 0 {
      nextRow := row + 1;
    } else {
      nextRow := row;
    }
    assert (nextRow, nextCol) == Next(size, row, col);
    var solved;
    solved, result := Step(grid, size, nextRow, nextCol, true);
    if solved {
      return true, result;
    } else {
      return false, result;
    }
  }

  class Sudoku {
    var grid: Board
    var size: nat

    /** The grid is size×size and size is a perfect square. */
    ghost predicate Valid()
      reads this
    {
      WellShaped(grid, size)
    }

    /** The box width, the integer square root of the size. */
    function BoxWidth(): (b: nat)
      reads this
    {
      ISqrt(size)
    }

    /** A new object holds an all-empty size×size grid. */
    constructor (size: nat := 9)
      ensures this.size == size && IsGrid(grid, size)
      ensures forall r, c :: 0 <= r < size && 0 <= c < size ==> grid[r][c] == 0
      ensures Valid() ==> SudokuCorrect(grid, BoxWidth())
    {
      grid := seq(size, r => seq(size, c => 0));
      this.size := size;
      new;
      if Valid() {
        EmptyGridCorrect(grid, BoxWidth());
      }
    }

    /** Replaces the grid wholesale; the size becomes the new grid's height.
        Nothing about the new grid is checked. */
    method SetGrid(g: Board)
      modifies this
      ensures grid == g && size == |g|
    {
      grid := g;
      size := |g|;
    }

    /** Row rowId of the grid. */
    function GetRow(rowId: int): (row: seq<int>)
      reads this
      requires 0 <= rowId < |grid|
      ensures row == grid[rowId]
    {
      grid[rowId]
    }

    /** Column colId of the grid: the cell in column colId of every row, top to bottom. */
    function GetCol(colId: int): (column: seq<int>)
      reads this
      requires Valid() && 0 <= colId < size
      ensures |column| == size
      ensures forall r :: 0 <= r < size ==> column[r] == grid[r][colId]
    {
      ColOf(grid, colId)
    }

    /** The index of the box that holds cell (row, col). */
    function GetBoxIndex(row: int, col: int): (boxIndex: int)
      reads this
      requires BoxWidth() > 0
      ensures Valid() && 0 <= row < size && 0 <= col < size ==>
                0 <= boxIndex < size &&
                BoxFirstRow(BoxWidth(), boxIndex) <= row < BoxFirstRow(BoxWidth(), boxIndex) + BoxWidth() &&
                BoxFirstCol(BoxWidth(), boxIndex) <= col < BoxFirstCol(BoxWidth(), boxIndex) + BoxWidth()
    {
      var numBox := BoxWidth();
      var boxRow := row / numBox;
      var boxCol := col / numBox;
      var boxIndex := boxRow * numBox + boxCol;
      if 0 <= row < numBox * numBox && 0 <= col < numBox * numBox then
        BoxIndexInRange(numBox, row, col);
        BoxMembership(numBox, boxIndex, row, col);
        boxIndex
      else
        boxIndex
    }

    /** Box boxId of the grid: the b×b block of rows firstRow .. firstRow+b-1
        and columns firstCol .. firstCol+b-1. */
    function GetBox(boxId: int): (box: Board)
      reads this
      requires Valid() && 0 <= boxId < size
      ensures box == BoxOf(grid, BoxWidth(), boxId)
    {
      var numBox := BoxWidth();
      var firstRow := (boxId / numBox) * numBox;
      var firstCol := (boxId % numBox) * numBox;
      BoxOriginInRange(numBox, boxId);
      SliceCols(grid[firstRow..firstRow + numBox], firstCol, numBox)
    }

    /** The accessors agree on every cell: cell (row, col) is entry col of
        row row, entry row of column col, and sits in box
        GetBoxIndex(row, col) at its offset from that box's first cell. */
    lemma AccessorsAgree(row: int, col: int)
      requires Valid() && 0 <= row < size && 0 <= col < size
      ensures BoxWidth() > 0
      ensures GetRow(row)[col] == grid[row][col]
      ensures GetCol(col)[row] == grid[row][col]
      ensures var b, k := BoxWidth(), GetBoxIndex(row, col);
              GetBox(k)[row - BoxFirstRow(b, k)][col - BoxFirstCol(b, k)] == grid[row][col]
    {
    }

    /** Checks one unit: a box is flattened first; then every value must lie
        in 0 .. |values| and no nonzero value may occur twice. */
    static method IsSetCorrect(numbers: Numbers) returns (ok: bool)
      ensures ok == SetCorrect(Values(numbers))
    {
      var values := if numbers.Block? then Flatten(numbers.rows) else numbers.values;
      var checked: set<int> := {};
      for k := 0 to |values|
        invariant forall t :: 0 <= t < k ==> 0 <= values[t] <= |values|
        invariant forall s, t :: 0 <= s < t < k && values[s] != 0 ==> values[s] != values[t]
        invariant forall v :: v in checked <==> exists t :: 0 <= t < k && values[t] != 0 && values[t] == v
      {
        var number := values[k];
        if number == 0 {
          continue;
        } else if number < 0 || number > |values| {
          return false;
        } else if number in checked {
          var t :| 0 <= t < k && values[t] != 0 && values[t] == number;
          assert values[t] == values[k];
          return false;
        }
        checked := checked + {number};
      }
      return true;
    }

    /** Checks cell (row, col): an empty cell passes; a filled one needs its
        row, then its column, then its box to pass. */
    method CheckCell(row: int, col: int) returns (ok: bool)
      requires Valid() && 0 <= row < size && 0 <= col < size
      ensures ok == CellCorrect(grid, BoxWidth(), row, col)
    {
      var cell := grid[row][col];
      if cell == 0 {
        return true;
      }
      var rowIsCorrect := IsSetCorrect(Line(GetRow(row)));
      if !rowIsCorrect {
        return false;
      }
      var colIsCorrect := IsSetCorrect(Line(GetCol(col)));
      if !colIsCorrect {
        return false;
      }
      var boxIdx := GetBoxIndex(row, col);
      var box := GetBox(boxIdx);
      var boxIsCorrect := IsSetCorrect(Block(box));
      if !boxIsCorrect {
        return false;
      }
      return true;
    }

    /** Checks every row, then every column, then every box of the grid. */
    method CheckSudoku() returns (ok: bool)
      requires Valid()
      ensures ok == SudokuCorrect(grid, BoxWidth())
    {
      ok := CheckGrid(grid, size);
    }

    /** Runs the search from the first cell and keeps the grid it leaves.
        It succeeds exactly when the grid has a solution that keeps every
        clue; the grid is then that solution, and on failure it is left as
        it was. */
    method Solve(backtracking: bool := true) returns (found: bool)
      requires Valid()
      modifies this
      ensures size == old(size) && IsGrid(grid, size)
      ensures Frozen(old(grid), grid, size, 0, 0)
      ensures !found ==> grid == old(grid)
      ensures found ==> Completes(grid, old(grid), BoxWidth(), 0, 0)
      ensures found ==> forall r, c :: 0 <= r < size && 0 <= c < size ==> 1 <= grid[r][c] <= size
      ensures found <==> exists s :: Completes(s, old(grid), BoxWidth(), 0, 0)
    {
      found, grid := Step(grid, size, 0, 0, backtracking);
      if found {
        SolvedValues(grid, BoxWidth());
        assert Completes(grid, old(grid), BoxWidth(), 0, 0);
      }
    }
  }
}

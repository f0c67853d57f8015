/** The search cursor and the facts the depth-first search rests on.
    The cursor (row, col) walks the cells in row-major order and ends at
    (N, 0), one past the last cell. */
module Search {
  import opened BoxArithmetic
  import opened Rules

  /** Cell (r, c) comes strictly before cursor (row, col) in row-major order. */
  predicate Before(r: int, c: int, row: int, col: int)
  {
    r < row || (r == row && c < col)
  }

  /** (row, col) is a cell of an n×n grid, or the end position (n, 0). */
  predicate IsCursor(n: nat, row: int, col: int)
  {
    (0 <= row < n && 0 <= col < n) || (row == n && col == 0)
  }

  /** The cursor after cell (row, col): the next column, wrapping to column 0
      of the next row after the last column. */
  function Next(n: nat, row: int, col: int): (next: (int, int))
    requires 0 <= row < n && 0 <= col < n
    ensures IsCursor(n, next.0, next.1)
    ensures next.0 * n + next.1 == row * n + col + 1
    ensures 0 <= next.0 * n + next.1 <= n * n
    ensures next == (n, 0) <==> (row == n - 1 && col == n - 1)
    ensures forall r, c :: 0 <= c < n ==>
              (Before(r, c, next.0, next.1) <==> Before(r, c, row, col) || (r == row && c == col))
  {
    var nextCol := (col + 1) % n;
    var nextRow := if nextCol == 0 then row + 1 else row;
    WrapColumn(n, row, col);
    (nextRow, nextCol)
  }

  /** The column after col wraps to 0 exactly after the last column. */
  lemma WrapColumn(n: nat, row: int, col: int)
    requires 0 <= row < n && 0 <= col < n
    ensures col + 1 < n ==> (col + 1) % n == col + 1
    ensures col + 1 == n ==> (col + 1) % n == 0
    ensures (row + 1) * n == row * n + n
    ensures row * n + col + 1 <= n * n
  {
    if col + 1 < n {
      DivModUnique(col + 1, n, 0, col + 1);
    } else {
      DivModUnique(col + 1, n, 1, 0);
    }
    MulLeft(n, row + 1, n);
  }

  /** g2 keeps g1's value in every cell before the cursor and in every cell
      that is filled in g1. */
  ghost predicate Frozen(g1: Board, g2: Board, n: nat, row: int, col: int)
    requires IsGrid(g1, n) && IsGrid(g2, n)
  {
    forall r, c :: 0 <= r < n && 0 <= c < n && (Before(r, c, row, col) || g1[r][c] != 0) ==>
      g2[r][c] == g1[r][c]
  }

  /** Every cell of g from the cursor on is filled. */
  ghost predicate FilledFrom(g: Board, n: nat, row: int, col: int)
    requires IsGrid(g, n)
  {
    forall r, c :: 0 <= r < n && 0 <= c < n && !Before(r, c, row, col) ==> g[r][c] != 0
  }

  /** s is a solution that the search can still reach from g at cursor
      (row, col): s is full and correct and agrees with g on every cell the
      search may no longer change. */
  ghost predicate Completes(s: Board, g: Board, b: nat, row: int, col: int)
  {
    IsGrid(s, b * b) && IsGrid(g, b * b) &&
    SudokuCorrect(s, b) && FilledFrom(s, b * b, 0, 0) && Frozen(g, s, b * b, row, col)
  }

  /** A full correct board holds a value 1 .. N in every cell. */
  lemma SolvedValues(s: Board, b: nat)
    requires IsGrid(s, b * b) && SudokuCorrect(s, b) && FilledFrom(s, b * b, 0, 0)
    ensures forall r, c :: 0 <= r < b * b && 0 <= c < b * b ==> 1 <= s[r][c] <= b * b
  {
    UnitsCorrectIff(s, b);
    forall r, c | 0 <= r < b * b && 0 <= c < b * b
      ensures 1 <= s[r][c] <= b * b
    {
      assert SetCorrect(s[r]);
      assert !Before(r, c, 0, 0);
    }
  }

  /** At the end position every cell is frozen, so a board with a reachable
      solution is itself correct. */
  lemma EndCompletion(s: Board, g: Board, b: nat)
    requires Completes(s, g, b, b * b, 0)
    ensures SudokuCorrect(g, b)
  {
    forall r, c | 0 <= r < b * b && 0 <= c < b * b
      ensures g[r][c] == s[r][c]
    {
      assert Before(r, c, b * b, 0);
    }
    BlankingKeepsCorrect(g, s, b);
  }

  /** Stepping over a filled cell keeps every reachable solution reachable. */
  lemma SkipFilledCell(s: Board, g: Board, b: nat, row: int, col: int)
    requires 0 <= row < b * b && 0 <= col < b * b
    requires Completes(s, g, b, row, col) && g[row][col] != 0
    ensures Completes(s, g, b, Next(b * b, row, col).0, Next(b * b, row, col).1)
  {
  }

  /** Passing over a filled cell: what the search guarantees from the next
      cursor on, it guarantees from this cursor on. */
  lemma PassFilledCell(g1: Board, g2: Board, n: nat, row: int, col: int)
    requires IsGrid(g1, n) && IsGrid(g2, n) && 0 <= row < n && 0 <= col < n
    requires g1[row][col] != 0
    requires Frozen(g1, g2, n, Next(n, row, col).0, Next(n, row, col).1)
    ensures Frozen(g1, g2, n, row, col)
    ensures FilledFrom(g2, n, Next(n, row, col).0, Next(n, row, col).1) ==> FilledFrom(g2, n, row, col)
  {
    assert g2[row][col] == g1[row][col];
  }

  /** Filling the empty cell at the cursor and searching on: what the search
      guarantees for the filled board from the next cursor on, it guarantees
      for the original board from this cursor on. */
  lemma PassWrittenCell(g0: Board, g1: Board, g2: Board, n: nat, row: int, col: int)
    requires IsGrid(g0, n) && IsGrid(g1, n) && IsGrid(g2, n) && 0 <= row < n && 0 <= col < n
    requires g0[row][col] == 0 && g1[row][col] != 0
    requires forall r, c :: 0 <= r < n && 0 <= c < n && (r != row || c != col) ==> g1[r][c] == g0[r][c]
    requires Frozen(g1, g2, n, Next(n, row, col).0, Next(n, row, col).1)
    ensures Frozen(g0, g2, n, row, col)
    ensures FilledFrom(g2, n, Next(n, row, col).0, Next(n, row, col).1) ==> FilledFrom(g2, n, row, col)
  {
    PassFilledCell(g1, g2, n, row, col);
  }

  /** Trying the solution's own value in an empty cell passes the whole-grid
      check, and the solution stays reachable from the next cursor. */
  lemma SolutionValueAccepted(s: Board, g: Board, h: Board, b: nat, row: int, col: int)
    requires 0 <= row < b * b && 0 <= col < b * b
    requires Completes(s, g, b, row, col) && g[row][col] == 0
    requires IsGrid(h, b * b) && h[row][col] == s[row][col]
    requires forall r, c :: 0 <= r < b * b && 0 <= c < b * b && (r != row || c != col) ==>
               h[r][c] == g[r][c]
    ensures SudokuCorrect(h, b)
    ensures Completes(s, h, b, Next(b * b, row, col).0, Next(b * b, row, col).1)
  {
    var n := b * b;
    forall r, c | 0 <= r < n && 0 <= c < n
      ensures h[r][c] == s[r][c] || h[r][c] == 0
    {
      if r != row || c != col {
        if g[r][c] != 0 {
          assert h[r][c] == s[r][c];
        }
      }
    }
    BlankingKeepsCorrect(h, s, b);
  }

  /** Two n×n boards that agree on every cell are the same board. */
  lemma SameCells(g1: Board, g2: Board, n: nat)
    requires IsGrid(g1, n) && IsGrid(g2, n)
    requires forall r, c :: 0 <= r < n && 0 <= c < n ==> g1[r][c] == g2[r][c]
    ensures g1 == g2
  {
    forall r | 0 <= r < n
      ensures g1[r] == g2[r]
    {
      assert forall c :: 0 <= c < n ==> g1[r][c] == g2[r][c];
    }
  }
}

/** The Sudoku rules, stated on grid values.
    A board is an N×N matrix of integers, 0 meaning an empty cell; the rows,
    the columns and the N boxes of b×b cells (b*b == N) are its units. */
module Rules {
  import opened BoxArithmetic

  type Board = seq<seq<int>>

  /** g has n rows of n cells each. */
  predicate IsGrid(g: Board, n: nat)
  {
    |g| == n && forall i :: 0 <= i < n ==> |g[i]| == n
  }

  /** Column j of g, top to bottom. */
  function ColOf(g: Board, j: nat): (col: seq<int>)
    requires forall i :: 0 <= i < |g| ==> j < |g[i]|
    ensures |col| == |g|
    ensures forall i {:trigger col[i]} :: 0 <= i < |g| ==> col[i] == g[i][j]
  {
    seq(|g|, i requires 0 <= i < |g| => g[i][j])
  }

  /** Columns c0 .. c0+w-1 of every row of rows. */
  function SliceCols(rows: Board, c0: nat, w: nat): (block: Board)
    requires forall i :: 0 <= i < |rows| ==> c0 + w <= |rows[i]|
    ensures |block| == |rows|
    ensures forall i {:trigger block[i]} :: 0 <= i < |rows| ==> block[i] == rows[i][c0..c0 + w]
  {
    if |rows| == 0 then [] else [rows[0][c0..c0 + w]] + SliceCols(rows[1..], c0, w)
  }

  /** Box k of g: the b×b block whose top-left cell is at
      (BoxFirstRow(b, k), BoxFirstCol(b, k)). */
  function BoxOf(g: Board, b: nat, k: int): (box: Board)
    requires b > 0 && IsGrid(g, b * b) && 0 <= k < b * b
    ensures IsGrid(box, b)
    ensures 0 <= BoxFirstRow(b, k) && BoxFirstRow(b, k) + b <= b * b
    ensures 0 <= BoxFirstCol(b, k) && BoxFirstCol(b, k) + b <= b * b
    ensures forall i, j {:trigger box[i][j]} :: 0 <= i < b && 0 <= j < b ==>
              box[i][j] == g[BoxFirstRow(b, k) + i][BoxFirstCol(b, k) + j]
  {
    BoxOriginInRange(b, k);
    var r0, c0 := BoxFirstRow(b, k), BoxFirstCol(b, k);
    SliceCols(g[r0..r0 + b], c0, b)
  }

  /** The rows of a block joined in row-major order. */
  function Flatten(block: Board): (values: seq<int>)
  {
    if |block| == 0 then [] else block[0] + Flatten(block[1..])
  }

  lemma {:induction false} FlattenLength(block: Board, w: nat)
    requires forall t :: 0 <= t < |block| ==> |block[t]| == w
    ensures |Flatten(block)| == |block| * w
  {
    if |block| > 0 {
      FlattenLength(block[1..], w);
      assert |block| * w == w + (|block| - 1) * w;
    }
  }

  /** Cell (i, j) of a block of rows of width w sits at position i*w + j once flattened. */
  lemma {:induction false} FlattenAt(block: Board, w: nat, i: int, j: int)
    requires forall t :: 0 <= t < |block| ==> |block[t]| == w
    requires 0 <= i < |block| && 0 <= j < w
    ensures |Flatten(block)| == |block| * w
    ensures 0 <= i * w + j < |Flatten(block)| && Flatten(block)[i * w + j] == block[i][j]
  {
    FlattenLength(block, w);
    MulLeft(w, i + 1, |block|);
    if i > 0 {
      FlattenAt(block[1..], w, i - 1, j);
      assert i * w + j == w + ((i - 1) * w + j);
    }
  }

  /** Cell (i, j) of box k is found at position i*b + j of the flattened box. */
  lemma BoxCellAt(g: Board, b: nat, k: int, i: int, j: int)
    requires b > 0 && IsGrid(g, b * b) && 0 <= k < b * b
    requires 0 <= i < b && 0 <= j < b
    ensures |Flatten(BoxOf(g, b, k))| == b * b
    ensures 0 <= i * b + j < b * b
    ensures Flatten(BoxOf(g, b, k))[i * b + j] == g[BoxFirstRow(b, k) + i][BoxFirstCol(b, k) + j]
  {
    FlattenAt(BoxOf(g, b, k), b, i, j);
  }

  /** What the validator accepts: a flat unit, or a box given as a 2-D block. */
  datatype Numbers = Line(values: seq<int>) | Block(rows: Board)

  /** The values a unit holds, a block being flattened row by row. */
  function Values(numbers: Numbers): (values: seq<int>)
  {
    match numbers
    case Line(values) => values
    case Block(rows) => Flatten(rows)
  }

  /** A unit obeys the rules: every value lies in 0 .. |s| and no nonzero value
      occurs twice; any number of zeros is allowed. */
  ghost predicate SetCorrect(s: seq<int>)
  {
    (forall k :: 0 <= k < |s| ==> 0 <= s[k] <= |s|) &&
    (forall j, k :: 0 <= j < k < |s| && s[j] != 0 ==> s[j] != s[k])
  }

  /** Rows 0 .. m-1 of g obey the rules. */
  ghost predicate RowsCorrect(g: Board, m: nat)
    requires m <= |g|
  {
    m == 0 || (RowsCorrect(g, m - 1) && SetCorrect(g[m - 1]))
  }

  /** Columns 0 .. m-1 of g obey the rules. */
  ghost predicate ColsCorrect(g: Board, m: nat)
    requires forall i :: 0 <= i < |g| ==> m <= |g[i]|
  {
    m == 0 || (ColsCorrect(g, m - 1) && SetCorrect(ColOf(g, m - 1)))
  }

  /** Boxes 0 .. m-1 of g obey the rules. */
  ghost predicate BoxesCorrect(g: Board, b: nat, m: nat)
    requires b > 0 && IsGrid(g, b * b) && m <= b * b
  {
    m == 0 || (BoxesCorrect(g, b, m - 1) && SetCorrect(Flatten(BoxOf(g, b, m - 1))))
  }

  /** Every row, every column and every box of g obeys the rules, checked in
      that order, unit by unit (UnitsCorrectIff states it with quantifiers). */
  ghost predicate SudokuCorrect(g: Board, b: nat)
    requires IsGrid(g, b * b)
  {
    RowsCorrect(g, b * b) && ColsCorrect(g, b * b) && (b == 0 || BoxesCorrect(g, b, b * b))
  }

  lemma {:induction false} RowsCorrectAt(g: Board, m: nat, i: int)
    requires m <= |g| && RowsCorrect(g, m) && 0 <= i < m
    ensures SetCorrect(g[i])
  {
    if i < m - 1 {
      RowsCorrectAt(g, m - 1, i);
    }
  }

  lemma {:induction false} RowsCorrectFrom(g: Board, m: nat)
    requires m <= |g| && forall i :: 0 <= i < m ==> SetCorrect(g[i])
    ensures RowsCorrect(g, m)
  {
    if m > 0 {
      RowsCorrectFrom(g, m - 1);
    }
  }

  /** The first m rows pass one by one exactly when each of them obeys the rules. */
  lemma {:induction false} RowsCorrectIff(g: Board, m: nat)
    requires m <= |g|
    ensures RowsCorrect(g, m) <==> forall i :: 0 <= i < m ==> SetCorrect(g[i])
  {
    if RowsCorrect(g, m) {
      forall i | 0 <= i < m
        ensures SetCorrect(g[i])
      {
        RowsCorrectAt(g, m, i);
      }
    } else if forall i :: 0 <= i < m ==> SetCorrect(g[i]) {
      RowsCorrectFrom(g, m);
    }
  }

  lemma {:induction false} ColsCorrectAt(g: Board, m: nat, j: int)
    requires forall i :: 0 <= i < |g| ==> m <= |g[i]|
    requires ColsCorrect(g, m) && 0 <= j < m
    ensures SetCorrect(ColOf(g, j))
  {
    if j < m - 1 {
      ColsCorrectAt(g, m - 1, j);
    }
  }

  lemma {:induction false} ColsCorrectFrom(g: Board, m: nat)
    requires forall i :: 0 <= i < |g| ==> m <= |g[i]|
    requires forall j :: 0 <= j < m ==> SetCorrect(ColOf(g, j))
    ensures ColsCorrect(g, m)
  {
    if m > 0 {
      ColsCorrectFrom(g, m - 1);
    }
  }

  /** The first m columns pass one by one exactly when each of them obeys the rules. */
  lemma {:induction false} ColsCorrectIff(g: Board, m: nat)
    requires forall i :: 0 <= i < |g| ==> m <= |g[i]|
    ensures ColsCorrect(g, m) <==> forall j :: 0 <= j < m ==> SetCorrect(ColOf(g, j))
  {
    if ColsCorrect(g, m) {
      forall j | 0 <= j < m
        ensures SetCorrect(ColOf(g, j))
      {
        ColsCorrectAt(g, m, j);
      }
    } else if forall j :: 0 <= j < m ==> SetCorrect(ColOf(g, j)) {
      ColsCorrectFrom(g, m);
    }
  }

  lemma {:induction false} BoxesCorrectAt(g: Board, b: nat, m: nat, k: int)
    requires b > 0 && IsGrid(g, b * b) && m <= b * b
    requires BoxesCorrect(g, b, m) && 0 <= k < m
    ensures SetCorrect(Flatten(BoxOf(g, b, k)))
  {
    if k < m - 1 {
      BoxesCorrectAt(g, b, m - 1, k);
    }
  }

  lemma {:induction false} BoxesCorrectFrom(g: Board, b: nat, m: nat)
    requires b > 0 && IsGrid(g, b * b) && m <= b * b
    requires forall k :: 0 <= k < m ==> SetCorrect(Flatten(BoxOf(g, b, k)))
    ensures BoxesCorrect(g, b, m)
  {
    if m > 0 {
      BoxesCorrectFrom(g, b, m - 1);
    }
  }

  /** The first m boxes pass one by one exactly when each of them obeys the rules. */
  lemma {:induction false} BoxesCorrectIff(g: Board, b: nat, m: nat)
    requires b > 0 && IsGrid(g, b * b) && m <= b * b
    ensures BoxesCorrect(g, b, m) <==> forall k :: 0 <= k < m ==> SetCorrect(Flatten(BoxOf(g, b, k)))
  {
    if BoxesCorrect(g, b, m) {
      forall k | 0 <= k < m
        ensures SetCorrect(Flatten(BoxOf(g, b, k)))
      {
        BoxesCorrectAt(g, b, m, k);
      }
    } else if forall k :: 0 <= k < m ==> SetCorrect(Flatten(BoxOf(g, b, k))) {
      BoxesCorrectFrom(g, b, m);
    }
  }

  /** The whole-board check holds exactly when every row, every column and
      every box obeys the rules. */
  lemma UnitsCorrectIff(g: Board, b: nat)
    requires IsGrid(g, b * b)
    ensures SudokuCorrect(g, b) <==>
              (forall i :: 0 <= i < b * b ==> SetCorrect(g[i])) &&
              (forall j :: 0 <= j < b * b ==> SetCorrect(ColOf(g, j))) &&
              (forall k :: 0 <= k < b * b ==> SetCorrect(Flatten(BoxOf(g, b, k))))
  {
    var n := b * b;
    RowsCorrectIff(g, n);
    ColsCorrectIff(g, n);
    if b > 0 {
      BoxesCorrectIff(g, b, n);
    }
  }

  /** An empty cell is trivially correct; a filled one needs its whole row,
      column and box to obey the rules. */
  ghost predicate CellCorrect(g: Board, b: nat, row: int, col: int)
    requires b > 0 && IsGrid(g, b * b) && 0 <= row < b * b && 0 <= col < b * b
  {
    BoxIndexInRange(b, row, col);
    g[row][col] == 0 ||
    (SetCorrect(g[row]) && SetCorrect(ColOf(g, col)) &&
     SetCorrect(Flatten(BoxOf(g, b, BoxIndex(b, row, col)))))
  }

  /** Two cells share a row, a column or a box. */
  predicate Peers(b: nat, r1: int, c1: int, r2: int, c2: int)
    requires b > 0
  {
    r1 == r2 || c1 == c2 || BoxIndex(b, r1, c1) == BoxIndex(b, r2, c2)
  }

  /** The rules stated cell by cell: every value lies in 0 .. N, and two
      distinct cells that are peers never hold the same nonzero value. */
  ghost predicate NoConflicts(g: Board, b: nat)
    requires IsGrid(g, b * b)
  {
    (forall r, c :: 0 <= r < b * b && 0 <= c < b * b ==> 0 <= g[r][c] <= b * b) &&
    (forall r1, c1, r2, c2 ::
       0 <= r1 < b * b && 0 <= c1 < b * b && 0 <= r2 < b * b && 0 <= c2 < b * b &&
       (r1 != r2 || c1 != c2) && Peers(b, r1, c1, r2, c2) && g[r1][c1] != 0
       ==> g[r1][c1] != g[r2][c2])
  }

  /** g is obtained from s by emptying some cells. */
  ghost predicate BlankingOf(g: Board, s: Board, n: nat)
    requires IsGrid(g, n) && IsGrid(s, n)
  {
    forall r, c :: 0 <= r < n && 0 <= c < n ==> g[r][c] == s[r][c] || g[r][c] == 0
  }

  /** A correct box holds no nonzero value in two distinct cells. */
  lemma BoxUnitSound(g: Board, b: nat, r1: int, c1: int, r2: int, c2: int)
    requires b > 0 && IsGrid(g, b * b)
    requires 0 <= r1 < b * b && 0 <= c1 < b * b && 0 <= r2 < b * b && 0 <= c2 < b * b
    requires (r1 != r2 || c1 != c2) && BoxIndex(b, r1, c1) == BoxIndex(b, r2, c2)
    requires 0 <= BoxIndex(b, r1, c1) < b * b
    requires SetCorrect(Flatten(BoxOf(g, b, BoxIndex(b, r1, c1))))
    requires g[r1][c1] != 0
    ensures g[r1][c1] != g[r2][c2]
  {
    var k := BoxIndex(b, r1, c1);
    BoxMembership(b, k, r1, c1);
    BoxMembership(b, k, r2, c2);
    var r0, c0 := BoxFirstRow(b, k), BoxFirstCol(b, k);
    var t1 := (r1 - r0) * b + (c1 - c0);
    var t2 := (r2 - r0) * b + (c2 - c0);
    BoxCellAt(g, b, k, r1 - r0, c1 - c0);
    BoxCellAt(g, b, k, r2 - r0, c2 - c0);
    if t1 == t2 {
      DivModUnique(t1, b, r1 - r0, c1 - c0);
      DivModUnique(t2, b, r2 - r0, c2 - c0);
      assert false;
    }
    var f := Flatten(BoxOf(g, b, k));
    assert f[t1] == g[r1][c1] && f[t2] == g[r2][c2];
  }

  /** The units of a cell that obey the rules rule out every conflict of that cell. */
  lemma CellUnitsSound(g: Board, b: nat, r1: int, c1: int, r2: int, c2: int)
    requires b > 0 && IsGrid(g, b * b)
    requires 0 <= r1 < b * b && 0 <= c1 < b * b && 0 <= r2 < b * b && 0 <= c2 < b * b
    requires (r1 != r2 || c1 != c2) && Peers(b, r1, c1, r2, c2) && g[r1][c1] != 0
    requires CellCorrect(g, b, r1, c1)
    ensures g[r1][c1] != g[r2][c2]
  {
    BoxIndexInRange(b, r1, c1);
    if r1 == r2 {
      var row := g[r1];
      assert row[c1] == g[r1][c1] && row[c2] == g[r2][c2];
    } else if c1 == c2 {
      var col := ColOf(g, c1);
      assert col[r1] == g[r1][c1] && col[r2] == g[r2][c2];
    } else {
      BoxUnitSound(g, b, r1, c1, r2, c2);
    }
  }

  /** Position t of flattened box k holds the cell at offset (t / b, t % b)
      from the box's top-left cell, and that cell lies in box k. */
  lemma BoxPosition(g: Board, b: nat, k: int, t: int)
    requires b > 0 && IsGrid(g, b * b) && 0 <= k < b * b && 0 <= t < b * b
    ensures |Flatten(BoxOf(g, b, k))| == b * b
    ensures 0 <= t / b < b && 0 <= t % b < b
    ensures Flatten(BoxOf(g, b, k))[t] == g[BoxFirstRow(b, k) + t / b][BoxFirstCol(b, k) + t % b]
    ensures BoxIndex(b, BoxFirstRow(b, k) + t / b, BoxFirstCol(b, k) + t % b) == k
  {
    var i, j := t / b, t % b;
    QuotientBelow(b, t);
    assert t == i * b + j;
    BoxCellAt(g, b, k, i, j);
    BoxMembership(b, k, BoxFirstRow(b, k) + i, BoxFirstCol(b, k) + j);
  }

  /** Distinct positions of a flattened b-wide block are distinct cells. */
  lemma DistinctOffsets(b: nat, s: int, t: int)
    requires b > 0 && s != t
    ensures s / b != t / b || s % b != t % b
  {
  }

  /** When the rules hold cell by cell, box k obeys them. */
  lemma NoConflictsBox(g: Board, b: nat, k: int)
    requires b > 0 && IsGrid(g, b * b) && 0 <= k < b * b
    requires NoConflicts(g, b)
    ensures SetCorrect(Flatten(BoxOf(g, b, k)))
  {
    var f := Flatten(BoxOf(g, b, k));
    var r0, c0 := BoxFirstRow(b, k), BoxFirstCol(b, k);
    BoxPosition(g, b, k, 0);
    forall t | 0 <= t < |f|
      ensures 0 <= f[t] <= |f|
    {
      BoxPosition(g, b, k, t);
    }
    forall s, t | 0 <= s < t < |f| && f[s] != 0
      ensures f[s] != f[t]
    {
      BoxPosition(g, b, k, s);
      BoxPosition(g, b, k, t);
      DistinctOffsets(b, s, t);
      var rs, cs := r0 + s / b, c0 + s % b;
      var rt, ct := r0 + t / b, c0 + t % b;
      assert Peers(b, rs, cs, rt, ct);
    }
  }

  /** Units obeying the rules leave no conflict between any two peers. */
  lemma UnitsGiveNoConflicts(g: Board, b: nat)
    requires b > 0 && IsGrid(g, b * b)
    requires forall i :: 0 <= i < b * b ==> SetCorrect(g[i])
    requires forall j :: 0 <= j < b * b ==> SetCorrect(ColOf(g, j))
    requires forall k :: 0 <= k < b * b ==> SetCorrect(Flatten(BoxOf(g, b, k)))
    ensures NoConflicts(g, b)
  {
    var n := b * b;
    forall r, c | 0 <= r < n && 0 <= c < n
      ensures 0 <= g[r][c] <= n
    {
      assert SetCorrect(g[r]);
    }
    forall r1, c1, r2, c2 |
      0 <= r1 < n && 0 <= c1 < n && 0 <= r2 < n && 0 <= c2 < n &&
      (r1 != r2 || c1 != c2) && Peers(b, r1, c1, r2, c2) && g[r1][c1] != 0
      ensures g[r1][c1] != g[r2][c2]
    {
      BoxIndexInRange(b, r1, c1);
      CellUnitsSound(g, b, r1, c1, r2, c2);
    }
  }

  /** Without a conflict between peers, every unit obeys the rules. */
  lemma NoConflictsGiveUnits(g: Board, b: nat)
    requires b > 0 && IsGrid(g, b * b) && NoConflicts(g, b)
    ensures forall i :: 0 <= i < b * b ==> SetCorrect(g[i])
    ensures forall j :: 0 <= j < b * b ==> SetCorrect(ColOf(g, j))
    ensures forall k :: 0 <= k < b * b ==> SetCorrect(Flatten(BoxOf(g, b, k)))
  {
    var n := b * b;
    forall i | 0 <= i < n
      ensures SetCorrect(g[i])
    {
      forall j, k | 0 <= j < k < n && g[i][j] != 0
        ensures g[i][j] != g[i][k]
      {
        assert Peers(b, i, j, i, k);
      }
    }
    forall j | 0 <= j < n
      ensures SetCorrect(ColOf(g, j))
    {
      var col := ColOf(g, j);
      forall s, t | 0 <= s < t < n && col[s] != 0
        ensures col[s] != col[t]
      {
        assert Peers(b, s, j, t, j);
      }
    }
    forall k | 0 <= k < n
      ensures SetCorrect(Flatten(BoxOf(g, b, k)))
    {
      NoConflictsBox(g, b, k);
    }
  }

  /** The validator's definition (every row, column and box obeys the rules)
      and the cell-by-cell definition agree on every board. */
  lemma SudokuCorrectIff(g: Board, b: nat)
    requires b > 0 && IsGrid(g, b * b)
    ensures SudokuCorrect(g, b) <==> NoConflicts(g, b)
  {
    UnitsCorrectIff(g, b);
    if SudokuCorrect(g, b) {
      UnitsGiveNoConflicts(g, b);
    }
    if NoConflicts(g, b) {
      NoConflictsGiveUnits(g, b);
    }
  }

  /** A board passes every unit check exactly when every cell passes its own check. */
  lemma AllCellsCorrectIff(g: Board, b: nat)
    requires b > 0 && IsGrid(g, b * b)
    ensures SudokuCorrect(g, b) <==>
              forall r, c :: 0 <= r < b * b && 0 <= c < b * b ==> CellCorrect(g, b, r, c)
  {
    var n := b * b;
    UnitsCorrectIff(g, b);
    if SudokuCorrect(g, b) {
      forall r, c | 0 <= r < n && 0 <= c < n
        ensures CellCorrect(g, b, r, c)
      {
        BoxIndexInRange(b, r, c);
      }
    }
    if forall r, c :: 0 <= r < n && 0 <= c < n ==> CellCorrect(g, b, r, c) {
      forall r, c | 0 <= r < n && 0 <= c < n
        ensures 0 <= g[r][c] <= n
      {
        if g[r][c] != 0 {
          assert CellCorrect(g, b, r, c);
          assert SetCorrect(g[r]);
        }
      }
      forall r1, c1, r2, c2 |
        0 <= r1 < n && 0 <= c1 < n && 0 <= r2 < n && 0 <= c2 < n &&
        (r1 != r2 || c1 != c2) && Peers(b, r1, c1, r2, c2) && g[r1][c1] != 0
        ensures g[r1][c1] != g[r2][c2]
      {
        CellUnitsSound(g, b, r1, c1, r2, c2);
      }
      SudokuCorrectIff(g, b);
    }
  }

  /** Emptying cells of a correct board leaves it correct. */
  lemma BlankingKeepsCorrect(g: Board, s: Board, b: nat)
    requires IsGrid(g, b * b) && IsGrid(s, b * b)
    requires SudokuCorrect(s, b) && BlankingOf(g, s, b * b)
    ensures SudokuCorrect(g, b)
  {
    if b > 0 {
      SudokuCorrectIff(s, b);
      SudokuCorrectIff(g, b);
    }
  }

  /** The all-empty board obeys the rules. */
  lemma EmptyGridCorrect(g: Board, b: nat)
    requires IsGrid(g, b * b)
    requires forall r, c :: 0 <= r < b * b && 0 <= c < b * b ==> g[r][c] == 0
    ensures SudokuCorrect(g, b)
  {
    if b > 0 {
      SudokuCorrectIff(g, b);
    }
  }

  /** Two peers holding the same nonzero value make the board incorrect,
      however many cells are empty. */
  lemma ConflictBreaksCorrect(g: Board, b: nat, r1: int, c1: int, r2: int, c2: int)
    requires b > 0 && IsGrid(g, b * b)
    requires 0 <= r1 < b * b && 0 <= c1 < b * b && 0 <= r2 < b * b && 0 <= c2 < b * b
    requires (r1 != r2 || c1 != c2) && Peers(b, r1, c1, r2, c2)
    requires g[r1][c1] != 0 && g[r1][c1] == g[r2][c2]
    ensures !SudokuCorrect(g, b)
  {
    SudokuCorrectIff(g, b);
  }

  /** The four examples the unit tests give for `is_set_correct`. */
  lemma SetCorrectExamples()
    ensures SetCorrect([0, 0, 1, 0, 2, 3, 7, 4, 9])
    ensures SetCorrect([6, 8, 1, 5, 2, 3, 7, 4, 9])
    ensures !SetCorrect([6, 6, 1, 5, 2, 3, 7, 4, 9])
    ensures !SetCorrect([0, 0, 1, 0, 2, 3, 7, 1, 9])
  {
    var dup1: seq<int> := [6, 6, 1, 5, 2, 3, 7, 4, 9];
    assert dup1[0] != 0 && dup1[0] == dup1[1];
    var dup2: seq<int> := [0, 0, 1, 0, 2, 3, 7, 1, 9];
    assert dup2[2] != 0 && dup2[2] == dup2[7];
  }
}

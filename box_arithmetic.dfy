/** Integer arithmetic behind the box layout of an N×N Sudoku grid.
    The box width b is the integer square root of N; the grid is split into
    N boxes of b×b cells, numbered row-major. */
module BoxArithmetic {

  /** The integer square root of n (rounded down): the box width that the
      solver derives from the grid size. */
  function ISqrt(n: nat): (b: nat)
  {
    RootFrom(n, 0)
  }

  /** ISqrt(n) is the largest b with b * b <= n. */
  lemma ISqrtBounds(n: nat)
    ensures ISqrt(n) * ISqrt(n) <= n < (ISqrt(n) + 1) * (ISqrt(n) + 1)
  {
    var _ := RootFrom(n, 0);
  }

  /** Searches upwards from b for the integer square root of n. */
  function RootFrom(n: nat, b: nat): (r: nat)
    requires b * b <= n
    ensures r * r <= n < (r + 1) * (r + 1)
    decreases n - b
  {
    if (b + 1) * (b + 1) > n then b
    else
      assert b + 1 <= (b + 1) * (b + 1);
      RootFrom(n, b + 1)
  }

  lemma SquareMonotone(x: nat, y: nat)
    requires x <= y
    ensures x * x <= y * y
  {
    assert x * x <= x * y by { MulLeft(x, x, y); }
    assert x * y <= y * y by { MulLeft(y, x, y); }
  }

  lemma MulLeft(m: nat, x: int, y: int)
    requires x <= y
    ensures m * x <= m * y
  {
    assert m * y - m * x == m * (y - x);
  }

  /** Squares order their bases: x*x < y*y forces x < y. */
  lemma SquareLess(x: nat, y: nat)
    requires x * x < y * y
    ensures x < y
  {
    if x >= y {
      SquareMonotone(y, x);
      assert false;
    }
  }

  /** The root of a perfect square is its base: a grid of size b*b has box width b. */
  lemma ISqrtOfSquare(b: nat)
    ensures ISqrt(b * b) == b
  {
    var r := ISqrt(b * b);
    ISqrtBounds(b * b);
    SquareLess(b, r + 1);
    assert (b + 1) * (b + 1) == b * b + 2 * b + 1;
    SquareLess(r, b + 1);
  }

  /** Euclidean division is determined by quotient and remainder. */
  lemma DivModUnique(x: int, b: int, q: int, m: int)
    requires b > 0 && 0 <= m < b && x == q * b + m
    ensures x / b == q && x % b == m
  {
    var q', m' := x / b, x % b;
    assert x == q' * b + m';
    assert (q' - q) * b == m - m';
    if q' > q {
      MulLeft(b, 1, q' - q);
      assert false;
    } else if q' < q {
      MulLeft(b, 1, q - q');
      assert false;
    }
  }

  /** The index of the box holding cell (row, col): (row / b) * b + col / b. */
  function BoxIndex(b: nat, row: int, col: int): (k: int)
    requires b > 0
  {
    (row / b) * b + col / b
  }

  /** The first row of box k: (k / b) * b. */
  function BoxFirstRow(b: nat, k: int): (firstRow: int)
    requires b > 0
  {
    (k / b) * b
  }

  /** The first column of box k: (k % b) * b. */
  function BoxFirstCol(b: nat, k: int): (firstCol: int)
    requires b > 0
  {
    (k % b) * b
  }

  /** A coordinate inside an N-wide grid divides by b to less than b. */
  lemma QuotientBelow(b: nat, x: int)
    requires b > 0 && 0 <= x < b * b
    ensures 0 <= x / b < b
  {
    if x / b >= b {
      MulLeft(b, b, x / b);
      assert false;
    }
  }

  /** Every cell of the grid lies in one of the boxes 0 .. N-1. */
  lemma BoxIndexInRange(b: nat, row: int, col: int)
    requires b > 0 && 0 <= row < b * b && 0 <= col < b * b
    ensures 0 <= BoxIndex(b, row, col) < b * b
  {
    QuotientBelow(b, row);
    QuotientBelow(b, col);
    MulLeft(b, row / b, b - 1);
    assert (b - 1) * b + (b - 1) < b * b;
  }

  /** Box k of the grid is a b×b block lying wholly inside the grid. */
  lemma BoxOriginInRange(b: nat, k: int)
    requires b > 0 && 0 <= k < b * b
    ensures 0 <= BoxFirstRow(b, k) && BoxFirstRow(b, k) + b <= b * b
    ensures 0 <= BoxFirstCol(b, k) && BoxFirstCol(b, k) + b <= b * b
  {
    QuotientBelow(b, k);
    MulLeft(b, k / b, b - 1);
    MulLeft(b, k % b, b - 1);
    assert (b - 1) * b + b == b * b;
  }

  /** A cell lies in the block of the box its box index names. */
  lemma InOwnBox(b: nat, row: int, col: int)
    requires b > 0 && 0 <= row < b * b && 0 <= col < b * b
    ensures BoxFirstRow(b, BoxIndex(b, row, col)) <= row < BoxFirstRow(b, BoxIndex(b, row, col)) + b
    ensures BoxFirstCol(b, BoxIndex(b, row, col)) <= col < BoxFirstCol(b, BoxIndex(b, row, col)) + b
  {
    var qr, qc := row / b, col / b;
    QuotientBelow(b, col);
    DivModUnique(qr * b + qc, b, qr, qc);
    assert BoxFirstRow(b, BoxIndex(b, row, col)) == qr * b;
    assert BoxFirstCol(b, BoxIndex(b, row, col)) == qc * b;
    assert row == qr * b + row % b && col == qc * b + col % b;
  }

  /** Every cell of the block of box k has box index k. */
  lemma IndexInBox(b: nat, k: int, row: int, col: int)
    requires b > 0 && 0 <= k < b * b
    requires BoxFirstRow(b, k) <= row < BoxFirstRow(b, k) + b
    requires BoxFirstCol(b, k) <= col < BoxFirstCol(b, k) + b
    ensures BoxIndex(b, row, col) == k
  {
    DivModUnique(row, b, k / b, row - BoxFirstRow(b, k));
    DivModUnique(col, b, k % b, col - BoxFirstCol(b, k));
  }

  /** The box index of a cell is k exactly when the cell lies in the b×b block
      that starts at box k's first row and first column. */
  lemma BoxMembership(b: nat, k: int, row: int, col: int)
    requires b > 0 && 0 <= k < b * b && 0 <= row < b * b && 0 <= col < b * b
    ensures BoxIndex(b, row, col) == k <==>
              BoxFirstRow(b, k) <= row < BoxFirstRow(b, k) + b &&
              BoxFirstCol(b, k) <= col < BoxFirstCol(b, k) + b
  {
    if BoxIndex(b, row, col) == k {
      InOwnBox(b, row, col);
    }
    if BoxFirstRow(b, k) <= row < BoxFirstRow(b, k) + b &&
       BoxFirstCol(b, k) <= col < BoxFirstCol(b, k) + b {
      IndexInBox(b, k, row, col);
    }
  }
}

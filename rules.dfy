/**
 * The Sudoku rule shared by the browser client and the server: the 9x9 board,
 * the move validator, the "no repeated digit" invariant, and placing a digit.
 */
module Rules {

  /** A board as rows of cells; 0 is an empty cell, 1..9 a filled one. */
  type Grid = seq<seq<int>>

  /** A placement of `num` into (`row`, `col`); also one random draw of the puzzle generator. */
  datatype Move = Move(row: int, col: int, num: int) {
    /** Row and column address a cell, and the value is a Sudoku digit. */
    predicate InRange() {
      0 <= row <= 8 && 0 <= col <= 8 && 1 <= num <= 9
    }
  }

  predicate IsGrid(g: Grid) {
    |g| == 9 && forall r :: 0 <= r < 9 ==> |g[r]| == 9
  }

  predicate CellsInRange(g: Grid)
    requires IsGrid(g)
  {
    forall r, c :: 0 <= r < 9 && 0 <= c < 9 ==> 0 <= g[r][c] <= 9
  }

  /** The board with every cell empty. */
  function ZeroGrid(): (g: Grid)
    ensures IsGrid(g) && forall r, c :: 0 <= r < 9 && 0 <= c < 9 ==> g[r][c] == 0
  {
    seq(9, _ => seq(9, _ => 0))
  }

  /** First row (or column) of the 3x3 block holding row (or column) `i`. */
  function BlockStart(i: int): int {
    i / 3 * 3
  }

  ghost function RowValues(g: Grid, row: int): set<int>
    requires IsGrid(g) && 0 <= row < 9
  {
    set i | 0 <= i < 9 :: g[row][i]
  }

  ghost function ColValues(g: Grid, col: int): set<int>
    requires IsGrid(g) && 0 <= col < 9
  {
    set i | 0 <= i < 9 :: g[i][col]
  }

  ghost function BlockValues(g: Grid, row: int, col: int): set<int>
    requires IsGrid(g) && 0 <= row < 9 && 0 <= col < 9
  {
    set i, j | BlockStart(row) <= i < BlockStart(row) + 3 && BlockStart(col) <= j < BlockStart(col) + 3 :: g[i][j]
  }

  /**
   * The move rule: `num` may go into (`row`, `col`) unless it already occurs in
   * that row, that column or that 3x3 block. The target cell is scanned too.
   */
  ghost predicate IsValidMove(g: Grid, row: int, col: int, num: int)
    requires IsGrid(g) && 0 <= row < 9 && 0 <= col < 9
  {
    num !in RowValues(g, row) && num !in ColValues(g, col) && num !in BlockValues(g, row, col)
  }

  /** Two cells share a row, a column or a 3x3 block. */
  predicate SameUnit(r1: int, c1: int, r2: int, c2: int) {
    r1 == r2 || c1 == c2 || (BlockStart(r1) == BlockStart(r2) && BlockStart(c1) == BlockStart(c2))
  }

  /** The Sudoku invariant: no non-zero value repeats within a row, a column or a block. */
  predicate Consistent(g: Grid)
    requires IsGrid(g)
  {
    forall r1, c1, r2, c2 ::
      (0 <= r1 < 9 && 0 <= c1 < 9 && 0 <= r2 < 9 && 0 <= c2 < 9 && (r1 != r2 || c1 != c2) &&
       SameUnit(r1, c1, r2, c2) && g[r1][c1] != 0)
      ==> g[r1][c1] != g[r2][c2]
  }

  /** Writes `m.num` into cell (`m.row`, `m.col`). */
  function Place(g: Grid, m: Move): (h: Grid)
    requires IsGrid(g) && m.InRange()
    ensures IsGrid(h)
    ensures forall r, c :: 0 <= r < 9 && 0 <= c < 9 ==>
              h[r][c] == if r == m.row && c == m.col then m.num else g[r][c]
  {
    g[m.row := g[m.row][m.col := m.num]]
  }

  /** Number of non-zero entries of one row. */
  function CountNonZero(s: seq<int>): nat {
    if s == [] then 0 else (if s[0] != 0 then 1 else 0) + CountNonZero(s[1..])
  }

  /** Number of filled (non-zero) cells of a board. */
  function FilledCells(g: Grid): nat {
    if g == [] then 0 else CountNonZero(g[0]) + FilledCells(g[1..])
  }

  // ---------------------------------------------------------------- lemmas

  /** The validator, spelled out cell by cell: false iff `num` sits somewhere in the row, the column or the block. */
  lemma IsValidMoveIff(g: Grid, row: int, col: int, num: int)
    requires IsGrid(g) && 0 <= row < 9 && 0 <= col < 9
    ensures !IsValidMove(g, row, col, num) <==>
              (exists i :: 0 <= i < 9 && g[row][i] == num) ||
              (exists i :: 0 <= i < 9 && g[i][col] == num) ||
              (exists i, j :: BlockStart(row) <= i < BlockStart(row) + 3 &&
                              BlockStart(col) <= j < BlockStart(col) + 3 && g[i][j] == num)
  {
  }

  /** Every cell sharing a unit with (`row`, `col`), the cell itself included, is scanned by the validator. */
  lemma PeerIsScanned(g: Grid, row: int, col: int, r: int, c: int)
    requires IsGrid(g) && 0 <= row < 9 && 0 <= col < 9 && 0 <= r < 9 && 0 <= c < 9
    requires SameUnit(row, col, r, c)
    ensures !IsValidMove(g, row, col, g[r][c])
  {
    if r == row {
      assert g[r][c] in RowValues(g, row);
    } else if c == col {
      assert g[r][c] in ColValues(g, col);
    } else {
      assert BlockStart(row) <= r < BlockStart(row) + 3 && BlockStart(col) <= c < BlockStart(col) + 3;
      assert g[r][c] in BlockValues(g, row, col);
    }
  }

  /** Placing the value a cell already holds is rejected. */
  lemma RejectsHeldValue(g: Grid, row: int, col: int)
    requires IsGrid(g) && 0 <= row < 9 && 0 <= col < 9
    ensures !IsValidMove(g, row, col, g[row][col])
  {
    PeerIsScanned(g, row, col, row, col);
  }

  /** A filled cell may be overwritten with a different digit that clashes with nothing. */
  lemma AcceptsOverwrite()
    ensures var g := Place(ZeroGrid(), Move(0, 0, 1));
            g[0][0] == 1 && IsValidMove(g, 0, 0, 2)
  {
    var g := Place(ZeroGrid(), Move(0, 0, 1));
    assert forall r, c :: 0 <= r < 9 && 0 <= c < 9 ==> g[r][c] != 2;
  }

  /** The empty board satisfies the Sudoku invariant and has no filled cell. */
  lemma ZeroGridSudoku()
    ensures CellsInRange(ZeroGrid()) && Consistent(ZeroGrid()) && FilledCells(ZeroGrid()) == 0
  {
    ZeroRowsEmpty(ZeroGrid());
  }

  lemma {:induction false} ZeroRowsEmpty(g: Grid)
    requires forall r, c :: 0 <= r < |g| && 0 <= c < |g[r]| ==> g[r][c] == 0
    ensures FilledCells(g) == 0
  {
    if g != [] {
      ZeroRowEmpty(g[0]);
      ZeroRowsEmpty(g[1..]);
    }
  }

  lemma {:induction false} ZeroRowEmpty(s: seq<int>)
    requires forall i :: 0 <= i < |s| ==> s[i] == 0
    ensures CountNonZero(s) == 0
  {
    if s != [] {
      ZeroRowEmpty(s[1..]);
    }
  }

  /** An accepted placement keeps every cell in 0..9 and keeps the Sudoku invariant. */
  lemma PlaceKeepsConsistent(g: Grid, m: Move)
    requires IsGrid(g) && CellsInRange(g) && Consistent(g)
    requires m.InRange() && IsValidMove(g, m.row, m.col, m.num)
    ensures CellsInRange(Place(g, m)) && Consistent(Place(g, m))
  {
    var h := Place(g, m);
    forall r1, c1, r2, c2 |
      0 <= r1 < 9 && 0 <= c1 < 9 && 0 <= r2 < 9 && 0 <= c2 < 9 && (r1 != r2 || c1 != c2) &&
      SameUnit(r1, c1, r2, c2) && h[r1][c1] != 0
      ensures h[r1][c1] != h[r2][c2]
    {
      if r1 == m.row && c1 == m.col {
        PeerIsScanned(g, m.row, m.col, r2, c2);
      } else if r2 == m.row && c2 == m.col {
        PeerIsScanned(g, m.row, m.col, r1, c1);
      }
    }
  }

  lemma {:induction false} CountNonZeroUpdate(s: seq<int>, i: int, v: int)
    requires 0 <= i < |s|
    ensures CountNonZero(s[i := v]) + (if s[i] != 0 then 1 else 0) == CountNonZero(s) + (if v != 0 then 1 else 0)
  {
    if i > 0 {
      CountNonZeroUpdate(s[1..], i - 1, v);
      assert s[i := v][1..] == s[1..][i - 1 := v];
    }
  }

  lemma {:induction false} FilledCellsUpdate(g: Grid, r: int, line: seq<int>)
    requires 0 <= r < |g|
    ensures FilledCells(g[r := line]) + CountNonZero(g[r]) == FilledCells(g) + CountNonZero(line)
  {
    if r > 0 {
      FilledCellsUpdate(g[1..], r - 1, line);
      assert g[r := line][1..] == g[1..][r - 1 := line];
    }
  }

  /** A placement fills one more cell when the target was empty, and none when it overwrites. */
  lemma PlaceFilledCells(g: Grid, m: Move)
    requires IsGrid(g) && m.InRange()
    ensures FilledCells(Place(g, m)) == FilledCells(g) + (if g[m.row][m.col] == 0 then 1 else 0)
  {
    CountNonZeroUpdate(g[m.row], m.col, m.num);
    FilledCellsUpdate(g, m.row, g[m.row][m.col := m.num]);
  }
}

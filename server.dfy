/**
 * The server: one process-wide 9x9 board, its own copy of the move validator,
 * and the decision logic of the reset, cell-query and move handlers.
 */
module Server {
  import opened Optional
  import opened Rules

  /** The HTTP status the handlers use for a rejected request. */
  const BadRequest := 400

  const ReadyResult := "READY"
  const ValidResult := "Valid"
  const InvalidResult := "Invalid"
  const BadCellError := "Invalid row or column."
  const MissingFieldsError := "Missing row, col, or num in the request body."
  const BadValuesError := "Invalid row, col, or num value."

  /** A handler's JSON answer: `{ result }` with status 200, or `{ error }` with an error status. */
  datatype Reply = Result(result: string) | Failure(status: int, error: string)

  /** The authoritative board. `cells` is its value as rows of cells. */
  class BoardStore {
    var board: array2<int>
    ghost var cells: Grid

    /** The array is 9x9 and `cells` is its value. */
    ghost predicate Represents()
      reads this, board
    {
      board.Length0 == 9 && board.Length1 == 9 && IsGrid(cells) &&
      forall r, c :: 0 <= r < 9 && 0 <= c < 9 ==> board[r, c] == cells[r][c]
    }

    /** Besides, the board holds values 0..9 and repeats no digit in a unit. */
    ghost predicate Valid()
      reads this, board
    {
      Represents() && CellsInRange(cells) && Consistent(cells)
    }

    /** At process start the board is all zeros. */
    constructor ()
      ensures Valid() && fresh(board) && cells == ZeroGrid()
    {
      board := new int[9, 9]((r, c) => 0);
      cells := ZeroGrid();
      ZeroGridSudoku();
    }

    /** `POST /reset`: a new all-zero board, answered with READY. */
    method Reset() returns (reply: Reply)
      requires Valid()
      modifies this
      ensures Valid() && fresh(board)
      ensures cells == ZeroGrid() && reply == Result(ReadyResult)
    {
      board := new int[9, 9]((r, c) => 0);
      cells := ZeroGrid();
      ZeroGridSudoku();
      reply := Result(ReadyResult);
    }

    /**
     * The server's validator: one loop over the row and the column together,
     * then the 3x3 block, answering false at the first cell holding `num`.
     */
    method CheckMove(row: int, col: int, num: int) returns (ok: bool)
      requires Represents() && 0 <= row < 9 && 0 <= col < 9
      ensures ok == IsValidMove(cells, row, col, num)
    {
      for i := 0 to 9
        invariant num !in set k | 0 <= k < i :: cells[row][k]
        invariant num !in set k | 0 <= k < i :: cells[k][col]
      {
        if board[row, i] == num || board[i, col] == num {
          assert cells[row][i] in RowValues(cells, row);
          assert cells[i][col] in ColValues(cells, col);
          return false;
        }
      }
      assert RowValues(cells, row) == set k | 0 <= k < 9 :: cells[row][k];
      var squareRow := BlockStart(row);
      var squareCol := BlockStart(col);
      for i := squareRow to squareRow + 3
        invariant num !in set a, b | squareRow <= a < i && squareCol <= b < squareCol + 3 :: cells[a][b]
      {
        for j := squareCol to squareCol + 3
          invariant num !in set a, b | squareRow <= a < i && squareCol <= b < squareCol + 3 :: cells[a][b]
          invariant num !in set b | squareCol <= b < j :: cells[i][b]
        {
          if board[i, j] == num {
            assert cells[i][j] in BlockValues(cells, row, col);
            return false;
          }
        }
      }
      ok := true;
    }

    /** `GET /move/:row/:col`: an occupancy query; it never looks at the Sudoku rule. */
    method QueryCell(row: int, col: int) returns (reply: Reply)
      requires Represents()
      ensures !(0 <= row <= 8 && 0 <= col <= 8) <==> reply == Failure(BadRequest, BadCellError)
      ensures 0 <= row <= 8 && 0 <= col <= 8 ==>
                (reply == Result(InvalidResult) <==> cells[row][col] != 0) &&
                (reply == Result(ValidResult) <==> cells[row][col] == 0)
    {
      if row < 0 || row > 8 || col < 0 || col > 8 {
        return Failure(BadRequest, BadCellError);
      }
      if board[row, col] != 0 {
        return Result(InvalidResult);
      }
      reply := Result(ValidResult);
    }

    /**
     * `POST /move` with body fields `row`, `col`, `num` (None when absent):
     * missing fields, then ranges, then the rule are checked, and only an
     * accepted move writes its one cell.
     */
    method SubmitMove(row: Option<int>, col: Option<int>, num: Option<int>) returns (reply: Reply)
      requires Valid()
      modifies board, this`cells
      ensures Valid() && board == old(board)
      ensures row.None? || col.None? || num.None? ==>
                reply == Failure(BadRequest, MissingFieldsError) && cells == old(cells)
      ensures row.Some? && col.Some? && num.Some? ==>
                var m := Move(row.value, col.value, num.value);
                (!m.InRange() ==> reply == Failure(BadRequest, BadValuesError) && cells == old(cells)) &&
                (m.InRange() && !IsValidMove(old(cells), m.row, m.col, m.num) ==>
                   reply == Result(InvalidResult) && cells == old(cells)) &&
                (m.InRange() && IsValidMove(old(cells), m.row, m.col, m.num) ==>
                   reply == Result(ValidResult) && cells == Place(old(cells), m))
    {
      if row.None? || col.None? || num.None? {
        return Failure(BadRequest, MissingFieldsError);
      }
      var m := Move(row.value, col.value, num.value);
      if !m.InRange() {
        return Failure(BadRequest, BadValuesError);
      }
      var ok := CheckMove(m.row, m.col, m.num);
      if !ok {
        return Result(InvalidResult);
      }
      PlaceKeepsConsistent(cells, m);
      board[m.row, m.col] := m.num;
      cells := Place(cells, m);
      reply := Result(ValidResult);
    }
  }

  /**
   * A session against a fresh server: 5 at (0, 0) is accepted; 5 again in the
   * same row, the same block or the same column is refused; the filled cell
   * reads as occupied and a free one as free; row 9 and digit 0 are bad requests.
   */
  method Walkthrough() returns (first: Reply, sameRow: Reply, sameBlock: Reply, sameCol: Reply,
                                taken: Reply, free: Reply, badRow: Reply, badNum: Reply, missing: Reply)
    ensures first == Result(ValidResult)
    ensures sameRow == Result(InvalidResult) && sameBlock == Result(InvalidResult) && sameCol == Result(InvalidResult)
    ensures taken == Result(InvalidResult) && free == Result(ValidResult)
    ensures badRow == Failure(BadRequest, BadValuesError) && badNum == Failure(BadRequest, BadValuesError)
    ensures missing == Failure(BadRequest, MissingFieldsError)
  {
    var store := new BoardStore();
    var z := ZeroGrid();
    assert forall r, c :: 0 <= r < 9 && 0 <= c < 9 ==> z[r][c] == 0;
    first := store.SubmitMove(Some(0), Some(0), Some(5));
    var g := Place(z, Move(0, 0, 5));
    assert store.cells == g && g[0][0] == 5;
    PeerIsScanned(g, 0, 1, 0, 0);
    sameRow := store.SubmitMove(Some(0), Some(1), Some(5));
    PeerIsScanned(g, 1, 1, 0, 0);
    sameBlock := store.SubmitMove(Some(1), Some(1), Some(5));
    PeerIsScanned(g, 3, 0, 0, 0);
    sameCol := store.SubmitMove(Some(3), Some(0), Some(5));
    taken := store.QueryCell(0, 0);
    free := store.QueryCell(0, 1);
    badRow := store.SubmitMove(Some(9), Some(0), Some(1));
    badNum := store.SubmitMove(Some(0), Some(1), Some(0));
    missing := store.SubmitMove(Some(0), None, Some(1));
  }
}

/**
 * The browser side: the component's own copy of the move validator, the
 * random puzzle generator, and the game session state behind the view.
 */
module Client {
  import opened Optional
  import opened Rules

  /** Number of successful placements the generator makes: floor(0.82 * 9 * 9) = 66. */
  const CellsToFill: nat := 82 * 9 * 9 / 100

  const ReadyStatus := "READY"
  const ValidStatus := "Valid"
  const InvalidStatus := "Invalid"
  const GameOverStatus := "Game Over three invalid move"
  const MoveErrorStatus := "Error making a move."

  /**
   * The component's validator: scans the row, then the column, then the
   * 3x3 block, and answers false at the first cell holding `num`.
   */
  method CheckMove(grid: Grid, row: int, col: int, num: int) returns (ok: bool)
    requires IsGrid(grid) && 0 <= row < 9 && 0 <= col < 9
    ensures ok == IsValidMove(grid, row, col, num)
  {
    for i := 0 to 9
      invariant num !in set k | 0 <= k < i :: grid[row][k]
    {
      if grid[row][i] == num {
        assert grid[row][i] in RowValues(grid, row);
        return false;
      }
    }
    assert RowValues(grid, row) == set k | 0 <= k < 9 :: grid[row][k];
    for i := 0 to 9
      invariant num !in set k | 0 <= k < i :: grid[k][col]
    {
      if grid[i][col] == num {
        assert grid[i][col] in ColValues(grid, col);
        return false;
      }
    }
    var startRow := BlockStart(row);
    var startCol := BlockStart(col);
    for i := startRow to startRow + 3
      invariant num !in set a, b | startRow <= a < i && startCol <= b < startCol + 3 :: grid[a][b]
    {
      for j := startCol to startCol + 3
        invariant num !in set a, b | startRow <= a < i && startCol <= b < startCol + 3 :: grid[a][b]
        invariant num !in set b | startCol <= b < j :: grid[i][b]
      {
        if grid[i][j] == num {
          assert grid[i][j] in BlockValues(grid, row, col);
          return false;
        }
      }
    }
    ok := true;
  }

  /** Every draw addresses a cell and carries a digit, as the generator's random draws do. */
  predicate AllInRange(draws: seq<Move>) {
    forall k :: 0 <= k < |draws| ==> draws[k].InRange()
  }

  /**
   * The generator's placement loop from board `g` with `filled` successful
   * placements so far: each draw that passes the validator is written and
   * counted, until `CellsToFill` placements are made or the draws run out.
   */
  ghost function Fill(g: Grid, filled: nat, draws: seq<Move>): (Grid, nat)
    requires IsGrid(g) && AllInRange(draws)
    decreases |draws|
  {
    if filled >= CellsToFill || draws == [] then (g, filled)
    else if IsValidMove(g, draws[0].row, draws[0].col, draws[0].num) then Fill(Place(g, draws[0]), filled + 1, draws[1..])
    else Fill(g, filled, draws[1..])
  }

  /**
   * The generator's loop state: a 9x9 board of values 0..9 without a repeated
   * digit in a unit, at most `CellsToFill` counted placements, and no more
   * filled cells than counted placements.
   */
  predicate GeneratorState(g: Grid, filled: nat) {
    IsGrid(g) && CellsInRange(g) && Consistent(g) && filled <= CellsToFill && FilledCells(g) <= filled
  }

  /** One accepted draw below the quota keeps the loop state. */
  lemma PlaceKeepsGeneratorState(g: Grid, filled: nat, m: Move)
    requires GeneratorState(g, filled) && filled < CellsToFill
    requires m.InRange() && IsValidMove(g, m.row, m.col, m.num)
    ensures GeneratorState(Place(g, m), filled + 1)
  {
    PlaceKeepsConsistent(g, m);
    PlaceFilledCells(g, m);
  }

  /**
   * What the generator promises: the loop state holds of the result, and the
   * count of placements only grows.
   */
  lemma {:induction false} FillKeepsSudoku(g: Grid, filled: nat, draws: seq<Move>)
    requires GeneratorState(g, filled) && AllInRange(draws)
    ensures var (h, n) := Fill(g, filled, draws);
            GeneratorState(h, n) && filled <= n
    decreases |draws|
  {
    if filled < CellsToFill && draws != [] {
      var m := draws[0];
      assert AllInRange(draws[1..]);
      if IsValidMove(g, m.row, m.col, m.num) {
        PlaceKeepsGeneratorState(g, filled, m);
        FillKeepsSudoku(Place(g, m), filled + 1, draws[1..]);
      } else {
        FillKeepsSudoku(g, filled, draws[1..]);
      }
    }
  }

  /** Once the quota is reached no further draw is looked at. */
  lemma FillStopsAtQuota(g: Grid, filled: nat, draws: seq<Move>)
    requires IsGrid(g) && AllInRange(draws) && filled >= CellsToFill
    ensures Fill(g, filled, draws) == (g, filled)
  {
  }

  /**
   * The placement loop over two runs of draws is the loop over the first run
   * continued with the second. With `FillStopsAtQuota`: a result below the
   * quota is not a stop, since later draws are still looked at.
   */
  lemma {:induction false} FillContinues(g: Grid, filled: nat, first: seq<Move>, rest: seq<Move>)
    requires IsGrid(g) && AllInRange(first) && AllInRange(rest)
    ensures AllInRange(first + rest)
    ensures var (h, n) := Fill(g, filled, first);
            IsGrid(h) && Fill(g, filled, first + rest) == Fill(h, n, rest)
    decreases |first|
  {
    var all := first + rest;
    assert AllInRange(all) by {
      forall k | 0 <= k < |all| ensures all[k].InRange() {
        if k < |first| { assert all[k] == first[k]; } else { assert all[k] == rest[k - |first|]; }
      }
    }
    if first != [] {
      assert all[0] == first[0] && all[1..] == first[1..] + rest;
      assert AllInRange(first[1..]);
      if filled < CellsToFill {
        var m := first[0];
        if IsValidMove(g, m.row, m.col, m.num) {
          FillContinues(Place(g, m), filled + 1, first[1..], rest);
        } else {
          FillContinues(g, filled, first[1..], rest);
        }
      } else {
        FillStopsAtQuota(g, filled, all);
        FillStopsAtQuota(g, filled, rest);
      }
    } else {
      assert all == rest;
    }
  }

  /**
   * A counted placement can overwrite a filled cell, so the count of placements
   * overstates the filled cells: two accepted draws on (0, 0) leave one cell filled.
   */
  lemma CountedOverwrite()
    ensures var (h, n) := Fill(ZeroGrid(), 0, [Move(0, 0, 1), Move(0, 0, 2)]);
            n == 2 && FilledCells(h) == 1 && h[0][0] == 2
  {
    var z := ZeroGrid();
    var m1, m2 := Move(0, 0, 1), Move(0, 0, 2);
    var g1 := Place(z, m1);
    var g2 := Place(g1, m2);
    assert IsValidMove(z, 0, 0, 1) by {
      assert forall r, c :: 0 <= r < 9 && 0 <= c < 9 ==> z[r][c] == 0;
    }
    assert IsValidMove(g1, 0, 0, 2) by {
      AcceptsOverwrite();
    }
    var draws := [m1, m2];
    assert Fill(g2, 2, []) == (g2, 2);
    assert Fill(g1, 1, [m2]) == (g2, 2) by {
      assert [m2][1..] == [];
    }
    assert Fill(z, 0, draws) == (g2, 2) by {
      assert draws[0] == m1 && draws[1..] == [m2];
    }
    assert FilledCells(g2) == 1 by {
      ZeroGridSudoku();
      PlaceFilledCells(z, m1);
      PlaceFilledCells(g1, m2);
    }
  }

  /** The generator's first step: a 9x9 board built row by row, every cell 0. */
  method EmptyGrid() returns (grid: Grid)
    ensures grid == ZeroGrid()
  {
    grid := [];
    for i := 0 to 9
      invariant grid == ZeroGrid()[..i]
    {
      var line: seq<int> := [];
      for j := 0 to 9
        invariant line == seq(j, _ => 0)
      {
        line := line + [0];
      }
      grid := grid + [line];
    }
  }

  /**
   * The component's generator: a zero-filled 9x9 board, then random draws
   * (supplied here as `draws`) placed whenever the validator accepts them,
   * until 66 placements were counted.
   */
  method GenerateSudokuGrid(draws: seq<Move>) returns (grid: Grid, filled: nat)
    requires AllInRange(draws)
    ensures (grid, filled) == Fill(ZeroGrid(), 0, draws)
    ensures IsGrid(grid) && CellsInRange(grid) && Consistent(grid)
    ensures filled <= CellsToFill && FilledCells(grid) <= filled
  {
    grid := EmptyGrid();
    filled := 0;
    var k := 0;
    while filled < CellsToFill && k < |draws|
      invariant 0 <= k <= |draws|
      invariant IsGrid(grid) && filled <= CellsToFill
      invariant Fill(grid, filled, draws[k..]) == Fill(ZeroGrid(), 0, draws)
      decreases |draws| - k
    {
      var m := draws[k];
      assert draws[k..][0] == m && draws[k..][1..] == draws[k + 1..];
      var ok := CheckMove(grid, m.row, m.col, m.num);
      if ok {
        grid := Place(grid, m);
        filled := filled + 1;
      }
      k := k + 1;
    }
    ZeroGridSudoku();
    FillKeepsSudoku(ZeroGrid(), 0, draws);
  }

  /**
   * The component's state: the game and move status lines, whether a game
   * was started, the local board, and the count of rejected moves.
   */
  class Session {
    var gameStatus: string
    var gameStarted: bool
    var moveStatus: string
    var grid: Grid
    var invalidMoves: nat

    /** Before the first game nothing is set; afterwards the local board is a valid Sudoku board. */
    ghost predicate Valid()
      reads this
    {
      (gameStarted ==> IsGrid(grid) && CellsInRange(grid) && Consistent(grid)) &&
      (!gameStarted ==> grid == [] && gameStatus == "" && moveStatus == "" && invalidMoves == 0)
    }

    constructor ()
      ensures Valid() && !gameStarted
      ensures gameStatus == "" && moveStatus == "" && grid == [] && invalidMoves == 0
    {
      gameStatus, gameStarted, moveStatus, grid, invalidMoves := "", false, "", [], 0;
    }

    /** The status line is shown as game over iff the last move was rejected and at least three were. */
    function IsGameOver(): (over: bool)
      reads this
      requires Valid()
      ensures over ==> gameStarted && invalidMoves >= 3
    {
      moveStatus == InvalidStatus && invalidMoves >= 3
    }

    /** A cell accepts typing only in a started game and only while it is empty. */
    function ReadOnly(row: int, col: int): (locked: bool)
      reads this
      requires Valid() && 0 <= row < 9 && 0 <= col < 9
      ensures !locked ==> gameStarted && grid[row][col] == 0
      ensures gameStarted && 1 <= grid[row][col] <= 9 ==> locked
    {
      !gameStarted || grid[row][col] != 0
    }

    /** "Start New Game": a fresh generated board, status READY, counter and move status cleared. */
    method HandleNewGame(draws: seq<Move>)
      requires AllInRange(draws)
      modifies this
      ensures Valid() && gameStarted
      ensures grid == Fill(ZeroGrid(), 0, draws).0
      ensures gameStatus == ReadyStatus && invalidMoves == 0 && moveStatus == ""
    {
      var generated, _ := GenerateSudokuGrid(draws);
      grid := generated;
      gameStatus := ReadyStatus;
      gameStarted := true;
      invalidMoves := 0;
      moveStatus := "";
    }

    /**
     * A digit typed into (`row`, `col`); `num` is None when `parseInt` gave NaN.
     * Returns the move sent to the server, if any.
     */
    method HandleMoveValidation(row: int, col: int, num: Option<int>) returns (request: Option<Move>)
      requires Valid() && gameStarted && 0 <= row < 9 && 0 <= col < 9
      modifies this
      ensures Valid() && gameStarted && grid == old(grid)
      ensures invalidMoves >= old(invalidMoves)
      // not a digit: rejected without counting and without a server call
      ensures (num.None? || !(1 <= num.value <= 9)) ==>
                request == None && moveStatus == InvalidStatus &&
                invalidMoves == old(invalidMoves) && gameStatus == old(gameStatus)
      // allowed by the local rule: sent to the server
      ensures num.Some? && 1 <= num.value <= 9 && IsValidMove(grid, row, col, num.value) ==>
                request == Some(Move(row, col, num.value)) && moveStatus == ValidStatus &&
                invalidMoves == old(invalidMoves) && gameStatus == old(gameStatus)
      // refused by the local rule: counted, and the third refusal ends the game
      ensures num.Some? && 1 <= num.value <= 9 && !IsValidMove(grid, row, col, num.value) ==>
                request == None && moveStatus == InvalidStatus &&
                invalidMoves == old(invalidMoves) + 1 &&
                gameStatus == (if invalidMoves >= 3 then GameOverStatus else old(gameStatus))
    {
      request := None;
      if num.Some? && 1 <= num.value <= 9 {
        var ok := CheckMove(grid, row, col, num.value);
        if ok {
          request := Some(Move(row, col, num.value));
          moveStatus := ValidStatus;
        } else {
          moveStatus := InvalidStatus;
          if invalidMoves + 1 >= 3 {
            gameStatus := GameOverStatus;
          }
          invalidMoves := invalidMoves + 1;
        }
      } else {
        moveStatus := InvalidStatus;
      }
    }

    /**
     * The server's answer to a move request: its result string, or None when
     * the call failed. Only the status lines change.
     */
    method HandleMakeMoveOutcome(outcome: Option<string>)
      requires Valid() && gameStarted
      modifies this`gameStatus, this`moveStatus
      ensures Valid()
      ensures outcome.Some? ==> gameStatus == outcome.value && moveStatus == ""
      ensures outcome.None? ==> gameStatus == MoveErrorStatus && moveStatus == old(moveStatus)
    {
      if outcome.Some? {
        gameStatus := outcome.value;
        moveStatus := "";
      } else {
        gameStatus := MoveErrorStatus;
      }
    }
  }

  /**
   * Typing a filled cell's own digit three times (Enter on a read-only cell)
   * is refused each time and ends the game.
   */
  method ThreeStrikes(s: Session, row: int, col: int)
    requires s.Valid() && s.gameStarted && 0 <= row < 9 && 0 <= col < 9 && s.grid[row][col] != 0
    modifies s
    ensures s.Valid() && s.IsGameOver() && s.gameStatus == GameOverStatus
    ensures s.invalidMoves == old(s.invalidMoves) + 3 && s.grid == old(s.grid)
  {
    var v := s.grid[row][col];
    RejectsHeldValue(s.grid, row, col);
    var sent := s.HandleMoveValidation(row, col, Some(v));
    sent := s.HandleMoveValidation(row, col, Some(v));
    sent := s.HandleMoveValidation(row, col, Some(v));
  }
}

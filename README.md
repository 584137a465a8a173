# Sudoku rule engine: a Dafny model

This project models the rule core of a browser Sudoku game and its server.

- **The move rule.** A digit may go into a cell unless it already occurs in that cell's row, column or 3x3 block. The target cell is part of the scan. The client and the server each keep their own copy of this validator.
- **The server's board store.** One process-wide 9x9 board starts all zero. It is served by a reset handler, an occupancy query and a move handler. The move handler checks for missing fields, then ranges, then the rule, and writes one cell.
- **The client's puzzle generator.** It fills a zeroed board by placing random draws that the validator accepts, until 66 placements have been counted.
- **The client's session state machine.** It holds the game status, the started flag, the move status, the local board and the invalid-move counter.

Modules:

- `Rules` (`rules.dfy`): the board, the validator as one set-based predicate (`IsValidMove`), the Sudoku invariant (`Consistent`: no non-zero value repeats in a row, column or block), placement and the filled-cell count.
- `Client` (`client.dfy`): the component's loop validator, proved equal to `Rules.IsValidMove`. Also the generator, a method proved against the recursive definition `Fill`, and the `Session` class.
- `Server` (`server.dfy`): the `BoardStore` class over an `array2<int>`. It has a loop validator that is also proved equal to `Rules.IsValidMove`, and one method per handler.
- `Optional` (`option.dfy`): `Option`, for request fields that are absent and for input that `parseInt` could not read (NaN).

Both loop validators are proved equal to the same predicate. So the two copies in the source agree on every 9x9 board, for every in-range cell and every value.

`Server.BoardStore.Valid()` includes `Consistent` and "every cell in 0..9". The constructor and `Reset` establish it, and every handler preserves it. So any sequence of resets, queries and moves starting from process start keeps the Sudoku invariant.

## Notes

- After 5 at (0, 0), a move of 5 into (3, 0) is refused, because column 0 already holds 5 (`Server.Walkthrough`).
- A counted placement can overwrite a filled cell with a different, non-clashing digit. So the generator leaves at most 66 filled cells, not necessarily 66 (`Client.FillKeepsSudoku`, `Client.CountedOverwrite`).
- Client input outside 1..9, or NaN, sets the move status to Invalid without advancing the invalid-move counter.

## Model

| member | source | states |
|---|---|---|
| `Rules.IsValidMoveIff` | SudokuComponent.js:50-78 | the validator is false iff `num` equals some cell of the row, some cell of the column, or some cell of the 3x3 block whose origin is (row/3*3, col/3*3); true otherwise |
| `Rules.PeerIsScanned` | SudokuComponent.js:50-78 | the value of any cell that shares a row, column or block with the target, the target itself included, is refused at the target |
| `Rules.RejectsHeldValue` | SudokuComponent.js:52-56 | placing the value the target cell already holds is refused |
| `Rules.AcceptsOverwrite` | SudokuComponent.js:50-78 | a filled cell may be given a different digit that clashes with nothing: with 1 at (0, 0) and nothing else, 2 at (0, 0) is accepted |
| `Rules.Place` | app.js:72 | a placement sets exactly the target cell to the digit and leaves the other 80 cells as they were |
| `Rules.ZeroGridSudoku` | SudokuComponent.js:24-30 | the all-zero board has values in 0..9, satisfies the Sudoku invariant and has no filled cell |
| `Rules.PlaceKeepsConsistent` | SudokuComponent.js:41-44 | a placement the validator accepts keeps every cell in 0..9 and keeps "no non-zero value repeats in any row, column or block" |
| `Rules.PlaceFilledCells` | SudokuComponent.js:42-43 | a placement raises the filled-cell count by one when the target was empty and leaves it unchanged when it overwrites |
| `Client.CheckMove` | SudokuComponent.js:50-78 | the component's row, column and block loops with early exit return exactly `Rules.IsValidMove` on the board; they read the board and never change it |
| `Client.EmptyGrid` | SudokuComponent.js:22-30 | the nested initialisation loops build the 9x9 all-zero board |
| `Client.PlaceKeepsGeneratorState` | SudokuComponent.js:41-44 | one accepted draw below the quota keeps the board 9x9, in 0..9 and free of repeats, and keeps the filled cells at most the counted placements, which stay at most 66 |
| `Client.FillKeepsSudoku` | SudokuComponent.js:33-47 | from a valid board, the placement loop yields a 9x9 board with values 0..9 and no repeated digit in a unit; it counts at most 66 placements and leaves no more filled cells than placements |
| `Client.FillStopsAtQuota` | SudokuComponent.js:33-36 | once 66 placements are counted, no further draw is looked at and the board is returned as it is |
| `Client.FillContinues` | SudokuComponent.js:36-45 | the placement loop over two runs of draws equals the loop over the first run continued with the second; with `FillStopsAtQuota`, a result below 66 placements is no stop, since later draws are still examined |
| `Client.CountedOverwrite` | SudokuComponent.js:41-44 | the draws (0,0,1) then (0,0,2) are both accepted and counted, yet leave one filled cell holding 2 |
| `Client.GenerateSudokuGrid` | SudokuComponent.js:21-48 | the generator's result is the placement loop `Fill` over the draws from the zero board; so it is a 9x9 Sudoku-consistent board of values 0..9 with at most 66 counted placements and no more filled cells than placements |
| `Client.Session.constructor` | SudokuComponent.js:6-10 | a new component has empty status lines, is not started, has no board and has a zero counter |
| `Client.Session.IsGameOver` | SudokuComponent.js:172 | game over (last move Invalid and at least three refused moves) is only reached in a started game with the counter at 3 or more |
| `Client.Session.ReadOnly` | SudokuComponent.js:137 | a cell is editable only in a started game while it holds 0; every filled cell of a started game is locked |
| `Client.Session.HandleNewGame` | SudokuComponent.js:12-19 | a new game installs the generated board, sets status READY, marks the game started, and resets the counter to 0 and the move status to empty |
| `Client.Session.HandleMoveValidation` | SudokuComponent.js:80-96 | input outside 1..9 or NaN only sets the move status to Invalid. A locally valid digit sends exactly that move to the server and sets the move status to Valid. A refused digit sets Invalid, raises the counter by exactly one, and sets the game-over status when the new count is 3 or more. The local board never changes and the counter never decreases |
| `Client.Session.HandleMakeMoveOutcome` | SudokuComponent.js:98-107 | the server's result becomes the game status and clears the move status; a failed call sets the generic move-error status and leaves the move status |
| `Client.ThreeStrikes` | SudokuComponent.js:80-96 | entering a filled cell's own digit three times is refused each time and ends the game with the game-over status |
| `Server.BoardStore.constructor` | app.js:9 | the board at process start is 9x9 and all zero |
| `Server.BoardStore.Reset` | app.js:33-40 | reset installs a fresh all-zero board and answers READY; a second reset gives the same board as the first |
| `Server.BoardStore.CheckMove` | app.js:11-31 | the server's combined row/column loop and block loop return exactly `Rules.IsValidMove` on the stored board, without modifying it |
| `Server.BoardStore.QueryCell` | app.js:42-55 | row or col outside 0..8 gives the 400 "Invalid row or column." error; otherwise the answer is Invalid iff the cell is non-zero and Valid iff it is zero; the board is not modified |
| `Server.BoardStore.SubmitMove` | app.js:57-74 | a missing field gives the 400 missing-fields error, checked before ranges; row/col outside 0..8 or num outside 1..9 gives the 400 invalid-values error; a rule clash answers Invalid; all three leave the board unchanged. An accepted move writes its one cell and answers Valid. The Sudoku invariant is kept in every case |
| `Server.Walkthrough` | app.js:57-74 | on a fresh board 5 at (0,0) is Valid; 5 at (0,1), (1,1) and (3,0) is Invalid; (0,0) then queries as occupied and (0,1) as free; row 9 or num 0 is the invalid-values error; a missing col is the missing-fields error |

## Left out

- HTTP plumbing is not modelled: Express setup, CORS, JSON body parsing and listening on port 5000 (app.js:1-6, 76-79). Each handler is a method over already-parsed inputs, and its answer is a `Reply` value.
- JavaScript coercion is not modelled. `GET /move/:row/:col` compares string path parameters with numbers. A body may carry a non-integer or a string (`===` never matches the string "5"). Row, col and num are integers here, and an absent field is `None`.
- `Server.BoardStore.CheckMove` and `Client.CheckMove` require row and col in 0..8. Their callers always range-check first, or pass the coordinates of a rendered cell. The source's behaviour on an out-of-range index is not modelled.
- React rendering is not modelled: JSX, CSS classes, the layout of `renderGrid`, and the "invalid" decoration of empty cells after game over (SudokuComponent.js:109-185). The two predicates `isGameOver` and `readOnly` are modelled.
- The client's network call `SudokuService.makeMove` is not modelled (SudokuComponent.js:98-107). Its outcome is the parameter of `HandleMakeMoveOutcome`: the server's result string, or `None` for a failed call. How that asynchronous answer interleaves with later input is not modelled.
- `Math.random` is not modelled. The generator's random (row, col, num) triples are a caller-supplied sequence `draws`.
- Client.GenerateSudokuGrid: when the draws run out before 66 placements, the model returns the partial board. The source keeps drawing for as long as it takes. So the contract promises at most 66 placements, not exactly 66. `Client.FillContinues` shows that a result below 66 stops only for lack of draws.
- React batched state updates are not modelled. Each handler call is one atomic transition. The game-over test uses the counter's value before the increment plus one, as the source does.
- Concurrent requests against the shared server board are not modelled: the source has no concurrency control.

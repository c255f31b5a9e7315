# Connect Four game engine

A Dafny model of the game-state engine in `connect4.js`, a browser Connect Four
game for two players. The model leaves out the page. The engine's state is made of
the board (`board[y][x]` is row `y`, row 0 at the top, and column `x`), the player
to move (`currPlayer`, 1 or 2) and the stack of moves played (`moves`). Three
handlers change that state:

- a click on a column drops the player's piece to the lowest free cell. It then
  reports a win, a tie or a change of turn;
- the undo button takes back the last move;
- the reset button starts over.

The project has these modules:

- `Board` (board.dfy): cells and grid as values. It holds the column search
  `findSpotForCol`, the four-in-a-row test `checkForWin`/`_win` and the tie test.
- `Engine` (engine.dfy): the state as a value, with one step function per handler.
  It holds the invariant the handlers keep, and lemmas about clicks, undo, reset
  and runs of events.
- `Connect4` (game.dfy): class `Game`, whose fields are the script's three globals.
  Its methods are the handlers. They update the fields in place with the source's
  loops, and each one is proved to do exactly what the matching step function of
  `Engine` does.
- `Findings` (findings.dfy): two places where the code does not do what it
  evidently means to do. Each has a lemma about the code as written and a
  corrected step with its property proved.
- `Scenario` (scenario.dfy): a whole short game, seven clicks ending in a win on
  the bottom row.
- `Wrappers` (wrappers.dfy): `Option`.

The board is a sequence of rows, not a fixed two-dimensional array. In the
source, `makeBoard` pushes rows onto the existing array, and the reset handler
calls it again, so the board grows by six rows at every reset. The model keeps
that growth. Every indexed read `board[y][x]` uses rows 0 to 5; only the tie test walks the whole array. The invariant `Engine.Valid`
records that the appended rows stay empty.

The model follows the code where it differs from the usual description of this
game. It has no game-over status: clicks after a win or a tie are still played
(`Engine.DropPlacesOnePiece` has no precondition on earlier outcomes). A column
outside the grid is handled like a full column, not reported as a separate error.
Undo always switches the player. Reset keeps the old board rows. The last two
are listed under "## Findings".

## Model

| member | source | states |
|---|---|---|
| Board.LowestNull | connect4.js:61-68 | the downward scan from row `top` returns the largest free row at most `top`, with every cell between it and `top` taken; it returns None only when rows 0..top of column `x` are all taken |
| Board.SpotForCol | connect4.js:60-70 | `findSpotForCol(x)` is the lowest free row of column `x` (every row below it holds a piece), or None exactly when no row of the column is free |
| Board.OutsideColumnHasNoSpot | connect4.js:63 | a column index outside 0..WIDTH-1 reads `undefined`, never `null`, so the search reports no spot |
| Board.Win | connect4.js:127-140 | definition, no contract of its own: `_win(cells)`, every coordinate in the grid and holding the player's piece |
| Board.HasFour | connect4.js:141-159 | definition, no contract of its own: some anchor of the grid starts a horizontal, vertical or diagonal line of four that `_win` accepts; `Connect4.Game.CheckForWin` is proved to decide it |
| Board.Full | connect4.js:118 | definition, no contract of its own: the tie test, every cell of every row of the array non-null |
| Board.WinOfFour | connect4.js:127-140 | `_win` on four coordinates holds iff each is inside the grid and holds the player's piece |
| Board.HorizontalRunWins | connect4.js:141-157 | four pieces of `p` side by side in one row make `checkForWin` true |
| Board.VerticalRunWins | connect4.js:141-157 | four pieces of `p` stacked in one column make `checkForWin` true |
| Board.NewWinGoesThroughPlacedCell | connect4.js:113-114 | if the board had no four-in-a-row for `p` before `board[y][x] = p`, any four-in-a-row after it passes through (y, x) |
| Board.WinAvoidingCellSurvives | connect4.js:127-140 | a line that wins after the placement but does not contain the placed cell already won before it |
| Board.WinNeedsFourPieces | connect4.js:141-157 | a four-in-a-row for `p` needs at least four cells holding pieces of `p` |
| Engine.MakeBoard | connect4.js:15-26 | definition, no contract of its own: the board with six null rows of seven cells appended; `Connect4.Game.MakeBoard` is proved to compute it |
| Engine.DropStep | connect4.js:99-123 | definition, no contract of its own: the logic of `handleClick`; its properties are the Engine.Drop* lemmas and `Connect4.Game.HandleClick` is proved to compute it |
| Engine.UndoStep | connect4.js:167-182 | definition, no contract of its own: the undo handler; its properties are the Engine.Undo* lemmas and `Connect4.Game.Undo` is proved to compute it |
| Engine.ResetStep | connect4.js:188-192 | definition, no contract of its own: the reset handler; its properties are `Engine.ResetAppendsRows` and `Engine.ResetPreservesValid`, and `Connect4.Game.Reset` is proved to compute it |
| Engine.Initial | connect4.js:8-26 | the script's starting state (player 1, no moves, one `makeBoard()`) has six empty rows and satisfies the invariant |
| Engine.DropIgnoredIff | connect4.js:91-103 | a click reports the NaN case iff the target is not a number, and the full-column case iff the column has no free cell; the state is left unchanged iff one of those two happened |
| Engine.DropPlacesOnePiece | connect4.js:99-110 | a successful click sets exactly the lowest free cell of the column to the active player, changes no other cell and pushes `{x, y, player}` onto `moves` |
| Engine.DropOutcome | connect4.js:113-123 | a win is reported iff `checkForWin` holds on the new board; a tie iff there is no win and every cell is non-null; the turn passes iff neither happened |
| Engine.DropPreservesValid | connect4.js:106-123 | a click keeps the invariant (board shape, empty appended rows, player 1 or 2, moves naming distinct cells that hold their player's piece) and keeps every piece accounted for by a move |
| Engine.UndoEmptyIsNoop | connect4.js:167 | undo with no moves changes nothing |
| Engine.UndoClearsLastMove | connect4.js:170-182 | otherwise undo pops the last move, nulls exactly that cell, which held the mover's piece, and switches the player |
| Engine.UndoPreservesValid | connect4.js:170-182 | undo keeps the invariant and keeps every piece accounted for by a move |
| Engine.UndoInvertsContinuedDrop | connect4.js:99-123 | undo right after a click that neither won nor tied restores the board, the moves and the player exactly |
| Engine.MoveCellsCount | connect4.js:110 | moves naming distinct cells name as many cells as there are moves |
| Engine.PieceCountIsMoveCount | connect4.js:106-110 | while every piece belongs to a move, the number of non-null cells equals `moves.length` |
| Engine.ResetAppendsRows | connect4.js:188-192 | reset empties `moves` and sets player 1; `makeBoard` appends six null rows and keeps every existing row as it was |
| Engine.ResetPreservesValid | connect4.js:188-192 | reset keeps the invariant and leaves the set of occupied cells unchanged |
| Engine.Handle | connect4.js:89-192 | each handler keeps the invariant; clicks and undos also keep every piece accounted for by a move |
| Engine.Run | connect4.js:89-192 | a run of events keeps the invariant; with no reset among the events it keeps every piece accounted for |
| Engine.PieceCountAfterClicksAndUndos | connect4.js:106-110 | from the initial state, after any clicks and undos, the number of non-null cells equals `moves.length` |
| Connect4.Game.constructor | connect4.js:11-13 | the fields start as the initial state, with the invariant |
| Connect4.Game.MakeBoard | connect4.js:15-26 | the nested loops append six rows of seven nulls to `board` and change nothing else |
| Connect4.Game.FindSpotForCol | connect4.js:60-70 | the loop from the bottom row up returns exactly `Board.SpotForCol` |
| Connect4.Game.CheckForWin | connect4.js:126-160 | the scan over anchors and the four directions returns true iff some line of four cells is in bounds and all of the active player's |
| Connect4.Game.HandleClick | connect4.js:89-124 | the click handler keeps the invariant and leaves the fields and outcome given by `Engine.DropStep` |
| Connect4.Game.Undo | connect4.js:166-184 | the undo handler keeps the invariant and leaves the fields given by `Engine.UndoStep` |
| Connect4.Game.Reset | connect4.js:187-193 | the reset handler keeps the invariant and leaves the fields given by `Engine.ResetStep` |
| Findings.ResetKeepsPieces | connect4.js:15-26 | after reset every old piece is still on the board while `moves` is empty, so the pieces are accounted for only if the board was empty |
| Findings.TieImpossibleAfterReset | connect4.js:118 | once a reset has appended rows, the tie test can never hold |
| Findings.ResetAfterOneDrop | connect4.js:188-192 | after one drop in column 0 and a reset, the next piece in column 0 lands on row 4, on a piece that no move accounts for |
| Findings.ResetFresh | connect4.js:188-192 | the corrected reset gives six empty rows, no moves, player 1, with the invariant and every piece accounted for |
| Findings.ResetFreshEmptiesColumns | connect4.js:188-192 | after the corrected reset every column takes its next piece on the bottom row, the board is not full, and the piece count equals the move count |
| Findings.ResetFreshThenClicksAndUndos | connect4.js:106-110 | after the corrected reset, every later run of clicks and undos leaves as many pieces on the board as entries in `moves` |
| Findings.UndoAfterEndingDrop | connect4.js:182 | undoing a winning or tying click restores board and moves but hands the turn to the other player |
| Findings.UndoRestoringMover | connect4.js:170-183 | the corrected undo makes the player of the undone move active again |
| Findings.UndoRestoringMoverInvertsDrop | connect4.js:170-183 | the corrected undo inverts every click that placed a piece, whatever its outcome |
| Scenario.ClickContinues | connect4.js:99-123 | on the first board, before any reset: any click on column x whose lowest free cell is (y, x) and whose new board has no four-in-a-row for the mover and is not full is reported as a change of turn, and the piece joins the mover's cells in the layout |
| Scenario.FewPiecesNeitherWinNorTie | connect4.js:113-120 | a piece after which its player holds fewer than four cells, with the top-right cell still free, makes neither four in a row nor a full board |
| Scenario.ClickWins | connect4.js:113-114 | on the first board, before any reset, for either player: a click on column x whose lowest free cell is (y, x) and whose piece completes any of the four lines (horizontal, vertical or either diagonal) of some anchor, all of whose other cells already hold the mover's pieces, is reported as a win, keeps the player and pushes one move |
| Scenario.InitialLayout | connect4.js:8-26 | the initial board is empty with player 1 to move |
| Scenario.RunAppend | connect4.js:89-192 | handling two lists of events one after the other is handling their concatenation |
| Scenario.TwoClicksInColumn | connect4.js:99-123 | on the first board, before any reset, with player 1 to move: when neither player 1's piece nor player 2's piece on top of it wins or fills the board, two clicks in one column stack the two pieces and player 1 is to move again |
| Scenario.TwoFewClicksInColumn | connect4.js:99-123 | the same two clicks, when each player then holds fewer than four cells and the top-right cell stays free, so that neither click can win or tie |
| Scenario.OpeningLayout | connect4.js:99-123 | the clicks 0, 0, 1, 1, 2, 2 put player 1 on the bottom row at columns 0 to 2 and player 2 just above |
| Scenario.LastClickWins | connect4.js:113-114 | after that opening, a click on column 3 wins for player 1 |
| Scenario.FourInBottomRowWins | connect4.js:99-182 | the seventh click of that game is a win for player 1, who stays the player to move; undoing it then makes player 2 active |

## Left out

- Page construction and rendering: `makeHtmlBoard`, `placeInTable`, the removal of piece elements in undo, and the cell-clearing loop in reset (connect4.js:28-58, 72-83, 175-177, 196-208). These only show the state on the page.
- `endGame` and its `alert` (connect4.js:85-87). The model reports the end of the game as the `Outcome` of a click (`Won`, `Tied`).
- Event wiring and reading the column from `evt.target.id` with `+` and `isNaN` (connect4.js:35, 91-96, 166, 187). A click's target is an `Option<int>`, with None for a value that is not a number. Numeric ids that are not integers never occur on the page. They would behave like a column outside the grid, which the model does cover.
- Engine.State: the board is a sequence of row values, not a mutable array of row arrays. The source never shares a row between two places, so aliasing cannot be observed. A fixed two-dimensional array could not hold the rows that reset appends.
- Engine.DropStep: no game-over status and no separate invalid-column error, because the code has neither.
- Engine.UndoStep: undo does not restore the mover's identity, because the code does not. The intended behaviour is `Findings.UndoRestoringMover`.
- `checkForWin` returns `undefined`, not `false`, when no line wins. The model uses a boolean, and both values are falsy where the source checks them.

## Findings

| source | as written | input that shows it | evidently intended | confidence | as-written member | corrected member |
|---|---|---|---|---|---|---|
| connect4.js:188-192 | the reset handler calls `makeBoard`, which pushes six null rows after the existing ones. Every indexed read `board[y][x]` uses rows 0 to 5, so the previous game's pieces stay in play while `moves` is emptied. The appended rows stay null, so the tie test can never hold again | drop in column 0 on the first board, press reset, drop in column 0 again: the piece lands on row 4 instead of row 5 | reset replaces the board with six empty rows | not executed | Findings.ResetAfterOneDrop | Findings.ResetFresh |
| connect4.js:182 | undo always switches `currPlayer`. A click that won or tied did not switch it, so undoing that click makes the other player active | columns 0, 0, 1, 1, 2, 2, 3 from the start (player 1 wins), then undo: player 2 is to move although player 1 made the undone move | undo makes the player of the undone move active again (the comment at line 183 says so) | not executed | Findings.UndoAfterEndingDrop | Findings.UndoRestoringMover |

The class `Connect4.Game` keeps the behaviour as written. The corrected steps are
proved alongside it in module `Findings`.

# Flow-tree puzzle engine in Dafny

This project models the puzzle engine of Flow-tree, a browser game where the
player drags paths between same-coloured endpoint pairs on a square grid. The
whole game is one page script, `main.js`. The model keeps its grid logic and
drops the canvas and DOM code:

- **Board** (`board.dfy`). Cells are empty (`None`, the script's `null`) or hold a
  `{color, id}` record. The grid is `boardSize` × `boardSize`. `initializeBoard`
  empties the grid and places the one hard-coded pair, red with id 1, at (0,0)
  and (2,2). The difficulty table maps level L to size L + 4. `isGameWon` scans
  row by row and stops at the first empty cell.
- **Tracer** (`tracer.dfy`). This is the held path `selectedPath`, with its
  colour, id and visited cells. It holds the guard of a pointer move: Manhattan
  distance 1 from the last cell, and the target is empty or already holds the
  path's id and colour. It also holds the effect of an accepted step,
  `isPathComplete`, and `resetPath` as a function.
- **Session** (`session.dfy`). This is the script's module-level state (`boardSize`,
  `board`, `moveCount`, `isGameActive`, `selectedPath`) as the class
  `GameSession`. Its methods are the start button, the difficulty slider, the
  three pointer handlers, and the in-place `resetPath` loop. `selectedPath ==
  None` is the idle state.
- **Scenarios** (`scenarios.dfy`). These drive whole gestures through the
  session. They show what the handlers' contracts fix about event sequences.

The model follows what the code does, where a cleaner design might do otherwise:

- `moveCount` rises on every accepted move. That includes a move onto a cell
  the pair already holds.
- A move is never rejected for revisiting a cell already in the path.
- A second pointer-down during a drag replaces the held path.
- `resetPath` empties only visited cells whose id or colour differs from the
  path's. Every cell a traced path visits holds that path's own pair, so a
  failed attempt never empties anything (`Tracer.ResetOfOwnedPath`). The traced
  cells stay filled after the retry message, and the board fills up across
  attempts.
- Only the id is compared in `isPathComplete`, not the colour.
- The page never builds a board while it loads. The script's last lines call
  `resizeCanvas`, then `initializeBoard`. But `resizeCanvas` calls `drawBoard`,
  which reads `board[0][0]` while `board` is still `[]` and throws. So
  `initializeBoard` never runs at load, and the session starts with no grid.
  Until the start button or the difficulty slider builds one, the game is
  inactive, so every pointer event is ignored
  (`Scenarios.GestureBeforeStartIsIgnored`). A release in that state still ends
  with the `drawBoard` call of `handleMouseUp`, which throws again after
  `selectedPath` has been cleared. That throw comes from drawing and changes no
  state, so the model reports the release as `NoPath`, not `Threw`.
- The start button and the difficulty slider rebuild the board but keep a held
  path. This happens, for example, after a drag released outside the canvas,
  because the `mouseup` listener is on the canvas. The held path can then name
  cells that are now empty. On release, `isPathComplete` or `resetPath` then
  reads `.id` of `null` and throws a TypeError. The model reports this as the
  outcome `Threw`. The handler stops there and the path stays held
  (`Scenarios.RestartDuringDragThrows`). Paths traced on the current board
  never throw (`Session.GameSession.PointerUp`).

The session invariant `Valid()` holds after every handler. Either there is no
grid yet, and then the game is inactive and idle; or the grid is `boardSize`
square, both endpoints hold red/1, and every occupied cell holds red/1. It also says a held path is a non-empty walk of adjacent
cells of that pair, held only while the game is active. So once a board is built, no sequence of
events ever overwrites or empties an endpoint. The tracer's own invariant is
that every visited cell holds the path's pair (`PathOnBoard`). Pointer-down
establishes it and pointer-move preserves it. Rebuilding the board breaks it.

## Model

| member | source | states |
|---|---|---|
| Board.Write | main.js:144 | writing one cell keeps the grid's shape, sets that cell and leaves every other cell as it was |
| Board.EmptyBoard | main.js:39 | the fresh grid is n × n and every cell is empty |
| Board.InitialBoard | main.js:38-44 | the board is n × n, (0,0) and (2,2) hold red/1, and every other cell is empty |
| Board.SizeForLevel | main.js:24 | level L in 1..5 selects board size L + 4, one of the listed sizes |
| Board.IsGameWon | main.js:187-194 | the row-by-row scan with early return answers true exactly when every cell is occupied |
| Board.FillingLastEmptyCellWins | main.js:187-194 | a board with exactly one empty cell is not won, and filling that cell makes it won |
| Board.InitialBoardNotWon | main.js:38-44 | a freshly initialised board is never won |
| Tracer.GuardByNeighbours | main.js:140-141 | the move guard accepts exactly when the target is one of the four orthogonal neighbours of the last visited cell and is empty or holds exactly the path's `{color, id}` pair |
| Tracer.AdjacentIsNeighbour | main.js:140 | Manhattan distance 1 means exactly one of the four orthogonal neighbours |
| Tracer.Extend | main.js:139-146 | an accepted step appends the target, keeps the pair, gives an empty target the pair, changes no other cell and never overwrites an occupied cell |
| Tracer.Reset | main.js:177-183 | `resetPath` keeps the grid's shape; a cell only changes by being emptied when it was visited and held a different pair; it finishes only if every visited cell was occupied; when it finishes, every visited cell is empty or holds the path's own pair, so every foreign visited cell has been emptied |
| Tracer.IsPathComplete | main.js:168-175 | the check answers true exactly when the first and the last visited cells are occupied and both carry the path's id (the colour is not compared); it throws exactly when the first cell is empty or off the board, or when the first cell's id matches and the last cell is empty or off the board |
| Tracer.CompletenessIgnoresColor | main.js:168-175 | changing the path's colour never changes the completeness answer |
| Tracer.StartOwned | main.js:125-126 | a path started on an occupied cell is a walk whose cell holds the path's pair |
| Tracer.ExtendKeepsOwnership | main.js:139-145 | an accepted step preserves "every visited cell holds the path's pair" |
| Tracer.ExtendKeepsWalk | main.js:139-142 | an accepted step keeps consecutive path cells adjacent |
| Tracer.RevisitIsAccepted | main.js:140-141 | a cell already in a traced path is accepted again whenever it is adjacent to the last cell |
| Tracer.OwnedPathIsComplete | main.js:168-175 | every path the tracer builds is complete (and reading it does not throw) |
| Tracer.ResetOwnedCells | main.js:179-183 | `resetPath` over cells that all hold the pair finishes and changes nothing |
| Tracer.ResetOfOwnedPath | main.js:177-183 | `resetPath` of a path the tracer built finishes and leaves the board unchanged |
| Tracer.ResetOnSinglePairBoard | main.js:177-183 | on a board whose occupied cells all hold one pair, `resetPath` for that pair never changes the board and finishes exactly when no visited cell is empty or off the board |
| Tracer.StalePathThrows | main.js:168-175 | on a rebuilt 5×5 board, `isPathComplete` of a path ending on the now-empty (0,1) throws |
| Session.GameSession.constructor | main.js:13-18 | after the page script has run, the size is 7 and there is still no grid (`board == []`, because the load-time `resizeCanvas` call at main.js:204 runs `drawBoard`, which throws before `initializeBoard` at main.js:205 can run), with no moves, inactive and idle |
| Session.GameSession.Start | main.js:29-36 | start sets the move count to 0, activates the game and builds the board (also when there was none yet); size and held path are kept; the invariant is preserved |
| Session.GameSession.SetDifficulty | main.js:22-27 | level L sets the size to L + 4 and builds the board (also when there was none yet); move count, active flag and held path are kept |
| Session.GameSession.PointerDown | main.js:116-128 | while active, pressing an occupied cell makes the held path that single cell with its pair (replacing any held path) and establishes the tracer invariant; otherwise nothing changes, and before a board is built nothing is ever held |
| Session.GameSession.PointerMove | main.js:130-150 | exactly when a path is held and the guard accepts, board and path become the accepted step and the count rises by exactly 1; otherwise nothing changes; occupied cells are never overwritten; the tracer invariant and the session invariant are preserved; before a board is built nothing changes |
| Session.GameSession.ResetPath | main.js:177-185 | the in-place loop leaves the board and the finished flag that `Tracer.Reset` describes |
| Session.GameSession.PointerUp | main.js:152-166 | with no path: idle, nothing else changes; a throwing completeness check keeps everything; incomplete: idle; complete and full: game inactive, reported as won with the move count; complete and not full: reset, then retry and idle, or a throw that keeps the path; the board never changes; for a traced path the outcome is won or retry; the active flag changes exactly on a win; before a board is built it reports no path and nothing changes |
| Scenarios.RetryKeepsTracedCells | main.js:152-166 | press (0,0), move through (0,1), (1,1), (2,1) to (2,2), and release on a 5×5 board: retry, 4 moves; the traced cell (2,1) stays filled and the untouched cell (1,0) stays empty |
| Scenarios.RevisitIsCounted | main.js:139-146 | moving to (0,1) and back onto the endpoint (0,0) is accepted: 2 moves, a path of 3 cells |
| Scenarios.RestartDuringDragThrows | main.js:29-34 | pressing start during a drag and then releasing throws, and the path stays held |
| Scenarios.GestureBeforeStartIsIgnored | main.js:116-166 | before start, a press, a move and a release report no path and leave the board empty; start then builds the 7×7 board |

## Left out

- Canvas drawing (`drawBoard`, `drawPath`) and canvas resizing. They are drawing side effects with floating-point geometry. The one place where drawing changes the game state, the load-time throw that stops `initializeBoard` from running, is modelled by the constructor's empty board.
- Pixel-to-grid conversion in the pointer handlers. It uses the canvas rectangle, float division and `Math.floor`. The handlers take integer grid coordinates inside the board as a precondition instead.
- Event wiring (mouse and touch listeners), message texts and colours, the move-counter label and the localised difficulty labels. These are page output; only the state changes they go with are modelled.
- The rules dialog and the window-resize listener. They are page behaviour only; their listeners are registered after the load-time throw, so they are never attached.
- A board generator. The script has none, only the hard-coded red pair.
- The difficulty slider's range 1..5. It comes from the page markup, which is not part of this model, so `SetDifficulty` takes it as a precondition.
- What happens after a TypeError escapes a handler (console reporting). The model stops the handler at the throw and keeps the state reached so far.
- `moveCount` is a JavaScript number. The model uses an unbounded natural, since the count cannot get near 2^53 in play.

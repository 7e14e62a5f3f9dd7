/**
 The game session: the module-level state of the page script (`boardSize`,
 `board`, `moveCount`, `isGameActive`, `selectedPath`) and the state changes
 made by the start button, the difficulty slider and the three pointer
 handlers. Pixel-to-grid conversion is left to the caller, which passes
 in-range grid coordinates.
 */
module Session {
  import opened Board
  import opened Tracer

  /** What pointer-up reports: no path was held, the path was incomplete, the
      board was won (with the final move count), the retry message, or the
      handler threw a TypeError part way. */
  datatype Outcome = NoPath | Incomplete | Won(moves: int) | Retry | Threw

  class GameSession {
    var boardSize: int
    var board: Grid
    var moveCount: nat
    var isGameActive: bool
    /** `None` is the idle state (`selectedPath === null`). */
    var selectedPath: Option<Trace>

    /** The state the page is left in when it loads: `board` is still `[]`,
        because the first `drawBoard` reads `board[0][0]` and throws before
        `initializeBoard` runs. Only the start button and the slider build a grid. */
    ghost predicate Unbuilt()
      reads this
    {
      board == [] && !isGameActive && selectedPath == None
    }

    /** A built board: the grid matches `boardSize`, both endpoints hold the
        red pair and every occupied cell holds the red pair. */
    ghost predicate Built()
      reads this
    {
      && IsSquare(board, boardSize)
      && Read(board, EndA) == Some(Red1)
      && Read(board, EndB) == Some(Red1)
      && OnlyPair(board, Red1)
    }

    /** What holds between events: the board is unbuilt or built, and a held
        path is a non-empty walk of the red pair, held only while the game is active. */
    ghost predicate Valid()
      reads this
    {
      && boardSize in BoardSizes
      && (Unbuilt() || Built())
      && (selectedPath.Some? ==>
            && isGameActive
            && selectedPath.value.Pair() == Red1
            && selectedPath.value.path != []
            && IsWalk(selectedPath.value.path))
    }

    /** The tracer's invariant for the held path (broken by rebuilding the
        board while a path is held). */
    ghost predicate PathOnBoard()
      reads this
    {
      selectedPath.Some? ==> PathOwned(board, selectedPath.value)
    }

    /** A pointer move to (row, col) passes the guard of `handleMouseMove`. */
    ghost predicate Accepts(row: int, col: int)
      reads this
    {
      selectedPath.Some? && selectedPath.value.path != [] &&
      CanExtend(board, selectedPath.value, Coord(row, col))
    }

    /** The state after the page script has run: size of level 3, no grid yet
        (the load-time `drawBoard` throws before `initializeBoard`), no moves,
        inactive, idle. */
    constructor ()
      ensures Valid() && Unbuilt() && PathOnBoard()
      ensures boardSize == BoardSizes[2] && board == []
      ensures moveCount == 0 && !isGameActive && selectedPath == None
    {
      boardSize := BoardSizes[2];
      board := [];
      moveCount := 0;
      isGameActive := false;
      selectedPath := None;
    }

    /** The start button: resets the counter, activates the game and rebuilds
        the board; a held path is kept. */
    method Start()
      requires Valid()
      modifies this
      ensures Valid() && Built()
      ensures moveCount == 0 && isGameActive && board == InitialBoard(boardSize)
      ensures boardSize == old(boardSize) && selectedPath == old(selectedPath)
    {
      moveCount := 0;
      isGameActive := true;
      board := InitialBoard(boardSize);
    }

    /** The difficulty slider: level L selects size L + 4 and rebuilds the
        board; the counter, the active flag and a held path are kept. */
    method SetDifficulty(level: int)
      requires Valid() && 1 <= level <= 5
      modifies this
      ensures Valid() && Built()
      ensures boardSize == SizeForLevel(level) == level + 4
      ensures board == InitialBoard(boardSize)
      ensures moveCount == old(moveCount) && isGameActive == old(isGameActive)
      ensures selectedPath == old(selectedPath)
    {
      boardSize := SizeForLevel(level);
      board := InitialBoard(boardSize);
    }

    /** `handleMouseDown`: while the game is active, pressing an occupied cell
        starts (or replaces) the held path with that one cell and its pair;
        otherwise nothing changes. */
    method PointerDown(row: int, col: int)
      requires Valid() && 0 <= row < boardSize && 0 <= col < boardSize
      modifies this
      ensures Valid()
      ensures board == old(board) && boardSize == old(boardSize)
      ensures moveCount == old(moveCount) && isGameActive == old(isGameActive)
      ensures old(isGameActive) && Read(old(board), Coord(row, col)).Some? ==>
                var cell := Read(old(board), Coord(row, col)).value;
                selectedPath == Some(Trace(cell.color, cell.id, [Coord(row, col)]))
      ensures !(old(isGameActive) && Read(old(board), Coord(row, col)).Some?) ==> selectedPath == old(selectedPath)
      ensures old(isGameActive) && Read(old(board), Coord(row, col)).Some? ==> PathOnBoard()
      ensures old(Unbuilt()) ==> Unbuilt()
    {
      if !isGameActive {
        return;
      }
      var cell := board[row][col];
      if cell.Some? {
        assert Read(board, Coord(row, col)) == cell;
        selectedPath := Some(Trace(cell.value.color, cell.value.id, [Coord(row, col)]));
        StartOwned(board, Coord(row, col));
      }
    }

    /** `handleMouseMove`: when the guard accepts, the target joins the path,
        an empty target takes the pair, and the counter rises by one (also for
        a cell the pair already holds); otherwise nothing changes. */
    method PointerMove(row: int, col: int)
      requires Valid() && 0 <= row < boardSize && 0 <= col < boardSize
      modifies this
      ensures Valid()
      ensures boardSize == old(boardSize) && isGameActive == old(isGameActive)
      ensures old(Accepts(row, col)) ==>
                && selectedPath.Some?
                && Step(board, selectedPath.value) == Extend(old(board), old(selectedPath).value, Coord(row, col))
                && moveCount == old(moveCount) + 1
      ensures !old(Accepts(row, col)) ==>
                board == old(board) && selectedPath == old(selectedPath) && moveCount == old(moveCount)
      ensures forall q :: Read(old(board), q).Some? ==> Read(board, q) == Read(old(board), q)
      ensures old(PathOnBoard()) ==> PathOnBoard()
      ensures old(Unbuilt()) ==> Unbuilt()
    {
      if selectedPath.None? {
        return;
      }
      var t := selectedPath.value;
      var target := Coord(row, col);
      var last := t.path[|t.path| - 1];
      var cell := board[row][col];
      assert Read(board, target) == cell;
      if Abs(last.row - row) + Abs(last.col - col) == 1 &&
         (cell.None? || (cell.value.id == t.id && cell.value.color == t.color))
      {
        ghost var before := board;
        selectedPath := Some(t.(path := t.path + [target]));
        if cell.None? {
          board := Write(board, target, Some(t.Pair()));
        }
        moveCount := moveCount + 1;
        assert Step(board, selectedPath.value) == Extend(before, t, target);
        ExtendKeepsWalk(before, t, target);
        if PathOwned(before, t) {
          ExtendKeepsOwnership(before, t, target);
        }
      }
    }

    /** `resetPath`: walks the path in order and empties each visited cell whose
        id or color differs from the path's; an empty or missing cell throws
        (reported as `finished == false`), keeping the writes made so far. */
    method ResetPath(t: Trace) returns (finished: bool)
      modifies this`board
      ensures ResetRun(board, finished) == Reset(old(board), t.color, t.id, t.path)
    {
      var i := 0;
      while i < |t.path|
        invariant 0 <= i <= |t.path|
        invariant Reset(board, t.color, t.id, t.path[i..]) == Reset(old(board), t.color, t.id, t.path)
      {
        var pos := t.path[i];
        assert t.path[i..][0] == pos && t.path[i..][1..] == t.path[i + 1..];
        var cell := Read(board, pos);
        if cell.None? {
          return false;
        }
        if !(cell.value.id == t.id && cell.value.color == t.color) {
          board := Write(board, pos, None);
        }
        i := i + 1;
      }
      return true;
    }

    /** `handleMouseUp`: a held, complete path ends the game if the board is
        full and otherwise goes through `resetPath` with the retry message; the
        handler always ends idle unless it throws, which it does only for a
        path whose first or last cell (or, during the reset, any visited cell)
        is empty or off the board. */
    method PointerUp() returns (outcome: Outcome)
      requires Valid()
      modifies this
      ensures Valid()
      ensures board == old(board) && boardSize == old(boardSize) && moveCount == old(moveCount)
      ensures old(selectedPath).None? ==>
                outcome == NoPath && selectedPath == None && isGameActive == old(isGameActive)
      ensures old(selectedPath).Some? ==>
                var t := old(selectedPath).value;
                match IsPathComplete(old(board), t)
                case Throws =>
                  outcome == Threw && selectedPath == old(selectedPath) && isGameActive == old(isGameActive)
                case Returns(false) =>
                  outcome == Incomplete && selectedPath == None && isGameActive == old(isGameActive)
                case Returns(true) =>
                  if IsFull(old(board)) then
                    outcome == Won(moveCount) && selectedPath == None && !isGameActive
                  else
                    && isGameActive == old(isGameActive)
                    && board == Reset(old(board), t.color, t.id, t.path).board
                    && if Reset(old(board), t.color, t.id, t.path).finished
                       then outcome == Retry && selectedPath == None
                       else outcome == Threw && selectedPath == old(selectedPath)
      ensures old(selectedPath).Some? && old(PathOnBoard()) ==>
                outcome == (if IsFull(old(board)) then Won(moveCount) else Retry) && selectedPath == None
      ensures isGameActive != old(isGameActive) <==> outcome.Won?
      ensures old(Unbuilt()) ==> outcome == NoPath && Unbuilt()
    {
      if selectedPath.Some? {
        var t := selectedPath.value;
        var complete := IsPathComplete(board, t);
        if PathOwned(board, t) {
          OwnedPathIsComplete(board, t);
          ResetOfOwnedPath(board, t);
        }
        if complete.Throws? {
          return Threw;
        }
        if complete.value {
          var won := IsGameWon(board, boardSize);
          if won {
            isGameActive := false;
            outcome := Won(moveCount);
          } else {
            ResetOnSinglePairBoard(board, Red1, t.path);
            var finished := ResetPath(t);
            if !finished {
              return Threw;
            }
            outcome := Retry;
          }
        } else {
          outcome := Incomplete;
        }
      } else {
        outcome := NoPath;
      }
      selectedPath := None;
    }
  }
}

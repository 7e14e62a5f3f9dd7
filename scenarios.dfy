/**
 Gestures driven through the game session, showing what the handlers'
 contracts determine about whole event sequences.
 */
module Scenarios {
  import opened Board
  import opened Tracer
  import opened Session

  /** On the 5x5 board: press (0,0), move to (0,1), (1,1), (2,1) and the other
      endpoint (2,2), and release. The path is complete but the board is not
      full, so the retry is reported, the four moves stay counted and the
      traced cells stay filled. */
  method RetryKeepsTracedCells() returns (outcome: Outcome, moves: int, board: Grid)
    ensures outcome == Retry && moves == 4
    ensures Read(board, Coord(2, 1)) == Some(Red1)
    ensures Read(board, Coord(1, 0)) == None
  {
    var s := new GameSession();
    s.SetDifficulty(1);
    s.Start();
    TwoFromStart(s);
    TwoToEnd(s);
    assert InBounds(s.board, Coord(1, 0));
    assert !IsFull(s.board);
    outcome := s.PointerUp();
    moves := s.moveCount;
    board := s.board;
  }

  /** The press and the first two moves of the gesture above. */
  method TwoFromStart(s: GameSession)
    requires s.Valid() && s.boardSize == 5 && s.isGameActive
    requires s.moveCount == 0 && s.board == InitialBoard(5)
    modifies s
    ensures s.Valid() && s.boardSize == 5 && s.selectedPath.Some? && s.PathOnBoard()
    ensures s.moveCount == 2 && s.selectedPath.value.path[|s.selectedPath.value.path| - 1] == Coord(1, 1)
    ensures Read(s.board, Coord(1, 0)) == None
  {
    assert Read(s.board, Coord(0, 0)) == Some(Red1);
    assert Read(s.board, Coord(1, 0)) == None;
    s.PointerDown(0, 0);
    Move(s, 0, 1, 1, Coord(1, 0), Coord(0, 0));
    Move(s, 1, 1, 2, Coord(1, 0), Coord(0, 1));
  }

  /** The last two moves of the gesture above: (2,1), then the endpoint (2,2). */
  method TwoToEnd(s: GameSession)
    requires s.Valid() && s.boardSize == 5 && s.selectedPath.Some? && s.PathOnBoard()
    requires s.moveCount == 2 && s.selectedPath.value.path[|s.selectedPath.value.path| - 1] == Coord(1, 1)
    requires Read(s.board, Coord(1, 0)) == None
    modifies s
    ensures s.Valid() && s.boardSize == 5 && s.selectedPath.Some? && s.PathOnBoard()
    ensures s.moveCount == 4
    ensures Read(s.board, Coord(2, 1)) == Some(Red1)
    ensures Read(s.board, Coord(1, 0)) == None
  {
    Move(s, 2, 1, 3, Coord(1, 0), Coord(0, 0));
    Move(s, 2, 2, 4, Coord(1, 0), Coord(2, 1));
  }

  /** Press (0,0), move to (0,1) and back onto (0,0): the revisit is accepted
      and counted like any other move, and the path grows to three cells. */
  method RevisitIsCounted() returns (moves: int, pathLength: int)
    ensures moves == 2 && pathLength == 3
  {
    var s := new GameSession();
    s.Start();
    assert Read(s.board, Coord(0, 0)) == Some(Red1);
    assert Read(s.board, Coord(1, 0)) == None;
    s.PointerDown(0, 0);
    Move(s, 0, 1, 1, Coord(1, 0), Coord(0, 0));
    Move(s, 0, 0, 2, Coord(1, 0), Coord(0, 1));
    moves := s.moveCount;
    pathLength := |s.selectedPath.value.path|;
  }

  /** One move of a held red path to a cell next to the path's
      last cell: it is accepted and counted, fills the target, and keeps
      the watched empty cell empty and the watched red cell red. */
  method Move(s: GameSession, row: int, col: int, ghost k: nat, ghost empty: Coord, ghost kept: Coord)
    requires s.Valid() && 0 <= row < s.boardSize && 0 <= col < s.boardSize
    requires s.selectedPath.Some? && s.PathOnBoard() && s.moveCount == k - 1
    requires empty != Coord(row, col) && Read(s.board, empty) == None
    requires Read(s.board, kept) == Some(Red1)
    requires Adjacent(s.selectedPath.value.path[|s.selectedPath.value.path| - 1], Coord(row, col))
    modifies s
    ensures s.Valid() && s.boardSize == old(s.boardSize) && s.moveCount == k
    ensures s.selectedPath.Some? && s.PathOnBoard() && s.selectedPath.value.path[|s.selectedPath.value.path| - 1] == Coord(row, col)
    ensures |s.selectedPath.value.path| == |old(s.selectedPath).value.path| + 1
    ensures Read(s.board, Coord(row, col)) == Some(Red1)
    ensures Read(s.board, empty) == None
    ensures Read(s.board, kept) == Some(Red1)
  {
    s.PointerMove(row, col);
  }

  /** Press (0,0), move to (0,1), press start again (the board is rebuilt but
      the path is kept), then release: `isPathComplete` reads the emptied
      cell (0,1) and throws, so the path stays held. */
  method RestartDuringDragThrows() returns (outcome: Outcome, held: bool)
    ensures outcome == Threw && held
  {
    var s := new GameSession();
    s.Start();
    assert Read(s.board, Coord(0, 0)) == Some(Red1);
    s.PointerDown(0, 0);
    assert Read(s.board, Coord(0, 1)) == None;
    s.PointerMove(0, 1);
    s.Start();
    assert Read(s.board, Coord(0, 1)) == None;
    outcome := s.PointerUp();
    held := s.selectedPath.Some?;
  }

  /** Before the start button or the slider is used the page has no grid: a
      press, a move and a release are all ignored, and the board is still
      empty. The start button then builds the 7x7 board. */
  method GestureBeforeStartIsIgnored() returns (outcome: Outcome, before: Grid, after: Grid)
    ensures outcome == NoPath && before == []
    ensures after == InitialBoard(7)
  {
    var s := new GameSession();
    s.PointerDown(0, 0);
    s.PointerMove(0, 1);
    outcome := s.PointerUp();
    before := s.board;
    s.Start();
    after := s.board;
  }
}

/**
 The path tracer's pure logic: the path being dragged (`selectedPath`), the
 adjacency-and-ownership guard of a pointer move, the effect of an accepted
 step, `isPathComplete` and `resetPath`.
 */
module Tracer {
  import opened Board

  /** `selectedPath`: the color and id of the pair being traced and the cells visited. */
  datatype Trace = Trace(color: string, id: int, path: seq<Coord>)
  {
    /** The `{color, id}` record a step writes into an empty cell. */
    function Pair(): Cell
    {
      Cell(color, id)
    }
  }

  function Abs(x: int): nat
  {
    if x < 0 then -x else x
  }

  /** Manhattan distance 1. */
  predicate Adjacent(a: Coord, b: Coord)
  {
    Abs(a.row - b.row) + Abs(a.col - b.col) == 1
  }

  /** Adjacency is exactly the four orthogonal neighbours. */
  lemma AdjacentIsNeighbour(a: Coord, b: Coord)
    ensures Adjacent(a, b) <==>
            b in {Coord(a.row - 1, a.col), Coord(a.row + 1, a.col),
                  Coord(a.row, a.col - 1), Coord(a.row, a.col + 1)}
  {
  }

  /** Consecutive cells of the path are adjacent. */
  ghost predicate IsWalk(ps: seq<Coord>)
  {
    forall i :: 0 < i < |ps| ==> Adjacent(ps[i - 1], ps[i])
  }

  /** The tracer's invariant: every visited cell holds the pair being traced. */
  ghost predicate PathOwned(g: Grid, t: Trace)
  {
    forall i :: 0 <= i < |t.path| ==> Read(g, t.path[i]) == Some(t.Pair())
  }

  /** The guard of `handleMouseMove`: the target is next to the last cell of the
      path, and is empty or already holds the path's id and color. A cell that
      is already in the path is not rejected. */
  predicate CanExtend(g: Grid, t: Trace, target: Coord)
    requires t.path != []
  {
    Adjacent(t.path[|t.path| - 1], target) &&
    (Read(g, target).None? ||
     (Read(g, target).value.id == t.id && Read(g, target).value.color == t.color))
  }

  /** The guard in geometric terms: the target is one of the four orthogonal
      neighbours of the last cell and is empty or holds exactly the path's pair. */
  lemma GuardByNeighbours(g: Grid, t: Trace, target: Coord)
    requires t.path != []
    ensures var last := t.path[|t.path| - 1];
            CanExtend(g, t, target) <==>
            && target in {Coord(last.row - 1, last.col), Coord(last.row + 1, last.col),
                          Coord(last.row, last.col - 1), Coord(last.row, last.col + 1)}
            && (Read(g, target) == None || Read(g, target) == Some(t.Pair()))
  {
    AdjacentIsNeighbour(t.path[|t.path| - 1], target);
  }

  /** The board and path after an accepted pointer move. */
  datatype Step = Step(board: Grid, trace: Trace)

  /** An accepted step: the target is appended to the path, and an empty target
      is given the path's `{color, id}`. */
  function Extend(g: Grid, t: Trace, target: Coord): (s: Step)
    requires t.path != [] && InBounds(g, target) && CanExtend(g, t, target)
    ensures s.trace.color == t.color && s.trace.id == t.id
    ensures |s.trace.path| == |t.path| + 1
    ensures s.trace.path[..|t.path|] == t.path && s.trace.path[|t.path|] == target
    ensures SameShape(s.board, g)
    ensures Read(s.board, target) == Some(t.Pair())
    ensures forall q :: q != target ==> Read(s.board, q) == Read(g, q)
    ensures forall q :: Read(g, q).Some? ==> Read(s.board, q) == Read(g, q)
  {
    var board := if Read(g, target).None? then Write(g, target, Some(t.Pair())) else g;
    Step(board, t.(path := t.path + [target]))
  }

  /** `isPathComplete`: the first and the last cell of the path both carry the
      path's id (the color is not compared). Reading `.id` of an empty or
      missing cell throws. */
  function IsPathComplete(g: Grid, t: Trace): (r: Eval<bool>)
    requires t.path != []
    ensures r == Returns(true) <==>
            && Read(g, t.path[0]).Some? && Read(g, t.path[0]).value.id == t.id
            && Read(g, t.path[|t.path| - 1]).Some? && Read(g, t.path[|t.path| - 1]).value.id == t.id
    ensures r == Throws <==>
            || Read(g, t.path[0]).None?
            || (Read(g, t.path[0]).value.id == t.id && Read(g, t.path[|t.path| - 1]).None?)
  {
    var start := Read(g, t.path[0]);
    if start.None? then Throws
    else if start.value.id != t.id then Returns(false)
    else
      var last := Read(g, t.path[|t.path| - 1]);
      if last.None? then Throws else Returns(last.value.id == t.id)
  }

  /** The board after `resetPath` and whether its `forEach` ran to the end.
      Each visited cell whose id or color differs from the pair's is emptied;
      an empty or missing cell throws, leaving the writes made so far. */
  datatype ResetRun = ResetRun(board: Grid, finished: bool)

  function Reset(g: Grid, color: string, id: int, ps: seq<Coord>): (r: ResetRun)
    ensures SameShape(r.board, g)
    ensures forall q :: Read(r.board, q) == Read(g, q) ||
                        (Read(r.board, q) == None && q in ps && Read(g, q).Some? &&
                         Read(g, q).value != Cell(color, id))
    ensures r.finished ==> forall i :: 0 <= i < |ps| ==> Read(g, ps[i]).Some?
    ensures r.finished ==> forall i :: 0 <= i < |ps| ==>
              Read(r.board, ps[i]) == None || Read(r.board, ps[i]) == Some(Cell(color, id))
    decreases |ps|
  {
    if ps == [] then ResetRun(g, true)
    else
      var cell := Read(g, ps[0]);
      if cell.None? then ResetRun(g, false)
      else
        var g' := if !(cell.value.id == id && cell.value.color == color) then Write(g, ps[0], None) else g;
        Reset(g', color, id, ps[1..])
  }

  /** Pointer-down on an occupied cell starts a path that satisfies the tracer's invariant. */
  lemma StartOwned(g: Grid, p: Coord)
    requires Read(g, p).Some?
    ensures PathOwned(g, Trace(Read(g, p).value.color, Read(g, p).value.id, [p]))
    ensures IsWalk([p])
  {
  }

  /** An accepted step keeps every visited cell owned by the pair. */
  lemma ExtendKeepsOwnership(g: Grid, t: Trace, target: Coord)
    requires t.path != [] && InBounds(g, target) && CanExtend(g, t, target)
    requires PathOwned(g, t)
    ensures PathOwned(Extend(g, t, target).board, Extend(g, t, target).trace)
  {
    var s := Extend(g, t, target);
    forall i | 0 <= i < |s.trace.path|
      ensures Read(s.board, s.trace.path[i]) == Some(s.trace.Pair())
    {
      if i < |t.path| {
        assert s.trace.path[i] == s.trace.path[..|t.path|][i] == t.path[i];
      }
    }
  }

  /** An accepted step keeps the path a walk of adjacent cells. */
  lemma ExtendKeepsWalk(g: Grid, t: Trace, target: Coord)
    requires t.path != [] && InBounds(g, target) && CanExtend(g, t, target)
    requires IsWalk(t.path)
    ensures IsWalk(Extend(g, t, target).trace.path)
  {
    var ps := Extend(g, t, target).trace.path;
    forall i | 0 < i < |ps|
      ensures Adjacent(ps[i - 1], ps[i])
    {
      assert ps[i - 1] == ps[..|t.path|][i - 1] == t.path[i - 1];
      if i < |t.path| {
        assert ps[i] == ps[..|t.path|][i] == t.path[i];
      }
    }
  }

  /** Revisiting: a cell already in the path is accepted again whenever it is
      adjacent to the last cell. */
  lemma RevisitIsAccepted(g: Grid, t: Trace, i: int)
    requires PathOwned(g, t)
    requires 0 <= i < |t.path| && Adjacent(t.path[|t.path| - 1], t.path[i])
    ensures CanExtend(g, t, t.path[i])
  {
    assert Read(g, t.path[i]) == Some(t.Pair());
  }

  /** Every path the tracer builds is complete. */
  lemma OwnedPathIsComplete(g: Grid, t: Trace)
    requires t.path != [] && PathOwned(g, t)
    ensures IsPathComplete(g, t) == Returns(true)
  {
    assert Read(g, t.path[0]) == Some(t.Pair());
    assert Read(g, t.path[|t.path| - 1]) == Some(t.Pair());
  }

  /** Only the id decides completeness: tracing with any other color gives the
      same answer on the same board. */
  lemma CompletenessIgnoresColor(g: Grid, t: Trace, color: string)
    requires t.path != []
    ensures IsPathComplete(g, t.(color := color)) == IsPathComplete(g, t)
  {
  }

  /** `resetPath` over cells that all hold the pair changes nothing. */
  lemma {:induction false} ResetOwnedCells(g: Grid, color: string, id: int, ps: seq<Coord>)
    requires forall i :: 0 <= i < |ps| ==> Read(g, ps[i]) == Some(Cell(color, id))
    ensures Reset(g, color, id, ps) == ResetRun(g, true)
    decreases |ps|
  {
    if ps != [] {
      assert Read(g, ps[0]) == Some(Cell(color, id));
      ResetOwnedCells(g, color, id, ps[1..]);
    }
  }

  /** Consequently `resetPath` never changes the board for a path the tracer built. */
  lemma ResetOfOwnedPath(g: Grid, t: Trace)
    requires PathOwned(g, t)
    ensures Reset(g, t.color, t.id, t.path) == ResetRun(g, true)
  {
    ResetOwnedCells(g, t.color, t.id, t.path);
  }

  /** On a board whose occupied cells all hold one pair, `resetPath` for that
      pair changes nothing, and it finishes exactly when no visited cell is
      empty or missing. */
  lemma {:induction false} ResetOnSinglePairBoard(g: Grid, x: Cell, ps: seq<Coord>)
    requires OnlyPair(g, x)
    ensures Reset(g, x.color, x.id, ps) ==
            ResetRun(g, forall i :: 0 <= i < |ps| ==> Read(g, ps[i]).Some?)
    decreases |ps|
  {
    if ps != [] {
      if Read(g, ps[0]).Some? {
        assert Read(g, ps[0]) == Some(x);
        ResetOnSinglePairBoard(g, x, ps[1..]);
        assert (forall i :: 0 <= i < |ps| ==> Read(g, ps[i]).Some?) <==>
               (forall i :: 0 <= i < |ps[1..]| ==> Read(g, ps[1..][i]).Some?);
      }
    }
  }

  /** A path left over from before the board was rebuilt can make
      `isPathComplete` throw: on a fresh 5x5 board, a path from (0,0) that
      last visited (0,1) reads `.id` of an empty cell. */
  lemma StalePathThrows()
    ensures IsPathComplete(InitialBoard(5), Trace("red", 1, [EndA, Coord(0, 1)])) == Throws
  {
    var g := InitialBoard(5);
    assert Read(g, Coord(0, 1)) == None;
  }
}

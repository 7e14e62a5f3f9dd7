/**
 The puzzle board of the Flow-tree game: a square grid of cells, each either
 empty (JavaScript `null`) or holding a `{color, id}` record, the placeholder
 board that `initializeBoard` builds, the difficulty table, and the win check.
 */
module Board {

  datatype Option<T> = None | Some(value: T)

  /** The result of evaluating an expression that may throw a TypeError
      (reading `.id` of `null` or `undefined`). */
  datatype Eval<T> = Returns(value: T) | Throws

  /** The `{color, id}` record stored in an occupied cell. */
  datatype Cell = Cell(color: string, id: int)

  /** A `{row, col}` grid position. */
  datatype Coord = Coord(row: int, col: int)

  /** `board[row][col]`; `None` is an empty (`null`) cell. */
  type Grid = seq<seq<Option<Cell>>>

  /** The board sizes selectable by difficulty levels 1 to 5. */
  const BoardSizes: seq<int> := [5, 6, 7, 8, 9]

  /** The one hard-coded pair of the placeholder board and its two endpoints. */
  const Red1: Cell := Cell("red", 1)
  const EndA: Coord := Coord(0, 0)
  const EndB: Coord := Coord(2, 2)

  predicate IsSquare(g: Grid, n: int)
  {
    |g| == n && forall r :: 0 <= r < n ==> |g[r]| == n
  }

  /** Two grids with the same number of rows and the same row lengths. */
  predicate SameShape(a: Grid, b: Grid)
  {
    |a| == |b| && forall r :: 0 <= r < |a| ==> |a[r]| == |b[r]|
  }

  predicate InBounds(g: Grid, p: Coord)
  {
    0 <= p.row < |g| && 0 <= p.col < |g[p.row]|
  }

  /** `board[p.row][p.col]` for a position on the grid; a position off the
      grid gives `None`. In the script a column past the end of a row reads
      `undefined` and a row past the end throws; every use of `Read` either
      turns `None` into a throw, as both of those do, or is given only
      positions on the grid. */
  function Read(g: Grid, p: Coord): Option<Cell>
  {
    if InBounds(g, p) then g[p.row][p.col] else None
  }

  /** `board[p.row][p.col] = v`. */
  function Write(g: Grid, p: Coord, v: Option<Cell>): (r: Grid)
    requires InBounds(g, p)
    ensures SameShape(r, g)
    ensures Read(r, p) == v
    ensures forall q :: q != p ==> Read(r, q) == Read(g, q)
  {
    g[p.row := g[p.row][p.col := v]]
  }

  /** `Array.from({length: n}, () => Array(n).fill(null))`. */
  function EmptyBoard(n: nat): (g: Grid)
    ensures IsSquare(g, n)
    ensures forall p :: Read(g, p) == None
  {
    seq(n, _ => seq(n, _ => None))
  }

  /** `initializeBoard`: an empty grid with the red pair, id 1, at (0,0) and (2,2). */
  function InitialBoard(n: int): (g: Grid)
    requires 3 <= n
    ensures IsSquare(g, n)
    ensures Read(g, EndA) == Some(Red1) && Read(g, EndB) == Some(Red1)
    ensures forall p :: p != EndA && p != EndB ==> Read(g, p) == None
  {
    var empty := EmptyBoard(n);
    var withA := Write(empty, EndA, Some(Red1));
    Write(withA, EndB, Some(Red1))
  }

  /** `boardSizes[level - 1]` for a difficulty level on the slider. */
  function SizeForLevel(level: int): (n: int)
    requires 1 <= level <= 5
    ensures n == level + 4
    ensures n in BoardSizes && 3 <= n
  {
    BoardSizes[level - 1]
  }

  /** Every cell of the grid is occupied. */
  ghost predicate IsFull(g: Grid)
  {
    forall p :: InBounds(g, p) ==> Read(g, p).Some?
  }

  /** Every occupied cell holds the pair `x`. */
  ghost predicate OnlyPair(g: Grid, x: Cell)
  {
    forall p :: Read(g, p) == None || Read(g, p) == Some(x)
  }

  /** `isGameWon`: scans the grid row by row and stops at the first empty cell. */
  method IsGameWon(g: Grid, n: int) returns (won: bool)
    requires IsSquare(g, n)
    ensures won <==> IsFull(g)
  {
    var row := 0;
    while row < n
      invariant 0 <= row <= n
      invariant forall r, c :: 0 <= r < row && 0 <= c < n ==> g[r][c].Some?
    {
      var col := 0;
      while col < n
        invariant 0 <= col <= n
        invariant forall c :: 0 <= c < col ==> g[row][c].Some?
      {
        if g[row][col].None? {
          assert !Read(g, Coord(row, col)).Some?;
          return false;
        }
        col := col + 1;
      }
      row := row + 1;
    }
    return true;
  }

  /** A grid with exactly one empty cell is not won, and filling that cell wins it. */
  lemma FillingLastEmptyCellWins(g: Grid, p: Coord, v: Cell)
    requires InBounds(g, p) && Read(g, p) == None
    requires forall q :: q != p && InBounds(g, q) ==> Read(g, q).Some?
    ensures !IsFull(g)
    ensures IsFull(Write(g, p, Some(v)))
  {
    var g' := Write(g, p, Some(v));
    forall q | InBounds(g', q)
      ensures Read(g', q).Some?
    {
      assert InBounds(g, q);
    }
  }

  /** A freshly initialised board is never already won. */
  lemma InitialBoardNotWon(n: int)
    requires 3 <= n
    ensures !IsFull(InitialBoard(n))
  {
    var g := InitialBoard(n);
    assert InBounds(g, Coord(0, 1)) && Read(g, Coord(0, 1)) == None;
  }
}

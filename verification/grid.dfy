/** The board types of the library root: a `Cell` and the `GameData` that
    holds the board the search reads from. */
module Grid {
  import opened Wrappers

  /** One square of the board: column `x`, row `y` and whether it is blocked.
      Both coordinates are unsigned in the program, hence `nat`. Equality is
      the derived, structural one: two cells are equal exactly when all three
      fields are, so the `solid` flag takes part in every comparison. */
  datatype Cell = Cell(x: nat, y: nat, solid: bool)

  /** The default cell: the open cell at the origin. */
  function DefaultCell(): Cell
  {
    Cell(0, 0, false)
  }

  /** The game data: `board` is indexed `board[y][x]`; the two sizes are the
      bounds the search honours, independently of the board's physical extent
      (they are signed 32-bit integers in the program). */
  datatype GameData = GameData(
    board: seq<seq<Cell>>,
    boardSizeX: int,
    boardSizeY: int,
    pointA: Option<Cell>,
    pointB: Option<Cell>)

  /** True when `(x, y)` lies inside the declared board bounds. */
  predicate InBounds(game: GameData, x: int, y: int)
  {
    0 <= x < game.boardSizeX && 0 <= y < game.boardSizeY
  }

  /** Every in-bounds pair can be looked up as `board[y][x]` without running
      off the end of a row or of the board. */
  ghost predicate Covers(game: GameData)
  {
    && game.boardSizeY <= |game.board|
    && forall y :: 0 <= y < game.boardSizeY ==> game.boardSizeX <= |game.board[y]|
  }

  /** The cell stored at column `x`, row `y`. */
  function At(game: GameData, x: int, y: int): Cell
    requires Covers(game) && InBounds(game, x, y)
  {
    game.board[y][x]
  }

  /** The cell stored at `(x, y)` carries the coordinates `(x, y)`. */
  ghost predicate Coherent(game: GameData)
    requires Covers(game)
  {
    forall x, y :: InBounds(game, x, y) ==> At(game, x, y).x == x && At(game, x, y).y == y
  }

  /** A board the search can run on. */
  ghost predicate WellFormed(game: GameData)
  {
    Covers(game) && Coherent(game)
  }

  /** `c` is, by full equality, the passable cell the board holds at its coordinates. */
  ghost predicate IsOpenBoardCell(game: GameData, c: Cell)
    requires Covers(game)
  {
    InBounds(game, c.x, c.y) && At(game, c.x, c.y) == c && !c.solid
  }

  /** The cells of the board inside the declared bounds. */
  ghost function BoardCells(game: GameData): set<Cell>
    requires Covers(game)
  {
    set x, y | 0 <= x < game.boardSizeX && 0 <= y < game.boardSizeY :: game.board[y][x]
  }

  lemma OpenBoardCellIsBoardCell(game: GameData, c: Cell)
    requires Covers(game) && IsOpenBoardCell(game, c)
    ensures c in BoardCells(game)
  {
    assert game.board[c.y][c.x] == c;
  }

  /** The default game data: an empty board with zero sizes and no endpoints.
      No pair of coordinates is in bounds, so it is trivially well formed. */
  function DefaultGameData(): (g: GameData)
    ensures WellFormed(g)
    ensures forall x, y :: !InBounds(g, x, y)
    ensures BoardCells(g) == {}
    ensures g.pointA.None? && g.pointB.None?
  {
    GameData([], 0, 0, None, None)
  }

  /** Cell equality is structural: the same coordinates with a different
      `solid` flag make a different cell. */
  lemma CellEqualityIsStructural(a: Cell, b: Cell)
    ensures a == b <==> a.x == b.x && a.y == b.y && a.solid == b.solid
    ensures a.x == b.x && a.y == b.y && a.solid != b.solid ==> a != b
  {
  }

  /** The default cell is an open board cell exactly when the board's origin
      is in bounds and passable: on a coherent board the origin then holds a
      cell equal to it. */
  lemma DefaultCellIsOpenOrigin(game: GameData)
    requires WellFormed(game)
    ensures IsOpenBoardCell(game, DefaultCell()) <==> InBounds(game, 0, 0) && !At(game, 0, 0).solid
  {
    if InBounds(game, 0, 0) && !At(game, 0, 0).solid {
      assert At(game, 0, 0).x == 0 && At(game, 0, 0).y == 0;
    }
  }
}

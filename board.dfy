/** The board, the falling piece, spawning, the collision predicate and the
    writing of a locked piece into the board. */
module Board {
  import opened Shapes

  const WIDTH := 300
  const HEIGHT := 600
  const BLOCK_SIZE := 30

  /** Board size in cells: WIDTH / BLOCK_SIZE columns by HEIGHT / BLOCK_SIZE
      rows, written out as numbers (BoardSize relates the two). */
  const COLS := 10
  const ROWS := 20

  lemma BoardSize()
    ensures COLS == WIDTH / BLOCK_SIZE && ROWS == HEIGHT / BLOCK_SIZE
  {
  }

  /** The board: row-major, grid[row][column], 0 for an empty cell. */
  type Grid = seq<seq<int>>

  /** g has ROWS rows of COLS cells. */
  predicate IsGrid(g: Grid) {
    |g| == ROWS && forall r :: 0 <= r < |g| ==> |g[r]| == COLS
  }

  /** The row inserted at the top when a line is cleared. */
  const ZeroRow: seq<int> := seq(COLS, _ => 0)

  /** The board of a fresh game. */
  function EmptyGrid(): (g: Grid)
    ensures IsGrid(g) && CellsInRange(g)
  {
    seq(ROWS, _ => ZeroRow)
  }

  /** A falling piece: its shape matrix and the board position of the matrix's
      top-left cell (x is the column, y the row). */
  datatype Piece = Piece(shape: Shape, x: int, y: int)

  /** A new piece of table entry k, centred horizontally on the top row. */
  function Spawn(k: nat): (p: Piece)
    requires k < |SHAPES|
    ensures p.shape == SHAPES[k] && p.y == 0
    ensures 0 <= p.x && p.x + |p.shape[0]| <= COLS
  {
    ShapeTable(k);
    var shape := SHAPES[k];
    Piece(shape, WIDTH / (2 * BLOCK_SIZE) - |shape[0]| / 2, 0)
  }

  /** p moved by (dx, dy). */
  function Shift(p: Piece, dx: int, dy: int): (shifted: Piece) {
    p.(x := p.x + dx, y := p.y + dy)
  }

  /** An occupied piece cell may land at column nx, row ny: it is inside the side
      walls and above the floor, and, when it is on the visible board, the board
      cell there is empty. Rows above the board are not checked for occupancy. */
  predicate CellFree(g: Grid, nx: int, ny: int)
    requires IsGrid(g)
  {
    0 <= nx < COLS && ny < ROWS && (ny >= 0 ==> g[ny][nx] == 0)
  }

  /** p moved by (dx, dy) collides with nothing: every occupied cell lands on a
      free position. */
  predicate Fits(g: Grid, p: Piece, dx: int, dy: int)
    requires IsGrid(g)
    ensures Fits(g, p, dx, dy) ==> forall r, c ::
      (0 <= r < |p.shape| && 0 <= c < |p.shape[r]| && p.shape[r][c] != 0) ==>
      0 <= p.x + c + dx < COLS && p.y + r + dy < ROWS
  {
    forall r, c :: 0 <= r < |p.shape| && 0 <= c < |p.shape[r]| && p.shape[r][c] != 0 ==>
      CellFree(g, p.x + c + dx, p.y + r + dy)
  }

  /** Checking a move by (dx, dy) is checking the moved piece where it stands. */
  lemma FitsShift(g: Grid, p: Piece, dx: int, dy: int)
    requires IsGrid(g)
    ensures Fits(g, p, dx, dy) == Fits(g, Shift(p, dx, dy), 0, 0)
  {
  }

  /** The collision check fails exactly when some occupied cell lands off the side
      walls, below the floor, or on an occupied board cell. */
  lemma FitsFailsIff(g: Grid, p: Piece, dx: int, dy: int)
    requires IsGrid(g)
    ensures !Fits(g, p, dx, dy) <==>
      exists r, c :: 0 <= r < |p.shape| && 0 <= c < |p.shape[r]| && p.shape[r][c] != 0 &&
        var nx, ny := p.x + c + dx, p.y + r + dy;
        nx < 0 || nx >= COLS || ny >= ROWS || (ny >= 0 && g[ny][nx] != 0)
  {
  }

  /** A spawned piece lies inside the side walls, its left and right margins
      differ by at most one column (odd widths lean right), and it sits on rows 0
      and 1. */
  lemma SpawnCentred(k: nat)
    requires k < |SHAPES|
    ensures var p := Spawn(k); var w := |p.shape[0]|;
      p.y == 0 && 1 <= |p.shape| <= 2 &&
      0 <= p.x && p.x + w <= COLS && 0 <= p.x - (COLS - p.x - w) <= 1
  {
    ShapeTable(k);
  }

  /** A spawned piece's cells are empty or its shape id, so within 0..7. */
  lemma SpawnInRange(k: nat)
    requires k < |SHAPES|
    ensures CellsInRange(Spawn(k).shape)
  {
    ShapeTable(k);
  }

  /** A spawned piece always fits on an empty board. */
  lemma SpawnFitsEmpty(k: nat)
    requires k < |SHAPES|
    ensures Fits(EmptyGrid(), Spawn(k), 0, 0)
  {
    ShapeTable(k);
    SpawnCentred(k);
  }

  /** The id of the piece cell covering board cell (gy, gx), or 0 when no
      occupied cell of p is there. */
  function PieceCell(p: Piece, gy: int, gx: int): (id: int) {
    var r, c := gy - p.y, gx - p.x;
    if 0 <= r < |p.shape| && 0 <= c < |p.shape[r]| then p.shape[r][c] else 0
  }

  /** The board with p written into it: cells that p occupies take p's id, every
      other cell keeps its value; parts of p outside the board are dropped. */
  function Place(g: Grid, p: Piece): (r: Grid)
    requires IsGrid(g)
    ensures IsGrid(r)
  {
    seq(ROWS, gy requires 0 <= gy < ROWS =>
      seq(COLS, gx requires 0 <= gx < COLS =>
        if PieceCell(p, gy, gx) != 0 then PieceCell(p, gy, gx) else g[gy][gx]))
  }

  /** Writing a piece whose cells are in 0..7 keeps every board cell in 0..7. */
  lemma PlaceInRange(g: Grid, p: Piece)
    requires IsGrid(g) && CellsInRange(g) && CellsInRange(p.shape)
    ensures CellsInRange(Place(g, p))
  {
  }

  /** A piece that fits where it stands covers only empty board cells, so writing
      it loses nothing that was on the board: every occupied cell stays occupied. */
  lemma PlaceKeepsBlocks(g: Grid, p: Piece)
    requires IsGrid(g) && Fits(g, p, 0, 0)
    ensures forall gy, gx :: 0 <= gy < ROWS && 0 <= gx < COLS && g[gy][gx] != 0 ==>
      Place(g, p)[gy][gx] == g[gy][gx]
  {
    forall gy, gx | 0 <= gy < ROWS && 0 <= gx < COLS && g[gy][gx] != 0
      ensures Place(g, p)[gy][gx] == g[gy][gx]
    {
      var r, c := gy - p.y, gx - p.x;
      if 0 <= r < |p.shape| && 0 <= c < |p.shape[r]| && p.shape[r][c] != 0 {
        assert CellFree(g, p.x + c, p.y + r);
      }
    }
  }

  /** Some occupied cell of p lands on board cell (gy, gx). */
  predicate Covers(p: Piece, gy: int, gx: int) {
    exists r, c :: 0 <= r < |p.shape| && 0 <= c < |p.shape[r]| && p.shape[r][c] != 0 && p.y + r == gy && p.x + c == gx
  }

  /** Read cell by cell of the piece: every occupied piece cell that lands on the
      board takes its id there, and every board cell that no occupied piece cell
      lands on keeps its value. */
  lemma PlaceCells(g: Grid, p: Piece)
    requires IsGrid(g)
    ensures forall r, c ::
      (0 <= r < |p.shape| && 0 <= c < |p.shape[r]| && p.shape[r][c] != 0 &&
       0 <= p.y + r < ROWS && 0 <= p.x + c < COLS) ==> Place(g, p)[p.y + r][p.x + c] == p.shape[r][c]
    ensures forall gy, gx :: 0 <= gy < ROWS && 0 <= gx < COLS && !Covers(p, gy, gx) ==>
      Place(g, p)[gy][gx] == g[gy][gx]
  {
    forall gy, gx | 0 <= gy < ROWS && 0 <= gx < COLS && !Covers(p, gy, gx)
      ensures Place(g, p)[gy][gx] == g[gy][gx]
    {
      var r, c := gy - p.y, gx - p.x;
      assert !(0 <= r < |p.shape| && 0 <= c < |p.shape[r]| && p.shape[r][c] != 0 && p.y + r == gy && p.x + c == gx);
    }
  }
}

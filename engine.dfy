/** The game-state engine: the board, the falling and the next piece, the score
    and the game-over flag, with the gravity step, locking, line clearing and
    the effect of the arrow keys. */
module Engine {
  import opened Shapes
  import opened Board
  import opened Lines

  /** The keys the game reacts to; every other key is Other. */
  datatype Key = Left | Right | Down | Up | Other

  /** p after an attempt to move it by (dx, dy): it moves only when it fits there. */
  function Moved(g: Grid, p: Piece, dx: int, dy: int): (q: Piece)
    requires IsGrid(g)
    ensures q.shape == p.shape && (q == p || q == Shift(p, dx, dy))
    ensures Fits(g, p, 0, 0) ==> Fits(g, q, 0, 0)
  {
    if Fits(g, p, dx, dy) then Shift(p, dx, dy) else p
  }

  /** p after an attempt to turn it clockwise in place: there is no wall kick, so
      the turn happens only when the turned piece fits at the same position. */
  function Turned(g: Grid, p: Piece): (q: Piece)
    requires IsGrid(g)
    ensures q.x == p.x && q.y == p.y && (q.shape == p.shape || q.shape == Rotate(p.shape))
    ensures Fits(g, p, 0, 0) ==> Fits(g, q, 0, 0)
  {
    var turned := p.(shape := Rotate(p.shape));
    if Fits(g, turned, 0, 0) then turned else p
  }

  /** The falling piece after one key press. */
  function AfterKey(g: Grid, p: Piece, key: Key): (q: Piece)
    requires IsGrid(g)
  {
    match key
    case Left => Moved(g, p, -1, 0)
    case Right => Moved(g, p, 1, 0)
    case Down => Moved(g, p, 0, 1)
    case Up => Turned(g, p)
    case Other => p
  }

  /** A key press never makes a fitting piece collide. */
  lemma KeyKeepsFit(g: Grid, p: Piece, key: Key)
    requires IsGrid(g) && Fits(g, p, 0, 0)
    ensures Fits(g, AfterKey(g, p, key), 0, 0)
  {
    match key
    case Left => FitsShift(g, p, -1, 0);
    case Right => FitsShift(g, p, 1, 0);
    case Down => FitsShift(g, p, 0, 1);
    case Up =>
    case Other =>
  }

  /** A key press moves the piece by at most one cell, never upwards, and only Up
      changes its shape, to the clockwise rotation and without moving it. */
  lemma KeyMovesOneCell(g: Grid, p: Piece, key: Key)
    requires IsGrid(g)
    ensures var q := AfterKey(g, p, key);
      ((q.x == p.x && q.y == p.y) || (q.x == p.x && q.y == p.y + 1) ||
       (q.y == p.y && (q.x == p.x - 1 || q.x == p.x + 1))) &&
      (key != Up ==> q.shape == p.shape) &&
      (key == Up ==> q.x == p.x && q.y == p.y && (q.shape == p.shape || q.shape == Rotate(p.shape)))
  {
  }

  /** The straight piece on an empty board: it spawns at column 3, drops to the
      bottom row, cannot go lower, and locking it there fills columns 3 to 6 of
      the bottom row and clears nothing. */
  lemma StraightPieceLands()
    ensures Spawn(4) == Piece([[5, 5, 5, 5]], 3, 0)
    ensures var g, p := EmptyGrid(), Spawn(4).(y := ROWS - 1);
      Fits(g, p, 0, 0) && !Fits(g, p, 0, 1) &&
      Place(g, p)[ROWS - 1] == [0, 0, 0, 5, 5, 5, 5, 0, 0, 0] &&
      CountFrom(Place(g, p), 0) == 0 && Cleared(Place(g, p)) == Place(g, p)
  {
    var g, p := EmptyGrid(), Spawn(4).(y := ROWS - 1);
    assert p.shape[0][0] != 0 && !CellFree(g, p.x + 0 + 0, p.y + 0 + 1);
    var placed := Place(g, p);
    forall j | 0 <= j < ROWS
      ensures !Full(placed[j])
    {
      assert placed[j][0] == 0;
    }
    NoFullRowsUnchanged(placed);
  }

  /** The game. */
  class Tetris {
    var grid: Grid
    var current: Piece
    var next: Piece
    var score: nat
    var gameOver: bool

    /** The board is 20 by 10 with cells in 0..7, the falling piece's cells are in
        0..7, the next piece is a freshly spawned one, and while the game is on the
        falling piece collides with nothing. */
    ghost predicate Valid()
      reads this
    {
      IsGrid(grid) && CellsInRange(grid) && CellsInRange(current.shape) &&
      (exists k: nat :: k < |SHAPES| && next == Spawn(k)) &&
      (!gameOver ==> Fits(grid, current, 0, 0))
    }

    /** A fresh game: an empty board, two spawned pieces of the drawn shapes, score
        0, not over. */
    constructor (first: nat, second: nat)
      requires first < |SHAPES| && second < |SHAPES|
      ensures Valid()
      ensures grid == EmptyGrid() && current == Spawn(first) && next == Spawn(second)
      ensures score == 0 && !gameOver
    {
      grid := EmptyGrid();
      current := Spawn(first);
      next := Spawn(second);
      score := 0;
      gameOver := false;
      new;
      SpawnInRange(first);
      SpawnFitsEmpty(first);
    }

    /** The collision check of p moved by (dx, dy), cell by cell, stopping at the
        first cell that does not fit. */
    method ValidMove(p: Piece, dx: int, dy: int) returns (ok: bool)
      requires IsGrid(grid)
      ensures ok == Fits(grid, p, dx, dy)
    {
      var r := 0;
      while r < |p.shape|
        invariant 0 <= r <= |p.shape|
        invariant forall r', c :: 0 <= r' < r && 0 <= c < |p.shape[r']| && p.shape[r'][c] != 0 ==>
          CellFree(grid, p.x + c + dx, p.y + r' + dy)
      {
        var row := p.shape[r];
        var c := 0;
        while c < |row|
          invariant 0 <= c <= |row|
          invariant forall c' :: 0 <= c' < c && row[c'] != 0 ==>
            CellFree(grid, p.x + c' + dx, p.y + r + dy)
        {
          if row[c] != 0 {
            var nx, ny := p.x + c + dx, p.y + r + dy;
            if nx < 0 || nx >= COLS || ny >= ROWS || (ny >= 0 && grid[ny][nx] != 0) {
              return false;
            }
          }
          c := c + 1;
        }
        r := r + 1;
      }
      return true;
    }

    /** Moves the falling piece by (dx, dy) when it fits there; reports whether it moved. */
    method TryMove(dx: int, dy: int) returns (moved: bool)
      requires Valid()
      modifies this
      ensures Valid()
      ensures moved == Fits(grid, old(current), dx, dy)
      ensures current == Moved(grid, old(current), dx, dy)
      ensures grid == old(grid) && next == old(next) && score == old(score) && gameOver == old(gameOver)
    {
      moved := ValidMove(current, dx, dy);
      if moved {
        FitsShift(grid, current, dx, dy);
        current := Shift(current, dx, dy);
      }
    }

    /** Turns the falling piece clockwise when the turned piece fits at the same
        position; reports whether it turned. */
    method TryRotate() returns (rotated: bool)
      requires Valid()
      modifies this
      ensures Valid()
      ensures rotated == Fits(grid, old(current).(shape := Rotate(old(current).shape)), 0, 0)
      ensures current == Turned(grid, old(current))
      ensures grid == old(grid) && next == old(next) && score == old(score) && gameOver == old(gameOver)
    {
      var candidate := Piece(Rotate(current.shape), current.x, current.y);
      rotated := ValidMove(candidate, 0, 0);
      if rotated {
        RotateKeepsCells(current.shape, 0);
        current := current.(shape := candidate.shape);
      }
    }

    /** One key press: the arrows move or turn the falling piece when it fits. */
    method HandleKey(key: Key)
      requires Valid()
      modifies this
      ensures Valid()
      ensures current == AfterKey(grid, old(current), key)
      ensures grid == old(grid) && next == old(next) && score == old(score) && gameOver == old(gameOver)
    {
      match key
      case Left =>
        var moved := TryMove(-1, 0);
      case Right =>
        var moved := TryMove(1, 0);
      case Down =>
        var moved := TryMove(0, 1);
      case Up =>
        var rotated := TryRotate();
      case Other =>
    }

    /** Writes the occupied cells of p into the board, row by row, skipping cells
        that fall outside it. */
    method WritePiece(p: Piece)
      requires IsGrid(grid)
      modifies this`grid
      ensures grid == Place(old(grid), p)
    {
      ghost var g0 := grid;
      var r := 0;
      while r < |p.shape|
        invariant 0 <= r <= |p.shape|
        invariant IsGrid(grid)
        invariant forall gy, gx :: 0 <= gy < ROWS && 0 <= gx < COLS ==>
          grid[gy][gx] == if gy - p.y < r && PieceCell(p, gy, gx) != 0 then PieceCell(p, gy, gx) else g0[gy][gx]
      {
        var row := p.shape[r];
        var c := 0;
        while c < |row|
          invariant 0 <= c <= |row|
          invariant IsGrid(grid)
          invariant forall gy, gx :: 0 <= gy < ROWS && 0 <= gx < COLS ==>
            grid[gy][gx] ==
              if (gy - p.y < r || (gy - p.y == r && gx - p.x < c)) && PieceCell(p, gy, gx) != 0
              then PieceCell(p, gy, gx) else g0[gy][gx]
        {
          var cell := row[c];
          if cell != 0 {
            var gridY, gridX := p.y + r, p.x + c;
            if 0 <= gridY < |grid| && 0 <= gridX < |grid[0]| {
              grid := grid[gridY := grid[gridY][gridX := cell]];
            }
          }
          c := c + 1;
        }
        r := r + 1;
      }
      forall gy | 0 <= gy < ROWS
        ensures grid[gy] == Place(g0, p)[gy]
      {
      }
    }

    /** Deletes row i and inserts an empty row at the top; the rows above i move
        down by one. */
    method ClearRow(i: nat)
      requires i < |grid|
      modifies this`grid
      ensures grid == [ZeroRow] + (old(grid)[..i] + old(grid)[i + 1..])
      ensures |grid| == |old(grid)|
      ensures grid[0] == ZeroRow
      ensures forall j :: 0 <= j < i ==> grid[j + 1] == old(grid)[j]
      ensures forall j :: i < j < |grid| ==> grid[j] == old(grid)[j]
    {
      grid := grid[..i] + grid[i + 1..];
      grid := [ZeroRow] + grid;
    }

    /** One pass over the rows from the bottom up: each full row met is deleted and
        an empty row inserted at the top, without looking again at the row that
        slides down into its place; then 10 points per deleted row. */
    method ClearLines()
      requires IsGrid(grid)
      modifies this`grid, this`score
      ensures IsGrid(grid)
      ensures grid == Cleared(old(grid))
      ensures score == old(score) + 10 * CountFrom(old(grid), 0)
    {
      ghost var g0 := grid;
      ghost var m: nat := ROWS;
      var lines: nat := 0;
      var i := |grid| - 1;
      PassStart(g0);
      while i >= 0
        invariant PassState(g0, grid, m, lines, i)
        invariant score == old(score)
        decreases i + 1
      {
        if Full(grid[i]) {
          PassDelete(g0, grid, m, lines, i);
          ClearRow(i);
          lines := lines + 1;
          m := if m >= 2 then m - 2 else 0;
        } else {
          PassKeep(g0, grid, m, lines, i);
          m := if m > 0 then m - 1 else 0;
        }
        i := i - 1;
      }
      PassEnd(g0, grid, m, lines, i);
      ClearedShape(g0);
      score := score + lines * 10;
    }

    /** Locks p into the board, clears lines, promotes the next piece, spawns a new
        next piece of the drawn shape, and ends the game when the promoted piece
        does not fit. */
    method LockPiece(p: Piece, draw: nat)
      requires Valid() && CellsInRange(p.shape) && draw < |SHAPES|
      modifies this
      ensures Valid()
      ensures grid == Cleared(Place(old(grid), p))
      ensures score == old(score) + 10 * CountFrom(Place(old(grid), p), 0)
      ensures current == old(next) && next == Spawn(draw)
      ensures gameOver == (old(gameOver) || !Fits(grid, current, 0, 0))
    {
      ghost var k: nat :| k < |SHAPES| && next == Spawn(k);
      SpawnInRange(k);
      PlaceInRange(grid, p);
      WritePiece(p);
      ClearedShape(grid);
      ClearLines();
      current := next;
      next := Spawn(draw);
      var ok := ValidMove(current, 0, 0);
      if !ok {
        gameOver := true;
      }
    }

    /** The gravity step: the falling piece drops one row when it fits there and is
        locked otherwise. It does not look at the game-over flag. */
    method Update(draw: nat)
      requires Valid() && draw < |SHAPES|
      modifies this
      ensures Valid()
      ensures old(gameOver) ==> gameOver
      ensures Fits(old(grid), old(current), 0, 1) ==>
        current == Shift(old(current), 0, 1) &&
        grid == old(grid) && next == old(next) && score == old(score) && gameOver == old(gameOver)
      ensures !Fits(old(grid), old(current), 0, 1) ==>
        grid == Cleared(Place(old(grid), old(current))) &&
        score == old(score) + 10 * CountFrom(Place(old(grid), old(current)), 0) &&
        current == old(next) && next == Spawn(draw) &&
        gameOver == (old(gameOver) || !Fits(grid, current, 0, 0))
    {
      var ok := ValidMove(current, 0, 1);
      if ok {
        FitsShift(grid, current, 0, 1);
        current := current.(y := current.y + 1);
      } else {
        LockPiece(current, draw);
      }
    }
  }

  /** The state of the line-clearing pass before it examines index i, read
      against the original rows g0: rows [0, lines) are inserted empty rows, the
      next m rows are the original rows not examined yet, and the rest are the
      original rows from m down that the pass keeps. Once m is 0 only inserted
      rows remain to be examined. The next original row to examine, m - 1, is
      examined because row m below it was kept. */
  ghost predicate PassState(g0: Grid, grid: Grid, m: nat, lines: nat, i: int) {
    |g0| == ROWS && -1 <= i < ROWS && m <= ROWS && |grid| == ROWS &&
    grid == Zeros(lines) + g0[..m] + KeptFrom(g0, m) &&
    lines == CountFrom(g0, m) &&
    (m > 0 ==> m == i + 1 - lines) &&
    (m == 0 ==> i < lines) &&
    (0 < m < ROWS ==> !Deleted(g0, m))
  }

  lemma PassStart(g0: Grid)
    requires |g0| == ROWS
    ensures PassState(g0, g0, ROWS, 0, ROWS - 1)
  {
    assert Zeros(0) + g0[..ROWS] + KeptFrom(g0, ROWS) == g0;
  }

  /** A step of the pass at a full row: it is original row m - 1, and deleting it
      and inserting an empty row on top skips original row m - 2. */
  lemma PassDelete(g0: Grid, grid: Grid, m: nat, lines: nat, i: int)
    requires PassState(g0, grid, m, lines, i) && i >= 0 && Full(grid[i])
    ensures m > 0
    ensures PassState(g0, [ZeroRow] + (grid[..i] + grid[i + 1..]), if m >= 2 then m - 2 else 0, lines + 1, i - 1)
  {
    ExaminedRow(g0, grid, m, lines, i);
    if m >= 2 {
      DeleteSkip(g0, grid, m, lines, i);
    } else {
      DeleteLast(g0, grid, lines, i);
    }
  }

  lemma DeleteSkip(g0: Grid, grid: Grid, m: nat, lines: nat, i: int)
    requires PassState(g0, grid, m, lines, i) && i >= 0 && m >= 2 && Full(g0[m - 1])
    ensures PassState(g0, [ZeroRow] + (grid[..i] + grid[i + 1..]), m - 2, lines + 1, i - 1)
  {
    DeleteCounts(g0, m, lines);
    KeptLength(g0, m - 2);
    ZerosCons(lines);
    TakeSnoc(g0, m - 1);
    TakeSnoc(g0, m - 2);
    DeleteLayout(Zeros(lines), ZeroRow, g0[..m - 2], g0[m - 2], g0[m - 1], KeptFrom(g0, m), grid, i);
  }

  lemma DeleteLast(g0: Grid, grid: Grid, lines: nat, i: int)
    requires PassState(g0, grid, 1, lines, i) && i >= 0 && Full(g0[0])
    ensures PassState(g0, [ZeroRow] + (grid[..i] + grid[i + 1..]), 0, lines + 1, i - 1)
  {
    DeleteCounts(g0, 1, lines);
    KeptLength(g0, 0);
    ZerosCons(lines);
    TakeSnoc(g0, 0);
    DeleteLayoutLast(Zeros(lines), ZeroRow, g0[0], KeptFrom(g0, 1), grid, i);
  }

  /** A step of the pass at a row that is not full: an original row is kept and
      the pass moves on to the row above it; an inserted row changes nothing. */
  lemma PassKeep(g0: Grid, grid: Grid, m: nat, lines: nat, i: int)
    requires PassState(g0, grid, m, lines, i) && i >= 0 && !Full(grid[i])
    ensures PassState(g0, grid, if m > 0 then m - 1 else 0, lines, i - 1)
  {
    ExaminedRow(g0, grid, m, lines, i);
    if m > 0 {
      KeptLength(g0, m - 1);
      KeepCounts(g0, m);
      TakeSnoc(g0, m - 1);
      Regroup(Zeros(lines), g0[..m - 1], g0[m - 1], KeptFrom(g0, m));
    }
  }

  lemma PassEnd(g0: Grid, grid: Grid, m: nat, lines: nat, i: int)
    requires PassState(g0, grid, m, lines, i) && i < 0
    ensures grid == Cleared(g0) && lines == CountFrom(g0, 0)
  {
    assert m == 0 && g0[..0] == [];
  }

  /** The row the pass examines at index i: an inserted empty row once the
      original rows are used up, otherwise original row m - 1. */
  lemma ExaminedRow(g0: Grid, grid: Grid, m: nat, lines: nat, i: int)
    requires PassState(g0, grid, m, lines, i) && i >= 0
    ensures m == 0 ==> !Full(grid[i])
    ensures m > 0 ==> grid[i] == g0[m - 1]
  {
    KeptLength(g0, m);
    if m == 0 {
      assert grid[i] == ZeroRow;
      assert ZeroRow[0] == 0;
    } else {
      assert grid == (Zeros(lines) + g0[..m]) + KeptFrom(g0, m);
      assert grid[i] == (Zeros(lines) + g0[..m])[i];
    }
  }

  /** Original row m - 1 is not full and is examined: the pass keeps it. */
  lemma KeepCounts(g0: Grid, m: nat)
    requires 0 < m <= |g0| && !Full(g0[m - 1])
    ensures !Deleted(g0, m - 1)
    ensures CountFrom(g0, m - 1) == CountFrom(g0, m)
    ensures KeptFrom(g0, m - 1) == [g0[m - 1]] + KeptFrom(g0, m)
  {
  }

  /** Original row m - 1 is full and is examined (row m below it was kept): the
      pass deletes it, and the row above it, m - 2, is then kept unexamined. */
  lemma DeleteCounts(g0: Grid, m: nat, lines: nat)
    requires 0 < m <= |g0| && Full(g0[m - 1]) && (m < |g0| ==> !Deleted(g0, m))
    requires lines == CountFrom(g0, m)
    ensures Deleted(g0, m - 1)
    ensures CountFrom(g0, m - 1) == lines + 1
    ensures KeptFrom(g0, m - 1) == KeptFrom(g0, m)
    ensures m >= 2 ==> !Deleted(g0, m - 2) && CountFrom(g0, m - 2) == lines + 1
    ensures m >= 2 ==> KeptFrom(g0, m - 2) == [g0[m - 2]] + KeptFrom(g0, m)
  {
    assert Deleted(g0, m - 1);
  }
}

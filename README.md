# Falling-block puzzle engine, in Dafny

This project models the game-state engine of the falling-block puzzle in
`tetris3.py`. The engine is the `Tetris` class and the arrow-key rules of the main loop. The board is 20 rows of 10
cells, each 0 (empty) or a shape id 1..7. A falling piece is a shape matrix
anchored at a column `x` and a row `y`. The engine has a next piece, a score
and a game-over flag. Gravity drops the falling piece one row, or locks it
when it cannot drop. Locking writes the piece into the board, makes one
line-clearing pass, promotes the next piece, spawns a new next piece and ends
the game when the promoted piece does not fit. The arrow keys move the piece
left, right or down, or turn it clockwise in place. Each takes effect only
when the collision check allows it.

Modules:

- `Shapes` (`shapes.dfy`) holds the seven shape matrices, their cell counts and the
  clockwise rotation `zip(*shape[::-1])`.
- `Board` (`board.dfy`) holds the grid, the piece, spawning, the collision predicate
  `Fits` and `Place`, which writes a piece into the grid.
- `Lines` (`lines.dfy`) says what one line-clearing pass does to the grid, read
  against the original rows.
- `Engine` (`engine.dfy`) holds the key rules and the class `Tetris`. Its methods
  update the grid, the pieces, the score and the flag in place. `ValidMove`,
  `WritePiece`, `ClearLines`, `LockPiece` and `Update` are proved against the
  specification functions of the modules above (`Fits`, `Place`, `Cleared`,
  `Spawn`); `TryMove`, `TryRotate` and `HandleKey` against the key rules
  `Moved`, `Turned` and `AfterKey` of `Engine` itself; `ClearRow` states its
  new board row by row.

Two places where the code differs from the usual rules of the game; the
model follows the code:

- Line clearing. `clear_lines` walks the indices 19 down to 0 once. When it
  deletes a full row at index `i` and inserts an empty row on top, the row
  that slides down into `i` is not looked at again. Read against the
  original rows, a full row is deleted exactly when the row directly below it
  is not deleted in the same pass (`Lines.Deleted`). Of a stack of adjacent
  full rows every other one goes, starting from the lowest; of a stack of
  exactly two, only the lower one goes (`Lines.StackedFullRowsOneCleared`).
  A standard game clears every full row at once.
- Game over. `update` does not look at the game-over flag; only the main loop
  stops calling it. `Engine.Tetris.Update` therefore keeps working after the
  game is over. It only guarantees that the flag is never reset. In a
  standard game no move is accepted once the game is over.

The random shape choice of `get_new_piece` is a parameter: the constructor,
`Update` and `LockPiece` take the index of the drawn table entry.

## Model

| member | source | states |
|---|---|---|
| Board.BoardSize | tetris3.py:14-15 | the board is WIDTH / BLOCK_SIZE = 10 columns by HEIGHT / BLOCK_SIZE = 20 rows |
| Shapes.ShapeTable | tetris3.py:40-48 | every table entry is one or two rows, rectangular, 2 to 4 cells wide, each cell empty or its own id k + 1, and has exactly four occupied cells |
| Shapes.ShapeCount | tetris3.py:40-48 | entry k has exactly four cells holding k + 1 |
| Board.Spawn | tetris3.py:186-188 | a new piece of entry k has that entry's shape, sits on row 0 and lies inside the side walls (its column is 300 // 60 - w // 2) |
| Board.CellFree | tetris3.py:211-214 | one occupied cell may land at (nx, ny) iff it is inside the side walls, above the floor, and, on a visible row, on an empty board cell |
| Board.Fits | tetris3.py:207-216 | the collision check: every occupied cell lands on a free position, so a fitting piece lies inside the walls and above the floor |
| Board.Place | tetris3.py:220-226 | the board with the piece written in, again 20 rows of 10 cells |
| Board.EmptyGrid | tetris3.py:179 | the fresh board is 20 rows of 10 cells, all in 0..7 |
| Engine.Tetris.constructor | tetris3.py:177-183 | a fresh game has the empty board, two spawned pieces of the drawn shapes, score 0 and the flag down, and satisfies the engine invariant |
| Board.SpawnCentred | tetris3.py:186-188 | a spawned piece sits on row 0 inside the side walls, centred with the odd column on the right |
| Board.SpawnInRange | tetris3.py:186-188 | a spawned piece's cells are all in 0..7 |
| Board.SpawnFitsEmpty | tetris3.py:186-188 | a spawned piece fits on an empty board |
| Board.FitsFailsIff | tetris3.py:207-216 | the collision check fails iff some occupied cell lands left or right of the walls, below the floor, or on an occupied visible cell; rows above the board are not checked |
| Board.FitsShift | tetris3.py:207-216 | checking a move by (dx, dy) equals checking the shifted piece where it stands |
| Engine.Tetris.ValidMove | tetris3.py:207-216 | the nested loops with early return compute exactly `Fits`, and change no state |
| Board.PlaceCells | tetris3.py:220-226 | after writing a piece, every occupied piece cell on the board holds its id and every cell no piece cell lands on is unchanged; cells off the board are dropped |
| Board.PlaceInRange | tetris3.py:220-226 | writing a piece with cells in 0..7 keeps every board cell in 0..7 |
| Board.PlaceKeepsBlocks | tetris3.py:220-226 | writing a fitting piece overwrites no occupied cell |
| Engine.Tetris.WritePiece | tetris3.py:220-226 | the write loop leaves the board equal to `Place` of the old board and the piece |
| Engine.Tetris.ClearRow | tetris3.py:237-239 | deleting row i and inserting an empty row at index 0 keeps the row count, puts an empty row on top, shifts rows 0..i-1 down by one and leaves the rows below i in place |
| Lines.Deleted | tetris3.py:236-240 | the rows one pass deletes, read against the original rows: a full row whose lower neighbour was not deleted |
| Lines.Cleared | tetris3.py:234-241 | the board after one pass: as many empty rows on top as rows were deleted, then the kept rows; the row count is unchanged |
| Engine.Tetris.ClearLines | tetris3.py:234-241 | the pass leaves the board equal to `Cleared` of the old board, a 20 by 10 grid, and adds 10 points per deleted row |
| Lines.KeptLength | tetris3.py:234-241 | kept and deleted rows together are all the rows, so the pass keeps 20 rows |
| Lines.ClearedShape | tetris3.py:236-239 | a pass keeps the grid 20 by 10 and every cell in 0..7 |
| Lines.KeptRowsAreOriginal | tetris3.py:236-240 | every kept row is an original row that was not deleted |
| Lines.KeptInOrder | tetris3.py:236-240 | the kept rows are exactly the non-deleted original rows, in their original order |
| Lines.NoFullStretch | tetris3.py:236-240 | a stretch of rows without full rows loses no row and is kept unchanged |
| Lines.NoFullRowsUnchanged | tetris3.py:234-241 | a board without full rows is left as it is and scores nothing |
| Lines.DeletedIffFullWhenApart | tetris3.py:236-240 | when no two full rows are adjacent, the deleted rows are exactly the full rows |
| Lines.NoFullRowLeftWhenApart | tetris3.py:236-240 | when no two full rows are adjacent, no full row is left after the pass |
| Lines.SurvivingFullRows | tetris3.py:236-240 | a full row survives a pass only when the row directly below it was deleted |
| Lines.StackedFullRowsOneCleared | tetris3.py:236-240 | with two full rows at the bottom, one pass deletes one and the other ends up full on the bottom row |
| Engine.Tetris.LockPiece | tetris3.py:219-231 | locking writes the piece, clears lines and scores them, promotes the next piece, spawns the drawn shape, and raises the flag iff the promoted piece does not fit, keeping it raised once raised; the engine invariant holds again |
| Engine.Tetris.Update | tetris3.py:244-248 | when the piece fits one row lower only its row grows by one; otherwise the step is `LockPiece`; the flag is never reset |
| Engine.StraightPieceLands | tetris3.py:186-188 | the straight piece spawns at column 3, stops on the bottom row of an empty board, fills columns 3..6 there when locked and clears nothing |
| Shapes.Rotate | tetris3.py:304 | the clockwise turn `zip(*shape[::-1])`: every row of the result is as long as the matrix is high, and there are no more rows than the shortest original row is long |
| Shapes.MinWidth | tetris3.py:304 | `zip` stops at the shortest row: the result is the least row length |
| Shapes.RotateAt | tetris3.py:304 | cell (i, j) of the turned matrix is cell (h-1-j, i) of the original |
| Shapes.MinWidthRectangular | tetris3.py:304 | on a rectangular matrix `zip` keeps every column |
| Shapes.RotateDims | tetris3.py:304 | turning an h by w matrix gives a w by h matrix with `rot[i][j] == s[h-1-j][i]` |
| Shapes.RotateFourTimes | tetris3.py:304 | four clockwise turns give back the original matrix |
| Shapes.RotateKeepsCells | tetris3.py:304 | turning keeps the cell values: all empty-or-v, and all in 0..7 |
| Engine.Moved | tetris3.py:297-302 | an arrow move leaves the shape alone and either shifts the piece by (dx, dy) or leaves it where it is, and never makes a fitting piece collide |
| Engine.Turned | tetris3.py:303-306 | a turn keeps the anchor and either keeps the shape or replaces it by its clockwise rotation, and never makes a fitting piece collide |
| Engine.AfterKey | tetris3.py:297-306 | the piece after one key press: Left, Right and Down try a one-cell move, Up tries a turn, other keys do nothing |
| Engine.Tetris.TryMove | tetris3.py:297-302 | the piece moves by (dx, dy) iff it fits there; nothing else changes |
| Engine.Tetris.TryRotate | tetris3.py:303-306 | the piece turns clockwise at the same anchor iff the turned piece fits there, with no wall kick; nothing else changes |
| Engine.Tetris.HandleKey | tetris3.py:297-306 | one key press leaves the piece as `AfterKey` says, and the rest of the state unchanged |
| Engine.KeyKeepsFit | tetris3.py:297-306 | a key press never makes a fitting piece collide |
| Engine.KeyMovesOneCell | tetris3.py:297-306 | a key press moves the piece by at most one cell and never up; only Up changes the shape, to its clockwise turn, and without moving it |

The engine invariant `Tetris.Valid` holds after the constructor and is kept by
`TryMove`, `TryRotate`, `HandleKey`, `LockPiece` and `Update`. `WritePiece`,
`ClearRow` and `ClearLines` are steps inside `LockPiece`, and the invariant
does not hold during them: once the falling piece is written into the board
it overlaps its own cells. The invariant says the board is 20 by 10 with cells
in 0..7 and the falling piece's cells are in 0..7. It says the next piece is a
freshly spawned table entry, and that while the game is on the falling piece
collides with nothing.

## Left out

- Drawing (`draw_grid`, `draw_piece`, `draw`, `show_game_over`, the colours and fonts): display output only.
- The player-name entry dialog: a GUI event loop.
- The MySQL score table (`init_database`, `save_score`): foreign library and I/O.
- The background music: audio and file-system access.
- The main loop's plumbing: event polling, the 6-ticks-per-second clock, quitting on Escape and the loop condition `while not tetris.game_over`. Only the key decisions at tetris3.py:297-306 are modelled, as `HandleKey`.
- `random.choice`: the drawn table index is a parameter, between 0 and 6.
- audio_book.py is not part of this model: a file dialog, a PDF reader and text-to-speech calls.
- Piece dictionaries are modelled as values. The source updates `current_piece` in place. It never shares that dictionary with another field: `next_piece` is replaced right after it is promoted. So no aliasing is lost.

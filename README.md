# Tetris board and piece, modelled in Dafny

This project models the core of a terminal Tetris game (`juego.py`): a 20 x 10
grid of boxes and one live four-cell piece. It covers:

- the seven spawn shapes and the six-colour palette;
- the key table that turns key names into movements;
- the legality test of a translation;
- the DOWN, LEFT and RIGHT moves, the lock of a blocked DOWN, and the ROTATE move;
- the row clear that runs after each successful translation;
- the overlay of the piece onto the grid for display;
- the game-over test on the top row.

Modules:

- `Catalog` (`catalog.dfy`) holds the plain data: movements, colours, boxes,
  cells, spawn shapes and the key table.
- `Rotation` (`rotation.dfy`) holds the quarter-turn table and its algebra.
- `Grid` (`grid.dfy`) holds the grid, the translation legality test and the overlay.
- `RowClear` (`rowclear.dfy`) holds the scan for full rows and the delete/insert
  clear exactly as the program performs it, next to the intended clear.
- `Game` (`game.dfy`) holds the classes `Piece` and `Board`. Their methods
  update fields in place: the translation loop over the piece cells, the lock
  loop writing into the grid, and the two loops of the row clear. Each method is
  proved against the functions of the other modules.

The `Board` follows the code as written:

- Rows are cleared only after a committed translation (`juego.py:58`). The lock
  of a blocked DOWN does not clear rows (`juego.py:38-42`).
- ROTATE is never checked for legality (`juego.py:45-47`).
- Rotation turns the already-rotated cells by the new absolute angle about the
  grid origin. This is the second row of "## Findings".
- A clear of two or more full rows deletes the wrong rows. This is the first row
  of "## Findings".

The corrected behaviour for each of the last two is defined and proved next to
the as-written one (`RowClear.ClearRowsIntended`, `Rotation.QuarterTurnShape`).
The board does not use it, because that would change what the program does.

Random choices enter as parameters. `shapeIndex < 7` and `colourIndex < 6`
select the next piece and colour.

## Model

All source paths are under `JuegoTetris-main/JuegoTetris-main/JuegoTetris/`.

| member | source | states |
|---|---|---|
| Catalog.SpawnPosition | JuegoTetris-main/JuegoTetris-main/JuegoTetris/juego.py:123-156 | each of the seven variants spawns on exactly 4 pairwise distinct cells, every column in 0..3 and every row in 0..1, with its third cell on row 1 |
| Catalog.PaletteIsComplete | JuegoTetris-main/JuegoTetris-main/JuegoTetris/juego.py:10 | the palette has six entries, all distinct, and every colour tag is one of them |
| Catalog.MovementOfKey | JuegoTetris-main/JuegoTetris-main/JuegoTetris/juego.py:158-169 | "flecha abajo", "down" and "s" give DOWN; "flecha derecha", "right" and "d" give RIGHT; "flecha izquierda", "left" and "a" give LEFT; "space" gives ROTATE (each an if-and-only-if); every other key gives no movement |
| Rotation.RotatePos | JuegoTetris-main/JuegoTetris-main/JuegoTetris/juego.py:64-77 | the cell rotated by state x 90 degrees about the origin equals `state` successive quarter turns (x, y) -> (-y, x); its squared distance from the origin is unchanged |
| Rotation.RotateShape | JuegoTetris-main/JuegoTetris-main/JuegoTetris/juego.py:71-77 | the fresh list has one cell per current cell, in order, each the current cell turned `state` quarter turns |
| Rotation.TurnsAdd | JuegoTetris-main/JuegoTetris-main/JuegoTetris/juego.py:64-77 | a turns then b turns equal a + b turns |
| Rotation.FullTurn | JuegoTetris-main/JuegoTetris-main/JuegoTetris/juego.py:64-77 | four quarter turns are the identity |
| Rotation.TurnsModFour | JuegoTetris-main/JuegoTetris-main/JuegoTetris/juego.py:64-77 | only the number of turns modulo 4 matters |
| Rotation.RotateShapeCompose | JuegoTetris-main/JuegoTetris-main/JuegoTetris/juego.py:45-47 | rotating by a and then by b is one rotation by (a + b) mod 4 |
| Rotation.FirstRotateLeavesGrid | JuegoTetris-main/JuegoTetris-main/JuegoTetris/juego.py:46-47 | rotating by one quarter turn about the origin puts any cell below row 0 into a negative column, so the piece is no longer inside the grid |
| Rotation.SpawnRotateLeavesGrid | JuegoTetris-main/JuegoTetris-main/JuegoTetris/juego.py:46-47 | every spawned piece has a cell on row 1, so the first ROTATE after a spawn always takes the piece off the grid |
| Rotation.RotateShapeInjective | JuegoTetris-main/JuegoTetris-main/JuegoTetris/juego.py:71-77 | a rotation keeps distinct cells distinct, so after ROTATE the piece still has four different cells (part of `Game.Piece.Valid`) |
| Rotation.FourPressesAsWritten | JuegoTetris-main/JuegoTetris-main/JuegoTetris/juego.py:45-47 | from state 0, four ROTATE presses as written (states 1, 2, 3, 0, each applied to the already-rotated cells) amount to one half turn |
| Rotation.JBlockHalfTurn | JuegoTetris-main/JuegoTetris-main/JuegoTetris/juego.py:125 | that half turn moves the spawned J block's cell (0, 1) to (0, -1), so four presses do not bring the piece back to its spawn cells |
| Rotation.QuarterTurnShape | JuegoTetris-main/JuegoTetris-main/JuegoTetris/juego.py:45-47 | the intended step turns every cell by exactly one further quarter turn |
| Rotation.FourQuarterTurnsRestore | JuegoTetris-main/JuegoTetris-main/JuegoTetris/juego.py:45-47 | with the intended step, four presses restore every cell |
| Grid.EmptyRow | JuegoTetris-main/JuegoTetris-main/JuegoTetris/juego.py:105 | the inserted row has 10 boxes, all empty |
| Grid.EmptyGrid | JuegoTetris-main/JuegoTetris-main/JuegoTetris/juego.py:20 | the starting grid has 20 rows of 10 boxes, all empty |
| Grid.Shift | JuegoTetris-main/JuegoTetris-main/JuegoTetris/juego.py:51-57 | the target of one cell is one row down for DOWN, one column right for RIGHT and one column left for LEFT, each an if-and-only-if |
| Grid.Translated | JuegoTetris-main/JuegoTetris-main/JuegoTetris/juego.py:50-57 | every cell is moved by the same step, in order, and distinct cells stay distinct |
| Grid.Blocked | JuegoTetris-main/JuegoTetris-main/JuegoTetris/juego.py:82-90 | the per-movement test of one cell (bottom row or filled box below, last column or filled box right, column 0 or filled box left) is true exactly when the target cell is outside the grid or filled |
| Grid.CanMove | JuegoTetris-main/JuegoTetris-main/JuegoTetris/juego.py:79-96 | the legality check (cells tested in order, the first blocked one answers false) holds exactly when every target cell is inside the grid and empty, in both directions |
| Grid.TranslationStaysInBounds | JuegoTetris-main/JuegoTetris-main/JuegoTetris/juego.py:83-89 | after a legal translation every piece cell is in columns 0..9 and rows 0..19, on an empty box |
| Grid.Put | JuegoTetris-main/JuegoTetris-main/JuegoTetris/juego.py:40-41 | writing one cell's colour keeps 20 rows of 10 boxes |
| Grid.Overlay | JuegoTetris-main/JuegoTetris-main/JuegoTetris/juego.py:39-41 | writing the piece's in-bounds cells keeps 20 rows of 10 boxes |
| Grid.OverlayAt | JuegoTetris-main/JuegoTetris-main/JuegoTetris/juego.py:31-33 | at an in-bounds cell the overlay shows the piece colour if it is a piece cell, and otherwise the stored box |
| Grid.OverlayEverywhere | JuegoTetris-main/JuegoTetris-main/JuegoTetris/juego.py:31-33 | the same at every in-bounds cell at once |
| RowClear.FullRowIndices | JuegoTetris-main/JuegoTetris-main/JuegoTetris/juego.py:99-102 | the scan lists at most one index per row, each an index of the grid; which indices and in what order is the next row |
| RowClear.FullRowIndicesProperties | JuegoTetris-main/JuegoTetris-main/JuegoTetris/juego.py:99-102 | the scan lists only full rows, every full row, in strictly ascending order |
| RowClear.FullRowIndicesStep | JuegoTetris-main/JuegoTetris-main/JuegoTetris/juego.py:100-102 | scanning one more row appends its index exactly when it is full |
| RowClear.Reversed | JuegoTetris-main/JuegoTetris-main/JuegoTetris/juego.py:103 | the reversed list has the same length, element k being element n-1-k of the original |
| RowClear.DeletionOrder | JuegoTetris-main/JuegoTetris-main/JuegoTetris/juego.py:103 | the deletion order has one entry per scanned full row, each an index of the grid; its content and order are the next row |
| RowClear.DeletionOrderProperties | JuegoTetris-main/JuegoTetris-main/JuegoTetris/juego.py:103 | the deletion order lists every full row, only full rows, strictly descending |
| RowClear.DeleteAndInsertTop | JuegoTetris-main/JuegoTetris-main/JuegoTetris/juego.py:104-105 | one delete plus top insert keeps the row count and keeps 20 rows of 10 boxes |
| RowClear.ApplyDeletions | JuegoTetris-main/JuegoTetris-main/JuegoTetris/juego.py:103-105 | any sequence of such steps keeps the row count and the grid shape |
| RowClear.ApplyDeletionsStep | JuegoTetris-main/JuegoTetris-main/JuegoTetris/juego.py:103-105 | each loop iteration applies the next step to the grid the previous ones left |
| RowClear.ClearRows | JuegoTetris-main/JuegoTetris-main/JuegoTetris/juego.py:98-105 | the program's clear keeps the row count and keeps 20 rows of 10 boxes; its result for zero, one and two full rows is given by the lemmas below |
| RowClear.ScanPrefix | JuegoTetris-main/JuegoTetris-main/JuegoTetris/juego.py:99-102 | on a grid whose only full rows are a and b, the scan of the first n rows lists those of a and b that lie below n |
| RowClear.DeletionOrderOf | JuegoTetris-main/JuegoTetris-main/JuegoTetris/juego.py:103 | on such a grid the deletion order is b then a (one entry when a == b, none when neither is a row) |
| RowClear.NoFullRowUnchanged | JuegoTetris-main/JuegoTetris-main/JuegoTetris/juego.py:98-105 | with no full row the clear leaves the grid unchanged |
| RowClear.OneFullRowCleared | JuegoTetris-main/JuegoTetris-main/JuegoTetris/juego.py:98-105 | with exactly one full row k the clear gives an empty row followed by rows 0..k-1 and k+1.. in their order |
| RowClear.TwoFullRowsSteps | JuegoTetris-main/JuegoTetris-main/JuegoTetris/juego.py:103-105 | with exactly two full rows a < b the clear deletes row b, then row a of the resulting grid |
| RowClear.DeleteTwice | JuegoTetris-main/JuegoTetris-main/JuegoTetris/juego.py:104-105 | those two steps remove old rows b and a - 1 (or the new empty row when a is 0) and leave old row a at index a + 1 |
| RowClear.TwoFullRowsAsWritten | JuegoTetris-main/JuegoTetris-main/JuegoTetris/juego.py:98-105 | with exactly two full rows a < b the program's clear yields that grid, and a full row remains at index a + 1 |
| RowClear.KeptProperties | JuegoTetris-main/JuegoTetris-main/JuegoTetris/juego.py:101 | kept rows plus full rows account for every row, and no kept row is full |
| RowClear.ClearRowsIntended | JuegoTetris-main/JuegoTetris-main/JuegoTetris/juego.py:98-105 | the intended clear keeps the row count and the grid shape, leaves no full row, puts one empty row on top per full row, and keeps the other rows in order below them |
| RowClear.KeptPrefix | JuegoTetris-main/JuegoTetris-main/JuegoTetris/juego.py:101 | with only row k full, the kept rows of the first n rows are those rows without row k |
| RowClear.KeptSkipsOne | JuegoTetris-main/JuegoTetris-main/JuegoTetris/juego.py:101 | with only row k full, the kept rows are all rows but k, in order |
| RowClear.KeptAll | JuegoTetris-main/JuegoTetris-main/JuegoTetris/juego.py:101 | with no full row, every row is kept, in order |
| RowClear.NoFullRowAsIntended | JuegoTetris-main/JuegoTetris-main/JuegoTetris/juego.py:98-105 | with no full row the program's clear equals the intended clear |
| RowClear.OneFullRowAsIntended | JuegoTetris-main/JuegoTetris-main/JuegoTetris/juego.py:98-105 | with exactly one full row the program's clear equals the intended clear |
| RowClear.RowsFiveAndNine | JuegoTetris-main/JuegoTetris-main/JuegoTetris/juego.py:103-105 | with rows 5 and 9 full, the program's clear leaves a full row at index 6 and differs from the intended clear |
| Game.Piece.constructor | JuegoTetris-main/JuegoTetris-main/JuegoTetris/juego.py:108-116 | a new piece has the chosen palette colour, the chosen variant's spawn cells and rotation state 0 |
| Game.Piece.ChangePiece | JuegoTetris-main/JuegoTetris-main/JuegoTetris/juego.py:118-121 | every field of the piece is replaced: chosen colour, spawn cells, rotation state 0 |
| Game.Piece.Translate | JuegoTetris-main/JuegoTetris-main/JuegoTetris/juego.py:50-57 | the cells are updated in place one by one, ending as the translated cells; colour and rotation state are unchanged |
| Game.Board.constructor | JuegoTetris-main/JuegoTetris-main/JuegoTetris/juego.py:22-24 | a new board has an all-empty 20 x 10 grid and a fresh in-bounds piece at rotation state 0 |
| Game.Board.Display | JuegoTetris-main/JuegoTetris-main/JuegoTetris/juego.py:30-33 | the displayed grid shows the piece colour on exactly the in-bounds piece cells and the stored box elsewhere, leaving the board unchanged |
| Game.Board.MovePiece | JuegoTetris-main/JuegoTetris-main/JuegoTetris/juego.py:44-62 | ROTATE sets the state to (old + 1) mod 4, rotates the cells by the new state and leaves the grid alone. A legal translation shifts every cell by one step and then runs the row clear. A blocked DOWN locks the piece into the grid without clearing and spawns the chosen piece at state 0. A blocked LEFT or RIGHT changes nothing. After any translation or lock every cell is in bounds |
| Game.Board.UpdateBoard | JuegoTetris-main/JuegoTetris-main/JuegoTetris/juego.py:38-42 | the grid becomes the overlay of the old piece's in-bounds cells in its colour, then the piece is replaced |
| Game.Board.FullRowControl | JuegoTetris-main/JuegoTetris-main/JuegoTetris/juego.py:98-105 | the two loops leave exactly the grid of the as-written clear, still 20 rows of 10 boxes |
| Game.Board.TopRowOccupied | JuegoTetris-main/JuegoTetris-main/JuegoTetris/juego.py:192-195 | the game is over exactly when some box of row 0 is not empty |
| Game.Board.PressKey | JuegoTetris-main/JuegoTetris-main/JuegoTetris/juego.py:189-190 | a key outside the table changes nothing; a key in the table issues its movement |

## Left out

- Terminal output (screen clearing, the header line, printing rows, `juego.py:28-29`, `34-36`)
  is I/O. Only the overlay computation of lines 30-33 is modelled, as `Game.Board.Display`.
- Keyboard reading and the event-type filter (`juego.py:186-188`) are I/O. A key
  arrives as a string parameter of `Game.Board.PressKey`.
- The escape key and the main loop (`juego.py:171-175`, `185`, `199`) are not modelled.
  They are the session driver, outside the board. The game-over test they call is
  modelled as `Game.Board.TopRowOccupied`.
- The gravity thread, `time.sleep`, thread start and join (`juego.py:176-183`, `197-198`)
  are concurrency. Gravity is one more DOWN call to `MovePiece`.
- The random choices (`juego.py:109`, `115`, `119`) are not modelled. They are replaced by the
  `shapeIndex` and `colourIndex` parameters.
- The floating-point cosine, sine and rounding (`juego.py:66-75`) are replaced by the
  exact integer quarter-turn table. For multiples of 90 degrees each rounded sum
  `x * cos - y * sin` (or `x * sin + y * cos`) differs from the integer table value by a
  tiny fraction of the coordinate, so it rounds to that value.
- The class-level `BOARD` list shared by all boards (`juego.py:20`, `23`) is not modelled.
  Each board owns its grid; aliasing between boards is outside the model.
- The ROTATE arm of the legality check (`juego.py:91-95`) is not modelled. It is never
  reached, because ROTATE never calls the check.
- Game.Board.MovePiece: requires every piece cell in bounds for a translation. Every
  spawned piece has a cell on row 1, and translations never decrease a row, so the first
  ROTATE always takes the piece off the grid (`Rotation.SpawnRotateLeavesGrid`,
  `Rotation.FirstRotateLeavesGrid`). From then on the precondition rules out every
  translation, gravity's DOWN included, until the cells are back on the grid. The model
  does not say what the program does with such a piece. The program's tests at
  `juego.py:83`, `86` and `89` index the grid with the cell's coordinates. A negative
  index counts from the end of the list. An index past the end raises an error. Some
  reads still land on a real box: at row -1 the DOWN test reads row 0.
- Game.Board.PressKey: for a recognised key it promises only that the board stays valid,
  not the movement's full effect. That effect is stated once, on `Game.Board.MovePiece`,
  which `PressKey` calls.
- Game.Board.FullRowControl and Game.Board.MovePiece use the clear as written, not
  `RowClear.ClearRowsIntended`. The board keeps the program's behaviour; the intended clear
  exists as a separate definition.
- Game.Board.MovePiece uses the rotation as written, not `Rotation.QuarterTurnShape`, for
  the same reason.
- The unused `rotation` field of the shape classes (`juego.py:126` and similar) is not
  modelled.

## Findings

| source | as written | input that shows it | evidently intended | confidence | as-written member | corrected member |
|---|---|---|---|---|---|---|
| JuegoTetris-main/JuegoTetris-main/JuegoTetris/juego.py:103-105 | the full-row indices are collected once; each deletion is followed by an insert at the top that moves every higher row down by one, so later (smaller) indices now name the row above the full one | a grid whose only full rows are 5 and 9: after the clear a full row remains at index 6 | every full row is removed and as many empty rows are placed on top | not executed; proved about the model | RowClear.RowsFiveAndNine | RowClear.ClearRowsIntended |
| JuegoTetris-main/JuegoTetris-main/JuegoTetris/juego.py:45-47 | each press rotates the already rotated cells by the new absolute angle state x 90 degrees, so presses from state 0 turn by 1, 2, 3, 0 quarter turns | four presses on the spawned J block: its cell (0, 1) ends at (0, -1), a half turn | each press turns the piece by one more quarter turn, so four presses restore it | not executed; proved about the model | Rotation.JBlockHalfTurn | Rotation.FourQuarterTurnsRestore |

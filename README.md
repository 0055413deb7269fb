# Gravity-reversing Tetris engine in Dafny

This project models the game engine of a browser Tetris variant in which
gravity flips after every lock. The board is 30 rows by 10 columns. A new
piece always appears in the middle of the board. While gravity points down
(+1) pieces fall towards row 29; while it points up (-1) they rise towards
row 0. The line clear splits the board at the midline, row 15. Full rows in
the bottom half are removed and the rest of that half packs downwards. Full
rows in the top half are removed and the rest of that half packs upwards.
Neither half's pass touches the other half.

The model has four modules:

- `Tetrominos` (`tetrominos.dfy`): the piece catalog I, O, T, L, J, S, Z.
  Each piece has a colour and four 4x4 occupancy matrices, one per rotation
  state. There are lemmas on the catalog: each matrix has exactly four cells,
  no matrix is empty, and the colours are distinct and positive.
- `Grid` (`grid.dfy`): the board as a sequence of rows, with `createEmptyBoard`.
  It also holds the specification of the line clear. `Kept` is the non-full
  rows in order, `CountFull` counts the full rows, `CompactDown` and
  `CompactUp` state what each half's pass produces, and `Cleared` is the
  whole cleared board. The lemmas state what a clear does to the board.
- `Placement` (`placement.dfy`): the collision rule `Fits` (what
  `isValidPosition` decides) and `Stamp` (the board after a lock writes the
  piece's colour). `RestY` is the row at which a hard drop ends. The spawn
  anchor is (`COLS / 2 - 2`, `ROWS / 2 - 2`) = (3, 13).
- `Engine` (`engine.dfy`): the game state as a class `Game`, with fields
  `board`, `gravityDir`, `current`, `gameOver` and `score`. The active piece
  is a class `Piece` whose `x`, `y` and `rotation` the moves update in
  place. Every operation of the source is a method with loops where the
  source has them. Each method is proved against the specification
  functions above. The invariant `Valid()` holds between operations:
  - the board keeps its shape and holds no full row;
  - gravity is +1 or -1;
  - the game is over exactly when there is no current piece;
  - the current piece always stands where it fits.

A colour is modelled as a positive number: catalog index + 1. An empty cell
is 0, as in the source. The random piece choice is a parameter, `next` or
`kinds`, so every operation is deterministic. A piece's catalog entry is
its index `def`.

One lock clears at most four rows on any board the game can reach
(`Engine.LockScore`). The reason: rows are full only just after a lock, and
the new full rows must be rows the piece occupies. So the "four or more"
entry of the score table is only ever reached with exactly four rows.

## Model

| member | source | states |
|---|---|---|
| Tetrominos.Catalog | main.js:57-269 | The catalog has seven entries in the order I, O, T, L, J, S and Z. Each entry has a positive colour and four 4x4 matrices of 0/1. No two entries share a colour. |
| Tetrominos.Color | main.js:339 | A locked cell's value is positive, so it reads as filled. It tells the piece apart from every other piece. |
| Tetrominos.FourCells | main.js:57-269 | Every rotation state of every piece has exactly four occupied cells. |
| Tetrominos.SomeCell | main.js:57-269 | Every rotation state has at least one occupied cell, and it gives one such cell. |
| Grid.SetCell | main.js:339 | Writing one cell changes that cell and no other cell. The board stays 30x10. |
| Grid.EmptyRow | main.js:305 | A fresh row has COLS zero cells and is not full. |
| Grid.CreateEmptyBoard | main.js:302-309 | The new board is ROWS rows of COLS columns, and every cell is 0. |
| Grid.KeptCount | main.js:389-395 | Every row of a region is either kept or counted as full, never both. |
| Grid.KeptRows | main.js:389-395 | Every kept row is a row of the input, and no kept row is full. |
| Grid.NoFullKeepsAll | main.js:376 | The count of full rows is 0 exactly when no row is full. In that case every row is kept unchanged. |
| Grid.CompactShape | main.js:385-420 | Each half's pass keeps the half's length and row width, and leaves no row in it full. |
| Grid.ClearedShape | main.js:363-423 | After a clear the board is still ROWS x COLS and contains no full row. |
| Grid.CountFullSplit | main.js:422 | The number returned, the count of full rows on the whole board, is the sum of the two halves' counts. |
| Grid.ClearedUnchangedIff | main.js:364-376 | The clear leaves the board unchanged exactly when no row is full. |
| Grid.ClearedRegionsIndependent | main.js:382-420 | A half without a full row comes out of the clear unchanged, whatever the other half holds. |
| Grid.BottomRowLands | main.js:386-399 | In the bottom half, a non-full row at y lands at y plus the number of full rows below it. Those rows stay in their original order, packed against row ROWS-1. |
| Grid.TopRowLands | main.js:405-418 | In the top half, a non-full row at y lands at y minus the number of full rows above it. Those rows stay in their original order, packed against row 0. |
| Grid.ClearedMidlineEmpty | main.js:397-418 | The rows freed next to the midline are empty. Each side has as many as it had full rows. |
| Placement.FitsBounds | main.js:312-328 | A piece that fits has its anchor within three cells of the board on every side. |
| Placement.StampStep | main.js:333-342 | One step of the lock's scan writes the colour into the visited cell when it is occupied and on the board. Otherwise it changes nothing. |
| Placement.StampNextRow | main.js:333-342 | In the lock's scan, finishing one matrix row is the same as starting the next. |
| Placement.StampStart | main.js:333-342 | Before the lock's scan starts, the board is unchanged. |
| Placement.StampExact | main.js:332-342 | The lock sets every occupied cell of the piece that lies on the board to the piece's colour. Every cell it changed is an occupied cell of the piece. |
| Placement.StampBlocks | main.js:332-342 | After the lock, the piece no longer fits where it stood. |
| Placement.StampFullRows | main.js:332-353 | On a board with no full row, every row the lock makes full is one of the piece's four box rows. So at most four rows become full. |
| Placement.SpawnFitsOnEmpty | main.js:686-687 | On an empty board every piece fits at the spawn anchor in rotation 0. |
| Placement.SpawnBlocked | main.js:287-292 | When the whole 4x4 spawn box is filled, no piece can spawn. |
| Placement.RestYLands | main.js:461-468 | The hard drop's resting row fits, and one more step along gravity does not. The resting row lies on the far side of the start in the direction of travel. |
| Placement.RestYPath | main.js:461-468 | Every row between the start and the resting row fits, so the drop never skips over a gap. |
| Engine.Filter | main.js:386 | The filtered list holds exactly the values of the input that pass the test. |
| Engine.RotationUndo | main.js:426-434 | A turn under gravity g is undone by a turn under -g. A turn always changes the rotation state. |
| Engine.RotationCycle | main.js:426-434 | Four turns in the same direction return to the start. |
| Engine.LockScore | main.js:345-353 | On a board with no full row, one lock clears at most four rows. The score delta is 0, 100, 300, 500 or 800 for 0, 1, 2, 3 or 4 rows. |
| Engine.ScoreDeltaMonotone | main.js:345-353 | Clearing more rows never scores less. The delta is zero only when no row was cleared. |
| Engine.Piece.constructor | main.js:281-286 | A piece record holds its catalog entry, position and rotation. |
| Engine.Game.constructor | main.js:679-689 | The start state: an empty board, gravity down, score 0, and the first piece at the spawn anchor in rotation 0. |
| Engine.Game.IsValidPosition | main.js:312-328 | The result is true exactly when every occupied cell is inside the board and on an empty cell. It changes no state. |
| Engine.Game.SpawnPiece | main.js:272-300 | The result is null exactly when the piece does not fit at the anchor. In that case `gameOver` is set. Otherwise the result is a new piece of the given kind at the anchor, in rotation 0. |
| Engine.Game.StampPiece | main.js:332-342 | The board becomes `Stamp` of the old board by the current piece. |
| Engine.Game.FullLines | main.js:364-374 | The result lists exactly the full rows, in increasing order. Its length is `CountFull(board)`. |
| Engine.Game.CompactBottom | main.js:385-401 | The top half is unchanged. The bottom half becomes `CompactDown` of the old bottom half. |
| Engine.Game.ShiftDown | main.js:388-395 | The kept rows of the bottom half end below `writeRow`, in order. The top half is untouched. `writeRow - (MID - 1)` is the number of full rows in the bottom half. |
| Engine.Game.ClearDown | main.js:397-399 | Rows `from` down to MID become empty rows. Nothing else changes. |
| Engine.Game.CompactTop | main.js:404-420 | The bottom half is unchanged. The top half becomes `CompactUp` of the old top half. |
| Engine.Game.ShiftUp | main.js:407-414 | The kept rows of the top half end above `writeRow`, in order. The bottom half is untouched. `MID - writeRow` is the number of full rows in the top half. |
| Engine.Game.ClearUp | main.js:416-418 | Rows `from` up to MID-1 become empty rows. Nothing else changes. |
| Engine.Game.ClearLines | main.js:363-423 | The board becomes `Cleared` of the old board. The result is the number of full rows of the old board. |
| Engine.Game.LockPiece | main.js:331-360 | In order: the piece is stamped, the board is cleared, the score grows by `ScoreDelta` of the rows cleared, gravity is negated once, and the next piece spawns at the anchor. `gameOver` is set if the next piece does not fit. `Valid()` is kept. |
| Engine.Game.RotatePiece | main.js:426-435 | With a piece, the rotation becomes `(r + dir + 4) % 4` if that state fits where the piece stands. Otherwise nothing changes. Position never changes. Without a piece, nothing happens. |
| Engine.Game.MovePieceHor | main.js:438-444 | With a piece, `x` becomes `x + dx` if the piece fits there. Otherwise nothing changes. `y` and the rotation never change. Without a piece, nothing happens. |
| Engine.Game.StepGravity | main.js:447-456 | Without a piece, nothing changes. If the piece fits one row along gravity, only its `y` changes, by `gravityDir`. Otherwise the piece locks as `LockPiece` states. |
| Engine.Game.DropToRest | main.js:461-468 | The loop ends, and the piece ends at `RestY`: the first row from which one more step is blocked. `x` and the rotation are unchanged. |
| Engine.Game.HardDrop | main.js:459-470 | Without a piece, nothing changes. Otherwise the piece is moved to `RestY` and then locked exactly once, as `LockPiece` states. |
| Engine.Game.Update | main.js:630-664 | When the game is over, the board, score and gravity are unchanged and the game stays over. In every case `Valid()` is kept and the score never decreases. |

## Left out

- Rendering: the canvas, the cells and the spawn highlight are drawing only.
- The DOM wiring: the key listeners, the status text, and which arrow key rotates or soft-drops under each gravity. These are browser input and output.
- The spawn animation timer and easing: floating-point timing with no effect on the game.
- The drop accumulator, the soft-drop interval and the frame loop: these are floating-point timing. `Update` takes the whole number of gravity steps that are due as its parameter `steps`.
- The random piece choice: the kind of each piece to spawn is a parameter, `next` in the lock methods and `kinds` in `Update`.
- Colour strings are modelled as the positive numbers 1..7. Only "zero or not" matters to the game.
- `LockPiece` locks the game's current piece rather than taking the piece as an argument. The source always passes the current piece.
- Update: its contract states the game-over guard, the invariant and that the score never decreases, not the combined effect of the rotation, the hard drop and the gravity steps it runs in order; the effect of each call is stated on `RotatePiece`, `HardDrop` and `StepGravity`.

# Tetris engine in Dafny

A model of the falling-block engine of `tetris/tetris.js`. The game keeps:

- a 20-row, 10-column arena of cells, where 0 is empty and 1..7 is the id of the piece that filled the cell;
- the active piece (`player.matrix` at `player.pos`);
- the previewed next piece;
- the score;
- the drop counter.

The engine's functions are modelled as follows:

- `createMatrix` and `createPiece` become pure functions.
- `collide`, `merge`, `rotate` and `arenaSweep` become loop methods over grid values. Each is proved equal to a specification function, and the properties of the game are proved about those functions.
- `playerMove`, `playerRotate`, `playerDrop` and `playerReset` become methods of the class `Tetris.Game`. The class has one field per piece of game state. It keeps the invariant `Valid()`:
  - the arena is 20 by 10, and every cell holds 0 or a piece id 1..7 (`ValidCells`);
  - the active and the next piece are well-formed pieces (square of side 2, 3 or 4, exactly four cells equal to one id in 1..7);
  - every cell of the active piece lies inside the arena.

Modules:

- `Grids` (grids.dfy): grids, `createMatrix`, row filling, the multiset of cells.
- `Pieces` (pieces.dfy): the seven shapes and `createPiece`.
- `Rotation` (rotation.dfy): `rotate`, its inverse, four-fold identity and cell preservation.
- `Collision` (collision.dfy): `collide` with JavaScript's out-of-range reads, and `merge`.
- `Board` (board.dfy): `arenaSweep`, its result and its score.
- `Tetris` (game.dfy): the wall-kick search and the `Game` class.

A JavaScript read `arena[r][c]` outside the arena gives `undefined`, and `undefined !== 0`. So `Collision.At` returns an `Option`, and a piece cell over a missing row or column counts as a collision on every side, above row 0 included.

The score of one sweep follows `rowCount`, which doubles per cleared row: 10, then 20, then 40 and so on, so k rows in one sweep earn 10·(2^k − 1).

`playerDrop` calls `playerReset`, with its collision check for a new game, before `arenaSweep`. Two consequences:

- The game-over test sees the arena before full rows are cleared.
- Sweeping then moves rows above a cleared row down, and they can land on the new piece.

So the invariant keeps "inside the arena" (`Fits`) for the active piece, not "not colliding". `merge` only needs `Fits`.

## Model

| member | source | states |
|---|---|---|
| Grids.CreateMatrix | tetris/tetris.js:26-32 | h rows of width w, every cell 0 |
| Grids.FillZero | tetris/tetris.js:147 | every row zero-filled in place: the result is the all-zero grid of the same size |
| Pieces.CreatePiece | tetris/tetris.js:34-42 | a shape exactly for the seven letters of 'TJLOSZI', none for any other letter; every shape returned is a well-formed piece |
| Pieces.PickPiece | tetris/tetris.js:144 | the piece for index 0..6 of 'TJLOSZI' is a well-formed piece |
| Pieces.TIsPiece | tetris/tetris.js:35 | the T shape is a 3×3 piece with four cells of id 1 |
| Pieces.OIsPiece | tetris/tetris.js:36 | the O shape is a 2×2 piece with four cells of id 2 |
| Pieces.LIsPiece | tetris/tetris.js:37 | the L shape is a 3×3 piece with four cells of id 3 |
| Pieces.JIsPiece | tetris/tetris.js:38 | the J shape is a 3×3 piece with four cells of id 4 |
| Pieces.IIsPiece | tetris/tetris.js:39 | the I shape is a 4×4 piece with four cells of id 5 |
| Pieces.SIsPiece | tetris/tetris.js:40 | the S shape is a 3×3 piece with four cells of id 6 |
| Pieces.ZIsPiece | tetris/tetris.js:41 | the Z shape is a 3×3 piece with four cells of id 7 |
| Rotation.Rotate | tetris/tetris.js:127-138 | swapping across the diagonal, then reversing each row (dir > 0) or the row order (otherwise), gives the clockwise or counter-clockwise quarter turn `Rotated` |
| Rotation.RotateUndo | tetris/tetris.js:127-138 | for dir ≠ 0, rotating by dir and then by −dir restores the matrix |
| Rotation.RotateTwice | tetris/tetris.js:127-138 | two quarter turns in the same direction give the half turn, whatever the direction |
| Rotation.RotateFour | tetris/tetris.js:127-138 | four quarter turns in the same direction restore the matrix |
| Rotation.RotatedCells | tetris/tetris.js:127-138 | a quarter turn keeps the multiset of cell values |
| Rotation.CellsTranspose | tetris/tetris.js:128-132 | the diagonal swap (transpose) keeps the multiset of cell values |
| Rotation.RotatedPiece | tetris/tetris.js:127-138 | a quarter turn of a piece with id k is a piece with id k |
| Collision.At | tetris/tetris.js:71-72 | the read `arena[r][c]` gives a value exactly inside the arena, and that value is the cell; off the board it gives none (JavaScript's `undefined`) |
| Collision.Blocked | tetris/tetris.js:71-72 | the test `(arena[r] && arena[r][c]) !== 0` holds iff the cell is off the board or non-zero |
| Collision.Collide | tetris/tetris.js:65-78 | the nested scan returns true exactly when `Collides`: some non-zero piece cell lies on a cell that is missing or non-zero |
| Collision.CollidesOnBoard | tetris/tetris.js:65-78 | on the 20×10 arena, collide holds iff some non-zero piece cell is outside rows 0..19 or columns 0..9, or on a non-zero arena cell |
| Collision.FreeFits | tetris/tetris.js:65-78 | a piece that does not collide lies inside the arena |
| Collision.Merged | tetris/tetris.js:55-63 | same shape as the arena; every non-zero piece cell is written at (py+y, px+x); every cell not covered by the piece is unchanged |
| Collision.Merge | tetris/tetris.js:55-63 | the cell-by-cell writes produce `Merged` |
| Collision.MergedOccupies | tetris/tetris.js:55-63 | after a merge the same piece at the same place collides |
| Collision.MergedFillsEmpty | tetris/tetris.js:55-63 | merging a non-colliding piece changes only empty cells |
| Collision.MergedKeepsCells | tetris/tetris.js:55-63 | merging a well-formed piece into an arena whose cells are 0 or 1..7 keeps every cell 0 or 1..7 |
| Board.Full | tetris/tetris.js:83 | `every(value => value !== 0)` holds iff the row holds no 0 |
| Board.NonFull | tetris/tetris.js:84 | the kept rows number the rows minus the full rows |
| Board.NonFullNotFull | tetris/tetris.js:83-84 | no row kept by a sweep is full |
| Board.NonFullRows | tetris/tetris.js:80-92 | a row is kept by a sweep iff it is a row of the arena and is not full |
| Board.MoveRowToTop | tetris/tetris.js:84-85 | splicing out row y, zero-filling it and unshifting it leaves an empty 10-cell row on top of the other rows in their order |
| Board.Sweep | tetris/tetris.js:80-92 | the bottom-up scan with splice, zero-fill, unshift and re-check leaves k zero rows above the non-full rows in their order, and earns `SweepPoints(k)` for the k full rows |
| Board.SweepPointsClosedForm | tetris/tetris.js:87-88 | clearing k rows earns 10·(2^k − 1) |
| Board.SweptShape | tetris/tetris.js:80-92 | a swept arena still has 20 rows of 10 cells and no full row |
| Board.SweptKeepsCells | tetris/tetris.js:80-92 | a sweep of an arena whose cells are 0 or 1..7 keeps every cell 0 or 1..7 |
| Board.SweptIdempotent | tetris/tetris.js:80-92 | sweeping twice is sweeping once |
| Board.SweptEmpty | tetris/tetris.js:80-92 | an empty arena has no full row; a sweep leaves it empty and earns 0 |
| Board.SweepOneRow | tetris/tetris.js:80-92 | with exactly one full row i, the sweep removes row i, shifts the rows above down and puts an empty row on top |
| Tetris.SpawnX | tetris/tetris.js:143 | the spawn column centres the piece, the left margin equal to the right one or one wider: 4 for widths 2 and 3, 3 for width 4 |
| Tetris.SpawnFree | tetris/tetris.js:143 | a piece at x = 5 − ⌊width/2⌋, y = 0 on an empty arena is inside it and does not collide |
| Tetris.KickPositionsBySize | tetris/tetris.js:115-124 | the columns tried are pos, pos+1 for width 2, and pos, pos+1, pos−1, pos+2 for widths 3 and 4 |
| Tetris.KickStep | tetris/tetris.js:116-119 | each failed try moves x to the next kick position; the loop gives up exactly after the last position is tried |
| Tetris.FirstFreeSpec | tetris/tetris.js:115-124 | the position chosen is free and all earlier ones collide; none is chosen iff all collide |
| Tetris.KickSearch | tetris/tetris.js:115-124 | the offset loop +1, −2, +3, … stops at the first free position among `KickPositions`, or reports none |
| Tetris.RotateWithKick | tetris/tetris.js:112-125 | the rotated piece at the first free kick position, or, when every try collides, the unrotated piece at the original x, exactly as `Kicked` |
| Tetris.KickedKeepsPiece | tetris/tetris.js:112-125 | a rotation attempt turns a well-formed piece into a well-formed piece and keeps a piece that lies inside the arena inside it |
| Tetris.KickedFree | tetris/tetris.js:112-125 | after a rotation attempt either the piece is rotated, at a tried column, and free, or piece and x are unchanged |
| Tetris.ResetArena | tetris/tetris.js:146-150 | the game-over check: a new piece that collides at its spawn place empties the arena and zeroes the score, otherwise both stay; either way the new piece then lies inside the arena, and cells that were 0 or 1..7 stay so |
| Tetris.Game.constructor | tetris/tetris.js:184-190 | empty arena, score 0, next piece from the first choice, then playerReset with the second choice |
| Tetris.Game.PlayerReset | tetris/tetris.js:140-151 | the old next piece is active at y = 0, x = 5 − ⌊width/2⌋; a new next piece; on collision the arena becomes all zeros and the score 0, otherwise both are unchanged |
| Tetris.Game.PlayerMove | tetris/tetris.js:105-110 | x moves by dir if the piece is free there, otherwise x is unchanged; arena, matrix, y and the rest are unchanged |
| Tetris.Game.PlayerRotate | tetris/tetris.js:112-125 | matrix and x become `Kicked` (see RotateWithKick); arena, y, next piece and score are unchanged |
| Tetris.Game.PlayerDrop | tetris/tetris.js:94-103 | if the piece is free one row lower, only y grows by 1; otherwise it lands (merge at the old y, playerReset, then sweep, as `Landed`); dropCounter is 0 afterwards |
| Tetris.Game.Land | tetris/tetris.js:97-100 | merge, then playerReset, then arenaSweep: a game over gives an empty arena with score 0, otherwise the merged arena is swept and scored |
| Tetris.Game.ArenaSweep | tetris/tetris.js:80-92 | the arena becomes `Swept(arena)` and the score grows by the sweep's points; the player is unchanged |

## Left out

- Canvas and DOM output is not modelled: the two contexts and their scale (tetris/tetris.js:1-7), the colour table (15-24), `drawMatrix`, `drawNextPiece` and `draw` (44-53, 153-163), and the `innerText` score writes (13, 91, 149). None of it affects the game state.
- The `update` frame loop (165-180) runs on `requestAnimationFrame` with floating-point timestamps, so it is not modelled. `dropCounter` is kept as an integer field that `PlayerDrop` sets to 0.
- The keyboard handlers and `setInterval` repeats (194-235) are event and timer plumbing, so they are not modelled.
- `Math.random` (144, 188) is replaced by a caller-supplied index 0..6 into 'TJLOSZI' (the `choice`, `first` and `second` parameters).
- The arena, the piece matrices and their rows are JavaScript arrays changed in place. The model keeps them as values that the methods assign to the `Game` fields. This loses nothing, because `createPiece` returns a fresh array every time, so no two state components share an array.
- Tetris.Game.PlayerRotate: requires dir ≠ 0. The only callers pass −1 and 1 (tetris/tetris.js:222, 224). With 0, `rotate(matrix, -0)` repeats `rotate(matrix, 0)` instead of undoing it, and a half-turned piece need not lie inside the arena.
- Tetris.RotateWithKick: requires dir ≠ 0, for the same reason.
- Collision.Merge: requires every non-zero piece cell to lie inside the arena. In JavaScript a write to a missing row throws, and a write past the end of a row extends it. `Valid()` rules both out for every merge the game performs.
- Board.Sweep: requires the 20×10 arena. The loop needs a row width above 0, because an empty row passes `every` and would be re-checked forever.
- Tetris.Game.PlayerDrop: as in the source, the game-over check runs before the sweep. The model states what the code does and does not assume that the new piece is free after the sweep.

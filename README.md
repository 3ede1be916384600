# Verified model of the `useTetris` game engine

`useTetris(rows, cols)` (src/composables/useTetris.js) is the whole game logic of a
falling-block puzzle: a `rows × cols` grid of settled cells (`board`), the falling
piece (`currentPiece`: a 0/1 `shape` matrix anchored at column `x`, row `y`), the
`score`, and the `isGameOver` flag. A timer calls `tick` every 500 ms; key presses
go to `handleKey`; `drawBoard` renders the board with the piece on top.

This project models that engine in Dafny in three modules:

- `Matrices` (matrices.dfy): grids as `seq<seq<int>>`, piece shapes (non-empty,
  rectangular, 0/1) and the clockwise rotation `rotate`, with the facts that a
  rotation turns an h×w matrix into a w×h one with `r[i][j] == s[h-1-j][i]`, and
  that four rotations give the shape back.
- `Rules` (rules.dfy): the pure rules on plain values. `Collides` is the
  `collision` test, scanned row by row and cell by cell as the source's nested
  `some` does, and proved equal to "some occupied cell lands left or right of the
  board, at or below the floor, or on a settled cell in a row `y >= 0`". `Stamp`
  is what `mergePiece` writes. `OpenRows`, `FullCount` and `Compacted` describe
  the `filter` and the refilling of `clearLines`. `Spawned` gives the spawn
  position. `Moved` gives where a key would put the piece.
- `Tetris` (tetris.dfy): the engine as a class `Game` with fields `board`,
  `score`, `piece`, `isGameOver` and a `running` flag for the timer. Its methods
  `SpawnPiece`, `MergePiece`, `ClearLines`, `Tick`, `HandleKey`, `DrawBoard`,
  `StartGame` and `StopGame` update the state step by step as the source does.
  Each one except `StopGame` is proved against the `Rules` functions. The constructor,
  `SpawnPiece`, `Tick`, `HandleKey` and `StartGame` establish or keep the
  invariant `Valid()`: the board stays `rows × cols`, the shapes stay 0/1
  shapes, the score is not negative, the piece's `y` is never negative, and
  while the game is on the falling piece overlaps no wall, floor or settled
  cell. `MergePiece` and `ClearLines` are the two steps inside a `Tick` and keep
  only the size-and-shape part `WellFormed()`: right after a merge the piece
  still sits on the cells it was just written into, until the next spawn
  replaces it.

The random piece choice is the parameter `choice`, an index into the catalog of
shapes the `Game` is constructed with. The timer is replaced by calling `Tick`
directly.

## Model

| member | source | states |
|---|---|---|
| `Matrices.Rotate` | src/composables/useTetris.js:27-29 | an h×w shape becomes w×h with `r[i][j] == s[h-1-j][i]` (a clockwise quarter turn), and a 0/1 shape stays a 0/1 shape |
| `Matrices.RotateTwice` | src/composables/useTetris.js:27-29 | two rotations give the half turn: h×w again, with `r[i][j] == s[h-1-i][w-1-j]` |
| `Matrices.RotateFour` | src/composables/useTetris.js:27-29 | four rotations of any non-empty rectangular matrix give back the original matrix |
| `Rules.RowCollides` | src/composables/useTetris.js:34-44 | the inner `some` over one shape row is true iff some occupied cell from that column on lands on a blocked position |
| `Rules.RowsCollide` | src/composables/useTetris.js:33-45 | the outer `some` over the shape rows is true iff some occupied cell of those rows lands on a blocked position |
| `Rules.Collides` | src/composables/useTetris.js:31-46 | collision holds iff some occupied cell lands at `x < 0`, `x >= cols`, `y >= rows`, or at `y >= 0` on a nonzero board cell; cells above the top row inside the width never collide |
| `Rules.FreeCellsUnderPiece` | src/composables/useTetris.js:31-46 | a non-colliding piece with `y >= 0` has every occupied cell inside the board on an empty cell, so merging it writes in bounds |
| `Rules.LeftWallBlocks` | src/composables/useTetris.js:103-105 | at `x = 0`, a shape with an occupied cell in its first column collides one step left, so ArrowLeft leaves it in place |
| `Rules.RightWallBlocks` | src/composables/useTetris.js:106-108 | a shape with an occupied cell on the last board column collides one step right |
| `Rules.LivePieceAboveFloor` | src/composables/useTetris.js:75-81 | a non-colliding piece has each occupied row above the floor, and moving it down far enough collides, so falling ends in fewer than `rows` ticks |
| `Rules.Stamp` | src/composables/useTetris.js:48-56 | the merged board has the size of the board, row by row |
| `Rules.StampAddsPiece` | src/composables/useTetris.js:48-56 | merging a non-colliding piece keeps the board size, marks every occupied piece cell with 1, keeps every settled cell, and adds no other occupied cell |
| `Rules.FullCount` | src/composables/useTetris.js:58-60 | the number of full rows is at most the number of rows, and is 0 iff no row is full |
| `Rules.OpenRows` | src/composables/useTetris.js:59 | the filter keeps `|board| - FullCount(board)` rows; each kept row is a board row that is not full, and every non-full board row is kept |
| `Rules.OpenRowsSubMultiset` | src/composables/useTetris.js:59 | the filter keeps no row more often than it occurs in the board (the kept rows are a sub-multiset of the board rows) |
| `Rules.OpenRowsAppend` | src/composables/useTetris.js:59 | filtering a concatenation filters each part, so kept rows keep their relative order |
| `Rules.OpenRowsOfClearBoard` | src/composables/useTetris.js:59-61 | a board with no full row passes the filter unchanged |
| `Rules.Compacted` | src/composables/useTetris.js:58-67 | a line clear keeps the number of rows, and every row afterwards is either a new empty row or a board row that was not full |
| `Rules.CompactedIsClear` | src/composables/useTetris.js:58-67 | after a line clear the board is still `rows × cols` and no row is full |
| `Rules.CompactedLayout` | src/composables/useTetris.js:58-67 | after a line clear there is one empty row on top for each full row removed, then the kept rows in order; with no full row the board is unchanged |
| `Rules.Spawned` | src/composables/useTetris.js:14-18 | a new piece is on row 0 with the chosen shape, horizontally centred: `2x + width <= cols <= 2x + width + 2` |
| `Rules.SpawnOnEmptyBoardIsFree` | src/composables/useTetris.js:120-125 | on the empty board of a new game, a shape no taller than the board with `ceil(width/2) <= floor(cols/2)` does not collide at the spawn position, so the game does not end at once |
| `Rules.WideShapeSpawnsOffBoard` | src/composables/useTetris.js:15 | an odd-width shape as wide as an odd-width board spawns at `x = -1`, which is why the previous row needs its width condition |
| `Rules.OneColumnSpawnCollides` | src/composables/useTetris.js:15-20 | on a 1×1 board the one-cell shape spawns at `x = -1` and collides, so a game can be over at its first spawn |
| `Rules.Moved` | src/composables/useTetris.js:100-118 | a key moves the piece at most one column sideways or one row down, never up; only `ArrowUp` changes the shape, in place, and the result is again a 0/1 shape |
| `Tetris.Game.constructor` | src/composables/useTetris.js:5-10 | a new engine has an all-zero `rows × cols` board, score 0, no piece, game not over, timer not running |
| `Tetris.Game.SpawnPiece` | src/composables/useTetris.js:12-25 | the piece becomes the chosen shape at the spawn position; the game ends, and the timer stops, exactly when that position collides; board and score are unchanged |
| `Tetris.Game.MergePiece` | src/composables/useTetris.js:48-56 | the board becomes `Stamp` of the old board: 1 exactly under the piece's occupied cells, every other cell unchanged; nothing else changes |
| `Tetris.Game.ClearLines` | src/composables/useTetris.js:58-67 | the board becomes the compacted board (empty rows on top of the kept rows), no row is full, and the score grows by exactly 100 per full row removed |
| `Tetris.FillToHeight` | src/composables/useTetris.js:63-65 | the `unshift` loop puts exactly `rows - |kept|` empty rows of `cols` cells on top of the kept rows |
| `Tetris.Game.Tick` | src/composables/useTetris.js:69-82 | with no piece it spawns one; if the row below is free the piece moves down one row and nothing else changes; otherwise the piece is merged, lines are cleared with their score, and the next piece spawns; the timer keeps running exactly when it was running and the game is not over, so a colliding spawn stops it; `Valid()` is kept and the score never decreases |
| `Tetris.Game.HandleKey` | src/composables/useTetris.js:100-118 | with no piece or after game over nothing changes; otherwise the piece moves left, right, down or rotates exactly when the moved piece does not collide; board, score and flags are unchanged; a non-colliding piece stays non-colliding |
| `Tetris.Game.DrawBoard` | src/composables/useTetris.js:84-98 | the view is the board when there is no piece, and otherwise the board with the piece's in-bounds occupied cells set; out-of-range piece cells are skipped and the engine state is not modified |
| `Tetris.Game.StartGame` | src/composables/useTetris.js:120-127 | the board becomes all zero, the score 0, a piece spawns at the spawn position, the game is over only if that spawn collides, and the timer runs |
| `Tetris.Game.StartGameChecked` | src/composables/useTetris.js:120-127 | as `StartGame`, but the timer runs exactly when the game is not over after the first spawn |
| `Tetris.Game.StopGame` | src/composables/useTetris.js:129-134 | the timer is not running afterwards; stopping twice is the same as stopping once |

`DrawBoard` and `MergePiece` are both stated through `Stamp`, so the view shows
exactly the cells a merge at the same position would write.

## Left out

- Vue `ref` reactivity and the returned object (src/composables/useTetris.js:2, 6-9, 136-145): the state is plain class fields, readable directly.
- Timing with `setInterval`/`clearInterval`: `Tick` is called directly, and the timer is only the boolean `running`.
- `Math.random`: the chosen shape is the parameter `choice`, an index into the catalog.
- The `PIECES` catalog in src/utils/pieces.js is not part of this model. The catalog is a constructor parameter, required to be non-empty with non-empty rectangular 0/1 shapes. A shape wider or taller than the board is allowed. On the empty board of a new game it collides at spawn exactly when one of its occupied cells falls outside the board's width or below its floor (on a later spawn an occupied cell landing on a settled cell collides too); empty edge columns of the shape may hang off the board without a collision (`[[0,1,0]]` on a board 2 columns wide does not collide).
- Key events: the key is the datatype `Key` (`ArrowLeft`, `ArrowRight`, `ArrowDown`, `ArrowUp`, `OtherKey`).
- The default arguments `rows = 20`, `cols = 10`: the constructor takes both explicitly, each at least 1.
- Tick: requires `!isGameOver`, because after a game over the timer is stopped and no tick comes. The one exception is the `startGame` defect listed under "Findings"; the model does not follow the ticks that come after it.
- MergePiece: requires a live, non-colliding piece, which is the only way `tick` calls it while the game is on. After the `startGame` defect under "Findings", `tick` merges a piece that collides; that merge is not modelled. Writes outside the board are not modelled. In JavaScript a row outside `0..rows-1` makes the write throw, a column at or past `cols` lengthens that row, and a negative column sets a property that is not an array index.
- The falling piece is a value (`Option<Piece>`) that the methods reassign. In the code it is an object whose `x`, `y` and `shape` fields change in place. Nothing else holds a reference to it, so no aliasing is lost.
- Board cells are integers, and "occupied" means nonzero, matching JavaScript truthiness for the 0/1 values the engine writes.

## Findings

| source | as written | input that shows it | evidently intended | confidence | as-written member | corrected member |
|---|---|---|---|---|---|---|
| src/composables/useTetris.js:120-126 | `startGame` calls `spawnPiece`, then arms the timer unconditionally, even when that spawn collided and `spawnPiece` already set `isGameOver` and stopped the game | `useTetris(1, 1)` with the one-cell shape: it spawns at `x = -1` and collides, yet the timer is armed. The next tick merges that piece off the board (the write at column -1 sets a stray property) before its own spawn stops the timer. With a shape taller than the board (`useTetris(1, 2)` with a shape of two rows and one column) the merge writes to a missing row and throws before any spawn, so every later tick throws again | arm the timer only when the first spawn did not end the game, as every other spawn does through `stopGame` | not executed | `Tetris.Game.StartGame` (ensures `running` with `isGameOver` possible) and `Rules.OneColumnSpawnCollides` | `Tetris.Game.StartGameChecked` (ensures `running == !isGameOver`) |

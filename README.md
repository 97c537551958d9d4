# merge-1024 engine in Dafny

A model of the game engine in `game.js`, a 2048-style sliding-tile puzzle on a
fixed 4x4 board, together with proofs about it.

The page keeps its state in module-level variables:

- the board of tile references;
- the `tiles` registry;
- the id counter `tileId`;
- `score` and `best`;
- the one-level `safeSnapshot`;
- `moveCount`;
- the game-over overlay.

In the model these are the fields of one object, `Engine.Game`, and the page's functions are its methods.

Tiles in the page are mutable objects that are compared by reference. In the
model a tile is a datatype value that carries its `id`, and reference equality
is id equality. The invariant `Engine.Game.Valid` keeps every id in at most one
cell, so the two views agree on every board the game reaches. The modules
follow the structure of the code:

- `Tiles`: tiles, lines, reference equality.
- `Grid`: the board, `setCell`, `emptyCells`, the game-over test.
- `LineResolver` and `LineFacts`: `processLine`. It is specified by a
  recursive function and implemented as the index loop with the extra step
  past an absorbed tile. Lemmas cover shape, conservation, identity, order
  and the merge links.
- `Moves` and `MoveFacts`: the four directional moves as one specification,
  parameterised by how a direction reads its lines. Lemmas cover the
  `moved` flag, the totals, invariants and the left/right/up/down
  readings.
- `Spawn`: `getSpawnValue` and `addRandomTile`, with the two `Math.random()`
  draws passed in as an integer `Draw`.
- `Snapshots`: `makeSnapshot` and `restoreSnapshot`, on values.
- `Engine`: the stateful class. Its methods are proved against the
  functions above, and its public operations keep `Valid()`.

Randomness, the DOM and `localStorage` are parameters or left out:

- `best` is passed to the constructor.
- Every spawn takes a `Draw`: `roll` in `[0, 2^53)` for the cell index,
  `percent` in `[0, 100)` for the value.

## Model

| member | source | states |
|---|---|---|
| Engine.Game.constructor | game.js:13-19 | the page's initial state followed by `startGame`: score 0, `best` the stored value, no snapshot, overlay hidden, two registered tiles with ids 1 and 2, the board that the two spawns make from the empty board, fourteen empty cells, `Valid()` |
| Engine.Game.CreateTile | game.js:50-63 | the counter goes up by one; the tile has that id, the given cell and value, and is flagged new; its id is appended to the registry |
| Engine.Game.SetCell | game.js:65-71 | the board becomes `SetCellOf` of the old board: only that cell changes |
| Grid.SetCellOf | game.js:65-71 | the stored tile takes the cell's row and column and keeps every other field (`Tiles.Placed`, game.js:67-69); every other cell keeps its occupant |
| Tiles.Pow2OfExp | game.js:141 | `Tiles.Pow2`, the tile-value test by repeated halving, holds for every 2^n with n >= 1 |
| Tiles.Pow2Exponent | game.js:141 | every value passing `Tiles.Pow2` is 2^n for some n >= 1, so the test is exactly "a power of two at least 2" |
| Tiles.SumValuesPositive | game.js:143 | tiles holding powers of two have a positive total exactly when there is at least one |
| Grid.SetCellPlacement | game.js:65-71 | storing a tile keeps every tile at the coordinates of its own cell |
| Grid.SetCellIds | game.js:65-71 | after `setCell` the board holds only its old ids and the stored tile's id |
| Engine.Game.ClearTiles | game.js:73-78 | the registry is empty and the counter is 0 |
| Engine.Game.ClearBoard | game.js:81 | the board has SIZE rows of SIZE empty cells |
| Grid.EmptyBoard | game.js:81 | a board of SIZE x SIZE empty cells |
| Engine.Game.StartGame | game.js:80-91 | score, move counter and overlay reset; no snapshot; best kept; two spawns on the cleared board with ids 1 and 2; registry `[1, 2]`; fourteen empty cells; `Valid()` |
| Engine.Game.Reset | game.js:80-87 | everything but `best` cleared; the invariant holds with an empty registry and counter 0; all SIZE*SIZE cells empty |
| Engine.EmptyInv | game.js:80-82 | an all-empty board satisfies the invariant (placement, distinct ids up to the counter, all registered, every value a power of two) with an empty registry and counter 0, and has SIZE*SIZE empty cells |
| Grid.EmptyBoardFacts | game.js:80-82 | an all-empty board has SIZE*SIZE empty cells and no ids, and trivially holds only powers of two |
| Engine.Game.UpdateScore | game.js:93-101 | the score grows by `delta` and `best` becomes the larger of the old best and the new score, so `best >= score` and `best` never decreases |
| Engine.Max | game.js:96-98 | the result is one of the two arguments and at least both |
| Grid.EmptyCellsOf | game.js:103-111 | the definition of `emptyCells()` as a list: row by row, left to right. Its meaning is stated by `Grid.EmptyCellsMembership` and `Grid.EmptyCellsSorted` |
| Engine.Game.EmptyCells | game.js:103-111 | the nested loops return exactly `EmptyCellsOf(board)` |
| Grid.EmptyCellsMembership | game.js:103-111 | a cell is listed exactly when it is on the board and empty |
| Grid.EmptyCellsSorted | game.js:103-111 | the cells are listed in strictly increasing row-major order, so without repeats |
| Grid.SetCellFillsEmpty | game.js:122-129 | putting a tile into an empty cell leaves exactly one empty cell fewer |
| Spawn.GetSpawnValue | game.js:113-120 | the brackets are half open at 6, 14, 24, 36 and 50; the value is in {2,4} below 24, in {4,8} below 50 and in {8,16} after that; the smaller value is drawn exactly when the percentile is below the bracket's chance; otherwise the value is twice the smaller one |
| Spawn.SmallDrawsCount | game.js:113-120 | exactly the bracket's chance out of the 100 percentiles draw the smaller value (85 of 100 at move 0) |
| Spawn.SpawnValuePow2 | game.js:113-120 | every value `getSpawnValue` returns (2, 4, 8 or 16) is a power of two (`Tiles.Pow2`) |
| Spawn.PickIndex | game.js:125 | `Math.floor(Math.random() * n)` is an index below `n` |
| Spawn.PickIndexOnto | game.js:125 | every index below `n` is drawn by some roll |
| Spawn.PickIndexRange | game.js:125 | the rolls that pick index `i` of `n` are exactly those from `i * 2^53 / n` up to `(i + 1) * 2^53 / n`, both rounded up |
| Spawn.PickIndexCount | game.js:125 | each index of `n` is picked by `2^53 / n` rolls or by one more, so the pick is as even as the rolls allow |
| Spawn.SpawnCell | game.js:123-125 | the picked cell is one of `emptyCells()`, on the board and empty |
| Spawn.SpawnKeepsInvariants | game.js:122-129 | a tile with the next id stored in an empty cell keeps placement, distinct ids and ids up to the new counter |
| Spawn.NewTile | game.js:51-60 | the new tile has the given id, cell and value, is flagged `isNew`, not `merged` or `removing`, and has no `mergeTo` |
| Spawn.AddedBoard | game.js:122-129 | the board after the spawn has SIZE rows of SIZE cells; what the spawn does to it is stated by `Spawn.AddedBoardFacts` |
| Spawn.AddedBoardFacts | game.js:122-129 | a full board is unchanged; otherwise the number of empty cells drops by exactly one; the invariants hold; the only new id is the counter's next one |
| Spawn.SpawnKeepsPow2 | game.js:122-129 | a spawn on a board of powers of two leaves only powers of two on it |
| Engine.SpawnInv | game.js:122-129 | a spawn keeps the board-and-registry invariant, powers of two included, with the new id registered |
| Engine.Game.AddRandomTile | game.js:122-129 | the board becomes `AddedBoard`; on a full board nothing changes; otherwise the counter goes up by one, its id is registered and there is one empty cell fewer; the invariant is kept |
| LineResolver.Filter | game.js:132 | no longer than the line; `LineResolver.FilterIds` states that it keeps exactly the occupants |
| LineResolver.Resolve | game.js:137-152 | the recursive specification of the scan: a pair of equal values gives a doubled tile and an absorbed one, otherwise the tile is kept. `LineResolver.ResolveSizes`, `ResolveIds`, `ResolveValues`, `ResolveMergeTo` and `ResolveUnmerge` state its properties |
| LineResolver.Resolved | game.js:131-156 | the specification of `processLine`: filter, scan, pad. The `LineFacts` lemmas state its properties |
| LineResolver.ProcessLine | game.js:131-156 | filter, scan and padding compute exactly `Resolved(line)` |
| LineResolver.Scan | game.js:137-152 | the index loop, with its extra `i++` after a merge, computes the recursive specification `Resolve` |
| LineResolver.FilterIds | game.js:132 | the filtered tiles are exactly the occupants of the line, and distinct when the line's are |
| LineResolver.Pad | game.js:154 | the padded line has SIZE slots (or the line's length if longer), starts with the line, and has only empty cells after it |
| LineResolver.Doubled | game.js:141-143 | the surviving tile keeps its id, doubles its value and is flagged `merged`; its row, column, `isNew`, `removing` and `mergeTo` are kept |
| LineResolver.Absorbed | game.js:144-145 | the absorbed tile keeps id and value, is flagged `removing` and points at the given output index; its row, column, `isNew` and `merged` are kept |
| LineResolver.ResolveMergeStep | game.js:140-148 | one merging step of the loop extends the finished part by a doubled tile and an absorbed one and resumes two tiles later |
| LineResolver.ResolveKeepStep | game.js:149-151 | one keeping step of the loop extends the finished part by the current tile and resumes at the next one |
| LineResolver.ResolveSizes | game.js:137-152 | every tile survives or is absorbed; at most as many are absorbed as survive; every output slot holds a tile; with no merge the output is the input, tile by tile, and nothing is gained |
| LineResolver.ResolveAbsorber | game.js:138-147 | the output index each absorbed tile names in `mergeTo` holds the tile scanned right before it, which is `current` when the pair merged |
| LineResolver.ResolveMergeTo | game.js:140-146 | every absorbed tile is `removing` and names in `mergeTo` the output index of a `merged` tile of twice its value; the `mergeTo` indices strictly increase |
| LineResolver.ResolveUnmerge | game.js:137-152 | putting each absorbed tile back after its absorber, with the old value, gives back the input's ids and values in order |
| LineResolver.ResolveValues | game.js:140-146 | survivors keep the total value; the gain is twice the absorbed value |
| LineResolver.ResolvePow2 | game.js:137-152 | on tiles of powers of two, every survivor (kept, or doubled from two equal values) and every absorbed tile holds a power of two |
| LineResolver.FilterPow2 | game.js:132 | filtering a line of powers of two keeps only powers of two |
| LineResolver.ResolveIds | game.js:137-152 | survivors and absorbed tiles are exactly the input tiles; with distinct inputs they are distinct and disjoint |
| LineFacts.ResolvedShape | game.js:131-156 | SIZE slots, the survivors first and then only empty cells; at most half the tiles are absorbed |
| LineFacts.ResolvedConserves | game.js:140-146 | the line's total value is unchanged; `gained` is twice the absorbed value; the non-empty results number the non-empty inputs less `|removed|` |
| LineFacts.ResolvedIds | game.js:131-156 | no tile is lost or duplicated: result and removed together hold exactly the line's ids, disjointly when the line's ids are distinct |
| LineFacts.ResolvedMergeTo | game.js:138-147 | each removed tile is `removing`, and its `mergeTo` is an output slot holding a `merged` tile of twice its value; that tile is its absorber, the tile just before it among the line's tiles (`AbsorbedAfter`); distinct removed tiles name increasing slots, so no tile merges twice |
| LineFacts.ResolvedPow2 | game.js:131-156 | on a line of powers of two, the result and the removed tiles hold powers of two, and `gained` is positive exactly when some tile is removed: every merge adds value |
| LineFacts.ResolvedUnmerge | game.js:131-156 | survivors keep their relative order and each absorbed tile stood right after its absorber |
| LineFacts.ResolvedFixpoint | game.js:131-156 | a line that comes out with the same reference in every slot was returned as it went in, with nothing gained or absorbed |
| LineFacts.ResolvedFull | game.js:131-156 | when the last output slot is filled, the line comes back unchanged, so a line that changes ends in an empty cell |
| LineFacts.ExampleFourTwos | game.js:137-151 | 2 2 2 2 gives 4 4 _ _ and gains 8 |
| LineFacts.ExampleTwoTwoFour | game.js:137-151 | 2 2 4 gives 4 4 _ _ and gains 4: a tile made by a merge does not merge again |
| LineFacts.ExampleTwoTwoFourFour | game.js:137-151 | 2 2 4 4 gives 4 8 _ _ and gains 12 |
| Moves.CellRow | game.js:158-263 | the row of slot `j` of line `k` is on the board |
| Moves.LineOf | game.js:158-263 | each cell lies in one line of each direction, at a slot that maps back to it |
| Moves.CellOfSlot | game.js:158-263 | reading a direction's line and slot and mapping back gives the same line and slot |
| Moves.InLine | game.js:164 | line `k` of direction `d` holds the board cells it reads, slot by slot |
| Moves.Outs | game.js:165 | each line's outcome is the `processLine` of that line, and each result has SIZE slots |
| Moves.Slid | game.js:169-172 | the written board keeps every tile at its own cell's coordinates, each cell holding its line's output slot |
| Moves.SlidGrid | game.js:158-263 | the board after the move keeps every tile at the coordinates of its own cell |
| Moves.GainedTotal | game.js:160-166 | the sum of the lines' gains; `MoveFacts.GainedTwiceRemoved` states its meaning |
| Moves.RemovedTiles | game.js:161-177 | the lines' absorbed tiles, relocated, in line order; `MoveFacts.MoveAccountsTiles` states its meaning |
| Moves.Relocate | game.js:174-177 | an absorbed tile takes the row and column of its line's `mergeTo` slot; its id, value and flags are kept; a tile with no `mergeTo` is unchanged |
| Moves.PartlyStep | game.js:169-172 | writing one slot with `setCell` is one step from the partly written board to the next |
| Moves.PartlyInLine | game.js:164 | a line has not been written before the loop reaches it, so the loop reads the original line |
| MoveFacts.LeftMove | game.js:158-181 | `moveLeft` sends row `r` through `processLine` as it is and writes the result left to right |
| MoveFacts.RightMove | game.js:183-208 | `moveRight` sends the reversed row through `processLine` and writes its result reversed back |
| MoveFacts.UpMove | game.js:210-235 | `moveUp` sends column `c` through `processLine` top to bottom and writes it back top to bottom |
| MoveFacts.DownMove | game.js:237-263 | `moveDown` sends the reversed column through `processLine` and writes its result reversed back |
| MoveFacts.RelocatedCoordinates | game.js:174-177 | an absorbed tile of line `k` gets row `k` and column `mergeTo` (left), column `SIZE-1-mergeTo` (right), row `mergeTo` and column `k` (up), row `SIZE-1-mergeTo` (down) |
| MoveFacts.MovedIff | game.js:170 | the `moved` flag, accumulated line by line, is true exactly when some cell's occupant reference changed (`Moves.Moved`) |
| MoveFacts.MovedIffChanged | game.js:170 | on a board whose tiles sit at their own cells, some reference changing is the same as the board changing at all |
| MoveFacts.NoMoveFixpoint | game.js:276 | a move that reports nothing moved leaves the board as it was, gains nothing and absorbs nothing |
| MoveFacts.MovedLeavesRoom | game.js:276-280 | a move that changed the board leaves an empty cell, so the spawn that follows always places a tile |
| MoveFacts.GainedTwiceRemoved | game.js:166-167 | `gainedTotal` is twice the total value of `removedTiles` |
| MoveFacts.SlideKeepsValue | game.js:158-263 | a move keeps the total value of the tiles on the board |
| MoveFacts.BoardValueAnyDir | game.js:158-263 | the board's total value is the same whichever direction its lines are read in |
| MoveFacts.SlideKeepsTotal | game.js:158-263 | so a move keeps the board's total value however it is counted |
| MoveFacts.SlideKeepsPow2 | game.js:158-263 | a move on a board of powers of two leaves powers of two on the board and in `removedTiles`, and `gainedTotal` is positive exactly when `removedTiles` is non-empty |
| MoveFacts.MoveKeepsIds | game.js:158-263 | after a move the board has distinct tiles, all of which were on the board before |
| MoveFacts.MoveAccountsTiles | game.js:158-263 | no tile is lost: the tiles before a move are exactly those after it together with `removedTiles`; no tile is both, and none is absorbed twice |
| Engine.SlideInv | game.js:158-263 | a move keeps the board-and-registry invariant, powers of two included, with the same registry and counter |
| Engine.Game.Slide | game.js:158-263 | the loops of the directional move leave the board at `SlidGrid`; they return `moved` exactly when the board changed, `gainedTotal` equal to `GainedTotal` and `removedTiles` equal to `RemovedTiles` |
| Engine.Game.SlideLine | game.js:163-178 | one pass of the outer loop: the next line is written, and the flag and running totals extend by that line |
| Engine.Game.WriteLine | game.js:169-172 | the inner loop writes the resolved line back slot by slot and returns whether any slot's reference changed |
| Engine.Game.ReadLine | game.js:164 | the line read is `InLine(board, d, k)` |
| Engine.Relocated | game.js:174-177 | the `forEach` gives every absorbed tile its target coordinates |
| Engine.ParseDir | game.js:271-274 | exactly the four tokens `left`, `right`, `up` and `down` name a direction |
| Engine.Game.Move | game.js:265-297 | nothing changes while the overlay is shown, for an unknown token, or when nothing moved. Otherwise: `moveCount` goes up by 1; `safeSnapshot` is the snapshot taken before the move; the score grows by `gainedTotal`, strictly exactly when some tile was absorbed, and `best` follows it; exactly one tile with the next id is spawned on the slid board; the overlay shows exactly when the new board is over; `Valid()` is kept |
| Engine.Game.MoveIn | game.js:268-296 | the same as `Move`, once the token is known and the overlay hidden |
| Engine.Game.Advance | game.js:276-296 | after a move that changed the board, the state advances as `Move` states |
| Engine.Game.Commit | game.js:276-296 | the move is counted, the snapshot kept, the gain added, one tile spawned and the game-over test run; `Valid()` is kept |
| Engine.Game.CheckGameOver | game.js:299-313 | the overlay is raised exactly when no cell is empty and no cell's right or lower neighbour is the same tile reference, and is otherwise left as it was |
| Grid.GameOverAsWritten | game.js:299-313 | the definition of the game-over test as written: no empty cell, and no cell whose right or lower neighbour holds the same tile reference (`Grid.SameRefNeighbour`, game.js:304-307). `Grid.NotOverWithEmptyCell` and `Grid.FullBoardIsOver` state what it means |
| Grid.NotOverWithEmptyCell | game.js:300 | the flag is never raised while a cell is empty |
| Grid.FullBoardIsOver | game.js:302-309 | because references are compared, a full board of distinct tiles is always over |
| Snapshots.Capture | game.js:315-332 | each cell's copy holds its tile's id, row, column and value; score and counter are copied |
| Snapshots.DataOf | game.js:318-327 | a copy exists exactly for an occupied cell and holds its id, row, column and value |
| Snapshots.FromData | game.js:348 | the rebuilt tile has the copy's id, row, column and value and no transient flag set |
| Snapshots.RestoredGrid | game.js:346-353 | the rebuilt board keeps every tile at its own cell, each cell holding the copy it had |
| Snapshots.RestoreCapture | game.js:315-356 | restoring a snapshot gives back the same tiles (ids, values, positions) with their flags cleared |
| Snapshots.CaptureOk | game.js:315-332 | a snapshot of a valid board restores to one of distinct tiles with ids up to its counter, each holding a power of two (`Snapshots.SnapshotOk`) |
| Snapshots.PartRestoredStep | game.js:347-352 | rebuilding one cell is one row-major step of the restore |
| Snapshots.RegistryCovers | game.js:346-353 | every tile on the restored board is in the rebuilt registry (`Snapshots.RegistryOf`, the ids pushed at game.js:349 in row-major order) |
| Engine.RestoreInv | game.js:334-356 | a kept snapshot restores to a board and registry satisfying the invariant, powers of two included |
| Engine.Game.RestoreSnapshot | game.js:334-356 | without a snapshot nothing changes. Otherwise the board, registry, counter and score become those the snapshot describes. `moveCount` and `best` are untouched (outside its frame) |
| Engine.Game.RestoreRow | game.js:346-353 | one row of the rebuild: its copies become tiles on the board, their ids appended in column order |
| Engine.Game.RestoreCell | game.js:347-352 | one cell of the rebuild: a copy becomes a registered tile stored with `setCell`; an empty copy changes nothing |
| Engine.Game.Continue | game.js:429-433 | without a snapshot nothing changes. Otherwise the overlay is hidden and the snapshot is restored. The snapshot, `best` and `moveCount` stay. `Valid()` is kept |

## Left out

- Rendering is not modelled because it is presentation only:
  - `render`, `tileColors`, the DOM lookups;
  - `tileElements` and the `el.remove()` calls;
  - the text of the score and best labels.
- `localStorage` is not modelled: the stored best score is the constructor's `storedBest`, and writing it back is I/O.
- The deferred pruning of absorbed tiles from `tiles` in the `setTimeout` of `move` (game.js:283-293) is not modelled. The registry keeps the ids of absorbed tiles. It holds ids only, so the relocated state of the absorbed tiles (their new row and column, `removing` and `mergeTo`, game.js:144-145 and 174-177), which only `render` reads, is not stored after the move. The pruning finds tiles by object identity (`tiles.indexOf(tile)`). After a restore, a new object carries the same id as an old one, so pruning by id would remove tiles the code keeps. The board never holds an absorbed tile, so the invariants do not depend on the pruning.
- The keyboard and touch handlers (game.js:389-428) are not modelled because they do input capture only. `Engine.Game.Move` takes the direction token directly.
- `Math.random()` is replaced by integer draws. The cell index is `floor(roll * n / 2^53)` and the spawn coin is `percent < p`, with `p` the percentage written in the code. The resolution 2^53 is the model's choice: how many values `Math.random()` can return depends on the engine. The model does not capture floating-point rounding.
- The transient flags are not reset. A tile keeps `isNew`, `merged`, `removing` and `mergeTo` from earlier moves, as the code never resets them. Only `restoreSnapshot` builds tiles without them.
- Engine.Game.Slide: for right and down the code reverses the result back and writes the cells in board order, left to right or top to bottom. The model writes slot `j` of the reversed line, which visits the same cells in the opposite order. Every cell of the line is written exactly once either way, with the same occupant, so the final board and `moved` are the same.
- Module-level invariant: the model proves that the board's tiles have distinct ids, all at most the counter and all in the registry, and that every tile's value is a power of two at least 2. It does not prove that the registry itself has no duplicates.
- Engine.Game.Move: the no-op condition is stated as the slid board being equal to the old one, not as the reference test itself. `MoveFacts.MovedIffChanged` proves the two the same on every board the game keeps.
- The commented-out debug badge and fruit code (game.js:2-6, 37-48) are not modelled because they are commented out.

## Notes on the code

- Game over compares references. `checkGameOver` compares tile references (game.js:307), not values. No two cells of a board the game reaches hold the same tile, so the test never finds a neighbour. A full board is therefore over even when two neighbours have equal values and a move is still possible (`Grid.FullBoardIsOver`). The model follows the code.
  - The intended rule, comparing values, is described in the comment on `Grid.GameOverAsWritten`.
- Board value is conserved, not raised by the gain. The total value on the board is unchanged by a move (`MoveFacts.SlideKeepsValue`): a merge replaces two tiles of value `v` by one of `2v`. The score gained is twice the absorbed value (`MoveFacts.GainedTwiceRemoved`). "Board sum after equals board sum before plus the gain" does not hold for the code.
- The snapshot is kept after continue. "Continue" leaves `safeSnapshot` in place, so a second "continue" restores the same position again. `restoreSnapshot` also leaves `moveCount` as it was.

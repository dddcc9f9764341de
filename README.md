# blast: a verified model of the tap–clear–fall–refill engine

This project models the logic engine of the *blast* tile puzzle. The board is a grid of
tile types, where `-1` marks an empty cell. A tap on a cell collects the 4-connected group
of cells that share its tile type. A large enough group is cleared. Then every column
falls and the holes left at the top are refilled with random tile types. The game steps
through four phases, and the ends of the presentation layer's animations drive it from
one phase to the next.

The model has five modules, one file each:

- `grid.dfy` (`Grid`): grid positions, the empty sentinel `Empty = -1`, and value
  snapshots of the two-dimensional grid array.
- `game.dfy` (`Game`): the phase enumeration and its initial value.
- `matching.dfy` (`Matching`): the flood fill.
  - The class `MatchCollector` keeps the shared grid, the visited-marker array and the
    list of collected cells. Its recursive `CheckMatchFrom` marks and appends in place.
  - Each method is proved equal to the pure specification function `FillFrom`.
  - Lemmas prove that `FillFrom` yields a complete match. Such a match contains the
    start first, holds no cell twice, holds only same-valued reachable cells, and is
    closed under same-valued neighbours.
- `gravity.dfy` (`Gravity`): what compaction and refill do to one column, stated on values.
  - `Packed` is the compacted column.
  - `Fallers`, `ColumnFalls` and `TotalFalls` are the falling-animation counts.
  - `Spawns` is the layout of the new tiles.
  - `Refilled` describes the refilled column.
  - Lemmas cover conservation, packing and order.
- `board.dfy` (`Board`): the class `Board` over an `array2<int>`, with one method per
  engine method of the board.
  - The game's global phase is the field `state` of the board.
  - Each call that starts an animation is recorded by a ghost counter of due callbacks.
  - The callbacks (`WaitForInput`, `OnTileCleared`, `UpdateLanded`) are methods the
    environment may call while such a callback is due.

A sixth file, `match_tests.dfy` (`MatchCollectorTest`), proves the match sizes that the
collector's unit tests expect on their two fixed 3×3 grids.

The clear counter `tileClearedCount` is modelled as written: it is incremented and never
reset. From the second cleared group on, `OnTileCleared` can therefore start the fall
and refill before every tile of the current group has finished clearing, and it can
start it again on later clear callbacks. `Board.OnTileCleared` states this behaviour
exactly. One consequence is that the board can stall:

1. A group of two is cleared, refilled and lands.
2. A group of three is tapped. Its first clear callback already finds the counter at
   3, so it refills at once, and those falls land.
3. A late clear callback of that group then refills a full grid.

That last refill issues no fall, yet it sets the phase to `TilesFalling`. No landing
or invalid-move callback is then due, so every later tap is ignored.
`Board.Board.LateClearStalls` proves this last step from the contract of
`OnTileCleared` and `Gravity.FullNoFalls`.

`Board.Valid` does not state a phase invariant (for example, that the grid is full
unless the phase is `ClearingMatches`). It is left out to keep the proofs small.

## Model

| member | source | states |
|---|---|---|
| Game.State | Assets/Scripts/Game.cs:7-13 | The four phases of the cycle: `WaitingForInput`, `ProcessingInput`, `ClearingMatches`, `TilesFalling`. The board's `state` field holds exactly one of them. |
| Game.InitialState | Assets/Scripts/Game.cs:15-19 | The phase a game starts in is `WaitingForInput`. |
| Board.Board.Initialise | Assets/Scripts/Board.cs:44-61 | A new board of the given size, whose collector shares its grid. Every cell holds a tile type in [0, numberOfBlocks). The phase is `WaitingForInput`, the initial phase of Assets/Scripts/Game.cs:15-19. All counters are zero and no callback is due. |
| Board.Board.ProcessTap | Assets/Scripts/Board.cs:63-70 | A tap outside `WaitingForInput`, or at a row or column past the board, changes nothing: grid, phase, match list and due callbacks stay as they were. An accepted tap leaves as `matches` exactly the fill from the tapped cell on the old grid. The phase becomes `ClearingMatches` if the match reaches `minTilesToMatch`, else `ProcessingInput`. A large match clears exactly its cells. A small one leaves the grid alone and makes one invalid-move callback due. |
| Board.Board.DetectMatches | Assets/Scripts/Board.cs:86-96 | `matches` is the collector's fill from (row, column) on the grid as it was. At or above the threshold: phase `ClearingMatches`, exactly the matched cells emptied, and one clear callback due per matched cell. Below it: phase `ProcessingInput`, grid unchanged, and exactly one invalid-move callback due. |
| Board.Board.WaitForInput | Assets/Scripts/Board.cs:98-101 | The invalid-move callback returns the phase to `WaitingForInput` and consumes that callback. |
| Board.Board.ClearMatches | Assets/Scripts/Board.cs:103-113 | Phase `ClearingMatches`. A cell is emptied if and only if it is in `matches`; every other cell keeps its value. Exactly one clear animation per matched cell is started and due. |
| Board.Board.OnTileCleared | Assets/Scripts/Board.cs:115-120 | The clear counter goes up by one and one clear callback is consumed. Once the counter reaches the match size, every column is compacted and refilled (`AllRefilled`). In that case the phase becomes `TilesFalling` and the falling counter grows by the total number of falls. The record of started falling animations keeps its old entries and gains one per fall, each landing in the board from a higher row. `newTileCount` ends at the empty count of column 0, the last column refilled. Otherwise nothing else changes. |
| Board.Board.HandleEmptyTiles | Assets/Scripts/Board.cs:122-132 | Phase `TilesFalling`. Every column becomes its old compacted self with each empty cell given a tile type in [0, numberOfBlocks), so no cell is empty afterwards. One falling animation is started and due per moved tile and per new tile, over all columns, and every one lands in a cell of the board coming from a higher row. `newTileCount` is left at the empty count of column 0, the last column processed. |
| Board.Board.HandleEmptyTilesInColumn | Assets/Scripts/Board.cs:126-131 | One round of the right-to-left column loop: count, compact, refill. Column `c` becomes its compacted self with each hole refilled in range; other columns are untouched. The fall instructions appended are first the compaction falls: one per tile that moves, each in column `c` and going strictly down inside the board. Then come the new tiles' falls, exactly `Spawns(c, CountEmpty(before))` in issue order. `newTileCount` is its empty count. |
| Board.Board.LateClearStalls | Assets/Scripts/Board.cs:115-132 | A clear callback that arrives on a full grid with nothing falling refills nothing but sets `TilesFalling`. No landing or invalid-move callback is left due, so the phase can no longer return to `WaitingForInput` (Board.cs:184-189) and taps stay ignored (Board.cs:65). |
| Board.Board.CountEmptyTilesInColumn | Assets/Scripts/Board.cs:134-143 | `newTileCount` is set to the number of empty cells of column `c`, which with the tiles makes up the column (`CountEmpty`). |
| Board.Board.DropExistingTilesInColumn | Assets/Scripts/Board.cs:145-158 | Column `c` becomes `Packed` of its old self: the same tiles in the same top-to-bottom order at the bottom, with the empty cells above them. No other column changes. The fall instructions are appended after the existing ones: one per tile that had an empty cell below it (`Fallers`), each in column `c` and going strictly down within the board. |
| Board.Board.RowOfTileAbove | Assets/Scripts/Board.cs:160-170 | The nearest row above `r` whose cell in column `c` holds a tile, with every cell between empty; or `-1` when every cell above `r` is empty. |
| Board.Board.DropTile | Assets/Scripts/Board.cs:172-182 | The tile at (rAbove, c) moves to (r, c) and its old cell becomes empty; nothing else in the grid changes. A fall from row rAbove to row r is recorded, and its landing is due. |
| Board.Board.UpdateLanded | Assets/Scripts/Board.cs:184-189 | The landing callback decrements the falling counter and consumes a due landing. The phase becomes `WaitingForInput` exactly when the counter drops to zero or below, and is otherwise unchanged. |
| Board.Board.DropNewTilesInColumn | Assets/Scripts/Board.cs:191-197 | The top `newTileCount` rows of column `c` get tile types in [0, numberOfBlocks). All other cells are unchanged. The falls recorded are `Spawns(c, newTileCount)`, in the order the loop issues them. |
| Board.Board.DropNewTile | Assets/Scripts/Board.cs:199-210 | Row `newTileCount - (tileNumber + 1)` of column `c` gets a tile type in range; no other cell changes. A fall from row `-(tileNumber + 1)` (above the board) to that row is recorded, and its landing is due. |
| Board.Board.GetRandomBlockIndex | Assets/Scripts/Board.cs:81-84 | An arbitrary tile type in [0, numberOfBlocks), the upper bound excluded. |
| Matching.MatchCollector.constructor | Assets/Scripts/MatchCollector.cs:13-15 | The collector shares the given grid; no marker array or list yet. |
| Matching.MatchCollector.Init | Assets/Scripts/MatchCollector.cs:17-22 | Sets the searched dimensions and allocates a fresh marker of that size with nothing marked, and an empty list. |
| Matching.MatchCollector.DetectMatches | Assets/Scripts/MatchCollector.cs:24-33 | Markers and list are cleared first. The result is the list the collector keeps, and it equals `FillFrom` of the grid from the tapped cell with nothing visited. So it depends only on the grid and the start, and repeated calls return the same list. The grid is outside the method's frame and is not modified. |
| Matching.MatchCollector.CheckMatchFrom | Assets/Scripts/MatchCollector.cs:35-62 | An already visited cell, or one of another tile type, adds nothing. Otherwise the cell is marked and appended, and its left, right, upper and lower neighbours are searched in that order. The list becomes exactly `FillFrom` of the old list. Markers stay equal to list membership. |
| Matching.MatchCollector.CheckHorizontalNeighbours | Assets/Scripts/MatchCollector.cs:47-53 | The left and then the right neighbour of a collected cell are searched, when inside the grid. |
| Matching.MatchCollector.CheckVerticalNeighbours | Assets/Scripts/MatchCollector.cs:55-61 | The upper and then the lower neighbour of a collected cell are searched, when inside the grid. |
| Matching.MatchCollector.HasTileAlreadyBeenChecked | Assets/Scripts/MatchCollector.cs:64-66 | A cell is marked if and only if it is already in the list. |
| Matching.FillIsMatch | Assets/Scripts/MatchCollector.cs:24-62 | The fill from a start cell with nothing visited is a complete match (`IsMatch`). It is non-empty and begins with the tapped cell. It holds no cell twice and only in-grid cells of the start's value that a path of same-valued neighbour steps reaches from the start. Every same-valued left, right, upper or lower neighbour of a member is a member. |
| Matching.FillFromGrows | Assets/Scripts/MatchCollector.cs:35-45 | One step of the fill keeps its prefix, adds only reachable same-valued cells once each, and closes every cell it adds. It collects the start cell when that cell has the wanted value. |
| Matching.FillAroundGrows | Assets/Scripts/MatchCollector.cs:47-61 | Searching the four neighbours of a collected cell grows the fill and closes that cell. |
| Matching.VisitGrows | Assets/Scripts/MatchCollector.cs:47-61 | Searching one neighbour grows the fill and collects that neighbour when it has the wanted value. |
| Matching.MatchIsComponent | Assets/Scripts/MatchCollector.cs:35-62 | A cell is in a match if and only if it is in the grid and reachable from the start by same-valued left/right/up/down steps, never diagonally. |
| Matching.MatchDeterministic | Assets/Scripts/MatchCollector.cs:26-30 | Two matches from the same start on the same grid hold the same cells and have the same size. |
| Matching.MatchSize | Assets/Scripts/MatchCollector.cs:37-45 | A match has at least one cell and at most rows × columns. |
| Matching.ComponentSize | Assets/Scripts/MatchCollector.cs:35-62 | A match is as large as any duplicate-free, closed, same-valued walk through the start. |
| Matching.PathStaysInside | Assets/Scripts/MatchCollector.cs:47-61 | A same-valued walk that starts in a neighbour-closed collection never leaves it. |
| Matching.ReachStep | Assets/Scripts/MatchCollector.cs:47-61 | A same-valued neighbour of a reachable cell is reachable. |
| MatchCollectorTest.NoMatch | Assets/Tests/MatchCollectorTest.cs:12-29 | On {{0,1,2},{3,0,5},{0,7,8}} every tap collects exactly one cell, the tapped one. |
| MatchCollectorTest.MatchLength | Assets/Tests/MatchCollectorTest.cs:31-48 | On {{0,0,2},{3,0,5},{0,0,5}} the taps at (0,0)…(2,2) collect 5, 5, 1 / 1, 5, 2 / 5, 5, 2 cells. |
| MatchCollectorTest.MatchLengthSize | Assets/Tests/MatchCollectorTest.cs:31-33 | Every complete match on the second test grid has the size of the tapped cell's group. |
| Gravity.Packed | Assets/Scripts/Board.cs:145-158 | The compacted column has the old height. Its first `CountEmpty` cells, and only they, are empty, and below them come the old tiles in their old order. |
| Gravity.PackedConserves | Assets/Scripts/Board.cs:145-158 | Compaction is a permutation of the column's values: no tile is created or lost. |
| Gravity.PackedSettled | Assets/Scripts/Board.cs:145-158 | After compaction no empty cell has a tile above it, and a column already in that shape is unchanged by compaction. |
| Gravity.PackedTiles | Assets/Scripts/Board.cs:145-158 | Compaction keeps the tiles and their order. |
| Gravity.SettleMove | Assets/Scripts/Board.cs:149-155 | Pulling the nearest tile above an empty row into it keeps the tiles and their order. It extends the settled part of the column by one row and grows the bottom run of tiles by one. |
| Gravity.SettleStep | Assets/Scripts/Board.cs:147-157 | A row holding a tile, or an empty row with nothing above it, extends the settled part by one row without a move. |
| Gravity.FallersSettled | Assets/Scripts/Board.cs:172-182 | A column moves no tile if and only if it is already compacted. |
| Gravity.CountEmpty | Assets/Scripts/Board.cs:134-143 | The empty count and the tiles together make up the column; a column with no empty cell is all tiles. |
| Gravity.Spawns | Assets/Scripts/Board.cs:191-210 | `k` new tiles land in the top `k` rows, one per row. Each origin is its destination less `k`, hence above the board. Origins rise the further a tile is from the stack. |
| Gravity.RefilledFull | Assets/Scripts/Board.cs:191-210 | After compaction and refill, a column has its old height and no empty cell. |
| Gravity.RefilledKeepsTiles | Assets/Scripts/Board.cs:145-210 | After compaction and refill, the old tiles sit below the new ones in their old order. |
| Gravity.TilesAndGap | Assets/Scripts/Board.cs:134-143 | A column's values are its tiles plus `CountEmpty` copies of the empty value. |
| Gravity.ColumnFallsStep | Assets/Scripts/Board.cs:126-131 | One round of the column loop appends as many fall instructions as the column issues, and each lands in a cell of the board coming from a higher row. |
| Gravity.FullNoFalls | Assets/Scripts/Board.cs:145-210 | Columns without an empty cell issue no fall instruction: no tile moves and none is spawned. |
| Gravity.RunPacked | Assets/Scripts/Board.cs:145-158 | In a compacted column every tile is in the bottom run, so compaction moves `Fallers` tiles. |

## Left out

- Tile rendering (`Tile`, `Board.tiles`, `CreateTile`, `UpdateSprite`, `Init`) is presentation.
  - Each call that starts an animation is modelled only by the one later callback it
    makes due (ghost counters).
  - Falling animations are also modelled by the `Fall(column, origin, destination)`
    entries they are given.
- The Unity lifecycle and event wiring (`Awake`, `OnDestroy`, `OnTap +=`) is platform
  plumbing. `Board.Initialise` takes the level's rows, columns and number of tile types
  as parameters.
- Screen-to-cell conversion (Assets/Scripts/InputHandler.cs) uses floating point and the
  input system. Only its filter that row and column are non-negative is kept, as a
  precondition of `Board.ProcessTap`.
- Camera sizing, the debug grid view and the asset/config containers are presentation and
  configuration.
- `UnityEngine.Random.Range` is a foreign call. `Board.GetRandomBlockIndex` chooses an
  arbitrary value in [0, numberOfBlocks), so no distribution is modelled.
- Board.DetectMatches: the board keeps a copy of the collector's list where the original
  keeps a reference to the same list object. The two agree, because `Board.Valid`
  requires them to and the collector rewrites the list only on the next accepted tap,
  which reassigns the board's reference.
- Matching.MatchCollector.DetectMatches: the method's contract states the result as
  `FillFrom`, and the match properties (membership, closure, connectivity, no
  duplicates) are proved of `FillFrom` by `Matching.FillIsMatch`, not repeated in the
  method's `ensures`.
- Matching.MatchCollector.CheckMatchFrom: the four neighbour searches are split into
  `CheckHorizontalNeighbours` and `CheckVerticalNeighbours`. The split is only for the
  proof; the order (left, right, up, down) and the guards are those of the original.
- Board.HandleEmptyTilesInColumn: this helper holds the body of the column loop of
  `HandleEmptyTiles`, and the original has no such method. A second helper,
  `RefillNextColumn`, calls it and shows that one round keeps the loop's invariant
  `Refilling`; it exists only for the proof.
- Integer widths: the counters are unbounded integers. The per-cycle counters
  `newTileCount` and `tileFallingCount` are bounded by the number of cells of the board.
  `tileClearedCount` is never reset, so it grows by one per cleared tile over the whole
  session. In the original it would wrap to a negative value only after 2^31 cleared
  tiles, which is unreachable in practice, so the model does not capture that wrap.

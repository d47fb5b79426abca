# Minesweeper board engine

A model of the board engine of the browser minesweeper in `index.js`:
the `Tile` records and their one-way setters, `Game.setTilesList` (mine
placement), `Game.setNearBombs` (counting the mines around every tile),
the grid arithmetic `getRow` / `getCol`, the recursive flood fill
(`checkNeighbours`, `checkColNeighbours`, `checkRowNeighbours`,
`checkItemNoBombs`, `getPlayedNoBombs`) and the click handler
`checkItemPlayed`, without its rendering.

The code updates its tiles in place, so the model does too. Class
`Minesweeper.Game` holds `tilesLine`, `bombs`, `totalTiles` and
`tilesList: array<Tile>`. Its methods have `modifies` clauses; the
source's loops become `while`/`for` loops with invariants, and its
recursion becomes mutually recursive methods. Every method is proved
against set-valued views of the board `tilesList[..]` (played tiles,
unplayed tiles, mines, tiles with no mine around them). The game's rules
are then proved about those views.

- `grid.dfy` (module `Grid`): rows and columns; the eight candidate
  neighbours of `setNearBombs`, clipped at the edges, filtered and
  de-duplicated; the guarded four-direction step of the flood fill.
- `tiles.dfy` (module `Tiles`): the tile record, its setters, and views of
  a board as sets of indices.
- `cascade.dfy` (module `Cascade`): reachability through a set of tiles
  along flood-fill steps. It also proves how one sweep composes with the
  next, and how `checkItemNoBombs` unfolds.
- `rules.dfy` (module `Rules`): the effect of one click as a function of
  the board (`ClickPlayed`), and the rules of the game proved about it.
- `game.dfy` (module `Minesweeper`): class `Game` and its methods.

In this code the flood fill steps only up, down, right and left. It
sweeps only tiles that have no mine around them and are not played. A
numbered border tile is therefore not uncovered by the cascade. There is
also no game-status field: after a loss or a win, a click on a tile leaves
every tile as it is only because every tile is then played (a click on a
mine still shows the game-over message, which is outside this model). A generic description of
minesweeper would say otherwise on each of these three points (eight
directions, numbered border uncovered, terminal status rejecting clicks).
The model follows the code.

## Model

| member | source | states |
|---|---|---|
| Grid.Row | index.js:207-209 | the row `Math.floor(index / tilesLine)` of a non-negative index is non-negative; with `Grid.Col` it is pinned down by `Grid.RowColRoundTrip` and `Grid.CellRowCol` |
| Grid.Col | index.js:216-218 | the column `index % tilesLine` always lies in [0, tilesLine) |
| Grid.RowColRoundTrip | index.js:207-218 | for an in-grid index, `getRow` and `getCol` both lie in [0, tilesLine) and `row * tilesLine + col` gives the index back |
| Grid.CellRowCol | index.js:207-218 | the tile at row `r`, column `c` has index `r * n + c`, and `getRow`/`getCol` of that index give back `r` and `c` |
| Grid.CellInGrid | index.js:207-218 | for a column in [0, n), the index `r * n + c` is on the board exactly when the row `r` is in [0, n) |
| Grid.RowInside | index.js:258-265 | the `isInside` test of `checkColNeighbours` (row in [0, tilesLine)) holds exactly for indices in [0, totalTiles) |
| Grid.PointsToCheck | index.js:176-190 | `setNearBombs` pushes exactly eight candidates, all in [`index - tilesLine - 1`, `index + tilesLine + 1`]; `Grid.PointsInNeighbourhood` shows that each one other than the tile is an in-grid neighbour |
| Grid.Without | index.js:192 | `filter(i => i !== index)` keeps exactly the elements other than `index` |
| Grid.Dedup | index.js:192 | `Array.from(new Set(...))` keeps exactly the same elements, each once |
| Grid.CheckedPoints | index.js:192 | the candidates counted are exactly the pushed ones other than the tile itself, each once |
| Grid.Offset | index.js:176-190 | moving an in-grid tile by a row and a column offset in {-1,0,1}, while staying on the board, gives an in-grid tile with that row and column |
| Grid.PointsInNeighbourhood | index.js:176-190 | every candidate of `setNearBombs` other than the tile itself is an in-grid neighbour: the clipping at the edges prevents both wrap-around and leaving the board |
| Grid.NeighbourByOffset | index.js:183-190 | the neighbour at a given row and column offset is the one of the eight pushed candidates built from that direction |
| Grid.NeighbourhoodInPoints | index.js:176-190 | every in-grid neighbour of a tile is among its candidates |
| Grid.PointsAreNeighbours | index.js:170-197 | the filtered, de-duplicated candidates are exactly the in-grid tiles whose row and column differ by at most one, the tile itself excluded |
| Grid.TopLeftCorner | index.js:170-197 | on a 10 x 10 board tile 0 checks exactly tiles 1, 10 and 11 |
| Grid.TopRightCorner | index.js:170-197 | on a 10 x 10 board tile 9 checks exactly tiles 8, 18 and 19, not the wrapped-around tile 10 |
| Grid.ColInside | index.js:258-260 | the `isInside` test of `checkColNeighbours` holds exactly for targets in [0, totalTiles) |
| Grid.SameRow | index.js:246-248 | the same-row test of `checkRowNeighbours` lets through, from a tile on the board, only targets on the board |
| Grid.Step | index.js:271-276 | a guarded step of `checkNeighbours` from a tile on the board lands on another tile on the board |
| Grid.VerticalTargets | index.js:258-260 | `id - tilesLine` and `id + tilesLine` keep the column and move one row up or down; each is on the board exactly when that row is |
| Grid.RightTarget | index.js:246-248 | `id + 1` is in the same row and the next column, unless the tile is in the last column, where it is in the next row |
| Grid.LeftTarget | index.js:246-248 | `id - 1` is in the same row and the previous column, unless the tile is in the first column, where it is in the previous row |
| Grid.StepIsAdjacent | index.js:245-265 | each guarded step of the flood fill stays on the board and lands on a tile in the same column and an adjacent row, or in the same row and an adjacent column |
| Grid.AdjacentIsStep | index.js:245-265 | every such adjacent tile is one guarded step away |
| Grid.StepCharacterised | index.js:245-265 | a guarded step happens exactly when the target is on the board and adjacent in four directions: no wrap-around, no index outside [0, totalTiles) |
| Grid.StepIsNeighbour | index.js:245-265 | a flood-fill step lands on one of the eight tiles whose mines `setNearBombs` counts |
| Tiles.Tile.SetIsBomb | index.js:529-531 | the tile holds a mine afterwards and nothing else about it changes |
| Tiles.Tile.SetIsPlayed | index.js:544-546 | the tile is played afterwards and nothing else about it changes |
| Tiles.Tile.SetNearBombs | index.js:568-570 | the tile's count becomes the given value and nothing else about it changes |
| Tiles.NewTile | index.js:471-494 | a new tile has the given id and the class-field defaults: no mine, a count of 0, not played |
| Tiles.PlayOne | index.js:544-546 | `setIsPlayed` on one tile adds exactly that tile to the played ones, and removes it from the unplayed ones and from those the cascade may sweep; nothing else changes |
| Tiles.PlayMore | index.js:233-237 | once more tiles have been played, those tiles are neither unplayed nor sweepable |
| Tiles.SamePlayedSameBoard | index.js:86-118 | two boards that differ only in played flags and have the same played tiles are equal |
| Cascade.ReachBounds | index.js:225-238 | the sweep from a tile only holds tiles eligible for it (unplayed, no mine around), and holds the start tile when that one is eligible |
| Cascade.ReachClosed | index.js:271-276 | no eligible tile is one flood-fill step away from a sweep set |
| Cascade.Compose | index.js:271-276 | sweeping after a closed set has been swept adds, on top of that set, what the sweep would have added on the untouched board |
| Cascade.ComposeStep | index.js:271-276 | one guarded sweep after a closed set: `Compose`, and the union is closed again |
| Cascade.SpreadUpToClosed | index.js:271-276 | the first `k` of the four sweeps of `checkNeighbours` together leave no eligible tile one step away |
| Cascade.SpreadAll | index.js:271-276 | the four guarded sweeps (up, down, right, left) make up the whole spread of `checkNeighbours` |
| Cascade.Unfold | index.js:233-238 | the sweep from an eligible tile is the tile itself plus the four guarded sweeps from it, with the tile no longer eligible: the recursion of `checkItemNoBombs` computes reachability |
| Cascade.UnfoldPlayed | index.js:233-238 | playing a tile and then running `checkNeighbours` from it plays the sweep from that tile |
| Cascade.SplitAtLastVisit | index.js:233-238 | a tile swept from `x`, other than `x`, is swept from a step-neighbour of `x` once `x` is played |
| Cascade.ExtendBack | index.js:233-238 | what is swept from a step-neighbour of an eligible `x`, after `x` is played, is swept from `x` |
| Rules.StepFromZeroAvoidsMines | index.js:170-197 | with counts right, a flood-fill step from a tile with no mine around it never lands on a mine |
| Rules.SweepAvoidsMines | index.js:100-104 | the tiles a click on an unplayed tile without a mine plays include that tile; all of them were unplayed and none is a mine |
| Rules.ClickMonotone | index.js:86-118 | played tiles stay played, and a click plays only tiles of the board |
| Rules.FinishedIsInert | index.js:86-118 | once every tile is played, a click changes nothing |
| Rules.LeftAtLeastBombs | index.js:113-117 | with `bombs` mines, none of them played, at least `bombs` tiles are unplayed, and exactly `bombs` exactly when every tile without a mine is played |
| Rules.LeftAfterSweep | index.js:100-117 | after the sweep, the win check counts at least `bombs` unplayed tiles, and exactly `bombs` exactly when every tile without a mine has been played |
| Rules.WinIsExact | index.js:113-117 | a click on an unplayed tile without a mine plays every tile exactly when every tile without a mine is then played; otherwise no mine is played and more than `bombs` tiles stay unplayed |
| Rules.ClickIsSafeOrFinal | index.js:86-118 | on a board with the counts right and either no mine played or every tile played, a click plays either no mine or every tile |
| Rules.ClickKeepsInvariant | index.js:86-118 | every click keeps the game invariant: ids, counts and the number of mines are unchanged, and either no mine is played or every tile is |
| Rules.AllPlayedIsIndices | index.js:113-114 | on a board where every tile is played, the played tiles are all the indices |
| Minesweeper.DrawnStep | index.js:156-162 | one more draw adds its tile to the drawn ones; the count of distinct drawn tiles grows by one exactly when the tile had not been drawn before |
| Minesweeper.FreshBoardAdd | index.js:158-161 | a drawn tile that is not yet a mine becomes one and nothing else changes; an already-mined tile leaves the board as it is |
| Minesweeper.FreshBoardViews | index.js:153-165 | the mines of the board `setTilesList` builds are exactly the drawn tiles, and no tile is played |
| Minesweeper.CountOneMore | index.js:192-194 | looking at one more of the distinct candidates adds one mine exactly when that candidate is a mine |
| Minesweeper.MinesAmongAll | index.js:192-194 | when the candidates are the neighbourhood, the mines among all of them are the mines of the neighbourhood |
| Minesweeper.Advance | index.js:271-276 | one sweep of `checkNeighbours`, taken through the tiles still eligible after the earlier sweeps, plays what it would have played through those eligible at the start |
| Minesweeper.TwoSweeps | index.js:272-273 | the up and down sweeps play the first two sweeps through the tiles eligible at the start |
| Minesweeper.FourSweeps | index.js:271-276 | the four sweeps in source order play the union of the four sweeps through the tiles eligible at the start; only played flags change |
| Minesweeper.Game.constructor | index.js:39-42 | a square board of `tilesLine` tiles per row, `totalTiles == tilesLine * tilesLine`, `bombs` mines; the tile list is empty |
| Minesweeper.Game.SetTilesList | index.js:153-165 | `totalTiles` unplayed tiles with ids `0..totalTiles-1` and no count; the mines are the distinct tiles drawn, exactly `bombs` of them, and the loop stops at the first draw that reaches `bombs` |
| Minesweeper.Game.CountNearBombs | index.js:171-194 | `bombsFound` is the number of mines in the in-grid eight-neighbourhood of the tile |
| Minesweeper.Game.SetNearBombs | index.js:170-197 | every tile's `nearBombs` becomes the number of mines among its in-grid eight neighbours; ids, mines and played flags do not change |
| Minesweeper.Game.InitGame | index.js:70-80 | the built board is ready: tile `i` has id `i`, the mines are the drawn tiles, exactly `bombs` of them, every count is right and no tile is played |
| Minesweeper.Game.GetPlayedNoBombs | index.js:225-227 | true exactly for a tile with no mine around it that is not played, i.e. one the cascade may sweep |
| Minesweeper.Game.CheckItemNoBombs | index.js:233-238 | plays exactly the tiles reachable from `id` by flood-fill steps through the tiles eligible at the call; only played flags change and no tile becomes unplayed |
| Minesweeper.Game.CheckRowNeighbours | index.js:245-251 | the sweep from `id + direction`, taken only when it is in the same row |
| Minesweeper.Game.CheckColNeighbours | index.js:258-265 | the sweep from `id + tilesLine * upDown`, taken only when its row is on the board |
| Minesweeper.Game.CheckNeighbours | index.js:271-276 | plays the union of the four guarded sweeps from the neighbours of `id`, all through the tiles eligible when it is called |
| Minesweeper.Game.CountUnplayed | index.js:113 | the number of unplayed tiles |
| Minesweeper.Game.PlayAll | index.js:88-91 | every tile becomes played and nothing else changes |
| Minesweeper.Game.OwnSweep | index.js:100-104 | playing the clicked tile and running the cascade when it has no mine around it plays exactly the sweep of the click |
| Minesweeper.Game.CheckItemPlayed | index.js:86-118 | the played tiles become `ClickPlayed` of the old board. A mine plays every tile; an already played tile changes nothing; otherwise the sweep is played and, if exactly `bombs` tiles are left, every tile. Only played flags change, and the game invariant is kept |

## Left out

- Rendering: `createGridContainer`, `paintItems`, `createItem`, the borders, `updateTile`, the message pop-ups and overlays. They only change the page.
- The tile's `updated` flag, its element id string and its colour table. `updated` is only set on played tiles, so the loss branch's `!getUpdated()` filter plays every tile.
- `Log` and `showGridInConsole`: console output only.
- Minesweeper.Game.constructor: it takes `tilesLine` and `bombs` as parameters and requires `0 < bombs < tilesLine * tilesLine`. Reading a custom mine count from the page or URL (with `+` coercion, `Math.round` and the `totalTiles / 4` bound) is not modelled, and neither is the resize listener. A negative custom count, or one that rounds to 0 (such as `0.4`), would be accepted by that code and is excluded. For any such `bombs <= 0` the source's `do ... while` still places one mine, so its win check, which waits for exactly `bombs` unplayed tiles, could never fire.
- Minesweeper.Game.SetTilesList: `Math.floor(Math.random() * totalTiles)` is replaced by the input sequence `picks` of indices in [0, totalTiles). The method requires `picks` to hold at least `bombs` distinct tiles; with endless random draws the source loop has no such bound. With `bombs >= 1`, the source's `do ... while` runs its body exactly as often as the model's `while`.
- Minesweeper.Game.CheckItemPlayed: it requires `0 <= id < totalTiles`. In the source the id always comes from a tile's own click event; an out-of-range id would make the source throw.
- Minesweeper.Game.InitGame: creating the grid container, painting and wiring the `ItemPlayed` event listener are not modelled.
- The flood-fill methods take a ghost parameter `left`: a set that bounds the unplayed tiles, used as the termination measure of the recursion. It has no counterpart in the source and costs nothing at run time. The recursion terminates because `checkItemNoBombs` plays its tile before recursing.
- Event dispatch (`CustomEvent`, `DOMContentLoaded`) and the bootstrap of the page are not modelled.

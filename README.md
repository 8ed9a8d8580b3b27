# 2048 board engine in Dafny

This project models the board engine of a small 2048 web game and proves what
the engine promises. It covers building a new board, spawning a tile, moving
(slide and merge) and the game-over test. The board is 4 × 4; a cell holds 0
when empty and a tile value otherwise.

The project has three modules:

- `Line` (line.dfy) models one row or column, already in the order its
  tiles slide toward.
  - `Tiles`, `Pairs` and `SlideLeft` are pure reference functions. `Tiles` drops
    the empty cells, `Pairs` merges equal neighbours greedily from the front,
    and `SlideLeft` pads the result with zeros.
  - `SlideLine` is the engine's write-cursor loop with its merge mask. It is
    proved to compute exactly `SlideLeft` and the mask `MergeMask`.
- `Grid` (grid.dfy) models the board as a value.
  - `Slid` is the deterministic part of a move.
  - `EmptyCells`, `Place` and `Spawned` describe the random spawn.
  - `Terminal` is the game-over condition.
  - The lemmas check these against each other: conservation, symmetry, and a
    board holding a tile is terminal exactly when no move changes it.
  - `BoardOk` says every cell is empty or a power of two. Slides and spawns
    keep it, and they keep a tile on a board that has one.
- `Game` (game.dfy) holds the class `Board`, whose field `rows` is updated in
  place the way the engine updates its list of lists.
  - `Init`, `AddNewTile`, `Move` and `GameOver` are its operations, each
    proved against the `Grid` functions.
  - The engine makes two random draws: which empty cell, and 2 or 4.
    `AddNewTile` picks any admissible value with `:|`, so every property holds
    for every outcome of those draws.
  - `InPlay` holds for a new board, and every move keeps it. On a board in
    play, `GameOver` says yes exactly when no move changes the board.

## Model

| member | source | states |
|---|---|---|
| Line.SlideLine | app.py:31-40 | the cursor loop returns exactly `SlideLeft(line)`: the tiles packed toward index 0, equal neighbours merged greedily from the front, zeros after. Its mask is true exactly at the merged cells |
| Line.Push | app.py:34-40 | one tile through the cursor. It doubles the last written cell when that cell has the same value and is unmerged; otherwise it is written at `pos`. Afterwards the written prefix equals `Pairs` of the tiles read so far, and every cell past the cursor is still empty and unmerged |
| Line.PairsSnoc | app.py:35-40 | appending a tile to the tiles read so far merges it into the last output cell exactly when that cell holds the same value and is not a merge product; otherwise the tile is appended |
| Line.SlideLeftSum | app.py:35-40 | a slide keeps the sum of the line: a merge replaces two equal tiles by their sum |
| Line.SlideLeftPacked | app.py:31-40 | after a slide, no tile follows an empty cell. A cell holds a tile exactly when it lies in the merged prefix |
| Line.PairsNonZero | app.py:34-40 | merging tiles yields only tiles, never an empty cell |
| Line.UnmergeRecoversTiles | app.py:35-40 | splitting each merged cell back into two equal halves gives the original tiles in their original order. So nothing is reordered, and no cell absorbs more than one merge |
| Line.PairsGreedy | app.py:35-37 | every merge the rule allows takes place: an unmerged output cell never equals the first source tile of the next cell |
| Line.LeadOfPairs | app.py:35-40 | the first output cell starts with the first tile of the line |
| Line.PairsShrinks | app.py:35-37 | a tile sequence with two equal neighbours gets shorter when merged |
| Line.PairsIdentity | app.py:35-40 | a tile sequence with no two equal neighbours is left as it is |
| Line.SlideLeftFixed | app.py:31-40 | a full line with no two equal neighbours does not change when slid |
| Line.SlideLeftFullIsFixed | app.py:31-40 | a slide whose result has no empty cell changed nothing |
| Line.SlideLeftMergeFrees | app.py:35-37 | a full line with two equal neighbours changes when slid, and its last cell becomes empty |
| Line.LineCanMove | app.py:28-42 | a line holding both an empty cell and a tile is changed by a slide in one of its two directions |
| Line.ReverseReverse | app.py:28-29 | reversing a line twice gives it back, so the right slide reverses in, slides left and reverses out |
| Line.FourEqualTilesMergeTwice | app.py:35-37 | `[2,2,2,2]` slides to `[4,4,0,0]`: two merges, no chain |
| Line.MergedTileStaysMerged | app.py:35-37 | `[2,2,4,0]` slides to `[4,4,0,0]`, not `[8,0,0,0]`: a merged tile does not merge again |
| Line.EndsMerge | app.py:28-42 | `[a,0,0,a]` slides left to `[2a,0,0,0]` and right to `[0,0,0,2a]` |
| Grid.EmptyCellsExact | app.py:15 | the candidate list holds every empty cell and nothing else. It is empty exactly when the board has no empty cell |
| Grid.SpawnChangesOneCell | app.py:15-18 | a spawn on a full board changes nothing. Otherwise exactly one previously empty cell now holds 2 or 4, and every other cell is unchanged |
| Grid.SpawnedCell | app.py:15-18 | a spawn on a board with room is a write of 2 or 4 into a cell that was empty |
| Grid.SpawnSum | app.py:17-18 | a spawn on a board with room raises the board total by 2 or by 4 |
| Grid.PlaceAddsTile | app.py:18 | writing a tile into an empty cell adds exactly that cell to the set of occupied cells |
| Grid.OneSpawnFromBlank | app.py:8-10 | one spawn on the all-zero board leaves exactly one tile, a 2 or a 4, and room for another |
| Grid.TwoSpawnsFromBlank | app.py:7-12 | two spawns on the all-zero board leave exactly two tiles, each a 2 or a 4 |
| Grid.SlideAlongSum | app.py:28-42 | sliding a line in either direction keeps its sum |
| Grid.SlidSum | app.py:25-64 | a slide in any direction keeps the board total |
| Grid.GridSumByColumns | app.py:45-64 | the board total is also the sum of the column sums |
| Grid.FullMoveIsNoOp | app.py:25-64 | a slide whose result has no empty cell left the board unchanged |
| Grid.ChangedMoveLeavesRoom | app.py:66-68 | a slide that changed the board leaves at least one empty cell, so the spawn after it always places a tile |
| Grid.RightMirrorsLeft | app.py:26-43 | sliding right is sliding left on the mirrored board, mirrored back |
| Grid.DownMirrorsUp | app.py:46-64 | sliding down is sliding up on the upside-down board, turned back |
| Grid.UpIsLeftTransposed | app.py:45-64 | sliding up is sliding left on the transposed board |
| Grid.DownIsRightTransposed | app.py:45-64 | sliding down is sliding right on the transposed board |
| Grid.SlideAlongFixed | app.py:31-42 | a full line with no two equal neighbours is unchanged by a slide in either direction |
| Line.PairsPow2 | app.py:35-40 | merging a sequence of powers of two yields only powers of two: a merge doubles a power of two |
| Line.SlideLeftOk | app.py:31-40 | after a slide every cell is still empty or a power of two |
| Line.SlideLeftKeepsTile | app.py:31-40 | a line holding a tile still holds one after a slide, in its first cell |
| Grid.SlideAlongOk | app.py:28-42 | a slide in either direction keeps every cell of a line empty or a power of two |
| Grid.SlidOk | app.py:25-64 | a slide of the board in any direction keeps every cell empty or a power of two |
| Grid.SpawnedOk | app.py:15-18 | a spawn keeps every cell empty or a power of two, since it writes a 2 or a 4 |
| Grid.SlideAlongKeepsTile | app.py:28-42 | a line holding a tile still holds one after a slide in either direction |
| Grid.SlidKeepsTile | app.py:25-64 | a board holding a tile still holds one after a slide in any direction |
| Grid.SpawnKeepsTile | app.py:15-18 | a spawn overwrites only an empty cell, so a board holding a tile still holds one |
| Grid.TerminalIsStuck | app.py:71-85 | on a game-over board no direction changes anything |
| Grid.RowCanMove | app.py:25-43 | a row holding both an empty cell and a tile is changed by a left or a right move |
| Grid.ColumnCanMove | app.py:45-64 | a column holding both an empty cell and a tile is changed by an up or a down move |
| Grid.NotTerminalCanMove | app.py:71-85 | on a board with a tile that is not game over, some direction changes the board |
| Grid.TerminalIffStuck | app.py:71-85 | on a board holding a tile, game over holds exactly when no direction changes the board |
| Grid.BlankBoardIsStuck | app.py:73-76 | the all-zero board is not game over, yet no move changes it. The tile requirement above cannot be dropped |
| Game.DirectionOf | app.py:25-48 | "left", "right" and "down" select those moves. Every other name takes the up-or-down branch without reversing, that is, it moves up |
| Game.Board.Init | app.py:7-12 | a new board is 4 × 4 and holds exactly two tiles, each a 2 or a 4. It is in play: every cell is empty or a power of two, and there is a tile |
| Game.Board.AddNewTile | app.py:14-18 | the board after the call is a spawn outcome of the board before: unchanged when full, otherwise one empty cell set to 2 or 4. It keeps every cell empty or a power of two, and it keeps a tile on a board that had one |
| Game.Board.Move | app.py:20-69 | when the slid board equals the old board, the board ends exactly as it was. Otherwise it ends as a spawn outcome of the slid board. A board in play stays in play |
| Game.Board.SlideRows | app.py:25-43 | the row pass leaves every row slid left, or slid right when reversed |
| Game.Board.SlideColumns | app.py:45-64 | the column pass leaves every column slid up, or slid down when reversed |
| Game.Board.WriteColumn | app.py:63-64 | column `j` receives the new column top to bottom, and every other cell is unchanged |
| Game.Board.GameOver | app.py:71-85 | the two scans with early returns yield true exactly when no cell is empty and no cell equals its right or down neighbour. On a board in play that is exactly when no direction changes the board |
| Game.SlidByColumns | app.py:63-64 | a board whose cells agree column by column with the slid columns is the slid board |

## Left out

- The Flask routes, the HTML page and the JSON responses are left out. They are I/O and user interface.
- The process-wide `BOARD` global and its replacement on a new game are left out. They are server plumbing; `Board` objects stand in for them.
- The 0.9/0.1 split between 2 and 4 is not modelled, nor is the uniformity of the cell choice. The model only requires that the chosen cell was empty and the value is 2 or 4.
- `app.run` and the server configuration are left out.
- Game.Board.Move: the board-wide `merged` mask is not modelled. `SlideLine` keeps one mask per line instead. This loses nothing: each line reads and writes only its own slice of the board-wide mask, and every entry starts false.
- Python integers are unbounded, and so are Dafny's `int`. No overflow is modelled because none exists.
- Game.Board.Move: Python's list aliasing (`row = board[i]` when moving left) is not modelled. The row is only read before `board[i]` is replaced, so the aliasing has no effect.

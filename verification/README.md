# Conway's Game of Life engine, modelled in Dafny

This project models the simulation engine in `public/gameOfLife.js`. The engine keeps
a `size` by `size` grid of cells. Each cell holds an `alive` flag and a
`livingNeighbors` count. Every tick runs two passes over the whole grid. The first
pass writes into each cell the number of live cells among its eight neighbours. A
neighbour off the grid does not count, because the grid does not wrap around. The
second pass decides each cell's next state from its own flag and count, using the
classical rules. The engine's doc comment promises that each generation is a pure
function of the previous one. The model proves that the two-pass step keeps this
promise, because the counting pass reads only alive flags and completes before any
flag changes.

Layout:

- `cells.dfy`, module `Cells`: covers `Cell`, the grid, the engine record `Conway`,
  `generateGrid` and `isInBounds`. It also gives the row-major visiting order of
  `forEachCell` (`RowMajor`).
- `neighbours.dfy`, module `Neighbours`: covers the eight `directions`,
  `updateNeighborsForCell` and `updateNeighbors`. It gives a second, set-based
  definition of "the live neighbours of a cell" and proves that the counting loop
  matches it. `CountPassAlong` is the counting pass along any visiting order, and
  `UpdateNeighbors` is proved equal to it along `RowMajor`.
- `rules.dfy`, module `Rules`: covers `isUnderpopulated`, `isOverpopulated`,
  `isResurrectable`, `updateStateForCell` and `updateStates`. `StatePassAlong` is the
  state pass along any visiting order, and `UpdateStates` is proved equal to it
  along `RowMajor`.
- `engine.dfy`, module `Engine`: covers the tick body. `NextGen` is the pure
  next-generation function. The module proves that the step equals `NextGen` for
  any visiting order, and proves the still-life and extinction facts.

The grid is a value `seq<seq<Cell>>`. Each pass is a method that takes the grid and
returns the updated one. Inside a pass, the grid is updated one cell at a time, in
row-major order, on a local variable, just as the JavaScript mutates
`this.grid[row][col]` in place. Neighbours' alive flags are read from that
partially updated grid, as in the source. The population tests take the cell itself
rather than its coordinates. The JavaScript functions take `(r, c)` only so they can
look the cell up.

Notes on behaviour:

- `generateGrid(0)` builds an empty grid and does not fail. The model follows the
  code: `size` is any natural number, and 0 gives an empty grid on which a step does
  nothing.
- Take a 2 by 2 block and add one live cell diagonally next to it, at (0, 0) with the
  block at (1, 1) on a 5 by 5 grid. The block does not survive this unchanged. The
  extra cell dies, as expected. But (1, 1) now has four live neighbours and dies of
  over-population, while (0, 1) and (1, 0) are born. `BlockWithCornerNextGen` states
  the exact next generation.

## Model

| member | source | states |
|---|---|---|
| Cells.InBounds | public/gameOfLife.js:103-105 | a coordinate passes the bounds check exactly when it is one of the grid's `size`×`size` coordinates |
| Cells.RowMajor | public/gameOfLife.js:71-77 | the traversal visits `size*size` coordinates, all on the grid, reaching every grid coordinate, in strictly increasing row-major order, hence each exactly once |
| Cells.GenerateGrid | public/gameOfLife.js:59-69 | the grid has exactly `size` rows of `size` cells, each built as `Cell()` at lines 38-41 builds it: cell (r, c) is alive iff the (r*size+c)-th random draw exceeds 0.6, and starts with count 0 |
| Cells.NewConway | public/gameOfLife.js:43-57 | the engine is built with the requested size and a well-formed grid in which cell (r, c) is alive iff the (r*size+c)-th draw exceeds 0.6 and every count starts at 0 |
| Neighbours.CountUpTo | public/gameOfLife.js:111-121 | trying `k` directions adds at most `k` to the count, so no count exceeds 8 |
| Neighbours.CountIsLiveNeighbourCells | public/gameOfLife.js:107-122 | the count computed over the eight directions equals the number of live in-bounds cells adjacent to the cell, so no neighbour is missed or counted twice and there is no wrap-around |
| Neighbours.CountBounds | public/gameOfLife.js:111-121 | every count is at most 8, at most 5 for a cell on an edge, and at most 3 for a corner cell |
| Neighbours.CountReadsOnlyAlive | public/gameOfLife.js:115-119 | two grids whose cells agree on their alive flags give every cell the same count, whatever counts their cells hold, so a count never depends on other cells' counts |
| Neighbours.UpdateNeighborsForCell | public/gameOfLife.js:107-122 | the cell's count is reset and becomes the number of its live in-bounds neighbours; its flag and every other cell are unchanged |
| Neighbours.UpdateNeighborsInRow | public/gameOfLife.js:71-77 | one row of the counting pass gives every cell of the row its count from the alive flags before the row; no alive flag changes and other rows are untouched |
| Neighbours.UpdateNeighbors | public/gameOfLife.js:124-126 | after the counting pass, no alive flag has changed and every cell's count is its live-neighbour count in the grid as it was before the pass; the result is exactly the counting pass along `RowMajor` |
| Rules.UpdateStateForCell | public/gameOfLife.js:128-135 | the decision follows the four rules: a live cell dies with fewer than 2 or more than 3 live neighbours and survives with 2 or 3; a dead cell comes alive iff it has exactly 3; the count is kept |
| Rules.UpdateStatesInRow | public/gameOfLife.js:71-77 | one row of the state pass decides every cell of the row by the rules from its own flag and count; counts and other rows are untouched |
| Rules.UpdateStates | public/gameOfLife.js:137-139 | after the state pass, every cell's flag is the rule applied to its own flag and count, and no count has changed; the result is exactly the state pass along `RowMajor` |
| Engine.Step | public/gameOfLife.js:143-146 | one tick makes the alive flags exactly the pure next generation of the previous flags, and leaves each cell with the previous generation's live-neighbour count; the new grid is the counting pass and then the state pass, both along `RowMajor` |
| Neighbours.CountPassAnyOrder | public/gameOfLife.js:124-126 | a counting pass in any order keeps every flag and gives each visited cell the count of the board before the pass |
| Rules.StatePassAnyOrder | public/gameOfLife.js:137-139 | a state pass in any order, even one that repeats visits, decides each visited cell once from its own flag and count, and leaves unvisited cells alone |
| Engine.StepAnyOrder | public/gameOfLife.js:31-35 | running a complete counting pass and then a complete state pass, in any two orders that reach every cell, yields the pure next generation |
| Engine.RowMajorStep | public/gameOfLife.js:143-146 | the row-major traversal, which both passes of `Step` follow, stays on the grid and reaches every cell, so the two passes along it produce the next generation |
| Engine.FixedPointForever | public/gameOfLife.js:143-146 | a generation that one tick maps to itself stays the same after any number of ticks |
| Engine.AllDeadStaysDead | public/gameOfLife.js:29 | a grid with no live cell stays all dead after any number of ticks |
| Engine.IsolatedCellDies | public/gameOfLife.js:26 | on a grid of any size, a single live cell with no live neighbour dies and nothing is born |
| Engine.BlockCounts | public/gameOfLife.js:107-122 | on a board that is a 2×2 block, each block cell has exactly 3 live neighbours and every other cell at most 2 |
| Engine.BlockIsStillLife | public/gameOfLife.js:26-29 | a 2×2 block anywhere on the grid, even against an edge, is unchanged by any number of ticks |
| Engine.BlockWithCornerCell | public/gameOfLife.js:26-29 | on the 5×5 board with the block at (1, 1) plus a live (0, 0), a cell is alive next tick iff it is (0,1), (1,0), (1,2), (2,1) or (2,2) |
| Engine.BlockWithCornerNextGen | public/gameOfLife.js:26-29 | the next generation of that board is exactly those five cells: (0, 0) dies, (1, 1) dies of over-population, and (0, 1) and (1, 0) are born |

## Left out

- Rendering (`Conway.prototype.draw`, the canvas setup and the colour mapping) is left out. It only reads the grid and is cosmetic. The same goes for `cellSize`, a floating-point value used only for drawing.
- `Math.random()` is replaced by a parameter `random: nat -> real`, where `random(k)` is the k-th draw. The 0.6 threshold is kept.
- `setInterval` and `requestAnimationFrame` are left out. They are external timers, so the model covers one tick and leaves their scheduling and interleaving to the host.
- The `fn.length` dispatch in `forEachCell` is left out. The passes are nested loops that yield coordinates in the same row-major order. `RowMajor` states that order, and each pass method is proved equal to its pass along `RowMajor`.
- Negative grid sizes are left out. The size is a `nat`, while the JavaScript would silently build an empty grid for them.
- `server.js` is left out. It is the HTTP server and templating, which hold no simulation state.

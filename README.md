# Incremental Game of Life engine

This is a Dafny model of the simulation core of a Conway's Game of Life program
(rule B3/S23). The board is a `HEIGHT` x `WIDTH` torus of cells. Each cell
records whether it is alive, how many of its 8 neighbours are alive, and whether
its state changed in the last generation. A count is never found by scanning a
cell's neighbourhood. Each generation, the scratch counts of the swept rectangle
are zeroed, then rebuilt by incrementing the 8 wrapped neighbours of every cell
alive in the new generation, survivors and births alike. A death in the step
decrements nothing. The mouse edits increment or decrement the neighbours of
the one cell they change.

The model has three modules:

- `Torus` (torus.dfy) holds the wrapped index arithmetic of the neighbour loops.
  It also defines `LiveCount`, the number of live cells at the 8 wrapped offsets
  of a cell. `LiveCount` counts by multiplicity. When the height or width is at
  most 2, one physical cell can sit at several offsets, or be the cell itself,
  and is then counted once per offset, as the source's loops do. The module's
  lemmas cover symmetry of neighbourhood, additivity, birth and death.
- `Runs` (runs.dfy) defines maximal runs of marked columns in a row. These are
  the spans the draw routine emits. The module proves they are unique.
- `Life` (life.dfy) defines the `Cell` record, the B3/S23 rule, and the class
  `Engine`. `Engine` holds the two grids of `main` as `array2<Cell>`: `grid`
  (current) and `newGrid` (scratch). Its methods follow the source loop by loop:
  - the neighbour increment and decrement;
  - the generation step (clear, sweep, copy);
  - the initialisation from random bits;
  - the mouse edits;
  - the row scan of the draw routine.

The global `HEIGHT` and `WIDTH` become the constants `Engine.Height` and
`Engine.Width`. The current live cells are the ghost set `LiveCells(g, rows, cols)`.
Count consistency (`Engine.CountsConsistent`) means every count equals
`LiveCount` over the live cells of the same grid. The model tracks how far each
count is from that value through `Surplus`, the stored count minus the true
live count.

Where the model follows the source rather than an idealised double-buffered
engine:

- The generation step copies the scratch grid into the current one
  (main.cpp:72). It does not swap the roles of two buffers, so afterwards both
  grids are equal.
- The generation step clears and sweeps only the top-left `height` x `width`
  rectangle given by its parameters (main.cpp:49-56). So the change flags are
  reset inside that rectangle, not on the whole grid. `main` passes the screen
  size divided by the cell size (main.cpp:168-169, 210). Neighbour wrapping
  still uses the full `HEIGHT` x `WIDTH` (main.cpp:29). Full count consistency
  is therefore proved only when the rectangle is the whole grid. Cells outside
  it keep their old flags in the scratch grid, and their old scratch count plus
  the new increments.
- The initial grid is not count-consistent (main.cpp:82). See "## Findings".

The source wraps an index as `(v + n) % n`, not with the fully general
`((v mod n) + n) mod n`. For an offset of -1..1 from a cell on the grid, `v + n`
is never negative, so both give the same index. `Torus.Wrap` defines it by
cases, and `Torus.WrapIsMod` ties it to the source's expression.

## Model

| member | source | states |
|---|---|---|
| Torus.Wrap | main.cpp:29 | a wrapped index of a cell coordinate plus an offset in -1..1 lies in [0, n), so no neighbour access is out of bounds |
| Torus.WrapIsMod | main.cpp:41 | the case-wise wrap equals the source's `(v + n) % n` (C++ truncating and Dafny Euclidean `%` agree since `v + n >= 0`) |
| Torus.LiveCount | main.cpp:24-31 | the live-neighbour count over the 8 offsets is at most 8, and 0 when nothing is alive |
| Torus.HitsBeforeAll | main.cpp:24-31 | once the two nested offset loops (skipping (0, 0)) have run, cell (p, q) has been reached exactly `Multiplicity` times |
| Torus.MultiplicitySymmetric | main.cpp:29 | (p, q) is among the offsets of (x, y) exactly as often as (x, y) is among the offsets of (p, q) |
| Torus.WrapInverse | main.cpp:29 | stepping by d from x lands on p iff stepping by -d from p lands on x |
| Torus.LiveCountUnion | main.cpp:22-44 | live counts add up over disjoint sets of live cells |
| Torus.LiveCountBirth | main.cpp:22-32 | a birth at c raises every cell's true live count by exactly what incrementing the neighbours of c adds to it |
| Torus.LiveCountDeath | main.cpp:34-44 | a death at c lowers every cell's true live count by exactly what decrementing the neighbours of c takes from it |
| Torus.NeighboursDistinct | main.cpp:24-31 | on a torus of at least 3 x 3 the 8 offsets are 8 distinct cells other than the cell itself, each counted once |
| Torus.SingleCellIsItsOwnNeighbourEightTimes | main.cpp:24-31 | on a 1 x 1 torus the only cell is its own neighbour at all 8 offsets |
| Torus.CornersAdjacent | main.cpp:29 | for every size, (0, 0) and (height - 1, width - 1) are neighbours of each other |
| Life.Engine.constructor | main.cpp:163-164 | both grids are `Height` x `Width`, distinct and fresh, every cell `{false, 0, false}`, and both are count-consistent |
| Life.Engine.IncreaseNeighbourCounts | main.cpp:22-32 | adds, to every cell of the grid, one per offset of (x, y) landing on it, and changes no flag or other count |
| Life.Engine.DecreaseNeighbourCounts | main.cpp:34-44 | the exact inverse of the increment: subtracts one per offset landing on each cell, and changes nothing else |
| Life.Engine.UpdateGrid | main.cpp:46-73 | afterwards both grids are equal. Each swept cell is alive iff B3/S23 holds for its old state and old count. Its `hasChanged` is set iff its state flipped, and its count is the live count of the swept rectangle. Cells outside the rectangle keep their old scratch flags. For a full sweep the grid is count-consistent. From a consistent grid each cell follows the rule on the old live cells, and the new live set is exactly `NextGeneration` of the old one |
| Life.Engine.RuleOnConsistentCounts | main.cpp:57-58 | from a count-consistent grid, the rule on the stored counts is the rule on the true live counts, so the new live set is `NextGeneration` of the old one |
| Life.NextGenerationOfGrid | main.cpp:57-59 | a grid whose every cell follows the rule on a live set holds exactly the next B3/S23 generation of that set |
| Life.Engine.Clear | main.cpp:49-53 | the swept rectangle of the scratch grid becomes `{false, 0, false}` and every other cell is unchanged |
| Life.Engine.Sweep | main.cpp:55-71 | after the sweep every swept cell has the rule's state and the change mark of a flip. Unswept cells keep their flags, and every count keeps its surplus over the live count |
| Life.Engine.Visit | main.cpp:57-69 | one sweep step sets the state by the rule and marks a flip, touches no other flag, and increments neighbours only for a live outcome, keeping every surplus |
| Life.Engine.Awaken | main.cpp:59-63 | a birth sets the cell alive, increments its neighbours, adds exactly that cell to the live set and keeps every surplus |
| Life.SurplusKeptByBirth | main.cpp:130-133 | a birth plus the neighbour increment leaves every count exactly as far from the true live count as before |
| Life.SurplusKeptByDeath | main.cpp:139-142 | a death plus the neighbour decrement leaves every count exactly as far from the true live count as before |
| Life.Engine.DrawCell | main.cpp:128-135 | on a dead cell: alive, marked changed, neighbours incremented, every surplus kept, and a count-consistent grid stays count-consistent. On a live cell: nothing changes, so drawing twice is drawing once |
| Life.Engine.EraseCell | main.cpp:137-144 | on a live cell: dead, marked changed, neighbours decremented, every surplus kept, and a count-consistent grid stays count-consistent. On a dead cell: nothing changes, so erasing twice is erasing once |
| Life.Engine.Extinguish | main.cpp:139-143 | a death clears the cell, marks it changed, removes exactly that cell from the live set and keeps every surplus |
| Life.Engine.InitializeGrid | main.cpp:75-88 | each cell holds its random bit and no change mark. Its count is the live bits at its offsets visited at or after it in row-major order, not all of them |
| Life.Engine.SeedCell | main.cpp:81-85 | one initialisation step resets the cell and increments neighbours for a live bit, extending the visited prefix by one cell |
| Life.InitialCountMissesEarlier | main.cpp:82 | the initial count of a cell falls short of its true live count by exactly the live bits at its offsets visited before it |
| Life.InitialCountWrongOnCorner | main.cpp:82 | on a 3 x 3 field with only (0, 0) alive, the initial count of (0, 1) is 0 while its true live count is 1 |
| Life.Engine.InitializeGridCorrected | main.cpp:75-88 | with all resets done before the increments, cells hold their bits, the live set is the live bits, and the grid is count-consistent |
| Life.Engine.CountLiveBits | main.cpp:83-85 | incrementing the neighbours of every live bit over a zeroed grid makes every count the true live count of the bits |
| Life.Engine.CountCell | main.cpp:83-85 | one step of that increment pass (part of the corrected initialisation): incrementing the neighbours of (i, j) when its bit is 1 makes every count the live count of the bits visited up to and including (i, j) |
| Life.LiveBitsCountStep | main.cpp:83-85 | visiting one more cell raises each live count of the visited bits by the cell's multiplicity when its bit is 1 |
| Life.LiveCellsOfBits | main.cpp:82 | a grid whose flags are the bits has the live bits as its live cells |
| Life.RowRuns | main.cpp:93-112 | the row scan emits the maximal runs of marked columns, where a column is marked iff its cell has changed or is alive (main.cpp:95). They are ascending, non-empty and separated by unmarked columns, cannot be extended, and cover every marked column. A run still open at the row end closes at the width |
| Life.Engine.DrawArray | main.cpp:92-113 | there is one span list per row, and each row's list is exactly its maximal marked runs; the method modifies nothing |
| Runs.CloseRun | main.cpp:100-105 | closing an open run at an unmarked column extends the decomposition of the scanned prefix |
| Runs.SkipUnmarked | main.cpp:99-106 | an unmarked column extends the scanned prefix without a new run |
| Runs.DecompositionUnique | main.cpp:92-112 | a row has exactly one list of maximal runs, so the spans are determined by the marks alone |
| Runs.ExampleRow | main.cpp:92-112 | the row marked at columns 2, 3, 4 and 7 of 10 has runs [2, 5) and [7, 8) and no others |

## Left out

- Rendering and input through raylib (window, key and mouse handling, `DrawRectangle`, `DrawText`) are foreign-library I/O. `DrawArray` returns the spans it would draw instead.
- Grid-line drawing (main.cpp:115-125) is floating point plus rendering.
- Command-line parsing and console output (main.cpp:149-158) are I/O. The sizes are the arguments of the `Engine` constructor.
- `rand()` (main.cpp:81) is replaced by a caller-supplied matrix of bits.
- `<omp.h>` is included but unused. There is no concurrency.
- The pause flag and the generation counter of the main loop (main.cpp:171, 176-177, 209-212) live in the event loop and are not modelled. The counter only increments once per unpaused tick.
- The clamp of mouse cells to the screen rectangle (main.cpp:190) becomes the precondition of `DrawCell` and `EraseCell` that the cell lies on the grid. The screen rectangle is a sub-rectangle of the grid.
- `neighbour_count` is a C++ `int`. The model uses unbounded integers. Overflow cannot occur from consistent counts, which stay in 0..8. A partial sweep is different. Outside the swept rectangle the counts are never cleared, and each generation adds that generation's live count of the rectangle, up to 8. A cell there can therefore overflow after about (2^31 - 1) / 8, roughly 2^28, generations. For example, a still-life block on the rectangle's bottom edge adds 2 per generation to the cell below it, which overflows after about 2^30 generations. The model does not capture that wrap-around.
- `Engine.Valid` requires the two grids to be distinct arrays. In the source they are two separate vectors of `main`.
- The pixel arithmetic of the drawing calls (`length * CELL_SIZE` and so on) is not modelled. Each span is returned as its column range [start, end).

## Findings

| source | as written | input that shows it | evidently intended | confidence | as-written member | corrected member |
|---|---|---|---|---|---|---|
| main.cpp:82 | each cell is reset to `{bit, 0, false}` when it is visited, after earlier-visited live neighbours have already incremented its count, so those increments are lost | a 3 x 3 grid whose only live bit is (0, 0): cell (0, 1) ends with count 0 but has one live neighbour | an initial grid whose every count is its number of live neighbours, which the generation step relies on | high, not executed | Life.InitialCountWrongOnCorner | Life.Engine.InitializeGridCorrected |

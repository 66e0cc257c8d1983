# lifegame-rs: the automaton step, in Dafny

lifegame-rs shows a Life-like cellular automaton in a terminal. The program
builds a 50 × 30 stage of cells, each one alive or dead by a coin flip. Once
per frame it calls `update` to advance the stage by one generation and then
paints it. This project models the stage and the `update` step, and proves
what the step does.

- `cells.dfy`, module `Cells`: the `Cell` record and the grid of rows. It also
  holds the truncating `as i8` conversion that the neighbour lookup applies
  to a cell's coordinates, and the shape invariants that construction sets
  up. These are: every cell records its own position, every cache equals its
  cell's state, and the grid is at most 127 × 127.
- `rules.dfy`, module `Rules`: the step as pure functions, mirroring the source.
  - `IsAliveAt` is the nested `is_alive`.
  - `Offsets` holds the eight relative positions, in the source's order.
  - `CountOver` and `NeighborCount` count live neighbours.
  - `NextAlive` is the rule: survive on 2 or 3, be born on 3 or 6.
  - `Judge` is the first pass, which writes each cell's state. `Commit` is the
    second pass, which copies state into cache.
  - `Step` gives the next generation of a whole grid.
  - A separate description checks the count: `LiveNeighbours` is the set of
    live cells at Chebyshev distance 1. `StepRule` states the rule in terms
    of that set.
- `stage.dfy`, module `Game`: the imperative side.
  - `Stage.constructor` is the nested construction loop.
  - `Stage.Update` takes the snapshot, then runs the first pass's nested loops
    (the inner counting loop is `CountLiveNeighbours`), then the second pass.
    It is proved to leave the stage equal to `Step` of the old stage.
- `properties.dfy`, module `Properties`:
  - cells outside the grid count as dead, and there is no wrap-around;
  - counts read only caches, so the order in which cells are judged makes no
    difference;
  - a dead grid stays dead forever, and a 1 × 1 grid dies in one step;
  - worked patterns: the blinker, a full block whose centre dies of
    crowding, and a birth on six neighbours.

Facts the code itself fixes:

- The neighbour at offset `(dx, dy)` of the cell with fields `x`, `y` is
  looked up at `(x as i8 + dx, y as i8 + dy)`.
  - `Step` is defined for any grid where that arithmetic cannot overflow
    (`Steppable`), including grids whose rows have different lengths. The
    lookup checks each row's own length.
  - With the construction invariants (`Placed`), the lookup position is the
    cell's own row and column index.
  - For a width of 128 or more, the cell at column 127 would overflow the
    `i8` addition. So 127 is the largest width the lookup supports.
- Neighbours are read from `isAliveCache`. The cell's own state is read
  from `isAlive`.
- The first pass never writes a cache. So even reading the partly updated
  stage would give the same counts as the snapshot does
  (`JudgingInAnyOrderSeesOldGeneration`). The clone taken at
  src/main.rs:79 is therefore not needed for correctness.
- The rule is applied in the source's nested `if` form. The born-on-6 case is
  kept.

## Model

| member | source | states |
|---|---|---|
| Cells.AsI8 | src/main.rs:96-97 | The `as i8` conversion of a coordinate: the result lies in [-128, 127] and agrees with the input modulo 256. Coordinates below 128 are unchanged. |
| Cells.Seeded | src/main.rs:25-39 | The grid built from a matrix of bits has the matrix's shape. The cell at row `y`, column `x` has coordinates `(x, y)` and state `bits[y][x]`, and every cache equals its state. |
| Cells.PlacedIsSteppable | src/main.rs:96-97 | On a grid of at most 127 × 127 whose cells record their own positions, the `i8` conversion leaves every coordinate unchanged and no neighbour sum overflows. |
| Rules.CountOver | src/main.rs:82-102 | After `k` of the offsets the counter is at most `k`. It is 0 exactly when none of those `k` positions is alive. |
| Rules.NeighborCount | src/main.rs:82-102 | A cell's live-neighbour count lies in [0, 8]. |
| Rules.NextAlive | src/main.rs:103-109 | A live cell stays alive iff its count is 2 or 3. A dead cell becomes alive iff its count is 3 or 6. |
| Rules.Judge | src/main.rs:103-109 | The first pass on a cell sets its state by the rule applied to its count in the snapshot. Coordinates and cache are kept. |
| Rules.Commit | src/main.rs:113-117 | The second pass on a cell sets its cache to its state and changes nothing else. |
| Rules.Step | src/main.rs:69-118 | The next generation has the old grid's shape. Each of its cells is the old cell with the first pass and then the second pass applied, all counts taken in the old grid. |
| Rules.StepPreservesInvariants | src/main.rs:80-117 | A step keeps the number of rows, every row's length and every cell's coordinates. Afterwards every cache equals its cell's state again, which re-establishes the invariant set at src/main.rs:33-34. |
| Rules.Iterate | src/main.rs:41-62 | Any number of steps keeps the grid's shape and the placement invariant. |
| Rules.OffsetIndex | src/main.rs:83-92 | Each non-zero `(dx, dy)` with both components in {-1, 0, 1} appears in the offset list. |
| Rules.OffsetsAreTheEightNeighbours | src/main.rs:83-92 | The eight offsets are non-zero, have components in {-1, 0, 1}, and are pairwise distinct. |
| Rules.ShiftedIsInjective | src/main.rs:83-98 | Different offsets from one cell lead to different positions. |
| Rules.CountIsCardinality | src/main.rs:82-102 | The counter equals the number of distinct live positions among the offsets visited. |
| Rules.LiveAmongIsLiveNeighbours | src/main.rs:70-77 | When caches equal states, the live shifted positions are exactly the live in-grid cells at Chebyshev distance 1. |
| Rules.NeighborCountIsLiveNeighbours | src/main.rs:70-102 | On a grid with the construction invariants, a cell's count equals the number of live cells at Chebyshev distance 1 from its position. Exactly the eight neighbours are counted, and positions outside the grid add nothing. |
| Rules.StepRule | src/main.rs:103-108 | After a step, a cell is alive iff it was alive with 2 or 3 live neighbours, or dead with 3 or 6. Its cache equals its new state. |
| Game.CountLiveNeighbours | src/main.rs:82-102 | The inner loop over the eight offsets returns the cell's neighbour count in the snapshot. |
| Game.Stage.constructor | src/main.rs:25-39 | Builds `height` rows of `width` cells from the given bits. Each cell records its position, and its state and cache are both its bit. |
| Game.Stage.Update | src/main.rs:69-118 | Keeps the stage invariant. The new stage is exactly `Step` of the old one. Rows, row lengths and coordinates are unchanged. |
| Properties.OutsideIsDead | src/main.rs:70-77 | A position is dead if it has a negative coordinate, a row index at or past the row count, or a column index at or past that row's length. |
| Properties.StepIsLocal | src/main.rs:70-102 | Two grids that agree on a cell and on its Chebyshev neighbours give that cell the same next state. |
| Properties.NoWrapAround | src/main.rs:70-77 | With rows of at least three cells, the last column has no influence on the first column's next generation. |
| Properties.CountReadsOnlyCaches | src/main.rs:76 | Counts depend on nothing but the cache flags: grids with equal shapes and caches give equal counts. |
| Properties.JudgingInAnyOrderSeesOldGeneration | src/main.rs:79-111 | Take any grid in which some cells have already been through the first pass, in any order. Every cell still gets the previous generation's count. |
| Properties.AllDeadStaysDead | src/main.rs:103-108 | An all-dead grid is all-dead after one step. |
| Properties.AllDeadForever | src/main.rs:41-62 | An all-dead grid is all-dead after any number of steps. |
| Properties.SingleCellDies | src/main.rs:70-77 | A 1 × 1 grid is dead after one step, whatever its state. |
| Properties.BlinkerTurns | src/main.rs:69-118 | A horizontal bar of three live cells in a 3 × 3 grid becomes a vertical bar after one step. |
| Properties.CrowdedCentreDies | src/main.rs:103-106 | The live centre of a full 3 × 3 block, with eight live neighbours, dies. |
| Properties.BornOnSix | src/main.rs:107-108 | A dead cell with exactly six live neighbours is born. |

## Left out

- Terminal handling is not modelled: raw mode, hiding and showing the cursor, saving and restoring its position, painting `██` or spaces, and flushing (src/main.rs:19-21, 52-66). It is I/O over the terminal library.
- Keyboard polling with its 100 ms timeout and the `q` quit check (src/main.rs:42-48) is not modelled. It is event I/O.
- The random fill (src/main.rs:23-24, 29) becomes the constructor's `seed` parameter, a matrix of arbitrary bits. Nothing about the fair-coin distribution is stated.
- The endless frame loop (src/main.rs:41-62) is represented only by `Iterate`, which takes a number of steps. The loop has no termination or cycle detection to verify.
- Game.Stage.constructor: requires width and height of at most 127. The program's sizes are `u8` constants (50 and 30), and the coordinate lookup supports at most 127.
- Rules.Step: requires that no neighbour sum overflows `i8`. The source would panic in a debug build and wrap around in a release build; neither behaviour is modelled.
- Game.Stage.Update: works on a copy of the row sequence and stores it back when done. No reference into the stage escapes `update`, so the in-place writes of the source are modelled as value updates.
- Public `get`/`set` accessors with an `OutOfBounds` error, and an `InvalidGrid` check for ragged rows, are not in the code. They are not modelled. The code's step tolerates ragged rows, and so does `Step`.

# Wavefront over a state array — Dafny model

This project models the core of a small pthreads program that runs a
"wavefront" over a rectangular grid of integer cells (the *state array*).
Cells in the last row and the last column are border cells and are seeded
with 1. Every other cell has a worker thread, and that worker sets its cell
to the sum of its east, south and south-east neighbours once all three are
non-zero. The program repeats this for a number of independent rounds. At
the end of each round, the last thread to reach a barrier records the sum
of cell 0 as the round's result, zeroes the whole grid and seeds the
borders again.

Two modules, one per source file:

- `StateArray` (`state_array.dfy`, from `state_array.c`). It holds the index
  and neighbour arithmetic (`Index`, `N`, `S`, `E`, `W`) and the grid as a
  class `Grid`. The C file's globals `nrows`, `ncols`, `arr_len` and
  `state_arr` become `Grid`'s fields, with an `array<int>` holding each
  cell's `sum`. The constructor is `createStateArray`. `Reset` is
  `resetStateArray`. `InitBorders` is `initBorders`, with its two loops.
  The constructor and `Reset` are proved to leave `Zeros`, and
  `InitBorders` to leave `WithBorders` of the old contents. `Seeded` (zeros,
  then borders) is the state `BarrierFunction` leaves.
- `Wavefront` (`wavefront.dfy`, from `a3.c`). `DoWorkStep` is one round of
  `doWork` for one worker: it reads the three neighbours and writes their
  sum only when none of them is 0. `Wave` runs every worker's step once, as
  a sequential sweep from the bottom-right corner to the top-left corner.
  `BarrierFunction` is `barrier_function`. `EnumerateWorkers` is the nested
  loop in `wavefront` that hands each interior cell a worker. `Run` is the
  whole of `wavefront`.

The value a cell holds after a complete wave comes from the reference
recurrence `Delannoy(m, n)`, where m and n are the cell's distances to the
last row and to the last column. Border cells hold 1, and an interior cell
holds the sum of its east, south and south-east values.

Why a sequential sweep is enough: each cell depends only on cells with a
larger flat index, so the dependency graph is acyclic. Assume every wait
returns only after the neighbour it waits for is published. Then every
worker publishes exactly once per round, and a cell never changes again
until the reset, so any interleaving ends in the same grid as the
descending sweep. The code waits with a single `if` (a3.c:218, 227, 236),
so a spurious wakeup breaks that assumption (see "Left out").

Where the source's comments and its code disagree, the model follows the
code:

- state_array.c:237 asks for a `while` loop around `pthread_cond_wait`, but
  `doWork` waits for each neighbour with a single `if`. It then checks the
  three sums again and writes the cell only if all are non-zero
  (a3.c:248). The model keeps that guard.
- The header of `wavefront` (a3.c:79) promises an error code, but `main`
  ignores the return value, so the program's exit code does not report
  failures.

`initBorders` seeds the last column first, for every row. It then seeds the
last row for every column except the last one. The model keeps both loops.

## Model

| member | source | states |
|---|---|---|
| `StateArray.Index` | state_array.c:182-185 | no contract of its own; the body is `r*ncols + c`. Its properties are stated by `IndexRowCol`, `CellOfIndex`, `IndexInBounds` and `IndexInjective` |
| `StateArray.N` | state_array.c:191-194 | no contract of its own; the body is `i - ncols`. Stated by `NeighbourInverses` and `NeighbourOfIndex` |
| `StateArray.S` | state_array.c:200-203 | no contract of its own; the body is `i + ncols`. Stated by `NeighbourInverses`, `NeighbourOfIndex`, `InteriorReadsInBounds` and `InteriorNeighbours` |
| `StateArray.E` | state_array.c:209-212 | no contract of its own; the body is `i + 1`. Stated by `NeighbourInverses`, `NeighbourOfIndex`, `InteriorReadsInBounds` and `InteriorNeighbours` |
| `StateArray.W` | state_array.c:218-221 | no contract of its own; the body is `i - 1`. Stated by `NeighbourInverses` and `NeighbourOfIndex` |
| `StateArray.IndexRowCol` | state_array.c:182-185 | `index(r, c)` divided by `ncols` gives back r, and the remainder gives back c, for every column 0 <= c < ncols |
| `StateArray.CellOfIndex` | state_array.c:182-185 | every array position 0 <= i < nrows*ncols is `index` of a cell (i / ncols, i % ncols) inside the grid, so `index` is onto |
| `StateArray.IndexInBounds` | state_array.c:59 | every cell 0 <= r < nrows, 0 <= c < ncols has an index in [0, arr_len), where arr_len = nrows*ncols |
| `StateArray.IndexInjective` | state_array.c:182-185 | two cells with the same index are the same cell |
| `StateArray.NeighbourInverses` | state_array.c:191-221 | N undoes S, S undoes N, W undoes E and E undoes W |
| `StateArray.NeighbourOfIndex` | state_array.c:191-221 | S, N, E and W of `index(r, c)` are the indices of (r+1, c), (r-1, c), (r, c+1) and (r, c-1) |
| `StateArray.InteriorReadsInBounds` | a3.c:198-200 | for an interior cell, the indices E(idx), S(idx) and S(idx)+1 that a worker reads all lie in [0, arr_len) |
| `StateArray.InteriorNeighbours` | state_array.c:200-212 | for an interior cell, E(idx), S(idx) and S(idx)+1 are the indices of its east, south and south-east cells, in row and column terms |
| `StateArray.BorderOrInterior` | state_array.c:18-30 | inside the grid, a cell is a border cell (last row or last column) exactly when it is not interior |
| `StateArray.WithBordersCells` | state_array.c:137-153 | seeding sets every border cell to 1 and leaves every non-border cell as it was |
| `StateArray.WithBordersIdempotent` | state_array.c:137-153 | seeding the borders twice gives the same grid as seeding once |
| `StateArray.SeededCells` | a3.c:278-279 | after a reset followed by seeding, border cells hold 1 and interior cells hold 0 |
| `StateArray.Grid.constructor` | state_array.c:54-71 | sets nrows, ncols and arr_len = nrows*ncols, allocates an array of arr_len cells, and every sum is 0 |
| `StateArray.Grid.Reset` | state_array.c:111-122 | every cell, border cells included, ends at 0, whatever it held before; so calling it twice is the same as calling it once |
| `StateArray.PartlySeededColumnStep` | state_array.c:137-143 | one pass of the first loop, writing 1 at `index(k, ncols-1)`, seeds the last-column cell of row k and nothing else |
| `StateArray.PartlySeededRowStep` | state_array.c:146-152 | one pass of the second loop, writing 1 at `index(nrows-1, k)`, seeds the last-row cell of column k and nothing else |
| `StateArray.PartlySeededAll` | state_array.c:137-153 | once the first loop has covered every row and the second every column but the last, exactly the border cells are seeded |
| `StateArray.Grid.InitBorders` | state_array.c:128-155 | the new grid is the old grid with every last-column and last-row cell set to 1; no interior cell is written |
| `Wavefront.Delannoy` | a3.c:58-73 | the value a complete wave leaves in a cell is at least 1 and odd, so a computed cell never holds the 0 "not ready" sentinel |
| `Wavefront.DelannoySymmetric` | a3.c:58-73 | the value m rows and n columns from the borders equals the value n rows and m columns from them |
| `Wavefront.DelannoyOne` | a3.c:58-73 | closed form one row above the last row: 2n + 1 |
| `Wavefront.DelannoyTwo` | a3.c:58-73 | closed form two rows above the last row: 2n^2 + 2n + 1 |
| `Wavefront.SolvedRecurrence` | a3.c:248-251 | in the solved grid every border cell is 1, and every interior cell is at least 1 and equals its east + south + south-east neighbours |
| `Wavefront.SolvedAt` | a3.c:58-73 | solved cell (r, c) holds Delannoy(nrows-1-r, ncols-1-c) |
| `Wavefront.SolvedCorner` | a3.c:72-73 | the solved value of cell 0, the round's result, is Delannoy(nrows-1, ncols-1) |
| `Wavefront.ThreeByThree` | a3.c:58-73 | worked example of the recurrence: on a 3 x 3 grid, cell (1,1) is 3, cells (0,1) and (1,0) are 5, and the result at (0,0) is 13 |
| `Wavefront.CellStep` | a3.c:245-255 | no contract of its own beyond the preconditions; the body reads E, S and S+1 and writes their sum only when all three are non-zero. Its effect is stated by `CellStepEffect`, and `DoWorkStep` is proved against it |
| `Wavefront.CellStepEffect` | a3.c:245-255 | a worker's step writes east + south + south-east into its cell when all three are non-zero, changes nothing when any is 0, and never writes another cell |
| `Wavefront.DoWorkStep` | a3.c:198-255 | one round of a worker on an interior cell changes the grid exactly as the step above |
| `Wavefront.Wave` | a3.c:213-253 | starting from any grid whose border cells hold 1, running every interior cell's step from the bottom-right corner to the top-left corner leaves the solved grid |
| `Wavefront.BarrierFunction` | a3.c:274-282 | the returned result is the sum cell 0 held before the call, and the grid ends in the seeded state (borders 1, interior 0) |
| `Wavefront.EnumerateTake` | a3.c:131-140 | handing out an interior cell (i, j) extends the enumeration in ascending order |
| `Wavefront.EnumerateSkip` | a3.c:131 | a cell of the last row or the last column gets no worker |
| `Wavefront.EnumerateNextRow` | a3.c:129-130 | the end of one row of the enumeration is the start of the next row |
| `Wavefront.EnumerateComplete` | a3.c:128-143 | after the last row every interior cell has been handed out |
| `Wavefront.EnumerateWorkers` | a3.c:128-143 | the loop hands out exactly the interior cells, in ascending row-major order, each once; thrd_count ends equal to (nrows-1)*(ncols-1), which is thread_arr_len |
| `Wavefront.Run` | a3.c:82-153 | the barrier has one party per worker plus the main thread, every worker gets an interior cell, and each of the numRounds rounds reports the same result, Delannoy(nrows-1, ncols-1) |

## Left out

- Threads, mutexes and condition variables (`pthread_create`, `pthread_join`, `pthread_mutex_*`, `pthread_cond_*`) and the barrier type (`barrier_init`, `barrier_wait`, `barrier_destroy`). The barrier's implementation is not part of this model. The concurrent wave is replaced by one sequential sweep, which reaches the same grid because the dependencies are acyclic. The model therefore does not capture interleavings, blocking, or a worker that never wakes.
- The single `if` around `pthread_cond_wait` (a3.c:218-237). A spurious wakeup could let a worker read a 0 and skip its cell. The model assumes every wait returns only after the neighbour is published, and keeps only the data guard at a3.c:248.
- `waitOnNeighbor` (state_array.c:229-241). It is an unfinished stub that returns 42, and nothing calls it.
- `signalBorderCVs` (state_array.c:158-174). It only broadcasts condition variables and changes no data.
- `destroyStateArray`, `malloc`/`free` and what happens when allocation fails. These only obtain or release resources.
- `main`, `atoi` argument parsing, every `printf` and the exit codes. `Run` returns the per-round results that the program prints.
- `getStateArray`, `getNumRows` and `getNumCols`. These are accessors; the model reads the fields of `Grid` directly.
- The C globals `ncols` (read by `index`, `N` and `S`) and `gResult`. `ncols` is passed as an explicit parameter. `gResult` is `BarrierFunction`'s return value.
- 32-bit `int` overflow. Sums are unbounded integers. The corner value grows exponentially with the grid size, so the C program overflows from 15 x 15 grids upward (the corner of a 15 x 15 grid is D(14,14) = 7,923,848,253 > 2^31 - 1; a 14 x 14 grid gives 1,409,933,619) and the model does not reproduce that.
- Grids with a zero or negative dimension (which `atoi` can return). The `Grid` constructor requires non-negative sizes, and `InitBorders`, `Wave`, `BarrierFunction`, `EnumerateWorkers` and `Run` require at least one row and one column. With zero columns, or zero rows and two or more columns, `initBorders` indexes outside the array.
- `Wavefront.Delannoy`: the general closed form sum over k of C(m,k)*C(n,k)*2^k is not proved. Only the closed forms for the first two rows above the border are proved (`DelannoyOne`, `DelannoyTwo`).

# Game of Life generation engine

A Dafny model of the generation-advance engine in `life.c` from a small
SDL Game of Life program. The engine has three procedures that advance a
generation. `hedge_life` treats cells beyond the edges as permanently dead.
`torus_life` wraps both axes. `klein_life` wraps the columns and glues the
top and bottom edges with the columns mirrored. Each procedure reads matrix
`A` and writes the next generation into a distinct matrix `B`. It then
clears `A` to zeros. The allocator `init_matrix` is modelled too: it
returns a zero-filled matrix or NULL.

Two modules:

- `LifeSpec` (`life_spec.dfy`) holds the values:
  - a generation as a `rows x cols` grid of bytes, where a cell is alive exactly when it holds 1;
  - C's truncating `%`;
  - the three border rules that resolve an out-of-range coordinate;
  - the count over the 3x3 window, taken over the nine offsets as the code does;
  - the per-cell decision;
  - the whole next generation.

  Beside the code's own computation sits an independent reference: Conway's
  B3/S23 rule over the eight-neighbour count. The lemmas connect the two.
- `Life` (`life.dfy`) holds the procedures over `array2<byte>`, as nested
  loops with invariants. `Advance` and its three entry points are proved
  to write `NextGeneration` of the matrix they read. The triplicated C body becomes one `Advance` method that
  takes a `Border`. `HedgeLife`, `TorusLife` and `KleinLife` fix that
  parameter. The source's `x`, `y` and `i`, `j` loops are split into
  `CountRow`, `CountWindow`, `WriteNext` and `AdvanceRow`.

How the model relates to the code:

- The `rows` and `cols` arguments of the C procedures are the dimensions of
  the matrices. Every caller allocates both matrices with the sizes it later
  passes (gl.c:85-87).
- The code counts all nine cells of the window, the centre included. It
  then subtracts 1 when the centre holds 1. The model does the same:
  `WindowCount` and `NextByte`. `WindowSplitsAtCentre` proves that the
  result is the eight-neighbour count.
- On a wrapping grid with fewer than three rows or columns, one cell can be
  reached through several offsets. Such a cell is counted once per offset,
  as in the code. `OneRowTorusCounts` and `OneRowTorusKeepsLoneCell` show the effect.
- The code does not clear the next buffer before a step. It overwrites
  every cell of `B`, so nothing of `B`'s earlier contents survives, and
  `Advance` states exactly that.

## Model

| member | source | states |
|---|---|---|
| LifeSpec.CRem | life.c:147-148 | C's `%` for a positive divisor: for a non-negative dividend the remainder lies in [0, n); for a negative one it lies in (-n, 0] |
| LifeSpec.CRemCongruent | life.c:147-148 | the C remainder differs from the dividend by a multiple of n |
| LifeSpec.CRemNearRange | life.c:147-148 | for dividends in [-1, n]: -1 stays -1 when n > 1, -1 gives 0 when n = 1, n gives 0, and in-range values are unchanged |
| LifeSpec.WrapIndex | life.c:147-152 | remainder followed by the negative fix-up always gives an index in [0, n) |
| LifeSpec.WrapIndexNearRange | life.c:147-152 | -1 wraps to n - 1, n wraps to 0, and an index in range stays where it is |
| LifeSpec.WrapIndexIsModulus | life.c:147-152 | on every coordinate the scan produces, the C remainder plus its fix-up equals the mathematical modulus k mod n |
| LifeSpec.HedgeAt | life.c:91-93 | a coordinate yields a cell if and only if it is inside the matrix, and the cell it yields is that coordinate |
| LifeSpec.TorusAt | life.c:147-154 | the torus always reads a cell inside the matrix |
| LifeSpec.TorusWraps | life.c:147-152 | the torus reads row (i + x) mod rows and column (j + y) mod cols |
| LifeSpec.KleinAt | life.c:209-222 | the Klein rule always reads a cell inside the matrix |
| LifeSpec.KleinGlues | life.c:209-220 | above the top row the read is at row rows - 1, column cols - 1 - c; below the bottom row it is at row 0, column cols - 1 - c; otherwise it is at row i + x, column c, where c is the wrapped column |
| LifeSpec.Neighbour | life.c:89-96 | every read lies inside the matrix, and only the dead border ever skips an offset |
| LifeSpec.InsideResolvesToItself | life.c:91-93 | under all three rules a coordinate inside the matrix reads itself, so offset (0, 0) reads the centre |
| LifeSpec.LiveAt | life.c:91-94 | the read counts 0 or 1; at a coordinate inside the matrix it is 1 exactly when that cell holds 1, whatever the border rule; under the dead border a coordinate outside the matrix counts 0 |
| LifeSpec.WindowCount | life.c:86-96 | `chk` before the centre is taken off is at most 9 |
| LifeSpec.NextCell | life.c:98-112 | the byte written into B[i][j] is 0 or 1, and it is 1 only when the window holds three or four live cells |
| LifeSpec.CountAlive | life.c:89-96 | a count over a list of offsets is at most the number of offsets |
| LifeSpec.WindowSumIsWindowCount | life.c:89-96 | the x, y loops accumulate exactly the live cells of the nine-offset window |
| LifeSpec.WindowSplitsAtCentre | life.c:98-99 | the window count minus 1 for a live centre equals the count of the eight neighbours |
| LifeSpec.NextByte | life.c:98-112 | the decision writes only 0 or 1 |
| LifeSpec.NextCellFollowsConway | life.c:98-112 | the neighbour count is at most 8, and a cell becomes 1 exactly when B3/S23 holds: 3 neighbours, or 2 when the cell holds 1; otherwise it becomes 0 |
| LifeSpec.NextGeneration | life.c:84-114 | the next generation has the dimensions of the current one and holds only 0 and 1 |
| LifeSpec.NextGenerationFollowsConway | life.c:84-114 | every cell of the next generation is 1 exactly when B3/S23 holds for the corresponding cell of the current one |
| LifeSpec.HedgeCountsLeast | life.c:91-93 | the dead border never counts more live cells than a wrapping border over the same offsets |
| LifeSpec.InsideCountAgrees | life.c:89-96 | over offsets that stay inside the matrix, all three rules count the same cells |
| LifeSpec.InteriorAgrees | life.c:89-96 | when a cell's whole 3x3 window lies inside the grid, hedge_life, torus_life and klein_life compute the same next state for it |
| LifeSpec.RingAvoidsCentre | life.c:89-96 | a non-zero offset never reads the centre, except on a wrapping axis of length 1 |
| LifeSpec.OthersDeadCountZero | life.c:89-96 | when every other cell is dead, the neighbour offsets count nothing |
| LifeSpec.LoneCellDies | life.c:98-101 | a lone live cell becomes 0 under the dead border, and under the wrapping borders on grids with at least two rows and two columns |
| LifeSpec.OneRowTorusFolds | life.c:147-150 | on a torus of one row, every offset (x, y) reads the same cell as offset (0, y) |
| LifeSpec.OneRowTorusCounts | life.c:145-157 | on a torus of one row, the neighbour count is 3 times the left and right cells plus 2 times the cell itself |
| LifeSpec.OneRowTorusKeepsLoneCell | life.c:145-173 | on a one-row torus of at least two columns, a lone live cell counts 2 neighbours and survives |
| LifeSpec.EdgeReadIsDead | life.c:89-96 | from an edge cell of a grid whose live cells are all at least two cells from every edge, every offset reads a dead cell under every border rule |
| LifeSpec.EdgeCountZero | life.c:89-96 | such an edge cell counts no live cell over any offsets within the window |
| LifeSpec.EdgeFreeAgrees | life.c:84-114 | when every live cell is at least two cells from every edge, hedge_life, torus_life and klein_life produce the same next generation |
| LifeSpec.LoneRead | life.c:89-96 | with at most one live cell p away from the edges, an offset finds a live cell exactly when it lands on p itself, under every border rule |
| LifeSpec.LoneCellWindowDies | life.c:98-112 | in such a grid no window holds more than one live cell, so every cell becomes 0 |
| LifeSpec.LoneCellClearsGrid | life.c:84-114 | a grid whose only live cell lies away from the edges is entirely dead one generation later, under every border rule |
| Life.ZeroMatrix | life.c:116-120 | afterwards every cell of the matrix is 0 |
| Life.InitMatrix | life.c:25-52 | the result is NULL exactly when allocation fails; otherwise it is a fresh rows x cols matrix of zeros |
| Life.CountRow | life.c:90-95 | the y loop adds the live cells at offsets (x, -1), (x, 0) and (x, 1), as resolved by the border rule |
| Life.CountWindow | life.c:86-96 | `chk` is the nine-offset window count, that is, the eight-neighbour count plus 1 when the centre holds 1 |
| Life.WriteNext | life.c:98-112 | B[i, j] receives the next state of cell (i, j), and every other cell of B is unchanged |
| Life.AdvanceRow | life.c:85-113 | each cell of row i of B receives its next state; the other rows of B and all of A are untouched |
| Life.Advance | life.c:84-120 | B holds the next generation of A as it was on entry, and every cell of A is 0 |
| Life.HedgeLife | life.c:81-122 | hedge_life: B holds the next generation under the dead border, and A is cleared |
| Life.TorusLife | life.c:136-183 | torus_life: B holds the next generation with both axes wrapped, and A is cleared |
| Life.KleinLife | life.c:198-251 | klein_life: B holds the next generation on the Klein bottle, and A is cleared |
| Life.TwoGenerations | gl.c:137-142 | after two steps with the matrices exchanged, A holds the generation two steps on and B is all zeros |

## Left out

- free_matrix (life.c:59-68) and the release of partial allocations (life.c:36-41) are not modelled. Dafny's heap is garbage-collected, so there is nothing to free.
- Life.InitMatrix: whether malloc fails is the allocator's decision. It is the `outOfMemory` parameter here, and the model has no separate failure for the row allocations.
- Life.InitMatrix: the matrix is one `array2`, not an array of row pointers. Rows therefore cannot alias one another.
- Life.InitMatrix: the byte counts passed to malloc (`sizeof(int *)` and `sizeof(int)` for a char matrix) are not modelled. They only over-allocate.
- Life.InitMatrix: `rows` and `cols` are `nat`. The C `int` arguments could be negative, which would make a huge malloc request.
- Life.Advance and its three entry points take the dimensions from the matrices, not from separate `rows` and `cols` arguments. A caller passing larger sizes would read out of bounds in C. One passing smaller sizes advances only the top-left sub-grid, wrapping at the passed sizes, and leaves the rest of both matrices alone. Neither case is modelled; the only caller passes the allocation sizes (gl.c:85-87, 137-164).
- gl.c is not modelled beyond TwoGenerations: option parsing, pattern files, SDL rendering and the endless display loop are I/O and user interface.
- life.h holds declarations only.
- sdl.h and sdl_render_life are not part of this model. They are foreign graphics code.

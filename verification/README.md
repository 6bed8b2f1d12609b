# Life-like automaton engine

A Dafny model of the engine of a Conway's Game of Life program (`main.py`).
The program keeps one generation as a two-dimensional 0/1 array. It advances
the generation with `check_cells`. It fills a fresh array at random with
`generate_map`. The user can clear the array or flip a single cell.

The model covers these parts:

- **Grids** (`grid.dfy`): a generation is a `seq<seq<bool>>` indexed `g[y][x]`.
  A neighbourhood is a `seq<Offset>` of `(dx, dy)` pairs. `Rules` holds the
  survive and born count sets. `Live(g, x, y)` is false off the grid, so the
  edges are hard and nothing wraps around.
- **Stepper** (`stepper.dfy`): `check_cells`. `Step` is the per-cell functional
  definition. `StepLoops` is the three nested loops of the source. They start
  from an all-dead array of the input's shape, write only into it, and are
  proved equal to `Step`. The running neighbour count `NeighbourCount` is
  proved equal to a reference definition: the size of the set of neighbourhood
  positions that land on a live cell.
- **Generator** (`generator.dfy`): `generate_map`. The random draw per cell is
  an oracle `fill(x, y)`. The grid has `height / cell` rows of `width / cell`
  cells.
- **Edit** (`edit.dfy`): clearing to an all-dead grid of the same shape
  (`np.zeros(map.shape)`), and toggling one cell.
- **Conway** (`conway.dfy`): the rule the program runs with. That is
  survive {2, 3}, born {3} and the eight Moore offsets in the program's order.
  It also holds facts about that rule: an all-dead grid stays dead, a lone
  corner cell dies, a block is still, and a blinker has period 2.

With the configured 1280 x 720 display and 15-pixel cells (main.py:103-109),
`GenerateMap` gives 720 / 15 = 48 rows of 1280 / 15 = 85 cells.

## Model

| member | source | states |
|---|---|---|
| Stepper.NeighbourCount | main.py:55-63 | the neighbour count is between 0 and the number of offsets, and is 0 on an all-dead grid |
| Stepper.CountAppend | main.py:57-63 | the count over two offset lists laid end to end is the sum of their counts, so each offset contributes independently of the ones before it |
| Stepper.CountIsLiveNeighbours | main.py:55-63 | the count equals the number of offset positions whose target is inside the grid and alive; repeated offsets count once per occurrence |
| Stepper.Step | main.py:49-72 | the next generation has exactly the rows and row lengths of the input, and is rectangular when the input is |
| Stepper.StepLiveCell | main.py:65-67 | a live cell is live next iff its live-neighbour count is in the survive set |
| Stepper.StepDeadCell | main.py:68-70 | a dead cell is live next iff its live-neighbour count is in the born set |
| Stepper.StepIsLocal | main.py:50-70 | synchronous update: two grids that agree on a cell and on every in-grid cell its offsets reach give that cell the same next state |
| Stepper.AllDeadStaysDead | main.py:57-70 | when 0 is not a born count, an all-dead grid steps to the all-dead grid of the same shape, for any neighbourhood |
| Stepper.StepLoops | main.py:49-72 | the nested loops compute exactly the per-cell next generation; they write only the fresh result array and read only the old generation |
| Edit.Zeros | main.py:84 | the zero array has the requested rows and columns and no live cell |
| Edit.Clear | main.py:142 | clearing gives a grid of the same shape with every cell dead |
| Edit.ClearFixedPoints | main.py:142 | clearing leaves a grid unchanged iff the grid is already all-dead |
| Edit.Toggle | main.py:149 | the toggle succeeds iff (x, y) is on the grid; then it keeps the shape, flips cell (x, y) and leaves every other cell unchanged |
| Edit.ToggleTwice | main.py:149 | toggling the same cell twice restores the grid |
| Generator.GenerateMap | main.py:83-91 | the generated grid has height/cell rows, each of width/cell cells, and each cell is live iff that cell's draw was live |
| Generator.GenerateReachesEveryGrid | main.py:75-89 | every grid of that shape is the outcome of some per-cell draws |
| Generator.GenerateMapLoops | main.py:83-91 | the nested fill loops over a zero array compute exactly the generated grid |
| Conway.MooreCount | main.py:116-119 | under the eight configured offsets, the count is the sum over the eight surrounding positions, each counted only when on the grid and alive |
| Conway.StepByMooreSum | main.py:112-114 | under the configured rule, a live cell survives on 2 or 3 live Moore neighbours and a dead cell is born on exactly 3 |
| Conway.AllDeadStepsToAllDead | main.py:112-119 | under the configured rule and offsets, an all-dead grid steps to itself |
| Conway.CornerHasThreeCandidates | main.py:55-63 | at the corner (0, 0) at most 3 of the 8 Moore offsets pass the bound test, so the corner's neighbour count is at most 3 |
| Conway.LoneCornerDies | main.py:112-119 | a grid whose only live cell is (0, 0) steps to an all-dead grid: the corner has no live neighbour and no cell reaches 3 |
| Conway.BlockIsStill | main.py:112-119 | a 2 x 2 block at any position of an otherwise dead rectangular field, edges included, is its own next generation |
| Conway.BlinkerFlips | main.py:112-119 | a line of three centred on any cell (cx, cy) at least one cell from every edge of an otherwise dead rectangular field turns into the perpendicular line through the same centre |
| Conway.BlinkerPeriodTwo | main.py:112-119 | two steps restore a blinker centred on any cell (cx, cy) at least one cell from every edge |

## Left out

- Rendering (`draw`), window setup, the event loop and key dispatch are left out. They are I/O and UI.
- The mapping from mouse pixels to a cell is left out. It uses float division and `math.floor` with the render pitch `cell + wline` (16 pixels), which differs from the grid pitch `cell` (15 pixels). With the configured values a click reaches at most column 79 and row 44 of the 85 x 48 grid, so columns 80-84 and rows 45-47 can never be toggled (they are not drawn either). With other settings, such as `wline = 0` and a width that is not a multiple of `cell`, a click could address a cell past the grid. The model takes the cell coordinates as inputs, and `Toggle` returns `OutOfBounds` where the program would raise an index error.
- Edit.Toggle: takes natural-number coordinates. The negative indices that numpy would wrap are unreachable, because a floor of a non-negative pixel position is never negative.
- The randomness of `filling_function` (`random.random() < .1`) is left out. Each cell's draw is an unconstrained oracle bit, and no probabilities are modelled.
- numba compilation, `fastmath` and the float element type of `np.zeros` are left out. Cells are booleans, since the program only stores 0 and 1 and compares with `== 1`.
- Generator.GenerateMap: requires `cell > 0`. With a zero cell size the program fails with a division by zero, so it is not an input the program handles.
- Stepper.StepLoops: requires a rectangular grid. The loop checks the neighbour column against the current row's length, as the program does. A numpy array is always rectangular.
- The global update in `update` (`if simulate: map = check_cells(...)`) is left out. It adds nothing beyond `Step`.
- Frame-rate gating is left out. The program has no step-interval clock; it caps the frame rate with `clock.tick(FPS)` and steps once per frame (main.py:129, 153), so no clock is modelled.
- The program has no cell get/set accessors; it only flips a cell (main.py:149), so the model has `Toggle` and no `set`.
- The `print` calls for the map and the frame rate are left out. They are output only.

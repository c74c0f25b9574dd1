# Conway's Game of Life engine, modelled in Dafny

This project models the engine of a console Game of Life written in Python with
NumPy: the neighbour count `count_neighbors` and the generation step
`update_grid` of `game_of_life.py`. The rule is the classical B3/S23 rule on a
fixed, non-wrapping rectangular grid whose cells hold 0 (dead) or 1 (alive).

Everything is in `game_of_life.dfy`, module `GameOfLife`:

- The NumPy grid is an `array2<int>`. `Length0` is the number of rows and
  `Length1` the number of columns.
- `CountNeighbors` is the source's loop over the eight offsets (`Offsets`, in the
  source's order). It is proved equal to the specification function
  `Neighbours`. `Neighbours` is the same sum written recursively (`SumOver`), with
  `Cell` giving 0 for positions outside the grid.
- `UpdateGrid` copies the grid, then rewrites the copy in two nested loops. Every
  count reads only the original. Its contract is that the result is fresh and is
  the next generation of the input (`IsNextGeneration`). The method has no
  `modifies` clause, so the input cannot change.
- `NextCell` is the per-cell decision. The lemmas state what the source promises
  about the specification functions: bounds, the link to the set of live Moore
  neighbours, border behaviour, preservation of 0/1 grids, the all-dead grid,
  determinism, the isolated cell, the block still life and the glider.

The source only compares a cell with 1, and only writes the copy when a cell dies
or is born. So a cell holding some other value is treated as dead, and it keeps
its value unless it has exactly three neighbours. The count adds raw cell values.
The model keeps both behaviours. Every property that needs 0/1 cells takes
`Binary(g)` as a hypothesis rather than as a precondition of the methods.

## Model

| member | source | states |
|---|---|---|
| `GameOfLife.CountNeighbors` | game_of_life.py:25-49 | The result is the sum of the in-grid cells at the eight Moore offsets, for any row and column, out-of-grid ones skipped. On a 0/1 grid it is at least 0, at most the number of in-grid neighbours, at most 8, and equal to the number of live Moore neighbours. |
| `GameOfLife.SumOverBounds` | game_of_life.py:43-49 | On a 0/1 grid, a partial count over any list of offsets is at least 0 and at most the number of those offsets that land inside the grid. |
| `GameOfLife.NeighboursRange` | game_of_life.py:43-49 | On a 0/1 grid the neighbour count is in [0, 8] and never exceeds the number of in-grid neighbours examined. |
| `GameOfLife.OffsetsAreMoore` | game_of_life.py:38-42 | The offset list is exactly the 3x3 window without its centre: (0, 0) is absent. |
| `GameOfLife.LiveAtMembers` | game_of_life.py:44-48 | A position is among the live positions reached by a list of offsets exactly when its offset is in the list and it is an in-grid live cell. |
| `GameOfLife.LiveAtCount` | game_of_life.py:43-48 | On a 0/1 grid, for a list of distinct offsets, the accumulated sum equals the number of live positions reached. |
| `GameOfLife.NeighboursCountLive` | game_of_life.py:38-48 | On a 0/1 grid the count equals the size of the set of live in-grid cells in the 3x3 window minus its centre. The cell itself is never in that set. |
| `GameOfLife.UnfoldNeighbours` | game_of_life.py:38-49 | The count is the sum of the eight `Cell` terms, one per offset, with out-of-grid terms 0. |
| `GameOfLife.UnfoldExamined` | game_of_life.py:44-47 | The number of neighbours the bounds check lets through is the sum of eight in-grid indicators. |
| `GameOfLife.CornerNeighbours` | game_of_life.py:45-48 | A corner cell has at most 3 in-grid neighbours, so on a 0/1 grid at most 3 live ones. There is no wrap-around. |
| `GameOfLife.EdgeNeighbours` | game_of_life.py:45-48 | A cell on the border has at most 5 in-grid neighbours, so on a 0/1 grid at most 5 live ones. |
| `GameOfLife.InteriorNeighbours` | game_of_life.py:45-48 | All eight neighbours are examined if and only if the cell is off the border. |
| `GameOfLife.NextCell` | game_of_life.py:71-76 | For a live cell, the next value is 1 if and only if it has 2 or 3 neighbours, and 0 if and only if it has fewer than 2 or more than 3. A cell not holding 1 becomes 1 with exactly 3 neighbours and otherwise keeps its value. For 0/1 cells this equals the B3/S23 formula: alive next if and only if n = 3, or the cell is alive and n = 2. |
| `GameOfLife.UpdateGrid` | game_of_life.py:51-77 | The result is a freshly allocated grid with the input's rows and columns. Each cell is `NextCell` of the old cell and its count in the old grid. The input is not modified. |
| `GameOfLife.NextGenerationKeepsBinary` | game_of_life.py:67-76 | If every input cell is 0 or 1, so is every output cell. |
| `GameOfLife.SumOverOfDead` | game_of_life.py:43-49 | On an all-dead grid every partial neighbour count is 0. |
| `GameOfLife.AllDeadStaysDead` | game_of_life.py:74-76 | The next generation of an all-dead grid is all dead. |
| `GameOfLife.IsolatedCellDies` | game_of_life.py:71-76 | A single live cell in an otherwise dead grid has count 0, and the next generation is all dead: it dies and nothing is born. |
| `GameOfLife.BlockIsStill` | game_of_life.py:67-76 | A 2x2 block alone in the grid, anywhere including the border, has a next generation with the same values. |
| `GameOfLife.SumOverSameCells` | game_of_life.py:43-49 | Partial counts depend only on the grid's values, not on which array holds them. |
| `GameOfLife.NextGenerationDeterministic` | game_of_life.py:67-76 | Two separately allocated grids with the same values have next generations with the same values. |
| `GameOfLife.GliderCount` | game_of_life.py:38-48 | On a 5x5 glider grid, the count at any position is the number of glider cells around it inside the grid. |
| `GameOfLife.GliderStep` | game_of_life.py:67-76 | One generation takes the 5x5 glider seeded at {(0,1), (1,2), (2,0), (2,1), (2,2)} to its next standard phase, and then to the one after. |
| `GameOfLife.GliderMoves` | game_of_life.py:67-76 | The glider's first two generations are the standard phases and differ from each other: the glider is not a still life. |

## Left out

- `clear_console` (game_of_life.py:4-9) is a shell call for the console and is not modelled.
- `create_grid` (game_of_life.py:11-23) draws random cells through NumPy. Randomness is not modelled. A grid is any `array2<int>`, and `Binary` states the 0/1 shape that `create_grid` guarantees.
- `main` (game_of_life.py:79-110) is the console loop: printing, reading `n`/`q`, and the interrupt handling. It is I/O and is not modelled. Its only engine call is `update_grid`, which is modelled.
- Construction from an explicit pattern, a checked cell accessor and their errors do not exist in this code, so nothing models them.
- NumPy's fixed-width integer dtype is not modelled: cells and counts are unbounded integers. This matters only for cell values near the dtype's limit, far outside the 0/1 values the program creates.
- `np.copy` is modelled as allocating an array initialised from the input, not as a library call.

# Maze carver

A Dafny model of the maze generator in `maze.jsx` of 2d-maze-creator: a
randomized depth-first backtracker that carves passages through a square grid
of cells, one step per animation frame.

The sketch keeps three globals: `grid`, the cells; `current`, the cell being
carved from; and `stack`, the cells to return to. Each cell has coordinates
`i` and `j`, four wall flags and a `visited` flag. `setup` builds the grid
with every wall up and nothing visited, and points `current` at the first
cell. Each frame, `draw` runs one carving step. It marks `current` visited and
asks `checkNeighbours` for a random unvisited neighbour. If there is one, it
marks that neighbour, pushes `current`, lowers walls with `removeWalls`, and
moves there. Otherwise, if the stack is not empty, it pops it into `current`.

The model has four modules:

- `Grid` (grid.dfy) covers `getIndex`, the coordinates the construction loop
  gives each grid position, and the neighbour candidates of `checkNeighbours`.
  It proves that `getIndex` and the stored coordinates are mutual inverses on
  a square grid, and that the candidates are exactly the in-bounds, unvisited,
  adjacent cells.
- `Walls` (walls.dfy) covers `removeWalls` as a function on the wall flags of
  the whole grid, four per cell. It says exactly which flags come down.
- `Backtracker` (backtracker.dfy) covers the carver state as a value and one
  step of `draw` as a function. Its lemmas prove:
  - the search invariant every step keeps;
  - what each branch of a step does;
  - that walls only come down;
  - the bound on the stack;
  - a termination measure;
  - that any run of 2·n² steps from `setup` ends complete, with every cell
    visited, whatever neighbours are chosen.
- `Sketch` (sketch.dfy) is the program's own form: a class `Maze` whose
  arrays `Setup` allocates, `RemoveWalls` and `Step` update in place, and
  `CheckNeighbours` only reads. Each method is proved equal to the matching value-level function.

Cells are named by their position in `grid`. The wall `k` of the cell at
position `p` is entry `4 * p + k`. Walls are numbered as `show` draws them: 0
top, 1 right, 2 bottom, 3 left. `show` puts `j` across the canvas and `i` down
it (`maze.jsx:50-58`). `Math.random()` becomes a caller-supplied index `k`
into the candidate list; `ValidChoice` requires `k` to be in range whenever
the list is not empty.

The sketch has no `Complete` state and no configuration check. The model
derives `Complete`: no unvisited neighbour and an empty stack. A step from a
complete state changes nothing, apart from marking `current` visited if it
was not already.

Two details of the code shape what the model can claim:

- `removeWalls` writes four flags unconditionally. A move that changes `i`
  lowers the facing pair and also both cells' bottom walls. A move that
  changes `j` lowers the facing pair and also both cells' right walls
  (`Walls.Cleared`). So wall symmetry and the spanning-tree reading of the
  wall flags do not hold, and neither is claimed.
- The construction loop stores `Cell(p % rows, p / rows)` at position `p`,
  but `getIndex` computes `i + j * cols`. The two agree only when the grid is
  square (`Grid.TransposedWhenNotSquare`). The sketch's 320/320/20
  configuration gives a 16-by-16 grid, which `Sketch.Maze.Setup` builds. The
  lemmas of `Grid`, `Walls` and `Backtracker` are stated for every square
  grid of side n > 0, so they cover it.

## Model

| member | source | states |
|---|---|---|
| Grid.GetIndex | maze.jsx:14-15 | -1 exactly when i < 0, j < 0, i > cols-1 or j > rows-1; otherwise an index in [0, cols*rows) |
| Grid.GetIndexInjective | maze.jsx:14-15 | distinct in-bounds pairs get distinct indices |
| Grid.CellAtIndex | maze.jsx:88-90 | on a square grid the cell stored at getIndex(i, j) was built with coordinates (i, j) |
| Grid.IndexOfCell | maze.jsx:88-90 | on a square grid every stored cell has in-bounds coordinates and getIndex of them is its own position |
| Grid.TransposedWhenNotSquare | maze.jsx:85-90 | on a 2-column, 1-row grid getIndex(1, 0) is 1 but the cell stored at 1 was built as (0, 1) |
| Grid.GridCoord | maze.jsx:88-90 | the coordinates the construction loop gives position p: i lies in [0, rows) and j is non-negative (IndexOfCell and CellAtIndex give the exact inverse) |
| Grid.Lookups | maze.jsx:27-30 | the four getIndex lookups, each -1 or a position in [0, n*n) |
| Grid.KeepUnvisited | maze.jsx:32-34 | the forEach/push filter keeps exactly the items naming an existing unvisited cell, and nothing else, never more than it was given |
| Grid.KeepUnvisitedAppend | maze.jsx:32-34 | the filter keeps order: filtering a concatenation concatenates the filtered parts |
| Grid.Candidates | maze.jsx:24-35 | at most four candidates, and x is one iff it is among the four lookups, exists and is unvisited |
| Grid.CandidateIsAdjacent | maze.jsx:27-34 | every candidate of an in-bounds cell exists, is unvisited, and differs from the cell by exactly 1 in exactly one coordinate |
| Grid.AdjacentIsCandidate | maze.jsx:27-34 | every in-bounds unvisited cell adjacent to the cell is a candidate (so no candidates iff no in-bounds unvisited neighbour) |
| Grid.NoCandidatesWhenAllVisited | maze.jsx:32-34 | when every cell is visited, no cell has candidates |
| Grid.KeepUnvisitedShrinks | maze.jsx:32-34 | visiting more cells never lengthens the filtered list |
| Walls.Facing | maze.jsx:50-58 | the wall index of a that faces its adjacent cell b, one direction per index as show draws them |
| Walls.Carve | maze.jsx:69-78 | removeWalls on the flat wall array of the grid, for adjacent cells a and b; the array keeps its length (its exact effect is CarveClears) |
| Walls.FacingOpposite | maze.jsx:55-58 | the facing walls of an adjacent pair are opposite sides (index + 2 mod 4) |
| Walls.CarveClears | maze.jsx:69-78 | removeWalls lowers exactly the flags in Cleared: the facing pair plus both bottom walls (i-move) or both right walls (j-move), all in cells a and b; every other flag is unchanged |
| Walls.CarveLowersOnly | maze.jsx:73-77 | removeWalls never raises a wall |
| Walls.CarveIdempotent | maze.jsx:69-78 | removing the walls between the same pair twice equals doing it once |
| Backtracker.Init | maze.jsx:85-96 | after setup every wall is up, no cell is visited, the stack is empty and current is position 0, the cell (0, 0) |
| Backtracker.Step | maze.jsx:107-118 | a step keeps the state well formed and grows the stack by at most one |
| Backtracker.InitInv | maze.jsx:85-96 | the setup state satisfies the search invariant and its measure is 2*cols*rows |
| Backtracker.FinishedStays | maze.jsx:27-34 | a cell with no unvisited neighbour keeps none as more cells are visited |
| Backtracker.StepInv | maze.jsx:107-117 | every step keeps the invariant (stacked cells visited and distinct, current not stacked, retired cells have no unvisited neighbour) and leaves current visited |
| Backtracker.AdvanceInv | maze.jsx:111-115 | the advance branch keeps the invariant |
| Backtracker.BacktrackInv | maze.jsx:116-117 | the backtrack branch keeps the invariant |
| Backtracker.StayInv | maze.jsx:107-109 | a step with no candidate and an empty stack keeps the invariant |
| Backtracker.StepAdvance | maze.jsx:111-115 | advance: next was unvisited, differs from current and is adjacent to it; it becomes current; exactly current and next are newly marked visited; the old current is pushed (stack +1); the walls are Carve of the two cells, so the facing walls of both are down |
| Backtracker.StepBacktrack | maze.jsx:116-117 | backtrack: current becomes the popped top (stack -1); walls unchanged; under the invariant visited flags unchanged |
| Backtracker.StepWhenComplete | maze.jsx:107-118 | with no candidate and an empty stack a step only re-marks current, stays complete, and is a no-op once current is visited |
| Backtracker.StepMonotone | maze.jsx:107-118 | a step never raises a wall and never clears a visited flag |
| Backtracker.StackBound | maze.jsx:113-117 | under the invariant the stack is shorter than cols*rows |
| Backtracker.DistinctCard | maze.jsx:113-117 | a stack without duplicates has as many distinct cells as entries |
| Backtracker.CountMark | maze.jsx:107-112 | marking a cell lowers the unvisited count by one exactly when it was unvisited |
| Backtracker.StepDecreases | maze.jsx:107-118 | unless complete, 2*(unvisited cells) + stack height strictly decreases; it never increases |
| Backtracker.RunInv | maze.jsx:107-118 | any run keeps the invariant and leaves current visited after at least one step |
| Backtracker.RunLowersOnly | maze.jsx:107-118 | no run of steps ever raises a wall |
| Backtracker.CompleteStays | maze.jsx:107-118 | once complete, every later state is complete |
| Backtracker.ZeroMeasureComplete | maze.jsx:107-118 | with every cell visited and an empty stack the state is complete |
| Backtracker.RunCompletes | maze.jsx:107-118 | a run at least as long as the measure ends complete |
| Backtracker.SpreadStep | maze.jsx:27-34 | when every visited cell has no unvisited neighbour, a visited cell's in-bounds neighbour is visited |
| Backtracker.CompleteVisitsAll | maze.jsx:107-118 | a complete state satisfying the invariant with current visited has every cell visited |
| Backtracker.CarvingVisitsEveryCell | maze.jsx:85-118 | from setup, any run of 2*cols*rows valid steps ends complete with every cell visited, whatever choices are made |
| Sketch.BuildGrid | maze.jsx:88-93 | the nested loop builds cols*rows cells, the one at p with coordinates (p % rows, p / rows), all walls up, none visited |
| Sketch.PushColumn | maze.jsx:88-91 | one pass of the inner loop appends rows cells, keeping the earlier ones, each at its construction coordinates with walls up and not visited |
| Sketch.CollectUnvisited | maze.jsx:32-34 | the forEach/push loop over the lookups yields exactly KeepUnvisited of them |
| Sketch.Maze.Setup | maze.jsx:85-96 | cols and rows from the 320/320/20 configuration, 16 each; cols*rows cells; all walls up and nothing visited; current is grid[0] = (0, 0); grid[getIndex(i, j)] has coordinates (i, j); the state equals Init |
| Sketch.Maze.CheckNeighbours | maze.jsx:24-39 | built on CollectUnvisited; nothing iff there are no candidates, otherwise the k-th candidate: an existing, unvisited cell adjacent to the cell |
| Sketch.Maze.RemoveWalls | maze.jsx:69-78 | the wall array afterwards is Carve of the wall array before; nothing else changes |
| Sketch.Maze.Step | maze.jsx:107-118 | the object's new state is Backtracker.Step of its old state, so every lemma about Step holds of the in-place step |

## Left out

- React and p5 wiring (`Sketch` component, `createCanvas`, `frameRate`, `background`): presentation and frame scheduling.
- `show` and `highlight` are rendering. Only the wall numbering that `show` draws is used, to name the facing walls.
- `Math.random()` with `Math.floor` is replaced by a caller-supplied index `k` below the number of candidates. The distribution of the choice is not modelled.
- The `props.shouldCreate` gate: the step is modelled unconditionally.
- Other canvas and cell sizes: `Sketch.Maze.Setup` builds the sketch's fixed 320/320/20 configuration. Sizes giving a non-square grid would make the stored coordinates disagree with `getIndex` (`Grid.TransposedWhenNotSquare`), and sizes giving no cell would leave `current` undefined. Neither arises with the sketch's constants.
- Walls.Carve: requires the two cells to be adjacent, because the sketch only calls `removeWalls` with a neighbour returned by `checkNeighbours`. For other pairs the code still writes four entries. A diagonal pair or a cell paired with itself gets indices inside 0..3 and silently loses walls. For a pair further apart, one or more computed indices fall outside 0..3. Those writes add stray properties to the cell's `walls` array, while the in-range writes still lower flags.
- Sketch.Maze.Setup: models the first mount only. `grid` and `stack` live at module level and `setup` only pushes onto `grid`, so a remount would append a second set of cells and keep the old `current`.
- Wall symmetry and "the lowered walls form a spanning tree" do not hold for the code as written (see `Walls.CarveClears`), so they are not stated.
- The grid and the stack hold object references in the sketch. The model names cells by grid position, which is the same because cells are never copied and `grid[p]` is the only cell at position p.

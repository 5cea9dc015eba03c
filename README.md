# find-path: a verified model of the greedy route finder

The repository's `findPath` works on a rectangular grid of characters. `'S'` marks the start, `'X'` the target and `'#'` a wall. It runs in three phases:

1. It scans the grid row by row. A later marker overwrites an earlier one.
2. If either marker is missing, it returns an error string.
3. Otherwise it walks greedily from the start. At each cell it tries the four neighbours in the order up, down, left, right. It keeps the open, in-bounds neighbour with the strictly smallest Manhattan distance to the target, so earlier directions win ties. It appends `u`, `d`, `l` or `r` and moves there. It repeats until it stands on the target.

The model has four modules:

- `MazeGrid` (`maze.dfy`): the grid type, the rectangular shape the maze relies on, and the `Maze` class. Its fields are set once by the constructor.
- `PathFinder` (`pathfinder.dfy`): the specification functions and the finder itself. The functions are `Step` (one greedy step), `Encode` (the letter for a move), `Walk` (the stepping loop with a fuel bound), `Marker` (the marker scan) and `Route` (the whole query). The finder is a set of imperative methods with the loops of the original: `FindMarkers`, `ChooseNext`, `WalkFrom` and `FindPath`. Each method is proved equal to the corresponding specification function.
- `PathProperties` (`properties.dfy`): what the outcomes mean. These lemmas are proved about the specification functions. They cover where a step goes, how ties break, and that a path only walks through open cells and replays to where the walk ended. They also cover start ≠ target, when the missing-marker error happens, that more fuel changes nothing once the walk has ended, and that two cells stepping to each other trap the walk.
- `Scenarios` (`scenarios.dfy`) and `Findings` (`findings.dfy`):
  - Scenarios are concrete grids with their proved answers.
  - Findings is the stepping loop as written, without the check for a cell with no open neighbour, and shows where that goes wrong. Like the rest of the model, it assumes a grid whose rows plus columns fit in a Java `int`.

The original loop has no bound. The model takes a `fuel` parameter, which is the number of steps allowed. A walk that does not reach the target within that many steps, for example one swinging between two cells, ends in `OutOfFuel`. A walk that reaches a cell with no open neighbour ends in `Stuck`; the original loop instead leaves for (-1, -1) and stays there forever. This is a fix for the missing stuck check; see Findings.

## Model

| member | source | states |
|---|---|---|
| MazeGrid.Maze.constructor | src/main/java/org/example/Main.java:14-18 | a maze built from a non-empty rectangular grid stores that grid, rows = number of rows and cols = length of row 0 |
| MazeGrid.Maze.GetGrid | src/main/java/org/example/Main.java:20-22 | returns the stored grid, whose row count is rows and each of whose rows has cols cells |
| MazeGrid.Maze.GetRows | src/main/java/org/example/Main.java:24-26 | the number of rows, at least one |
| MazeGrid.Maze.GetCols | src/main/java/org/example/Main.java:28-30 | the common length of every row |
| PathFinder.IsValid | src/main/java/org/example/Main.java:189-191 | true exactly when (row, col) is a cell of the grid |
| PathFinder.BestAmong | src/main/java/org/example/Main.java:166-177 | the direction kept after the first n directions is one of those n |
| PathFinder.BestAmongSpec | src/main/java/org/example/Main.java:166-177 | after trying n directions the kept one is open, no farther than any open one tried, and strictly nearer than every open one tried before it; nothing is kept exactly when none is open |
| PathFinder.Step | src/main/java/org/example/Main.java:164-177 | the cell the neighbour loop keeps, or none when no neighbour is open; its meaning is proved in StepSpec and StepMoves: the first nearest open neighbour, taken exactly when some neighbour is open |
| PathFinder.StepMoves | src/main/java/org/example/Main.java:165-177 | a step exists exactly when some neighbour is open, and it leads to an open cell one move away |
| PathFinder.StepSpec | src/main/java/org/example/Main.java:166-177 | with the directions in the order of the delta tables (up, down, left, right, Main.java:134-135), the step goes to the neighbour in direction k exactly when k is the greedy choice: open, nearest, and strictly nearer than every earlier open direction |
| PathFinder.Encode | src/main/java/org/example/Main.java:178-181 | for a move to an adjacent cell the letter is in "udlr" and replays to that cell; the neighbour in direction k gets letter k of "udlr" |
| PathFinder.Walk | src/main/java/org/example/Main.java:162-184 | the stepping loop with a step budget; never the missing-marker outcome; WalkSound proves every outcome a sound walk from the start, and MoreFuel that a larger budget changes no finished walk |
| PathFinder.WalkStuck | src/main/java/org/example/Main.java:165 | when no neighbour is kept, that is (-1, -1), the loop ends in Stuck where it stands |
| PathFinder.WalkAdvance | src/main/java/org/example/Main.java:178-183 | a step appends a letter and the walk continues from the next cell with one unit of fuel less |
| PathFinder.LastScanned | src/main/java/org/example/Main.java:142-152 | the cell the scan has recorded for a marker on reaching (i, j), which holds that marker; LastScannedSpec proves it the last such cell before (i, j) |
| PathFinder.Marker | src/main/java/org/example/Main.java:142-152 | the cell the whole scan records for a marker, which holds that marker; MarkerSpec proves it the last one in row-major order, and absent exactly when no cell holds it |
| PathFinder.LastScannedSpec | src/main/java/org/example/Main.java:142-152 | the scan up to (i, j) records the last cell before (i, j) holding the marker, or nothing when no such cell exists |
| PathFinder.MarkerSpec | src/main/java/org/example/Main.java:142-152 | the recorded marker is exactly the last cell holding it in row-major order, and nothing is recorded exactly when no cell holds it |
| PathFinder.FindMarkers | src/main/java/org/example/Main.java:138-152 | the nested scan leaves each marker's coordinates at its last occurrence, or at (-1, -1) when it is absent |
| PathFinder.DistanceBelowMax | src/main/java/org/example/Main.java:164 | in a maze whose rows plus columns fit in an int, every cell's distance to the target stays below Integer.MAX_VALUE |
| PathFinder.KeptAfter | src/main/java/org/example/Main.java:169-175 | trying direction i replaces the kept neighbour exactly when that neighbour is open and strictly nearer |
| PathFinder.ChooseTurn | src/main/java/org/example/Main.java:167-175 | one turn of the neighbour loop, with its bounds-and-wall test and its distance, updates the kept (nextRow, nextCol, minDist) exactly as the greedy choice over one more direction |
| PathFinder.ChooseNext | src/main/java/org/example/Main.java:164-177 | the neighbour loop ends with the coordinates of the greedy step, or (-1, -1) when no neighbour is open |
| PathFinder.WalkFrom | src/main/java/org/example/Main.java:159-186 | the stepping loop returns the outcome of Walk from the start |
| PathFinder.Route | src/main/java/org/example/Main.java:137-187 | the whole query: the missing-marker outcome exactly when the scan records no 'S' or no 'X', otherwise the walk between them; RouteMissingMarker and RouteSound state what that means |
| PathFinder.FindPath | src/main/java/org/example/Main.java:137-187 | findPath returns the outcome of Route: the missing-marker error, or the walk between the last 'S' and the last 'X' |
| PathProperties.TieGoesToEarlier | src/main/java/org/example/Main.java:171 | of two equally near open neighbours the later direction is never taken |
| PathProperties.StepIsClosest | src/main/java/org/example/Main.java:166-177 | a step goes to an open neighbour that no open neighbour beats on distance to the target |
| PathProperties.ReplayAppend | src/main/java/org/example/Main.java:178-183 | replaying a path with one more letter moves one more cell in that letter's direction |
| PathProperties.WalksAppend | src/main/java/org/example/Main.java:178-183 | appending the letter of a move into an open cell keeps the path a walk through open cells |
| PathProperties.WalksTokens | src/main/java/org/example/Main.java:178-181 | a walk consists of the letters u, d, l and r only |
| PathProperties.SoundAfterStep | src/main/java/org/example/Main.java:163-184 | one turn of the loop preserves the soundness of the final outcome |
| PathProperties.WalkSoundHalt | src/main/java/org/example/Main.java:163 | a walk that starts on the target or without fuel ends soundly where it stands |
| PathProperties.WalkSoundStuck | src/main/java/org/example/Main.java:165 | a walk from a cell with no open neighbour ends soundly as Stuck there |
| PathProperties.WalkSoundStep | src/main/java/org/example/Main.java:178-183 | a sound outcome of the walk from the next cell is a sound outcome of the walk from the current one |
| PathProperties.WalkSound | src/main/java/org/example/Main.java:163-186 | every outcome extends the emitted path by at most the fuel and walks through open cells; Found replays to the target and, when the walk started off the target, is longer than the path it started with; Stuck replays to a cell other than the target with no open neighbour; OutOfFuel replays to where the fuel ran out |
| PathProperties.WalkBack | src/main/java/org/example/Main.java:178-183 | the walk from a cell ends as the walk from its step's cell with that step's letter appended |
| PathProperties.MoreFuel | src/main/java/org/example/Main.java:163 | a walk that ended without running out of fuel ends identically under any larger budget |
| PathProperties.Oscillates | src/main/java/org/example/Main.java:163-184 | two cells other than the target whose steps lead to each other make the walk run out of fuel under every budget |
| PathProperties.RouteMissingMarker | src/main/java/org/example/Main.java:155-157 | the query reports the missing-marker error exactly when the grid has no 'S' or no 'X' |
| PathProperties.RouteSound | src/main/java/org/example/Main.java:142-186 | with start the last 'S' and target the last 'X', the two differ; every outcome walks from the start through open cells within the fuel; a found path is non-empty and leads to the target; a stuck walk ends on a cell with no open neighbour |
| Scenarios.DiagonalTie | src/main/java/org/example/Main.java:166-177 | on ["S.#", "..#", "#.X"] down and right are equally near the target and the first step goes down |
| Scenarios.StackedStep | src/main/java/org/example/Main.java:166-177 | on ["S", "X"] the step from the start goes to the target below |
| Scenarios.StackedRoute | src/main/java/org/example/Main.java:137-187 | on ["S", "X"] the answer is "d" |
| Scenarios.WalledRoute | src/main/java/org/example/Main.java:163-184 | on ["S#X"] the walk is stuck at the start with an empty path |
| Scenarios.NoTargetRoute | src/main/java/org/example/Main.java:155-157 | on ["S.."] the query reports the missing marker |
| Scenarios.TwoStartsMarker | src/main/java/org/example/Main.java:142-152 | on ["S.S.X"] the second 'S' is the start |
| Scenarios.PendulumLeft | src/main/java/org/example/Main.java:166-177 | on ["X#.S"] the step from the start goes left |
| Scenarios.PendulumRight | src/main/java/org/example/Main.java:166-177 | on ["X#.S"] the step from the cell left of the start goes back right |
| Scenarios.PendulumRoute | src/main/java/org/example/Main.java:163-184 | on ["X#.S"] the walk never reaches the target, whatever the budget |
| Findings.WrittenNext | src/main/java/org/example/Main.java:164-177 | the unguarded loop's next cell is (-1, -1) exactly when no neighbour is open |
| Findings.WrittenLoop | src/main/java/org/example/Main.java:163-184 | the loop without the stuck check, for a bounded number of turns; WrittenLoopAgrees proves it equal to Walk wherever Walk finds the target or runs out of fuel, and WrittenLoopStrands proves it parks at (-1, -1) wherever Walk is stuck |
| Findings.WrittenLoopParked | src/main/java/org/example/Main.java:178-183 | once at (-1, -1) the unguarded loop stays there and appends nothing |
| Findings.WrittenLoopSpins | src/main/java/org/example/Main.java:163-184 | on ["S#X"] every number of turns of the unguarded loop leaves it at (-1, -1) with path "u", which is not a walk through open cells |
| Findings.WrittenLoopStep | src/main/java/org/example/Main.java:178-183 | where a neighbour is open, one turn of the unguarded loop appends that move's letter and continues from that neighbour |
| Findings.WrittenLoopAgrees | src/main/java/org/example/Main.java:163-184 | wherever the guarded walk finds the target or runs out of fuel, the unguarded loop ends at the same cell with the same path |
| Findings.WrittenLoopLeaves | src/main/java/org/example/Main.java:165-183 | from a cell off the target with no open neighbour, the unguarded loop moves to (-1, -1) and stays there |
| Findings.ParksBack | src/main/java/org/example/Main.java:178-183 | parking at (-1, -1) after one turn of the unguarded loop is parking before it |
| Findings.StrandsFrom | src/main/java/org/example/Main.java:163-184 | when the guarded walk from a cell is stuck, the unguarded loop from that cell parks at (-1, -1) given any further turn |
| Findings.WrittenLoopStrands | src/main/java/org/example/Main.java:163-184 | wherever the guarded walk gets stuck, the unguarded loop given one more turn or more ends at (-1, -1) and never reaches the target |

## Left out

- The input readers `FindPathInputReaderStdIn` and `FindPathInputReaderFile` (Main.java:39-128) do console and file I/O. Their row-length and positive-size checks appear only as the `Rectangular` precondition of the `Maze` constructor.
- `AbstractFindPathInputReader` (Main.java:34-36) is an interface for the readers only.
- `Main.main` (Main.java:193-201) is command-line wiring and printing.
- The unbounded stepping loop is modelled with fuel. A walk that never reaches the target and never meets a cell without open neighbours, such as one swinging between two cells, ends in `OutOfFuel` after `fuel` steps instead of running forever.
- A walk that reaches a cell with no open neighbour ends in `Stuck` at that cell. The original instead moves to (-1, -1), possibly appending one letter, and loops there forever. `Stuck` is the corrected behaviour; the original's is modelled by `Findings.WrittenLoop`, as listed under Findings.
- The error string of Main.java:156 is the `MarkerNotFound` outcome. The text itself is not modelled.
- PathFinder.FindPath: requires rows + columns to fit in a Java int. Under that bound no Manhattan distance reaches the `Integer.MAX_VALUE` sentinel of Main.java:164, and the `int` arithmetic of Main.java:167-170 does not wrap.
- PathFinder.WalkFrom: requires the same size bound, for the same reason.
- PathFinder.ChooseNext: requires the same size bound, for the same reason.
- Findings.WrittenLoop: steps with the same greedy choice as `Step`, over unbounded integers without the `Integer.MAX_VALUE` sentinel or `int` wrap-around. It matches the original loop only on grids within the same size bound.
- A full multi-step route on a larger concrete grid (for example the four steps "drdr" on ["S.#", "..#", "#.X"]) is not proved. The model states only the tie-break of its first step, in `Scenarios.DiagonalTie`. The general walk properties cover the rest.
- The model does not capture that the grid is a shared `char[][]` that callers could mutate. The grid is an immutable value here, which is how the finder treats it.

## Findings

| source | as written | input that shows it | evidently intended | confidence | as-written member | corrected member |
|---|---|---|---|---|---|---|
| src/main/java/org/example/Main.java:163-184 | with no open neighbour the next cell stays (-1, -1); from row 0 that appends "u", then the loop stays at (-1, -1) forever | ["S#X"] | stop and report that no path exists | not executed | Findings.WrittenLoopSpins | Scenarios.WalledRoute |

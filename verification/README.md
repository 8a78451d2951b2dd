# Maze engine of Ellers-Maze-Test, modelled in Dafny

This project models the maze-generation core of the Unity project *Ellers-Maze-Test*. It covers:

- the wall grid `CustomGrid`, with its two wall arrays, cell numbering, neighbour queries and the corridor graph (`GetNeighbors`, `GetAllVertices`);
- the stack-based carve generator `DfsMazeGenerator`;
- the queue-based `PrimMazeGenerator`, with its fallback restarts and its corner-preserving wall pruner;
- the older stand-alone `PrimMazeGenerator` under `Assets/Maze`;
- the row-by-row `EllersMazeGenerator`.

The model is pure. A grid is an immutable value. Every write produces a new grid.

Randomness is a parameter. Every draw of `System.Random` or `UnityEngine.Random`, including the draws behind the `OrderBy(rng.Next())` shuffle, is read from an oracle `rng: nat -> nat` at a draw counter `k`. The result is then reduced to the requested range, so a proof about all oracles covers every possible run.

Modules, one per file:

| module | file | what it holds |
|---|---|---|
| `Wrappers` | wrappers.dfy | `Option`, for the steps that can fail |
| `Randomness` | randomness.dfy | draws in a range; the Fisher–Yates swap loop and a draw-driven selection shuffle standing in for `OrderBy(rng.Next())`, both as permutations |
| `Directions` | directions.dfy | `NORTH, EAST, SOUTH, WEST` and the offset tables `DELTA_X`, `DELTA_Y` (north is z - 1); rotations; `GetShuffledDirections` |
| `CustomGrid` | grid.dfy | `northWalls[W, H+1]` and `westWalls[W+1, H]` as one `Grid` value; `GetWall`, `SetWall`, `SetWalls`, `GetNumWalls`, `CellNumber`, `posX`, `posY`, `GetDirectNeighbor`, `GetAdjacentCells` |
| `GridPaths` | paths.dfy | paths through open walls, and reachability |
| `CorridorGraph` | corridor.dfy | `GetNeighbors`, which follows corridors to the next junction, and `GetAllVertices` |
| `MazeCommon` | maze_common.dfy | the steps the two Scripts generators share: `InitializeWalls`, `RemoveWall`, `ConfigureEntryAndExit`, the random start, and the carve invariant |
| `DfsMazeGenerator` | dfs.dfy | the stack carve, which yields a spanning tree |
| `PrimMazeGenerator` | prim.dfy | the queue carve with restarts, which yields a spanning forest; `GetNumCornerWalls`, `TryOpenWallWithoutCreatingEmptyCorner`, `TryToOpenNorthOrWestWallOf`, `RemoveRandomWalls` |
| `LegacyPrimMazeGenerator` | legacy.dfy | the `Assets/Maze` generator with its guarded `SetWalls` and its fixed entry and exit |
| `EllersMazeGenerator` | ellers.dfy | rows of `(x, z, set)` cells; joining, bottom walls, relabelling, start and end points; the walls it places are emitted as `WallRecord`s |

The model follows what the code does, including where that differs from what its names and comments suggest:

- The Scripts `PrimMazeGenerator` yields a spanning forest, not a spanning tree. Each fallback restart starts a new tree, so the number of carved walls is W*H - 1 - restarts.
- `GetNeighbors` checks an out-of-grid step against a stale variable in its turn phase. It can therefore index outside the wall arrays when a boundary wall is open. The model returns `None` there, and proves that this cannot happen while the boundary is closed.
- Eller's `BottomWalls` places its walls inside the per-set loop. Walls of earlier sets are therefore placed again for every later set. The model keeps the emitted list as written and proves it covers the same walls as one pass.

## Model

| member | source | states |
|---|---|---|
| Randomness.Next | Assets/Scripts/Maze/DfsMazeGenerator.cs:156 | `randomizer.Next(n)` lies in [0, n) for every oracle draw |
| Randomness.Range | Assets/Scripts/Maze/DfsMazeGenerator.cs:76-77 | `Next(lo, hi)` lies in [lo, hi) |
| Randomness.RangeCoversAll | Assets/Scripts/Maze/DfsMazeGenerator.cs:76-77 | every value of [lo, hi) is produced by some draw, so no start cell is excluded |
| Randomness.Swap | Assets/Scripts/Maze/DfsMazeGenerator.cs:157-159 | exchanging two list entries leaves the others alone and keeps the multiset |
| Randomness.FisherYates | Assets/Scripts/Maze/DfsMazeGenerator.cs:154-160 | the descending swap loop returns a permutation of its input |
| Randomness.Shuffle | Assets/Maze/EllersMazeGenerator.cs:210 | the reordering of a set returns a permutation of the set |
| Randomness.ShuffleCoversAll | Assets/Maze/EllersMazeGenerator.cs:210 | every ordering of the set is the result for some draws, so the stand-in excludes no order that sorting by random keys can give |
| Directions.Ordinal | Assets/Scripts/GridSystem/CustomGrid.cs:25-28 | every direction's `(int)` cast indexes the four-entry tables |
| Directions.FromOrdinal | Assets/Scripts/GridSystem/CustomGrid.cs:25-28 | casting an index in 0..3 back to a direction inverts `Ordinal` |
| Directions.GetShuffledDirections | Assets/Scripts/Maze/DfsMazeGenerator.cs:151-162 | the shuffled list holds each of the four directions exactly once |
| CustomGrid.NewGrid | Assets/Scripts/GridSystem/CustomGrid.cs:56-57 | fresh arrays have shape W x (H+1) and (W+1) x H with every entry open |
| CustomGrid.CellNumber | Assets/Scripts/GridSystem/CustomGrid.cs:74-77 | a cell inside the grid gets a number in [0, W*H) |
| CustomGrid.GetNumberOfCells | Assets/Scripts/GridSystem/CustomGrid.cs:79-90 | W*H, which is the number of distinct cells `ForAllCells` visits |
| CustomGrid.GetWall | Assets/Scripts/GridSystem/CustomGrid.cs:119-133 | reading a side inside the grid gives the same entry, and the same value, as reading the neighbour's opposite side |
| CustomGrid.Write | Assets/Scripts/GridSystem/CustomGrid.cs:140 | one array store changes exactly one wall entry |
| CustomGrid.SetWall | Assets/Scripts/GridSystem/CustomGrid.cs:135-152 | afterwards `GetWall` on the same side reads the value, and every other entry is unchanged |
| CustomGrid.SetWalls | Assets/Scripts/GridSystem/CustomGrid.cs:154-160 | all four sides of the cell read the value, the count is 4 or 0, and walls of other cells are unchanged |
| CustomGrid.GetNumWalls | Assets/Scripts/GridSystem/CustomGrid.cs:167-177 | the count is in 0..4; it is 4 iff every side is walled and 0 iff none is |
| CustomGrid.CellIndexRoundTrip | Assets/Scripts/GridSystem/CustomGrid.cs:358-366 | `posX` and `posY` recover x and z from `CellNumber(x, z)` |
| CustomGrid.PosRoundTrip | Assets/Scripts/GridSystem/CustomGrid.cs:358-366 | `CellNumber(posX(c), posY(c)) == c` for every non-negative cell, with posX in [0, W) |
| CustomGrid.PosX | Assets/Scripts/GridSystem/CustomGrid.cs:358-361 | C#'s `%` keeps the dividend's sign: a negative index gives a column in (-W, 0] |
| CustomGrid.PosY | Assets/Scripts/GridSystem/CustomGrid.cs:363-366 | C#'s `/` truncates toward zero: a negative index gives a row <= 0 and leaves a remainder in (-W, 0] |
| CustomGrid.ValidCellCoords | Assets/Scripts/GridSystem/CustomGrid.cs:87-90 | a number is below `GetNumberOfCells` iff its coordinates lie inside the grid |
| CustomGrid.RowMajorBound | Assets/Scripts/GridSystem/CustomGrid.cs:74-77 | the row-major number stays below W*H iff the row is below H |
| CustomGrid.GetDirectNeighbor | Assets/Scripts/GridSystem/CustomGrid.cs:179-189 | -1 exactly when the step leaves the grid; otherwise the number of the stepped-to cell, a valid cell |
| CustomGrid.AdjacentIn | Assets/Scripts/GridSystem/CustomGrid.cs:305-311 | one direction contributes its neighbour iff that neighbour is inside the grid |
| CustomGrid.ManhattanOne | Assets/Scripts/GridSystem/CustomGrid.cs:300-314 | the four per-direction contributions are exactly the in-grid cells at Manhattan distance 1 |
| CustomGrid.GetAdjacentCells | Assets/Scripts/GridSystem/CustomGrid.cs:300-314 | the result is exactly the in-grid cells at Manhattan distance 1, at most four |
| CustomGrid.SharedEdgeSymmetry | Assets/Scripts/GridSystem/CustomGrid.cs:119-133 | a wall and the neighbour's opposite wall are the same array entry and read the same |
| CustomGrid.EdgeOfSharedOnlyByNeighbours | Assets/Scripts/GridSystem/CustomGrid.cs:119-133 | two (cell, side) pairs name the same entry only if they are equal or neighbours facing each other |
| CustomGrid.SetWallSeenByNeighbour | Assets/Scripts/GridSystem/CustomGrid.cs:135-152 | setting a side is visible from the neighbour's opposite side |
| CustomGrid.StepCoords | Assets/Scripts/GridSystem/CustomGrid.cs:179-189 | an in-grid step moves the coordinates by exactly the direction's offset |
| CustomGrid.StepBack | Assets/Scripts/GridSystem/CustomGrid.cs:179-189 | stepping back in the opposite direction returns to the cell, through the same wall |
| CustomGrid.OpenWallStaysInGrid | Assets/Scripts/GridSystem/CustomGrid.cs:179-189 | with a closed boundary, every open side leads to a cell of the grid |
| GridPaths.OpenStepSymmetric | Assets/Scripts/GridSystem/CustomGrid.cs:119-133 | a passage through an open wall can be walked both ways |
| CorridorGraph.StraightRun | Assets/Scripts/GridSystem/CustomGrid.cs:201-212 | the straight phase stops on a grid cell, never moves backwards, and keeps its sideways position |
| CorridorGraph.Run | Assets/Scripts/GridSystem/CustomGrid.cs:233-258 | a turn leg that stays on the grid stops at a cell where the corridor does not continue, after strictly advancing if it could pass |
| CorridorGraph.TurnPhase | Assets/Scripts/GridSystem/CustomGrid.cs:214-262 | the zig-zag phase ends on a grid cell and never moves back along the heading |
| CorridorGraph.GetNeighbors | Assets/Scripts/GridSystem/CustomGrid.cs:191-267 | a successful result has at most four members; which cells they are is stated by `GetNeighborsMembers` |
| CorridorGraph.RunStaysOnGrid | Assets/Scripts/GridSystem/CustomGrid.cs:233-258 | with a closed boundary, a turn leg never steps off the grid |
| CorridorGraph.TurnRoundStaysOnGrid | Assets/Scripts/GridSystem/CustomGrid.cs:231-262 | one round of the zig-zag, under a closed boundary, lands on a cell and makes progress in the heading plus the turn |
| CorridorGraph.TurnPhaseStaysOnGrid | Assets/Scripts/GridSystem/CustomGrid.cs:214-262 | with a closed boundary, the zig-zag phase never steps off the grid |
| CorridorGraph.GetNeighborsDefined | Assets/Scripts/GridSystem/CustomGrid.cs:191-267 | with a closed boundary, `GetNeighbors` never indexes outside the arrays |
| CorridorGraph.FailureNeedsOpenBoundary | Assets/Scripts/GridSystem/CustomGrid.cs:228-262 | `GetNeighbors` can fail only when some boundary wall is open |
| CorridorGraph.StraightRunReachable | Assets/Scripts/GridSystem/CustomGrid.cs:201-212 | the straight phase only walks through open walls |
| CorridorGraph.RunReachable | Assets/Scripts/GridSystem/CustomGrid.cs:233-258 | a turn leg only walks through open walls |
| CorridorGraph.TurnPhaseReachable | Assets/Scripts/GridSystem/CustomGrid.cs:214-262 | the zig-zag phase only walks through open walls |
| CorridorGraph.FirstLegSound | Assets/Scripts/GridSystem/CustomGrid.cs:196-212 | leaving through an open in-grid side advances in that direction and reaches the stop cell through open walls |
| CorridorGraph.WalkFrom | Assets/Scripts/GridSystem/CustomGrid.cs:194-264 | a direction is skipped iff it is walled or leaves the grid; a found neighbour lies strictly ahead and is reachable through open walls |
| CorridorGraph.CollectMembers | Assets/Scripts/GridSystem/CustomGrid.cs:193-266 | the result set holds exactly the cells the four walks found |
| CorridorGraph.GetNeighborsMembers | Assets/Scripts/GridSystem/CustomGrid.cs:191-267 | the result holds every direction's found cell and nothing else |
| CorridorGraph.GetNeighborsSound | Assets/Scripts/GridSystem/CustomGrid.cs:191-267 | every open in-grid side yields a neighbour; every neighbour differs from the start, is on the grid and is reachable through open walls |
| CorridorGraph.ChainOpen | Assets/Scripts/GridSystem/CustomGrid.cs:279-298 | a chain of `GetNeighbors` hops is a path through open walls |
| CorridorGraph.CorridorReachableIsReachable | Assets/Scripts/GridSystem/CustomGrid.cs:279-298 | every vertex the traversal can find is a grid cell reachable through open walls |
| CorridorGraph.SuccessorsInGrid | Assets/Scripts/GridSystem/CustomGrid.cs:191-267 | neighbours of grid cells are grid cells, so the traversal is bounded |
| CorridorGraph.Closure | Assets/Scripts/GridSystem/CustomGrid.cs:279-298 | the worklist traversal returns exactly the vertices following from the start, closed under the relation, or fails only at a reachable failing vertex |
| CorridorGraph.GetAllVertices | Assets/Scripts/GridSystem/CustomGrid.cs:270-298 | the start plus exactly the vertices reachable by repeated `GetNeighbors`, all reachable through open walls and closed under `GetNeighbors`; it fails iff some reached vertex fails. The program calls it after `ConfigureEntryAndExit` has opened a boundary wall, so the closed-boundary case (no failure) does not apply there; on that call, `FailureNeedsOpenBoundary` ties any failure to an open boundary wall |
| MazeCommon.Owner | Assets/Scripts/Maze/PrimMazeGenerator.cs:208-233 | every wall entry is a side of some in-grid cell |
| MazeCommon.SetCellWalls | Assets/Scripts/Maze/PrimMazeGenerator.cs:618-621 | all four sides of the numbered cell take the value, and walls of other cells are unchanged |
| MazeCommon.InitializeWalls | Assets/Scripts/Maze/PrimMazeGenerator.cs:208-233 | afterwards every wall entry of the grid is closed |
| MazeCommon.OwnedWallsClosed | Assets/Scripts/Maze/PrimMazeGenerator.cs:210-213 | after `ForAllCells` reaches a cell, every wall owned by an earlier cell is closed |
| MazeCommon.ClosingKeepsAllWalls | Assets/Scripts/Maze/PrimMazeGenerator.cs:215-232 | the border loops keep a fully closed grid closed |
| MazeCommon.AllWallsClosed | Assets/Scripts/Maze/PrimMazeGenerator.cs:208-233 | a fully closed grid has a closed boundary and four walls around every cell |
| MazeCommon.RemoveWall | Assets/Scripts/Maze/PrimMazeGenerator.cs:667-684 | opens exactly the named side of the cell |
| MazeCommon.RemoveWallOpensBothSides | Assets/Scripts/Maze/PrimMazeGenerator.cs:667-684 | the neighbour sees the opening from its opposite side, and no wall is closed |
| MazeCommon.ChooseExit | Assets/Scripts/Maze/DfsMazeGenerator.cs:113-116 | the exit is a north side of row 0 or a west side of column 0, always on the boundary |
| MazeCommon.OpenStartAndExit | Assets/Scripts/Maze/DfsMazeGenerator.cs:110-118 | the start cell is opened on all sides and the exit side is opened; nothing else changes |
| MazeCommon.ExitKeepsStartOpen | Assets/Scripts/Maze/DfsMazeGenerator.cs:111-118 | opening the exit leaves the start cell fully open |
| MazeCommon.ConfigureEntryAndExit | Assets/Scripts/Maze/DfsMazeGenerator.cs:108-120 | `startNode` is the cell (2W/3, 2H/3) with no walls; `endNode` is the exit cell, whose exit side is open on the boundary; no other entry changes |
| MazeCommon.ConfigureOnlyOpens | Assets/Scripts/Maze/DfsMazeGenerator.cs:108-120 | configuring the entry and exit never closes a wall |
| MazeCommon.StartOnBoundary | Assets/Scripts/Maze/DfsMazeGenerator.cs:110 | the start cell touches the boundary iff W <= 3 or H <= 3 |
| MazeCommon.SmallGridStartSide | Assets/Scripts/Maze/DfsMazeGenerator.cs:110 | on a narrow grid the start cell's east side (or, on a short grid, its south side) is a boundary wall |
| MazeCommon.StartEdgesInterior | Assets/Scripts/Maze/DfsMazeGenerator.cs:110 | on a grid of at least 4 x 4 no side of the start cell is on the boundary |
| MazeCommon.BigGridOpensOnlyExit | Assets/Scripts/Maze/DfsMazeGenerator.cs:108-120 | on a closed grid of at least 4 x 4 the only boundary opening is the exit |
| MazeCommon.SmallGridOpensStart | Assets/Scripts/Maze/DfsMazeGenerator.cs:110-111 | on a smaller grid, opening the start cell also opens a boundary wall other than the exit |
| MazeCommon.ExitIsTheOnlyOpening | Assets/Scripts/Maze/DfsMazeGenerator.cs:108-120 | for a closed grid, the exit is the only boundary opening iff W >= 4 and H >= 4 |
| MazeCommon.RandomStart | Assets/Scripts/Maze/DfsMazeGenerator.cs:76-79 | the random start is a valid cell |
| MazeCommon.EveryCellCanStart | Assets/Scripts/Maze/DfsMazeGenerator.cs:76-79 | every cell of the grid is a possible start |
| MazeCommon.EdgeOfEnds | Assets/Scripts/Maze/DfsMazeGenerator.cs:94-99 | a wall between two in-grid cells is interior and separates exactly those two cells |
| MazeCommon.StepAt | Assets/Scripts/Maze/DfsMazeGenerator.cs:91-96 | the bounds test and `nx + ny * width` agree with the in-grid step from the cell |
| MazeCommon.CarvingStarts | Assets/Scripts/Maze/DfsMazeGenerator.cs:79-80 | the start alone is a carve with no opened walls, rooted at itself |
| MazeCommon.CarveStep | Assets/Scripts/Maze/DfsMazeGenerator.cs:97-101 | carving into an unvisited neighbour opens one new interior wall and keeps carved = visited - 1 - restarts |
| MazeCommon.RootedStep | Assets/Scripts/Maze/DfsMazeGenerator.cs:97-101 | the carved-into neighbour is reachable from the same roots |
| MazeCommon.RootedAfterCarve | Assets/Scripts/Maze/DfsMazeGenerator.cs:97-101 | a cell entered through an open wall from a rooted cell is rooted, in any grid with fewer walls |
| MazeCommon.RestartStep | Assets/Scripts/Maze/PrimMazeGenerator.cs:279-287 | a restart adds one visited cell and no carved wall |
| MazeCommon.RootedRestart | Assets/Scripts/Maze/PrimMazeGenerator.cs:279-287 | a restarted cell becomes a new root |
| MazeCommon.ExpandedAlongStep | Assets/Scripts/Maze/DfsMazeGenerator.cs:89-104 | each iteration of the direction loop leaves that direction's in-grid neighbour visited |
| MazeCommon.ExpandedAlongAll | Assets/Scripts/Maze/DfsMazeGenerator.cs:89-104 | after the loop over all four directions every in-grid neighbour is visited |
| MazeCommon.CarveNeighbor | Assets/Scripts/Maze/DfsMazeGenerator.cs:94-101 | carving keeps both the carve invariant and rootedness |
| MazeCommon.TryCarve | Assets/Scripts/Maze/DfsMazeGenerator.cs:91-103 | one direction: out of grid or visited leaves everything unchanged; otherwise exactly that wall opens and the neighbour becomes visited |
| MazeCommon.ClosedUnderStepsIsAll | Assets/Scripts/Maze/DfsMazeGenerator.cs:82-105 | a non-empty set closed under in-grid steps is the whole grid |
| MazeCommon.AllExpandedIsAll | Assets/Scripts/Maze/DfsMazeGenerator.cs:82-105 | when every visited cell has all neighbours visited, every cell is visited |
| DfsMazeGenerator.VisitNeighbors | Assets/Scripts/Maze/DfsMazeGenerator.cs:88-104 | the popped cell ends with every in-grid neighbour visited; exactly the pushed cells are newly visited |
| DfsMazeGenerator.FrontierAfterVisit | Assets/Scripts/Maze/DfsMazeGenerator.cs:82-104 | after pop and push, every visited cell is on the stack or fully expanded; pushes strictly shrink the unvisited set |
| DfsMazeGenerator.SpanningCarve | Assets/Scripts/Maze/DfsMazeGenerator.cs:82-105 | with an empty stack every cell is reachable from the start and exactly W*H - 1 interior walls are open |
| DfsMazeGenerator.GenerateRandomizedPrim | Assets/Scripts/Maze/DfsMazeGenerator.cs:72-106 | a spanning tree: every cell is reachable from the random start, and the opened walls are exactly W*H - 1 interior walls |
| PrimMazeGenerator.UnvisitedBelow | Assets/Scripts/Maze/PrimMazeGenerator.cs:293-302 | the list holds exactly the unvisited cells below `totalCells`, in increasing order |
| PrimMazeGenerator.PickedCell | Assets/Scripts/Maze/PrimMazeGenerator.cs:305-308 | a picked cell is unvisited and below `totalCells` |
| PrimMazeGenerator.FindRandomUnvisitedCell | Assets/Scripts/Maze/PrimMazeGenerator.cs:291-316 | returns the coordinates of the picked unvisited cell, or (0, 0) when there is none |
| PrimMazeGenerator.SomeCellUnvisited | Assets/Scripts/Maze/PrimMazeGenerator.cs:296-305 | one unvisited cell below the bound makes the list non-empty |
| PrimMazeGenerator.EveryUnvisitedCellCanBePicked | Assets/Scripts/Maze/PrimMazeGenerator.cs:305-312 | every unvisited cell is picked by some draw |
| PrimMazeGenerator.CarveFirstUnvisited | Assets/Scripts/Maze/PrimMazeGenerator.cs:259-276 | the loop stops at the first direction with an unvisited in-grid neighbour and carves only there; with none, the cell is fully expanded and nothing changes |
| PrimMazeGenerator.Restart | Assets/Scripts/Maze/PrimMazeGenerator.cs:279-287 | a restart keeps the carve invariant with one more root |
| PrimMazeGenerator.RestartGrowth | Assets/Scripts/Maze/PrimMazeGenerator.cs:279-287 | the fallback adds an unvisited cell as a new root |
| PrimMazeGenerator.ForestCarve | Assets/Scripts/Maze/PrimMazeGenerator.cs:249-288 | once every cell is visited, every cell is reachable from a root, and W*H - 1 - restarts walls are open |
| PrimMazeGenerator.PrimStep | Assets/Scripts/Maze/PrimMazeGenerator.cs:251-287 | one pass of the loop keeps the carve invariant and either visits a cell or shortens the queue |
| PrimMazeGenerator.MaybeRestart | Assets/Scripts/Maze/PrimMazeGenerator.cs:279-287 | the fallback fires iff the queue is empty, this pass carved nothing and cells are left; it then visits, enqueues and roots one unvisited cell with one draw, and otherwise changes nothing |
| PrimMazeGenerator.GenerateRandomizedPrim | Assets/Scripts/Maze/PrimMazeGenerator.cs:235-289 | a spanning forest: every cell is reachable from one of restarts + 1 roots, with W*H - 1 - restarts interior walls opened |
| PrimMazeGenerator.GetNumCornerWalls | Assets/Scripts/Maze/PrimMazeGenerator.cs:703-727 | a lattice corner has between 0 and 4 walls |
| PrimMazeGenerator.CornerCountTerms | Assets/Scripts/Maze/PrimMazeGenerator.cs:703-727 | the eight-branch count equals the four closed in-array entries meeting at the corner |
| PrimMazeGenerator.CornerWallsCount | Assets/Scripts/Maze/PrimMazeGenerator.cs:703-727 | the count equals the number of closed wall entries that end at the corner |
| PrimMazeGenerator.CornerEdgesAreEndpoints | Assets/Scripts/Maze/PrimMazeGenerator.cs:703-727 | the entries counted at a corner are exactly the in-array entries with an end at that corner |
| PrimMazeGenerator.OpeningCountsAtCorner | Assets/Scripts/Maze/PrimMazeGenerator.cs:703-727 | opening one wall lowers a corner's count by one iff the wall ends there |
| PrimMazeGenerator.TryOpenWallWithoutCreatingEmptyCorner | Assets/Scripts/Maze/PrimMazeGenerator.cs:686-701 | on success a closed interior wall is opened; otherwise the grid is unchanged; no other entry changes |
| PrimMazeGenerator.TryOpenSucceedsIff | Assets/Scripts/Maze/PrimMazeGenerator.cs:686-701 | succeeds iff the wall is closed and interior and both end corners have more than one wall |
| PrimMazeGenerator.TryOpenKeepsCornersWalled | Assets/Scripts/Maze/PrimMazeGenerator.cs:686-701 | no corner with a wall is left without one |
| PrimMazeGenerator.AttemptKeepsCornersWalled | Assets/Scripts/Maze/PrimMazeGenerator.cs:694-697 | an opening guarded by both end corners keeps every walled corner walled |
| PrimMazeGenerator.BusyOpening | Assets/Scripts/Maze/PrimMazeGenerator.cs:694-697 | opening a wall whose two end corners each had two or more walls keeps every corner walled |
| PrimMazeGenerator.EndsOfNorthOrWest | Assets/Scripts/Maze/PrimMazeGenerator.cs:627-640 | the offsets (1, 0) for north and (0, 1) for west name the far end of the wall |
| PrimMazeGenerator.OpeningAtBusyEnds | Assets/Scripts/Maze/PrimMazeGenerator.cs:694 | an opening whose ends both had more than one wall empties no corner |
| PrimMazeGenerator.TryToOpenNorthOrWestWallOf | Assets/Scripts/Maze/PrimMazeGenerator.cs:623-647 | succeeds iff the north or the west attempt would; opens only that wall; keeps corners walled; unchanged on failure |
| PrimMazeGenerator.PrunedStep | Assets/Scripts/Maze/PrimMazeGenerator.cs:655-658 | each successful attempt adds one new removed wall |
| PrimMazeGenerator.PrunedOnlyOpensInterior | Assets/Scripts/Maze/PrimMazeGenerator.cs:649-665 | pruning never closes a wall and never touches the boundary |
| PrimMazeGenerator.PruneOnce | Assets/Scripts/Maze/PrimMazeGenerator.cs:655-658 | one attempt: success adds exactly one new wall to the removed set and keeps the earlier ones, and the grid differs from the original in exactly the removed walls; failure changes nothing |
| PrimMazeGenerator.AttemptBookkeeping | Assets/Scripts/Maze/PrimMazeGenerator.cs:655-658 | on success the removed set becomes the old set plus one wall not in it, which the new grid has opened; on failure the grid and the set are unchanged |
| PrimMazeGenerator.RemoveRandomWalls | Assets/Scripts/Maze/PrimMazeGenerator.cs:649-665 | opens at most n distinct interior walls, boundary and corners untouched, in at most n*n attempts; stops early only once n are opened; n <= 0 does nothing |
| LegacyPrimMazeGenerator.SetWalls | Assets/Maze/PrimMazeGenerator.cs:69-77 | writes the north and west entries, the east entry only when x + 1 < W and the south entry only when y + 1 < H; the far column and row are never written |
| LegacyPrimMazeGenerator.ClosingCell | Assets/Maze/PrimMazeGenerator.cs:47-53 | each call extends the closed prefix past the cell |
| LegacyPrimMazeGenerator.CloseAllCells | Assets/Maze/PrimMazeGenerator.cs:47-53 | after the nested loop every cell's north and west entries are closed |
| LegacyPrimMazeGenerator.CloseBorders | Assets/Maze/PrimMazeGenerator.cs:56-66 | the border loops close the far row and column and keep every closed entry closed |
| LegacyPrimMazeGenerator.ClosedCellsAndBorders | Assets/Maze/PrimMazeGenerator.cs:41-67 | closed cells plus closed far borders means every entry is closed |
| LegacyPrimMazeGenerator.InitializeWalls | Assets/Maze/PrimMazeGenerator.cs:41-67 | the arrays have the grid's shape and every entry is a wall |
| LegacyPrimMazeGenerator.ConfigureEntryAndExit | Assets/Maze/PrimMazeGenerator.cs:134-141 | opens exactly `northWalls[0, 0]` and `northWalls[W-1, H]` |
| LegacyPrimMazeGenerator.EntranceEdgesOnBoundary | Assets/Maze/PrimMazeGenerator.cs:136-140 | the entry is the top of cell (0, 0) and the exit the bottom of (W-1, H-1), both on the boundary |
| LegacyPrimMazeGenerator.GenerateMaze | Assets/Maze/PrimMazeGenerator.cs:33-39 | every cell is reachable from the start, W*H - 1 interior walls are open, and the boundary is open only at the entry and the exit |
| EllersMazeGenerator.PercentDraws | Assets/Maze/EllersMazeGenerator.cs:193-196 | `Range(0, 101)` accepted at percentage p accepts p + 1 of the 101 draws; draw 0 is always accepted, and every draw at 100 |
| EllersMazeGenerator.InRangeInclusive | Assets/Maze/EllersMazeGenerator.cs:193-196 | true iff num lies in the closed range [min, max], both ends included; false for an empty range |
| EllersMazeGenerator.IncreaseAxisRow | Assets/Maze/EllersMazeGenerator.cs:286-307 | shifts every cell's z by the amount and keeps x and the set |
| EllersMazeGenerator.IncreaseAxisRowComposes | Assets/Maze/EllersMazeGenerator.cs:286-307 | shifts compose additively, and shifting back undoes a shift |
| EllersMazeGenerator.WithLabel | Assets/Maze/EllersMazeGenerator.cs:313-315 | one group holds exactly the row's cells with that set |
| EllersMazeGenerator.AddToGroups | Assets/Maze/EllersMazeGenerator.cs:313-316 | adding a cell keeps the groups well formed, adds at most one group and keeps group order |
| EllersMazeGenerator.RowSortedBySet | Assets/Maze/EllersMazeGenerator.cs:311-317 | one non-empty group per set; groups are ordered by the first position of their set in the row; each group is the row's cells with that set, in row order |
| EllersMazeGenerator.GroupsPartitionRow | Assets/Maze/EllersMazeGenerator.cs:311-317 | the groups together are a permutation of the row |
| EllersMazeGenerator.JoinRowVerticalWalls | Assets/Maze/EllersMazeGenerator.cs:142-191 | an empty row fails; otherwise coordinates are kept, each pair of the same set gets a wall and a mark, each other pair is joined or walled by one draw, and the outer walls bracket the row |
| EllersMazeGenerator.JoinPair | Assets/Maze/EllersMazeGenerator.cs:150-185 | one pair step extends the wall list, the marks and the draw count by that pair's contribution |
| EllersMazeGenerator.JoinOnlyMerges | Assets/Maze/EllersMazeGenerator.cs:142-191 | joining only reuses sets already present in the row |
| EllersMazeGenerator.DividerWallAt | Assets/Maze/EllersMazeGenerator.cs:169-173 | every pair not joined has its divider wall in the list |
| EllersMazeGenerator.WallsSeparateSets | Assets/Maze/EllersMazeGenerator.cs:169-173 | neighbours that end in different sets are separated by a wall |
| EllersMazeGenerator.PlaceWallsSameDir | Assets/Maze/EllersMazeGenerator.cs:319-327 | one wall in the given direction per cell, in row order |
| EllersMazeGenerator.PlacedCovers | Assets/Maze/EllersMazeGenerator.cs:319-327 | every cell of the row gets its wall |
| EllersMazeGenerator.SplitSet | Assets/Maze/EllersMazeGenerator.cs:212-229 | the first shuffled cell keeps its floor open; the set is split between walled and open cells; p >= 100 walls all but one and p < 0 none |
| EllersMazeGenerator.SplitOne | Assets/Maze/EllersMazeGenerator.cs:219-228 | each later cell goes to exactly one side, using one draw |
| EllersMazeGenerator.BottomSet | Assets/Maze/EllersMazeGenerator.cs:207-243 | one pass of the per-set loop keeps the partition, the walls and the draw accounts |
| EllersMazeGenerator.BottomSets | Assets/Maze/EllersMazeGenerator.cs:207-244 | the per-set loop establishes the accounts for all sets |
| EllersMazeGenerator.BottomWallsDone | Assets/Maze/EllersMazeGenerator.cs:198-245 | the accounts for all sets give the partition, the open cell per set, the locations and the draw counts |
| EllersMazeGenerator.BottomWalls | Assets/Maze/EllersMazeGenerator.cs:198-245 | walled and open cells partition the row; every set keeps an open cell below it; locations are the walled cells; the emitted walls follow the per-set loop; draws counted |
| EllersMazeGenerator.PlacedBottomWallsCover | Assets/Maze/EllersMazeGenerator.cs:239-243 | the repeated placements cover exactly one bottom wall under each walled cell |
| EllersMazeGenerator.PlacedBottomWallsWithin | Assets/Maze/EllersMazeGenerator.cs:239-243 | every placed bottom wall lies under a walled cell |
| EllersMazeGenerator.MatchesPositive | Assets/Maze/EllersMazeGenerator.cs:256-266 | a cell gets a fresh set iff its coordinates are among the walled cells |
| EllersMazeGenerator.RelabelCell | Assets/Maze/EllersMazeGenerator.cs:256-266 | coordinates are kept; on a match the cell takes the last fresh set and `max_set_val` grows per match |
| EllersMazeGenerator.EmptyCellsNewRow | Assets/Maze/EllersMazeGenerator.cs:247-271 | the row keeps its length; `max_set_val` grows by the number of matches; each cell is relabelled on its own |
| EllersMazeGenerator.FreshLabels | Assets/Maze/EllersMazeGenerator.cs:247-271 | all sets stay below `max_set_val`; a cell gets a fresh set iff it was walled below; fresh sets are unique in the row and strictly increase along it |
| EllersMazeGenerator.RangeUpTo | Assets/Maze/EllersMazeGenerator.cs:56 | `Range(0, n)` lies in [0, n), and is 0 for n = 0 |
| EllersMazeGenerator.RandomPositionOnOuterWall | Assets/Maze/EllersMazeGenerator.cs:48-70 | on a non-empty grid the point lies on the named side |
| EllersMazeGenerator.OuterWallCovered | Assets/Maze/EllersMazeGenerator.cs:48-70 | every cell of every side is drawable |
| EllersMazeGenerator.RandomEndPoint | Assets/Maze/EllersMazeGenerator.cs:101-104 | the end point is the first draw on another side; all earlier draws were on the start's side |
| EllersMazeGenerator.FirstRow | Assets/Maze/EllersMazeGenerator.cs:106-116 | cell x sits at (x, 0) with its own distinct set below `max_set_val = width + 1` |
| EllersMazeGenerator.PlacedOnLattice | Assets/Maze/EllersMazeGenerator.cs:319-327 | walls placed for lattice cells lie on the lattice |
| EllersMazeGenerator.DividerWallsOnLattice | Assets/Maze/EllersMazeGenerator.cs:169-173 | divider walls lie on the lattice |
| EllersMazeGenerator.BottomWallsOnLattice | Assets/Maze/EllersMazeGenerator.cs:239-243 | bottom walls of a row inside the maze lie on the lattice |
| EllersMazeGenerator.JoinWallsFacts | Assets/Maze/EllersMazeGenerator.cs:146-188 | a row's join walls lie on the lattice and include its left and right borders |
| EllersMazeGenerator.LastRowWallsFacts | Assets/Maze/EllersMazeGenerator.cs:123-125 | the last row closes the far border along its whole width |
| EllersMazeGenerator.NextRowCoords | Assets/Maze/EllersMazeGenerator.cs:135 | the next row sits one step further in z, cell x at x |
| EllersMazeGenerator.SpawnStep | Assets/Maze/EllersMazeGenerator.cs:121-136 | one row iteration keeps every wall on the lattice and adds the row's side borders |
| EllersMazeGenerator.JoinStage | Assets/Maze/EllersMazeGenerator.cs:130 | the join fails iff the width is 0; otherwise its walls include both side borders |
| EllersMazeGenerator.BottomStage | Assets/Maze/EllersMazeGenerator.cs:133-135 | the bottom walls lie on the lattice and the next row is the shifted row |
| EllersMazeGenerator.SpawnRow | Assets/Maze/EllersMazeGenerator.cs:121-136 | a row fails iff the width is 0, and otherwise advances the maze invariant |
| EllersMazeGenerator.SpawnEllersMaze | Assets/Maze/EllersMazeGenerator.cs:96-140 | start and end are on different sides, on the outer wall; it fails iff width is 0 with rows to build; otherwise every wall is on the lattice and all four borders are closed |

## Left out

- Everything Unity draws or spawns is left out: `BuildMazeInUnity`, `PlaceWallXZ` (its effect is the emitted `WallRecord`), `WorldTextRow`, `VertexText`, `PlaceStartAndEndPoints`, `PlaceGridCellIndicator`, `DespawnCurrentObjects`, text meshes, materials and the XR player placement inside `ConfigureEntryAndExit`. None of these decides a wall.
- `GetWorldPos`, `GetXZ`, `IsPositionInWall`, `AddTextMesh`, `UpdateTextColor` and `GetGrid` are world-space and UI helpers outside the maze logic.
- The `DirectionVectors` dictionary is never read by the code; the model uses `DELTA_X` and `DELTA_Y` only.
- `FinalRow` in `EllersMazeGenerator` is never called (its call is commented out).
- The `GenerateMaze` methods of the two Scripts generators only call the modelled steps in order and then render; the steps are modelled separately.
- Assets/Scripts/Maze/PrimMazeGenerator.cs has an unfinished statement `if(gridXZ.)` at line 138, inside `DespawnCurrentObjects`. The file does not compile as written. Nothing modelled depends on that method.
- Assets/GridSystem/CustomGrid.cs is an older, smaller grid used by none of the modelled code, so it is not part of this model.
- Random distributions are not modelled. A draw is any natural number reduced into its range, so the proofs hold for every sequence of draws. The only distribution facts stated are coverage facts (`RangeCoversAll`, `EveryCellCanStart`, `EveryUnvisitedCellCanBePicked`, `OuterWallCovered`).
- `GetAllVertices` is modelled as an explicit worklist, not recursion. It computes the same final set; the visit order is not modelled.
- When `GetNeighbors` steps off the grid, C# throws `IndexOutOfRangeException`. The model returns `None` and propagates it.
- Integers are unbounded. The source's 32-bit `int` could overflow in `n * n` in `RemoveRandomWalls`, in `CellNumber`, and in `max_set_val` for huge inputs; the model does not model that wrap-around.
- Grids have width and height at least 1 (`CustomGrid.Valid`). A zero-width C# grid divides by zero in `posX`/`posY`.
- LegacyPrimMazeGenerator.InitializeWalls: the model requires W, H >= 1, as every `Grid` value does. The C# method accepts a zero width or height, and its loops then run zero times. A zero width throws only later, at the carve's `current % width` (Assets/Maze/PrimMazeGenerator.cs:92). A zero height runs through and leaves an empty maze. Neither degenerate grid is modelled; this is a restriction of the model, not a demand of the code.
- Randomness.Shuffle: `OrderBy(a => rng.Next())` is a stable sort by one random key per element. The model uses one draw per element to select the element to put next instead. The sort's distribution is not modelled, but `ShuffleCoversAll` shows that every ordering is reachable, so no outcome of the sort is excluded.
- EllersMazeGenerator.SpawnEllersMaze: requires that some redraw of the end point lands on another side. Otherwise the C# `do`-`while` never terminates, which the model does not represent.
- EllersMazeGenerator.RandomPositionOnOuterWall: for a grid with zero width or height the point is what the code computes (`Range(0, 0)` gives 0), but no side property is stated.
- EllersMazeGenerator.BottomWalls: the emitted wall list is stated as the per-set placement sequence. The duplicates it contains are characterised by `PlacedBottomWallsCover`, not removed.
- Percentage 0 in `InRangeInclusive(draw, 0, p)` still accepts draw 0 (one chance in 101). The model keeps this, and `PercentDraws` states it.

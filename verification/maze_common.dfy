/**
 * Wall logic that `DfsMazeGenerator` and the `PrimMazeGenerator` under Assets/Scripts
 * share line for line: `InitializeWalls`, `RemoveWall`, the private `SetWalls(cell, v)`
 * and the wall part of `ConfigureEntryAndExit`, together with the bookkeeping of a carve
 * that both generators run (visited cells, carved edges, the roots growth started from).
 */
module MazeCommon {
  import opened Randomness
  import opened Directions
  import opened CustomGrid
  import opened GridPaths

  /** Every entry of both arrays is a wall. */
  ghost predicate AllWalls(g: Grid)
    requires Valid(g)
  {
    forall e :: InArray(g, e) ==> Read(g, e)
  }

  /** A cell that has e among its four walls. */
  function Owner(g: Grid, e: Edge): (r: (int, int))
    requires Valid(g) && InArray(g, e)
    ensures InCell(g, r.0, r.1) && e in CellEdges(r.0, r.1)
  {
    match e
    case NorthEdge(x, z) => if z < g.height then (x, z) else (x, z - 1)
    case WestEdge(x, z) => if x < g.width then (x, z) else (x - 1, z)
  }

  /** The private `SetWalls(cell, value)`: `SetWalls(posX(cell), posY(cell), value)`. */
  function SetCellWalls(g: Grid, cell: int, v: bool): (r: Grid)
    requires Valid(g) && ValidCell(g, cell)
    ensures Valid(r) && SameShape(r, g)
    ensures forall d :: WallAt(r, cell, d) == v
    ensures NumWallsAt(r, cell) == if v then NUM_DIRECTIONS else 0
    ensures forall e :: InArray(g, e) && e !in CellEdges(PosX(g, cell), PosY(g, cell)) ==> Read(r, e) == Read(g, e)
  {
    ValidCellCoords(g, cell);
    SetWalls(g, PosX(g, cell), PosY(g, cell), v)
  }

  /**
   * `InitializeWalls`: `SetWalls(cell, true)` for every cell, then the border loops.
   * The grid may hold the walls of an earlier maze; afterwards every entry is a wall.
   */
  method InitializeWalls(g0: Grid) returns (g: Grid)
    requires Valid(g0)
    ensures Valid(g) && SameShape(g, g0)
    ensures AllWalls(g)
  {
    g := g0;
    var cell := 0;
    while cell < GetNumberOfCells(g)
      invariant 0 <= cell <= GetNumberOfCells(g)
      invariant Valid(g) && SameShape(g, g0)
      invariant forall e :: InArray(g, e) && CellNumber(g, Owner(g, e).0, Owner(g, e).1) < cell ==> Read(g, e)
    {
      var g1 := SetCellWalls(g, cell, true);
      OwnedWallsClosed(g, g1, cell);
      g, cell := g1, cell + 1;
    }
    forall e | InArray(g, e) ensures Read(g, e) {
    }
    for x := 0 to g.width
      invariant Valid(g) && SameShape(g, g0) && AllWalls(g)
    {
      ClosingKeepsAllWalls(g, x, g.height, North);
      g := SetWall(g, x, g.height, North, true);
      ClosingKeepsAllWalls(g, x, 0, South);
      g := SetWall(g, x, 0, South, true);
    }
    for z := 0 to g.height
      invariant Valid(g) && SameShape(g, g0) && AllWalls(g)
    {
      ClosingKeepsAllWalls(g, g.width, z, West);
      g := SetWall(g, g.width, z, West, true);
      ClosingKeepsAllWalls(g, 0, z, East);
      g := SetWall(g, 0, z, East, true);
    }
  }

  /** Closing the walls of `cell` extends the closed prefix of owners by one cell. */
  lemma OwnedWallsClosed(g: Grid, g1: Grid, cell: int)
    requires Valid(g) && ValidCell(g, cell) && g1 == SetCellWalls(g, cell, true)
    requires forall e :: InArray(g, e) && CellNumber(g, Owner(g, e).0, Owner(g, e).1) < cell ==> Read(g, e)
    ensures forall e :: InArray(g1, e) && CellNumber(g1, Owner(g1, e).0, Owner(g1, e).1) < cell + 1 ==> Read(g1, e)
  {
    forall e | InArray(g1, e) && CellNumber(g1, Owner(g1, e).0, Owner(g1, e).1) < cell + 1
      ensures Read(g1, e)
    {
      var (ox, oz) := Owner(g, e);
      if CellNumber(g, ox, oz) == cell {
        CellIndexRoundTrip(g, ox, oz);
        assert e in CellEdges(PosX(g, cell), PosY(g, cell));
      }
    }
  }

  /**
   * A border `SetWall(x, z, d, true)` of `InitializeWalls` keeps every wall closed. The
   * border loops address cells one step outside the grid ((x, H) going NORTH, (W, z)
   * going WEST), which only requires the edge to exist.
   */
  lemma ClosingKeepsAllWalls(g: Grid, x: int, z: int, d: Direction)
    requires Valid(g) && AllWalls(g) && InArray(g, EdgeOf(x, z, d))
    ensures AllWalls(SetWall(g, x, z, d, true))
  {
  }

  /** With every wall closed, every cell has four walls and the boundary is closed. */
  lemma AllWallsClosed(g: Grid)
    requires Valid(g) && AllWalls(g)
    ensures BoundaryClosed(g)
    ensures forall c :: ValidCell(g, c) ==> NumWallsAt(g, c) == NUM_DIRECTIONS
  {
    forall c | ValidCell(g, c) ensures NumWallsAt(g, c) == NUM_DIRECTIONS {
      ValidCellCoords(g, c);
    }
  }

  /** `RemoveWall(x, y, direction)`: clears the array entry `GetWall` reads for that side. */
  function RemoveWall(g: Grid, x: int, z: int, d: Direction): (r: Grid)
    requires Valid(g) && InCell(g, x, z)
    ensures Valid(r) && SameShape(r, g)
    ensures !GetWall(r, x, z, d)
    ensures forall e :: InArray(g, e) && e != EdgeOf(x, z, d) ==> Read(r, e) == Read(g, e)
  {
    Write(g, EdgeOf(x, z, d), false)
  }

  /** The neighbour across the removed wall sees it open too, and nothing was closed. */
  lemma RemoveWallOpensBothSides(g: Grid, x: int, z: int, d: Direction)
    requires Valid(g) && InCell(g, x, z) && InCell(g, x + DeltaX(d), z + DeltaY(d))
    ensures !GetWall(RemoveWall(g, x, z, d), x + DeltaX(d), z + DeltaY(d), Opposite(d))
    ensures FewerWalls(g, RemoveWall(g, x, z, d))
  {
    SharedEdgeSymmetry(RemoveWall(g, x, z, d), x, z, d);
  }

  // ---------------------------------------------------------------- entry and exit

  /** The exit `ConfigureEntryAndExit` picks: a side and the cell it belongs to. */
  datatype Exit = Exit(direction: Direction, x: int, z: int)

  /** A NORTH exit on row 0 or a WEST exit on column 0. */
  predicate IsExit(g: Grid, exit: Exit)
  {
    && InCell(g, exit.x, exit.z)
    && ((exit.direction == North && exit.z == 0) || (exit.direction == West && exit.x == 0))
  }

  /** What `ConfigureEntryAndExit` leaves behind: the grid, both nodes, and the exit. */
  datatype Entrances = Entrances(grid: Grid, startNode: int, endNode: int, exit: Exit)

  /** The start cell (2W/3, 2H/3); C#'s `/` on these non-negative values is Dafny's. */
  function StartX(g: Grid): int { 2 * g.width / 3 }
  function StartZ(g: Grid): int { 2 * g.height / 3 }

  /** The start cell lies inside every grid. */
  lemma StartInGrid(g: Grid)
    requires Valid(g)
    ensures InCell(g, StartX(g), StartZ(g))
  {
  }

  /** Draw k decides between NORTH and WEST; draw k + 1 places the exit along that side. */
  function ChooseExit(g: Grid, rng: nat -> nat, k: nat): (r: Exit)
    requires Valid(g)
    ensures IsExit(g, r)
    ensures Boundary(g, EdgeOf(r.x, r.z, r.direction))
  {
    var choice := Range(rng(k), 0, 2) == 1;
    var exitDirection := if choice then North else West;
    var exitX := if choice then Next(rng(k + 1), g.width) else 0;
    var exitY := if choice then 0 else Next(rng(k + 1), g.height);
    Exit(exitDirection, exitX, exitY)
  }

  /** `SetWalls(startNode, false)` followed by the exit's `SetWall(..., false)`. */
  function OpenStartAndExit(g: Grid, exit: Exit): (r: Grid)
    requires Valid(g) && IsExit(g, exit)
    ensures InCell(g, StartX(g), StartZ(g))
    ensures Valid(r) && SameShape(r, g)
    ensures forall d :: !GetWall(r, StartX(g), StartZ(g), d)
    ensures !GetWall(r, exit.x, exit.z, exit.direction)
    ensures forall e ::
      (InArray(g, e) && e !in CellEdges(StartX(g), StartZ(g)) && e != EdgeOf(exit.x, exit.z, exit.direction))
      ==> Read(r, e) == Read(g, e)
  {
    StartInGrid(g);
    var g1 := SetWalls(g, StartX(g), StartZ(g), false);
    var r := SetWall(g1, exit.x, exit.z, exit.direction, false);
    ExitKeepsStartOpen(g1, StartX(g), StartZ(g), exit, r);
    OpenStartAndExitFrame(g, g1, exit, r);
    r
  }

  /** Only the start cell's walls and the exit wall differ after `OpenStartAndExit`. */
  lemma OpenStartAndExitFrame(g: Grid, g1: Grid, exit: Exit, r: Grid)
    requires Valid(g) && IsExit(g, exit)
    requires g1 == SetWalls(g, StartX(g), StartZ(g), false)
    requires r == SetWall(g1, exit.x, exit.z, exit.direction, false)
    ensures forall e ::
      (InArray(g, e) && e !in CellEdges(StartX(g), StartZ(g)) && e != EdgeOf(exit.x, exit.z, exit.direction))
      ==> Read(r, e) == Read(g, e)
  {
    forall e | InArray(g, e) && e !in CellEdges(StartX(g), StartZ(g)) && e != EdgeOf(exit.x, exit.z, exit.direction)
      ensures Read(r, e) == Read(g, e)
    {
      assert Read(g1, e) == Read(g, e);
    }
  }

  /** Opening the exit after the start cell leaves the start cell open. */
  lemma ExitKeepsStartOpen(g1: Grid, sx: int, sz: int, exit: Exit, r: Grid)
    requires Valid(g1) && InCell(g1, sx, sz) && IsExit(g1, exit)
    requires forall d :: !GetWall(g1, sx, sz, d)
    requires r == SetWall(g1, exit.x, exit.z, exit.direction, false)
    ensures forall d :: !GetWall(r, sx, sz, d)
  {
    forall d ensures !GetWall(r, sx, sz, d) {
      CellEdgesInArray(g1, sx, sz, d);
      assert !GetWall(g1, sx, sz, d);
      if EdgeOf(sx, sz, d) == EdgeOf(exit.x, exit.z, exit.direction) {
        assert !GetWall(r, exit.x, exit.z, exit.direction);
      }
    }
  }

  /** The wall part of `ConfigureEntryAndExit`, drawing k and k + 1. */
  function ConfigureEntryAndExit(g: Grid, rng: nat -> nat, k: nat): (r: Entrances)
    requires Valid(g)
    ensures Valid(r.grid) && SameShape(r.grid, g)
    ensures r.startNode == CellNumber(g, StartX(g), StartZ(g)) && ValidCell(g, r.startNode)
    ensures NumWallsAt(r.grid, r.startNode) == 0
    ensures IsExit(g, r.exit) && Boundary(g, EdgeOf(r.exit.x, r.exit.z, r.exit.direction))
    ensures r.endNode == CellNumber(g, r.exit.x, r.exit.z) && ValidCell(g, r.endNode)
    ensures !WallAt(r.grid, r.endNode, r.exit.direction)
    ensures forall e ::
      (InArray(g, e) && e !in CellEdges(StartX(g), StartZ(g)) && e != EdgeOf(r.exit.x, r.exit.z, r.exit.direction))
      ==> Read(r.grid, e) == Read(g, e)
  {
    var start := CellNumber(g, StartX(g), StartZ(g));
    var exit := ChooseExit(g, rng, k);
    var g2 := OpenStartAndExit(g, exit);
    var endNode := CellNumber(g, exit.x, exit.z);
    assert ValidCell(g, CellNumber(g, StartX(g), StartZ(g)));
    CellIndexRoundTrip(g, StartX(g), StartZ(g));
    assert ValidCell(g, CellNumber(g, exit.x, exit.z));
    CellIndexRoundTrip(g, exit.x, exit.z);
    Entrances(g2, start, endNode, exit)
  }

  /** `ConfigureEntryAndExit` only opens walls. */
  lemma ConfigureOnlyOpens(g: Grid, rng: nat -> nat, k: nat)
    requires Valid(g)
    ensures FewerWalls(g, ConfigureEntryAndExit(g, rng, k).grid)
  {
    var r := ConfigureEntryAndExit(g, rng, k);
    var sx, sz := StartX(g), StartZ(g);
    forall e | InArray(g, e) && !Read(g, e) ensures !Read(r.grid, e) {
      if e in CellEdges(sx, sz) {
        var d := EdgeDirection(sx, sz, e);
        assert !GetWall(r.grid, sx, sz, d);
      }
    }
  }

  /** The start cell touches the grid boundary exactly when the grid is at most 3 cells wide or high. */
  lemma StartOnBoundary(g: Grid)
    requires Valid(g)
    ensures (exists d :: Boundary(g, EdgeOf(StartX(g), StartZ(g), d))) <==> g.width <= 3 || g.height <= 3
  {
    var sx, sz := StartX(g), StartZ(g);
    if g.width <= 3 || g.height <= 3 {
      var d := SmallGridStartSide(g);
    } else {
      forall d ensures !Boundary(g, EdgeOf(sx, sz, d)) {
      }
    }
  }

  /** On a grid at most 3 wide (high), the start cell's east (south) wall is a boundary wall. */
  lemma SmallGridStartSide(g: Grid) returns (d: Direction)
    requires Valid(g) && (g.width <= 3 || g.height <= 3)
    ensures d == (if g.width <= 3 then East else South)
    ensures Boundary(g, EdgeOf(StartX(g), StartZ(g), d))
  {
    if g.width <= 3 {
      d := East;
      assert StartX(g) + 1 == g.width;
    } else {
      d := South;
      assert StartZ(g) + 1 == g.height;
    }
  }

  /** On a grid at least 4 by 4, the start cell's walls are all interior. */
  lemma BigGridOpensOnlyExit(g: Grid, rng: nat -> nat, k: nat)
    requires Valid(g) && BoundaryClosed(g) && g.width >= 4 && g.height >= 4
    ensures var r := ConfigureEntryAndExit(g, rng, k);
      forall e :: Boundary(g, e) && !Read(r.grid, e) ==> e == EdgeOf(r.exit.x, r.exit.z, r.exit.direction)
  {
    var r := ConfigureEntryAndExit(g, rng, k);
    var exit := EdgeOf(r.exit.x, r.exit.z, r.exit.direction);
    StartEdgesInterior(g);
    forall e | Boundary(g, e) && !Read(r.grid, e) ensures e == exit {
      assert e !in CellEdges(StartX(g), StartZ(g));
    }
  }

  /** On a grid at least 4 by 4, no wall of the start cell lies on the boundary. */
  lemma StartEdgesInterior(g: Grid)
    requires Valid(g) && g.width >= 4 && g.height >= 4
    ensures forall e :: e in CellEdges(StartX(g), StartZ(g)) ==> !Boundary(g, e)
  {
    StartOnBoundary(g);
    forall e | e in CellEdges(StartX(g), StartZ(g)) ensures !Boundary(g, e) {
      var d := EdgeDirection(StartX(g), StartZ(g), e);
    }
  }

  /** On a grid at most 3 wide or high, the start cell's east or south wall is a boundary wall. */
  lemma SmallGridOpensStart(g: Grid, rng: nat -> nat, k: nat)
    requires Valid(g) && (g.width <= 3 || g.height <= 3)
    ensures var r := ConfigureEntryAndExit(g, rng, k);
      exists e :: Boundary(g, e) && !Read(r.grid, e) && e != EdgeOf(r.exit.x, r.exit.z, r.exit.direction)
  {
    var sx, sz := StartX(g), StartZ(g);
    var d := SmallGridStartSide(g);
    var r := ConfigureEntryAndExit(g, rng, k);
    CellIndexRoundTrip(g, sx, sz);
    ValidCellCoords(g, r.startNode);
    assert !WallAt(r.grid, r.startNode, d);
    assert !Read(r.grid, EdgeOf(sx, sz, d));
  }

  /**
   * With a closed boundary, the exit is the only boundary wall `ConfigureEntryAndExit`
   * opens exactly when the grid is at least 4 by 4; on smaller grids the start cell
   * opens the boundary as well.
   */
  lemma ExitIsTheOnlyOpening(g: Grid, rng: nat -> nat, k: nat)
    requires Valid(g) && BoundaryClosed(g)
    ensures var r := ConfigureEntryAndExit(g, rng, k);
      var exit := EdgeOf(r.exit.x, r.exit.z, r.exit.direction);
      g.width >= 4 && g.height >= 4 <==> forall e :: Boundary(g, e) && !Read(r.grid, e) ==> e == exit
  {
    if g.width >= 4 && g.height >= 4 {
      BigGridOpensOnlyExit(g, rng, k);
    } else {
      SmallGridOpensStart(g, rng, k);
    }
  }

  // ---------------------------------------------------------------- start of a carve

  /** `Next(0, width) + Next(0, height) * width`, from draws k and k + 1. */
  function RandomStart(g: Grid, rng: nat -> nat, k: nat): (c: int)
    requires Valid(g)
    ensures ValidCell(g, c)
  {
    var startX := Range(rng(k), 0, g.width);
    var startY := Range(rng(k + 1), 0, g.height);
    assert ValidCell(g, CellNumber(g, startX, startY));
    startX + startY * g.width
  }

  /** Every cell of the grid is a possible start: the draws restrict nothing. */
  lemma EveryCellCanStart(g: Grid, c: int)
    requires Valid(g) && ValidCell(g, c)
    ensures exists rng: nat -> nat :: RandomStart(g, rng, 0) == c
  {
    ValidCellCoords(g, c);
    PosRoundTrip(g, c);
    var x, z := PosX(g, c), PosY(g, c);
    var rng := (n: nat) => if n == 0 then x as nat else z as nat;
    RangeCoversAll(0, g.width, x);
    RangeCoversAll(0, g.height, z);
    assert RandomStart(g, rng, 0) == c;
  }

  // ---------------------------------------------------------------- carving

  /** The cells on the two sides of an interior edge. */
  function Ends(g: Grid, e: Edge): set<int>
  {
    match e
    case NorthEdge(x, z) => {CellNumber(g, x, z - 1), CellNumber(g, x, z)}
    case WestEdge(x, z) => {CellNumber(g, x - 1, z), CellNumber(g, x, z)}
  }

  /** The wall between two neighbouring cells is interior and separates exactly those two. */
  lemma EdgeOfEnds(g: Grid, x: int, z: int, d: Direction)
    requires InCell(g, x, z) && InCell(g, x + DeltaX(d), z + DeltaY(d))
    ensures Interior(g, EdgeOf(x, z, d))
    ensures Ends(g, EdgeOf(x, z, d)) == {CellNumber(g, x, z), CellNumber(g, x + DeltaX(d), z + DeltaY(d))}
  {
  }

  /** The neighbour `GetDirectNeighbor` names is the cell at the shifted coordinates. */
  lemma StepAt(g: Grid, x: int, z: int, d: Direction)
    requires Valid(g) && InCell(g, x, z)
    ensures Step(g, CellNumber(g, x, z), d) >= 0 <==> InCell(g, x + DeltaX(d), z + DeltaY(d))
    ensures InCell(g, x + DeltaX(d), z + DeltaY(d)) ==>
      Step(g, CellNumber(g, x, z), d) == CellNumber(g, x + DeltaX(d), z + DeltaY(d))
  {
    CellIndexRoundTrip(g, x, z);
  }

  /** Every in-grid neighbour of c is in `visited`. */
  ghost predicate Expanded(g: Grid, c: int, visited: set<int>)
    requires Valid(g)
  {
    forall d :: Step(g, c, d) >= 0 ==> Step(g, c, d) in visited
  }

  /**
   * A carve in progress from the walls of g0, after `restarts` fallback restarts: every
   * wall not carved is as it was, every carved wall is interior and separates two
   * visited cells, and each carve visited one new cell.
   */
  ghost predicate Carving(g0: Grid, g: Grid, visited: set<int>, carved: set<Edge>, restarts: nat)
  {
    && Valid(g0) && Valid(g) && SameShape(g, g0)
    && visited <= AllCells(g0)
    && (forall e :: InArray(g0, e) ==> Read(g, e) == (Read(g0, e) && e !in carved))
    && (forall e :: e in carved ==> Interior(g0, e) && Ends(g0, e) <= visited)
    && |carved| + restarts + 1 == |visited|
  }

  /** c is reached through open walls from one of the roots. */
  ghost predicate RootedAt(g: Grid, roots: set<int>, c: int)
    requires Valid(g)
  {
    exists r :: r in roots && Reachable(g, r, c)
  }

  /**
   * Every visited cell is reached through open walls from one of the roots. The
   * quantifier fires only on an explicit `RootedAt` term, so that the paths behind it
   * stay out of sight until a proof asks for one.
   */
  ghost predicate Rooted(g: Grid, visited: set<int>, roots: set<int>)
  {
    Valid(g) && forall c {:trigger RootedAt(g, roots, c)} :: c in visited ==> RootedAt(g, roots, c)
  }

  lemma CarvingStarts(g0: Grid, start: int)
    requires Valid(g0) && ValidCell(g0, start)
    ensures Carving(g0, g0, {start}, {}, 0) && Rooted(g0, {start}, {start})
  {
    ReachableRefl(g0, start);
    assert RootedAt(g0, {start}, start);
    assert Below(start, GetNumberOfCells(g0));
  }

  /**
   * Carving from a visited cell c to its unvisited neighbour n in direction d: the wall
   * is new to the carved set, and the bookkeeping holds with n visited.
   */
  lemma CarveStep(g0: Grid, g: Grid, visited: set<int>, carved: set<Edge>, restarts: nat, c: int, d: Direction)
    requires Carving(g0, g, visited, carved, restarts) && c in visited
    requires Step(g0, c, d) >= 0 && Step(g0, c, d) !in visited
    ensures ValidCell(g0, c) && InCell(g0, PosX(g0, c), PosY(g0, c))
    ensures EdgeOf(PosX(g0, c), PosY(g0, c), d) !in carved
    ensures Carving(g0, RemoveWall(g, PosX(g0, c), PosY(g0, c), d), visited + {Step(g0, c, d)},
      carved + {EdgeOf(PosX(g0, c), PosY(g0, c), d)}, restarts)
  {
    var n := Step(g0, c, d);
    var x, z := PosX(g0, c), PosY(g0, c);
    assert c in AllCells(g0);
    CarveGeometry(g0, c, d);
    var e := EdgeOf(x, z, d);
    assert n in Ends(g0, e) && n !in visited;
    assert e !in carved;
    CarveReads(g0, g, carved, x, z, d);
    forall e' | e' in carved + {e} ensures Interior(g0, e') && Ends(g0, e') <= visited + {n} {
    }
  }

  /** The wall between a cell and its neighbour is interior and separates exactly those two cells. */
  lemma CarveGeometry(g0: Grid, c: int, d: Direction)
    requires Valid(g0) && ValidCell(g0, c) && Step(g0, c, d) >= 0
    ensures InCell(g0, PosX(g0, c), PosY(g0, c)) && ValidCell(g0, Step(g0, c, d))
    ensures Interior(g0, EdgeOf(PosX(g0, c), PosY(g0, c), d))
    ensures Ends(g0, EdgeOf(PosX(g0, c), PosY(g0, c), d)) == {c, Step(g0, c, d)}
  {
    var n := Step(g0, c, d);
    var x, z := PosX(g0, c), PosY(g0, c);
    ValidCellCoords(g0, c);
    StepCoords(g0, c, d);
    PosRoundTrip(g0, c);
    PosRoundTrip(g0, n);
    EdgeOfEnds(g0, x, z, d);
    assert Below(n, GetNumberOfCells(g0));
  }

  /** Removing a wall of the grid adds exactly that wall to the carved set. */
  lemma CarveReads(g0: Grid, g: Grid, carved: set<Edge>, x: int, z: int, d: Direction)
    requires Valid(g0) && Valid(g) && SameShape(g, g0) && InCell(g0, x, z)
    requires forall e :: InArray(g0, e) ==> Read(g, e) == (Read(g0, e) && e !in carved)
    ensures forall e :: InArray(g0, e) ==>
      Read(RemoveWall(g, x, z, d), e) == (Read(g0, e) && e !in carved + {EdgeOf(x, z, d)})
  {
  }

  /** The same carve seen from the roots: n joins the tree of c. */
  lemma RootedStep(g0: Grid, g: Grid, visited: set<int>, roots: set<int>, c: int, d: Direction)
    requires Valid(g0) && Valid(g) && SameShape(g, g0) && Rooted(g, visited, roots)
    requires c in visited && ValidCell(g0, c) && Step(g0, c, d) >= 0
    ensures Rooted(RemoveWall(g, PosX(g0, c), PosY(g0, c), d), visited + {Step(g0, c, d)}, roots)
  {
    var x, z := PosX(g0, c), PosY(g0, c);
    ValidCellCoords(g0, c);
    StepCoords(g0, c, d);
    var g' := RemoveWall(g, x, z, d);
    RemoveWallOpensBothSides(g, x, z, d);
    assert Step(g', c, d) == Step(g0, c, d);
    assert WallAt(g', c, d) == GetWall(g', x, z, d);
    RootedAfterCarve(g, g', visited, roots, c, d);
  }

  /** Opening the wall from c to its neighbour keeps every visited cell rooted and roots the neighbour. */
  lemma RootedAfterCarve(g: Grid, g': Grid, visited: set<int>, roots: set<int>, c: int, d: Direction)
    requires Valid(g) && FewerWalls(g, g') && c in visited && ValidCell(g, c)
    requires Step(g', c, d) >= 0 && !WallAt(g', c, d)
    requires Rooted(g, visited, roots)
    ensures Rooted(g', visited + {Step(g', c, d)}, roots)
  {
    var n := Step(g', c, d);
    assert RootedAt(g, roots, c);
    forall v | v in visited + {n} ensures RootedAt(g', roots, v) {
      var r :| r in roots && Reachable(g, r, c);
      ReachableMonotone(g, g', r, c);
      if v == n {
        OpenStepVia(g', c, d);
        ReachableExtend(g', r, c, n);
      } else {
        assert RootedAt(g, roots, v);
        var r' :| r' in roots && Reachable(g, r', v);
        ReachableMonotone(g, g', r', v);
      }
    }
  }

  /** A fallback restart: an unvisited cell becomes visited, nothing is carved. */
  lemma RestartStep(g0: Grid, g: Grid, visited: set<int>, carved: set<Edge>, restarts: nat, n: int)
    requires Carving(g0, g, visited, carved, restarts) && ValidCell(g0, n) && n !in visited
    ensures Carving(g0, g, visited + {n}, carved, restarts + 1)
  {
    assert Below(n, GetNumberOfCells(g0));
  }

  /** The restarted cell is a root of its own. */
  lemma RootedRestart(g: Grid, visited: set<int>, roots: set<int>, n: int)
    requires Rooted(g, visited, roots) && ValidCell(g, n)
    ensures Rooted(g, visited + {n}, roots + {n})
  {
    ReachableRefl(g, n);
    forall v | v in visited + {n} ensures RootedAt(g, roots + {n}, v) {
      if v != n {
        assert RootedAt(g, roots, v);
        var r :| r in roots && Reachable(g, r, v);
      }
    }
  }

  /** Every in-grid neighbour of c in the first n directions of ds is visited. */
  ghost predicate ExpandedAlong(g0: Grid, c: int, ds: seq<Direction>, n: int, visited: set<int>)
    requires Valid(g0) && n <= |ds|
  {
    forall j :: 0 <= j < n && Step(g0, c, ds[j]) >= 0 ==> Step(g0, c, ds[j]) in visited
  }

  lemma ExpandedAlongStep(g0: Grid, c: int, ds: seq<Direction>, n: int, visited: set<int>, more: set<int>)
    requires Valid(g0) && 0 <= n < |ds| && ExpandedAlong(g0, c, ds, n, visited) && visited <= more
    requires Step(g0, c, ds[n]) >= 0 ==> Step(g0, c, ds[n]) in more
    ensures ExpandedAlong(g0, c, ds, n + 1, more)
  {
  }

  /** Expanded along every direction is expanded. */
  lemma ExpandedAlongAll(g0: Grid, c: int, ds: seq<Direction>, visited: set<int>)
    requires Valid(g0) && ExpandedAlong(g0, c, ds, |ds|, visited) && forall d: Direction :: d in ds
    ensures Expanded(g0, c, visited)
  {
    forall d ensures Step(g0, c, d) >= 0 ==> Step(g0, c, d) in visited {
      assert d in ds;
      var j :| 0 <= j < |ds| && ds[j] == d;
    }
  }

  /**
   * One carve, in the terms of the carve bookkeeping: removing the wall of (x, z) = c
   * towards its unvisited neighbour n.
   */
  lemma CarveNeighbor(g0: Grid, g: Grid, visited: set<int>, carved: set<Edge>, restarts: nat, roots: set<int>,
                      c: int, x: int, z: int, d: Direction, n: int)
    requires Carving(g0, g, visited, carved, restarts) && Rooted(g, visited, roots) && c in visited
    requires x == PosX(g0, c) && z == PosY(g0, c) && n == Step(g0, c, d) && n >= 0 && n !in visited
    ensures InCell(g0, x, z)
    ensures Carving(g0, RemoveWall(g, x, z, d), visited + {n}, carved + {EdgeOf(x, z, d)}, restarts)
    ensures Rooted(RemoveWall(g, x, z, d), visited + {n}, roots)
  {
    CarveStep(g0, g, visited, carved, restarts, c, d);
    RootedStep(g0, g, visited, roots, c, d);
  }

  /**
   * The body of both generators' `foreach` for one direction d: when the neighbour of
   * `current` = (x, z) passes the `nx`/`ny` range test and is not yet visited,
   * `RemoveWall(x, z, d)` opens the wall to it and it becomes visited. Returns that
   * neighbour, or -1 when nothing changed.
   */
  method TryCarve(g0: Grid, g: Grid, visited: set<int>, current: int, x: int, z: int, d: Direction,
                  ghost carved: set<Edge>, ghost restarts: nat, ghost roots: set<int>)
    returns (g': Grid, visited': set<int>, neighbor: int, ghost carved': set<Edge>)
    requires Carving(g0, g, visited, carved, restarts) && Rooted(g, visited, roots)
    requires current in visited && x == PosX(g0, current) && z == PosY(g0, current)
    ensures InCell(g0, x, z) && Valid(g) && SameShape(g, g0)
    ensures Carving(g0, g', visited', carved', restarts) && Rooted(g', visited', roots)
    ensures Step(g0, current, d) >= 0 ==> Step(g0, current, d) in visited'
    ensures neighbor < 0 ==> g' == g && visited' == visited && carved' == carved
    ensures neighbor >= 0 ==>
      && neighbor == Step(g0, current, d) && neighbor !in visited
      && visited' == visited + {neighbor} && g' == RemoveWall(g, x, z, d)
  {
    g', visited', neighbor, carved' := g, visited, -1, carved;
    assert current in AllCells(g0);
    ValidCellCoords(g0, current);
    PosRoundTrip(g0, current);
    var nx := x + DELTA_X[Ordinal(d)];
    var nz := z + DELTA_Y[Ordinal(d)];
    StepAt(g0, x, z, d);
    if nx >= 0 && nx < g0.width && nz >= 0 && nz < g0.height {
      var n := CellNumber(g0, nx, nz);
      assert n == Step(g0, current, d);
      if n !in visited {
        CarveNeighbor(g0, g, visited, carved, restarts, roots, current, x, z, d, n);
        g' := RemoveWall(g, x, z, d);
        carved' := carved + {EdgeOf(x, z, d)};
        visited' := visited + {n};
        neighbor := n;
      }
    }
  }

  // ---------------------------------------------------------------- the grid is connected

  lemma {:induction false} FillRow(g: Grid, S: set<int>, x: int, z: int, x': int)
    requires Valid(g) && InCell(g, x, z) && 0 <= x' < g.width && CellNumber(g, x, z) in S
    requires forall a, d :: a in S && Step(g, a, d) >= 0 ==> Step(g, a, d) in S
    ensures CellNumber(g, x', z) in S
    decreases Abs(x' - x)
  {
    if x < x' {
      StepAt(g, x, z, East);
      FillRow(g, S, x + 1, z, x');
    } else if x > x' {
      StepAt(g, x, z, West);
      FillRow(g, S, x - 1, z, x');
    }
  }

  lemma {:induction false} FillColumn(g: Grid, S: set<int>, x: int, z: int, z': int)
    requires Valid(g) && InCell(g, x, z) && 0 <= z' < g.height && CellNumber(g, x, z) in S
    requires forall a, d :: a in S && Step(g, a, d) >= 0 ==> Step(g, a, d) in S
    ensures CellNumber(g, x, z') in S
    decreases Abs(z' - z)
  {
    if z < z' {
      StepAt(g, x, z, South);
      FillColumn(g, S, x, z + 1, z');
    } else if z > z' {
      StepAt(g, x, z, North);
      FillColumn(g, S, x, z - 1, z');
    }
  }

  /** A set holding one cell and every in-grid neighbour of each member holds every cell. */
  lemma ClosedUnderStepsIsAll(g: Grid, S: set<int>, c: int)
    requires Valid(g) && ValidCell(g, c) && c in S
    requires forall a, d :: a in S && Step(g, a, d) >= 0 ==> Step(g, a, d) in S
    ensures AllCells(g) <= S
  {
    ValidCellCoords(g, c);
    PosRoundTrip(g, c);
    forall t | t in AllCells(g) ensures t in S {
      ValidCellCoords(g, t);
      PosRoundTrip(g, t);
      FillRow(g, S, PosX(g, c), PosY(g, c), PosX(g, t));
      FillColumn(g, S, PosX(g, t), PosY(g, c), PosY(g, t));
    }
  }

  /**
   * A carve whose visited cells all have every in-grid neighbour visited has visited
   * the whole grid.
   */
  lemma AllExpandedIsAll(g: Grid, visited: set<int>, start: int)
    requires Valid(g) && ValidCell(g, start) && start in visited && visited <= AllCells(g)
    requires forall c :: c in visited ==> Expanded(g, c, visited)
    ensures visited == AllCells(g)
  {
    ClosedUnderStepsIsAll(g, visited, start);
  }
}

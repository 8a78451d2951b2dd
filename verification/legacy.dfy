/**
 * The older standalone `PrimMazeGenerator` (Assets/Maze/PrimMazeGenerator.cs). It keeps
 * its own `northWalls[width, height + 1]` and `westWalls[width + 1, height]`, which have
 * the layout of `Grid`; its `SetWalls` guards the east and south writes, its entry and
 * exit are fixed array entries, and its carve is the stack carve of `DfsMazeGenerator`
 * line for line (same draws, same shuffle, same pushes).
 */
module LegacyPrimMazeGenerator {
  import opened Directions
  import opened CustomGrid
  import opened GridPaths
  import opened MazeCommon
  import DfsMazeGenerator

  /** The entries `SetWalls(x, y, value)` writes. */
  function SetWallsTargets(g: Grid, x: int, y: int): set<Edge>
  {
    {NorthEdge(x, y), WestEdge(x, y)}
    + (if x + 1 < g.width then {WestEdge(x + 1, y)} else {})
    + (if y + 1 < g.height then {NorthEdge(x, y + 1)} else {})
  }

  /**
   * `SetWalls(x, y, value)`: the north and west entries of (x, y) always, the east entry
   * only when x + 1 < width and the south entry only when y + 1 < height. So the
   * column `westWalls[width, *]` and the row `northWalls[*, height]` are never written.
   */
  function SetWalls(g: Grid, x: int, y: int, v: bool): (r: Grid)
    requires Valid(g) && InCell(g, x, y)
    ensures Valid(r) && SameShape(r, g)
    ensures forall e :: InArray(g, e) ==> Read(r, e) == if e in SetWallsTargets(g, x, y) then v else Read(g, e)
    ensures forall z :: 0 <= z < g.height ==> Read(r, WestEdge(g.width, z)) == Read(g, WestEdge(g.width, z))
    ensures forall z :: 0 <= z < g.width ==> Read(r, NorthEdge(z, g.height)) == Read(g, NorthEdge(z, g.height))
  {
    var g1 := Write(g, NorthEdge(x, y), v);
    var g2 := if x + 1 < g.width then Write(g1, WestEdge(x + 1, y), v) else g1;
    var g3 := if y + 1 < g.height then Write(g2, NorthEdge(x, y + 1), v) else g2;
    var r := Write(g3, WestEdge(x, y), v);
    SetWallsChain(g, x, y, v, g1, g2, g3, r);
    r
  }

  /** The four writes of `SetWalls`, one at a time. */
  lemma SetWallsChain(g: Grid, x: int, y: int, v: bool, g1: Grid, g2: Grid, g3: Grid, r: Grid)
    requires Valid(g) && InCell(g, x, y)
    requires g1 == Write(g, NorthEdge(x, y), v)
    requires g2 == if x + 1 < g.width then Write(g1, WestEdge(x + 1, y), v) else g1
    requires g3 == if y + 1 < g.height then Write(g2, NorthEdge(x, y + 1), v) else g2
    requires r == Write(g3, WestEdge(x, y), v)
    ensures Valid(r) && SameShape(r, g)
    ensures forall e :: InArray(g, e) ==> Read(r, e) == if e in SetWallsTargets(g, x, y) then v else Read(g, e)
  {
    forall e | InArray(g, e)
      ensures Read(r, e) == if e in SetWallsTargets(g, x, y) then v else Read(g, e)
    {
      if e !in SetWallsTargets(g, x, y) {
        assert Read(g1, e) == Read(g, e);
        assert Read(g2, e) == Read(g1, e);
        assert Read(g3, e) == Read(g2, e);
      }
    }
  }

  /** The north and west entries of the cells of columns below x, and of column x below y. */
  ghost predicate ClosedUpTo(g: Grid, x: int, y: int)
    requires Valid(g)
  {
    forall x', y' :: InCell(g, x', y') && (x' < x || (x' == x && y' < y)) ==>
      Read(g, NorthEdge(x', y')) && Read(g, WestEdge(x', y'))
  }

  /** One more `SetWalls(x, y, true)` extends the closed prefix past (x, y). */
  lemma ClosingCell(g: Grid, x: int, y: int)
    requires Valid(g) && InCell(g, x, y) && ClosedUpTo(g, x, y)
    ensures ClosedUpTo(SetWalls(g, x, y, true), x, y + 1)
  {
    var r := SetWalls(g, x, y, true);
    forall x', y' | InCell(g, x', y') && (x' < x || (x' == x && y' < y + 1))
      ensures Read(r, NorthEdge(x', y')) && Read(r, WestEdge(x', y'))
    {
      if (x', y') != (x, y) {
      }
    }
  }

  /** With every cell's north and west entries closed, only the far row and column are left. */
  lemma ClosedCellsAndBorders(g: Grid)
    requires Valid(g) && ClosedUpTo(g, g.width, 0)
    requires forall x :: 0 <= x < g.width ==> Read(g, NorthEdge(x, g.height))
    requires forall y :: 0 <= y < g.height ==> Read(g, WestEdge(g.width, y))
    ensures AllWalls(g)
  {
    forall e | InArray(g, e) ensures Read(g, e) {
      match e
      case NorthEdge(x, z) =>
        if z < g.height {
          assert InCell(g, x, z);
        }
      case WestEdge(x, z) =>
        if x < g.width {
          assert InCell(g, x, z);
        }
    }
  }

  /** The nested `for` over the cells with `SetWalls(x, y, true)`. */
  method CloseAllCells(g0: Grid) returns (g: Grid)
    requires Valid(g0)
    ensures Valid(g) && SameShape(g, g0) && ClosedUpTo(g, g.width, 0)
  {
    g := g0;
    for x := 0 to g0.width
      invariant Valid(g) && SameShape(g, g0)
      invariant ClosedUpTo(g, x, 0)
    {
      for y := 0 to g0.height
        invariant Valid(g) && SameShape(g, g0)
        invariant ClosedUpTo(g, x, y)
      {
        ClosingCell(g, x, y);
        g := SetWalls(g, x, y, true);
      }
      NextColumn(g, x);
    }
  }

  lemma NextColumn(g: Grid, x: int)
    requires Valid(g) && ClosedUpTo(g, x, g.height)
    ensures ClosedUpTo(g, x + 1, 0)
  {
    forall x', y' | InCell(g, x', y') && x' < x + 1
      ensures Read(g, NorthEdge(x', y')) && Read(g, WestEdge(x', y'))
    {
      assert x' < x || (x' == x && y' < g.height);
    }
  }

  /** The two border loops: rows 0 and H of `northWalls`, columns 0 and W of `westWalls`. */
  method CloseBorders(g0: Grid) returns (g: Grid)
    requires Valid(g0)
    ensures Valid(g) && SameShape(g, g0)
    ensures forall e :: InArray(g0, e) && Read(g0, e) ==> Read(g, e)
    ensures forall x :: 0 <= x < g.width ==> Read(g, NorthEdge(x, g.height))
    ensures forall y :: 0 <= y < g.height ==> Read(g, WestEdge(g.width, y))
  {
    g := g0;
    for x := 0 to g0.width
      invariant Valid(g) && SameShape(g, g0)
      invariant forall e :: InArray(g0, e) && Read(g0, e) ==> Read(g, e)
      invariant forall x' :: 0 <= x' < x ==> Read(g, NorthEdge(x', g0.height))
    {
      g := Write(g, NorthEdge(x, 0), true);
      g := Write(g, NorthEdge(x, g0.height), true);
    }
    for y := 0 to g0.height
      invariant Valid(g) && SameShape(g, g0)
      invariant forall e :: InArray(g0, e) && Read(g0, e) ==> Read(g, e)
      invariant forall x' :: 0 <= x' < g0.width ==> Read(g, NorthEdge(x', g0.height))
      invariant forall y' :: 0 <= y' < y ==> Read(g, WestEdge(g0.width, y'))
    {
      g := Write(g, WestEdge(0, y), true);
      g := Write(g, WestEdge(g0.width, y), true);
    }
  }

  /**
   * `InitializeWalls`: allocates both arrays (all false), runs `SetWalls(x, y, true)`
   * over every cell, then sets the four borders. Afterwards every entry is a wall.
   */
  method InitializeWalls(width: int, height: int) returns (g: Grid)
    requires width >= 1 && height >= 1
    ensures Valid(g) && g.width == width && g.height == height
    ensures AllWalls(g)
  {
    g := NewGrid(width, height);
    var cells := CloseAllCells(g);
    g := CloseBorders(cells);
    assert ClosedUpTo(g, width, 0) by {
      forall x', y' | InCell(g, x', y') ensures Read(g, NorthEdge(x', y')) && Read(g, WestEdge(x', y')) {
      }
    }
    ClosedCellsAndBorders(g);
  }

  /** `ConfigureEntryAndExit`: opens `northWalls[0, 0]` and `northWalls[width - 1, height]`. */
  function ConfigureEntryAndExit(g: Grid): (r: Grid)
    requires Valid(g)
    ensures Valid(r) && SameShape(r, g)
    ensures !Read(r, NorthEdge(0, 0)) && !Read(r, NorthEdge(g.width - 1, g.height))
    ensures forall e :: InArray(g, e) && e != NorthEdge(0, 0) && e != NorthEdge(g.width - 1, g.height) ==>
      Read(r, e) == Read(g, e)
  {
    var g1 := Write(g, NorthEdge(0, 0), false);
    Write(g1, NorthEdge(g.width - 1, g.height), false)
  }

  /** The entry and the exit are boundary walls: the top of cell (0, 0), the bottom of (W-1, H-1). */
  lemma EntranceEdgesOnBoundary(g: Grid)
    requires Valid(g)
    ensures Boundary(g, NorthEdge(0, 0)) && Boundary(g, NorthEdge(g.width - 1, g.height))
    ensures NorthEdge(0, 0) == EdgeOf(0, 0, North)
    ensures NorthEdge(g.width - 1, g.height) == EdgeOf(g.width - 1, g.height - 1, South)
  {
  }

  /**
   * `GenerateMaze` without the Unity build: `InitializeWalls`, the stack carve from a
   * random start (draws from k), `ConfigureEntryAndExit`. Every cell is reachable from
   * the start, exactly W*H - 1 interior walls are open, and the only openings in the
   * boundary are the entry and the exit.
   */
  method GenerateMaze(width: int, height: int, rng: nat -> nat, k: nat)
    returns (g: Grid, start: int, ghost carved: set<Edge>)
    requires width >= 1 && height >= 1
    ensures Valid(g) && g.width == width && g.height == height
    ensures forall c :: ValidCell(g, c) ==> Reachable(g, start, c)
    ensures forall e :: Interior(g, e) ==> (!Read(g, e) <==> e in carved)
    ensures forall e :: e in carved ==> Interior(g, e)
    ensures |carved| == width * height - 1
    ensures forall e :: Boundary(g, e) ==>
      (!Read(g, e) <==> e == NorthEdge(0, 0) || e == NorthEdge(width - 1, height))
  {
    var g0 := InitializeWalls(width, height);
    var g1;
    var k';
    g1, start, k', carved := DfsMazeGenerator.GenerateRandomizedPrim(g0, rng, k);
    g := ConfigureEntryAndExit(g1);
    EntranceEdgesOnBoundary(g1);
    forall c | ValidCell(g, c) ensures Reachable(g, start, c) {
      ReachableMonotone(g1, g, start, c);
    }
  }
}

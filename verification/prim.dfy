/**
 * `PrimMazeGenerator` (Assets/Scripts/Maze/PrimMazeGenerator.cs): a randomized carve over
 * a queue that stops at the first unvisited neighbour of every dequeued cell, so the
 * queue never holds more than one cell. When the queue runs dry with cells left, growth
 * restarts at a random unvisited cell without carving a wall into it. The result is a
 * spanning forest: one tree per root, W*H - 1 - restarts open interior walls.
 *
 * The same class holds the wall pruner that runs after `ConfigureEntryAndExit`:
 * `RemoveRandomWalls` opens NORTH or WEST walls of random cells, never a boundary wall
 * and never one whose removal would leave a lattice corner without walls.
 */
module PrimMazeGenerator {
  import opened Randomness
  import opened Directions
  import opened CustomGrid
  import opened GridPaths
  import opened MazeCommon

  // ---------------------------------------------------------------- the fallback restart

  /** The cells 0 .. n-1 missing from `visited`, in increasing order. */
  function UnvisitedBelow(visited: set<int>, n: int): (r: seq<int>)
    ensures forall c :: c in r <==> 0 <= c < n && c !in visited
    ensures forall i, j :: 0 <= i < j < |r| ==> r[i] < r[j]
    ensures forall i :: 0 <= i < |r| ==> 0 <= r[i] < n
    decreases n
  {
    if n <= 0 then []
    else if n - 1 in visited then UnvisitedBelow(visited, n - 1)
    else UnvisitedBelow(visited, n - 1) + [n - 1]
  }

  /**
   * `FindRandomUnvisitedCell`: lists the unvisited cells below `totalCells`, picks one
   * with draw k and returns its coordinates; (0, 0) when none is left.
   */
  method FindRandomUnvisitedCell(g: Grid, visited: set<int>, totalCells: int, rng: nat -> nat, k: nat)
    returns (x: int, y: int)
    requires Valid(g)
    ensures |UnvisitedBelow(visited, totalCells)| > 0 ==>
      0 <= x < g.width && CellNumber(g, x, y) == PickedCell(visited, totalCells, rng(k))
    ensures UnvisitedBelow(visited, totalCells) == [] ==> x == 0 && y == 0
  {
    var unvisitedCells := [];
    var i := 0;
    while i < totalCells
      invariant 0 <= i && (totalCells >= 0 ==> i <= totalCells) && (totalCells < 0 ==> i == 0)
      invariant unvisitedCells == UnvisitedBelow(visited, i)
    {
      if i !in visited {
        unvisitedCells := unvisitedCells + [i];
      }
      i := i + 1;
    }
    assert unvisitedCells == UnvisitedBelow(visited, totalCells);
    if |unvisitedCells| > 0 {
      var randomIndex := Range(rng(k), 0, |unvisitedCells|);
      var randomCell := unvisitedCells[randomIndex];
      // `randomCell % width` and `randomCell / width` on a non-negative cell
      assert randomCell == PickedCell(visited, totalCells, rng(k));
      PosRoundTrip(g, randomCell);
      x, y := PosX(g, randomCell), PosY(g, randomCell);
      assert CellNumber(g, x, y) == randomCell;
    } else {
      x, y := 0, 0;
    }
  }

  /** The unvisited cell below n that draw `draw` selects. */
  function PickedCell(visited: set<int>, n: int, draw: nat): (c: int)
    requires |UnvisitedBelow(visited, n)| > 0
    ensures 0 <= c < n && c !in visited
  {
    var u := UnvisitedBelow(visited, n);
    assert u[Range(draw, 0, |u|)] in u;
    u[Range(draw, 0, |u|)]
  }

  /** Something is picked whenever some cell below `totalCells` is unvisited. */
  lemma SomeCellUnvisited(visited: set<int>, totalCells: int, c: int)
    requires 0 <= c < totalCells && c !in visited
    ensures |UnvisitedBelow(visited, totalCells)| > 0
  {
  }

  /** Every unvisited cell is picked by some draw: the fallback can continue anywhere. */
  lemma EveryUnvisitedCellCanBePicked(visited: set<int>, totalCells: int, c: int)
    requires 0 <= c < totalCells && c !in visited
    ensures |UnvisitedBelow(visited, totalCells)| > 0
    ensures exists draw: nat :: PickedCell(visited, totalCells, draw) == c
  {
    var u := UnvisitedBelow(visited, totalCells);
    assert c in u;
    var i :| 0 <= i < |u| && u[i] == c;
    RangeCoversAll(0, |u|, i);
    assert PickedCell(visited, totalCells, i) == c;
  }

  /** Removing a subset removes exactly its number of elements. */
  lemma CardDifference(a: set<int>, b: set<int>)
    requires a <= b
    ensures |b - a| == |b| - |a|
  {
    assert a * b == a;
    assert a + b == b;
    assert a - b == {};
  }

  // ---------------------------------------------------------------- the queue carve

  /**
   * The `foreach` with `break` over the shuffled directions of `current`: the first
   * direction whose in-grid neighbour is unvisited has its wall removed, and that
   * neighbour is returned; every earlier direction's neighbour was already visited. When
   * nothing is carved (-1), every neighbour of `current` is visited and nothing changed.
   */
  method CarveFirstUnvisited(g0: Grid, g: Grid, visited: set<int>, current: int, x: int, z: int,
                             directions: seq<Direction>,
                             ghost carved: set<Edge>, ghost restarts: nat, ghost roots: set<int>)
    returns (g': Grid, visited': set<int>, neighbor: int, ghost carved': set<Edge>, ghost j: int)
    requires Carving(g0, g, visited, carved, restarts) && Rooted(g, visited, roots)
    requires current in visited && x == PosX(g0, current) && z == PosY(g0, current)
    requires forall d: Direction :: d in directions
    ensures Carving(g0, g', visited', carved', restarts) && Rooted(g', visited', roots)
    ensures neighbor < 0 ==> g' == g && visited' == visited && carved' == carved && Expanded(g0, current, visited)
    ensures neighbor >= 0 ==>
      && 0 <= j < |directions| && ExpandedAlong(g0, current, directions, j, visited)
      && neighbor == Step(g0, current, directions[j]) && neighbor !in visited
      && visited' == visited + {neighbor} && InCell(g0, x, z) && g' == RemoveWall(g, x, z, directions[j])
  {
    g', visited', neighbor, carved', j := g, visited, -1, carved, -1;
    for i := 0 to |directions|
      invariant g' == g && visited' == visited && carved' == carved && neighbor < 0
      invariant ExpandedAlong(g0, current, directions, i, visited)
    {
      g', visited', neighbor, carved' := TryCarve(g0, g, visited, current, x, z, directions[i], carved, restarts, roots);
      if neighbor >= 0 {
        j := i;
        break;
      }
      ExpandedAlongStep(g0, current, directions, i, visited, visited);
    }
    if neighbor < 0 {
      ExpandedAlongAll(g0, current, directions, visited);
    }
  }

  /** A fallback restart at an unvisited cell n: n becomes visited and a root of its own. */
  lemma Restart(g0: Grid, g: Grid, visited: set<int>, carved: set<Edge>, restarts: nat, roots: set<int>, n: int)
    requires Carving(g0, g, visited, carved, restarts) && Rooted(g, visited, roots) && ValidCell(g0, n) && n !in visited
    ensures Carving(g0, g, visited + {n}, carved, restarts + 1) && Rooted(g, visited + {n}, roots + {n})
  {
    RestartStep(g0, g, visited, carved, restarts, n);
    RootedRestart(g, visited, roots, n);
  }

  /**
   * The fallback of the carve loop, run when fewer than W*H cells are visited: the cell
   * `FindRandomUnvisitedCell` returns (from draw k) is unvisited, becomes visited and
   * starts a tree of its own.
   */
  method RestartGrowth(g0: Grid, g: Grid, visited: set<int>, totalCells: int, rng: nat -> nat, k: nat,
                       ghost carved: set<Edge>, ghost restarts: nat, ghost roots: set<int>)
    returns (randomCell: int)
    requires Carving(g0, g, visited, carved, restarts) && Rooted(g, visited, roots)
    requires totalCells == GetNumberOfCells(g0) && |visited| < totalCells
    ensures ValidCell(g0, randomCell) && randomCell !in visited
    ensures randomCell == PickedCell(visited, totalCells, rng(k))
    ensures Carving(g0, g, visited + {randomCell}, carved, restarts + 1)
    ensures Rooted(g, visited + {randomCell}, roots + {randomCell})
  {
    assert |AllCells(g0)| == GetNumberOfCells(g0);
    CardDifference(visited, AllCells(g0));
    var c :| c in AllCells(g0) - visited;
    SomeCellUnvisited(visited, totalCells, c);
    var x, y := FindRandomUnvisitedCell(g0, visited, totalCells, rng, k);
    randomCell := x + y * g0.width;
    assert randomCell == CellNumber(g0, x, y);
    Restart(g0, g, visited, carved, restarts, roots, randomCell);
  }

  /** A carve never visits more than the W*H cells. */
  lemma VisitedBounded(g0: Grid, visited: set<int>)
    requires Valid(g0) && visited <= AllCells(g0)
    ensures |visited| <= GetNumberOfCells(g0)
  {
    assert |AllCells(g0)| == GetNumberOfCells(g0);
    CardDifference(visited, AllCells(g0));
  }

  /**
   * The end of the carve: the loop stops only with all W*H cells visited, so every cell
   * is reached from one of the roots.
   */
  lemma ForestCarve(g0: Grid, g: Grid, visited: set<int>, carved: set<Edge>, restarts: nat, roots: set<int>)
    requires Carving(g0, g, visited, carved, restarts) && Rooted(g, visited, roots)
    requires |visited| == GetNumberOfCells(g0)
    ensures Valid(g) && SameShape(g, g0) && FewerWalls(g0, g)
    ensures forall c :: ValidCell(g0, c) ==> exists r :: r in roots && Reachable(g, r, c)
    ensures |carved| == GetNumberOfCells(g0) - 1 - restarts
  {
    assert |AllCells(g0)| == GetNumberOfCells(g0);
    CardDifference(visited, AllCells(g0));
    assert AllCells(g0) - visited == {};
    forall c | ValidCell(g0, c) ensures exists r :: r in roots && Reachable(g, r, c) {
      assert c in visited;
      assert RootedAt(g, roots, c);
    }
    forall e | InArray(g0, e) && !Read(g0, e) ensures !Read(g, e) {
    }
  }

  /** The state of the Prim loop: the carve bookkeeping and a queue of at most one visited cell. */
  ghost predicate PrimSoFar(g0: Grid, g: Grid, visited: set<int>, carved: set<Edge>, restarts: nat,
                            roots: set<int>, queue: seq<int>, start: int)
  {
    && Carving(g0, g, visited, carved, restarts) && Rooted(g, visited, roots)
    && start in roots && roots <= visited && |roots| == restarts + 1
    && |queue| <= 1 && (|queue| == 1 ==> queue[0] in visited)
    && (|queue| == 0 ==> |visited| == GetNumberOfCells(g0))
  }

  /**
   * One pass of the Prim loop: dequeue, carve to the first unvisited neighbour in a
   * shuffled order and enqueue it; with nothing carved, an empty queue and cells left,
   * restart from a random unvisited cell. Either a cell is newly visited or the queue
   * shrinks.
   */
  method PrimStep(g0: Grid, g: Grid, visited: set<int>, queue: seq<int>, rng: nat -> nat, k: nat,
                  ghost carved: set<Edge>, ghost restarts: nat, ghost roots: set<int>, ghost start: int)
    returns (g': Grid, visited': set<int>, queue': seq<int>, k': nat,
             ghost carved': set<Edge>, ghost restarts': nat, ghost roots': set<int>)
    requires |queue| > 0 && PrimSoFar(g0, g, visited, carved, restarts, roots, queue, start)
    ensures PrimSoFar(g0, g', visited', carved', restarts', roots', queue', start)
    ensures visited <= visited' && (visited' == visited ==> |queue'| < |queue|)
  {
    var current := queue[0];
    queue' := queue[1..];
    // `current % width` and `current / width` on a non-negative cell
    var x, y := PosX(g0, current), PosY(g0, current);
    var directions := GetShuffledDirections(rng, k);
    k' := k + 3;
    var neighbor;
    ghost var j;
    g', visited', neighbor, carved', j := CarveFirstUnvisited(g0, g, visited, current, x, y, directions, carved, restarts, roots);
    var hasUnvisitedNeighbor := neighbor >= 0;
    if hasUnvisitedNeighbor {
      queue' := queue' + [neighbor];
    }
    ghost var carvedVisited := visited';
    visited', queue', k', restarts', roots' :=
      MaybeRestart(g0, g', visited', queue', hasUnvisitedNeighbor, rng, k', carved', restarts, roots, start);
  }

  /**
   * The fallback of the Prim loop: when the dequeued cell had no unvisited neighbour, the
   * queue is empty and cells are left, a random unvisited cell is visited and enqueued.
   */
  method MaybeRestart(g0: Grid, g: Grid, visited: set<int>, queue: seq<int>, hasUnvisitedNeighbor: bool,
                      rng: nat -> nat, k: nat, ghost carved: set<Edge>, ghost restarts: nat, ghost roots: set<int>, ghost start: int)
    returns (visited': set<int>, queue': seq<int>, k': nat, ghost restarts': nat, ghost roots': set<int>)
    requires Carving(g0, g, visited, carved, restarts) && Rooted(g, visited, roots)
    requires start in roots && roots <= visited && |roots| == restarts + 1
    requires |queue| <= 1 && (|queue| == 1 ==> queue[0] in visited) && (hasUnvisitedNeighbor ==> |queue| == 1)
    ensures PrimSoFar(g0, g, visited', carved, restarts', roots', queue', start)
    ensures visited <= visited' && (visited' == visited ==> queue' == queue)
    ensures (hasUnvisitedNeighbor || |queue| > 0 || |visited| >= GetNumberOfCells(g0)) ==>
      visited' == visited && queue' == queue && k' == k && restarts' == restarts && roots' == roots
    ensures (!hasUnvisitedNeighbor && |queue| == 0 && |visited| < GetNumberOfCells(g0)) ==>
      |queue'| == 1 && ValidCell(g0, queue'[0]) && queue'[0] !in visited && visited' == visited + {queue'[0]}
      && k' == k + 1 && restarts' == restarts + 1 && roots' == roots + {queue'[0]}
  {
    visited', queue', k', restarts', roots' := visited, queue, k, restarts, roots;
    VisitedBounded(g0, visited);
    if !hasUnvisitedNeighbor && |queue| == 0 && |visited| < GetNumberOfCells(g0) {
      var randomCell := RestartGrowth(g0, g, visited, GetNumberOfCells(g0), rng, k, carved, restarts, roots);
      k' := k + 1;
      queue' := queue + [randomCell];
      visited' := visited + {randomCell};
      restarts', roots' := restarts + 1, roots + {randomCell};
    }
  }

  lemma ShrinkingUnvisited(all: set<int>, visited: set<int>, visited': set<int>)
    requires visited <= visited' <= all && visited' != visited
    ensures all - visited' < all - visited
  {
    assert visited' == all - (all - visited');
    assert visited == all - (all - visited);
  }

  /**
   * `GenerateRandomizedPrim` of the Scripts `PrimMazeGenerator`: the start is drawn from
   * k and k + 1, each dequeued cell shuffles its directions with three more draws, and a
   * fallback restart takes one more. Every cell ends up reached from one of the roots:
   * the start and the `restarts` restart cells. Only interior walls are opened, one per
   * cell that did not start a tree, so the open carved walls form a forest.
   */
  method GenerateRandomizedPrim(g0: Grid, rng: nat -> nat, k: nat)
    returns (g: Grid, start: int, k': nat, ghost carved: set<Edge>, ghost restarts: nat, ghost roots: set<int>)
    requires Valid(g0)
    ensures Valid(g) && SameShape(g, g0) && FewerWalls(g0, g)
    ensures start == RandomStart(g0, rng, k)
    ensures start in roots && roots <= AllCells(g0) && |roots| == restarts + 1
    ensures forall c :: ValidCell(g0, c) ==> exists r :: r in roots && Reachable(g, r, c)
    ensures forall e :: InArray(g0, e) ==> Read(g, e) == (Read(g0, e) && e !in carved)
    ensures forall e :: e in carved ==> Interior(g0, e)
    ensures |carved| == GetNumberOfCells(g0) - 1 - restarts
  {
    start := RandomStart(g0, rng, k);
    k' := k + 2;
    var visited := {start};
    var queue := [start];
    g, carved, restarts, roots := g0, {}, 0, {start};
    CarvingStarts(g0, start);
    while |queue| > 0
      invariant PrimSoFar(g0, g, visited, carved, restarts, roots, queue, start)
      decreases AllCells(g0) - visited, |queue|
    {
      ghost var before := visited;
      g, visited, queue, k', carved, restarts, roots := PrimStep(g0, g, visited, queue, rng, k', carved, restarts, roots, start);
      if visited != before {
        ShrinkingUnvisited(AllCells(g0), before, visited);
      }
    }
    ForestCarve(g0, g, visited, carved, restarts, roots);
  }

  // ---------------------------------------------------------------- lattice corners

  /** A lattice point of the wall arrays: 0 <= x <= W and 0 <= z <= H. */
  predicate InCorner(g: Grid, x: int, z: int)
  {
    0 <= x <= g.width && 0 <= z <= g.height
  }

  /** The array entries that meet at lattice point (x, z): right, left, down, up. */
  function CornerEdges(g: Grid, x: int, z: int): set<Edge>
  {
    set e | e in {NorthEdge(x, z), NorthEdge(x - 1, z), WestEdge(x, z), WestEdge(x, z - 1)} && InArray(g, e)
  }

  /** The walls among the edges meeting at (x, z). */
  function WalledCornerEdges(g: Grid, x: int, z: int): set<Edge>
    requires Valid(g)
  {
    set e | e in CornerEdges(g, x, z) && Read(g, e)
  }

  /**
   * `GetNumCornerWalls(x, z)`: the walls on the right and left of the lattice point,
   * read through NORTH on rows 0 .. H-1 and through SOUTH of the row above on row H, and
   * the walls below and above it, read through WEST on columns 0 .. W-1 and through EAST
   * of the column to the left on column W.
   */
  function GetNumCornerWalls(g: Grid, x: int, z: int): (r: int)
    requires Valid(g) && InCorner(g, x, z)
    ensures 0 <= r <= NUM_DIRECTIONS
  {
    var horizontal :=
      if z < g.height then
        B(x < g.width && GetWall(g, x, z, North)) + B(x > 0 && GetWall(g, x - 1, z, North))
      else
        B(x < g.width && GetWall(g, x, z - 1, South)) + B(x > 0 && GetWall(g, x - 1, z - 1, South));
    var vertical :=
      if x < g.width then
        B(z < g.height && GetWall(g, x, z, West)) + B(z > 0 && GetWall(g, x, z - 1, West))
      else
        B(z < g.height && GetWall(g, x - 1, z, East)) + B(z > 0 && GetWall(g, x - 1, z - 1, East));
    horizontal + vertical
  }

  /** The one-or-none set of e, when e is an existing wall. */
  function WallIf(g: Grid, e: Edge): (s: set<Edge>)
    requires Valid(g)
    ensures s == (if InArray(g, e) && Read(g, e) then {e} else {})
  {
    if InArray(g, e) && Read(g, e) then {e} else {}
  }

  /** Each of the four terms of `GetNumCornerWalls` counts one edge meeting at (x, z). */
  lemma CornerCountTerms(g: Grid, x: int, z: int)
    requires Valid(g) && InCorner(g, x, z)
    ensures GetNumCornerWalls(g, x, z) ==
      |WallIf(g, NorthEdge(x, z))| + |WallIf(g, NorthEdge(x - 1, z))|
      + |WallIf(g, WestEdge(x, z))| + |WallIf(g, WestEdge(x, z - 1))|
  {
  }

  /** Four pairwise disjoint sets: the size of the union is the sum of the sizes. */
  lemma CardDisjointUnion(a: set<Edge>, b: set<Edge>, c: set<Edge>, d: set<Edge>)
    requires a !! b && a !! c && a !! d && b !! c && b !! d && c !! d
    ensures |a + b + c + d| == |a| + |b| + |c| + |d|
  {
    assert |a + b| == |a| + |b| by { assert a * b == {}; }
    assert |a + b + c| == |a + b| + |c| by { assert (a + b) * c == {}; }
    assert |a + b + c + d| == |a + b + c| + |d| by { assert (a + b + c) * d == {}; }
  }

  /** `GetNumCornerWalls` counts exactly the walls meeting at the lattice point. */
  lemma CornerWallsCount(g: Grid, x: int, z: int)
    requires Valid(g) && InCorner(g, x, z)
    ensures GetNumCornerWalls(g, x, z) == |WalledCornerEdges(g, x, z)|
  {
    var a, b, c, d := WallIf(g, NorthEdge(x, z)), WallIf(g, NorthEdge(x - 1, z)),
      WallIf(g, WestEdge(x, z)), WallIf(g, WestEdge(x, z - 1));
    CornerCountTerms(g, x, z);
    WalledAsUnion(g, x, z);
    CardDisjointUnion(a, b, c, d);
  }

  lemma WalledAsUnion(g: Grid, x: int, z: int)
    requires Valid(g)
    ensures WalledCornerEdges(g, x, z) ==
      WallIf(g, NorthEdge(x, z)) + WallIf(g, NorthEdge(x - 1, z)) + WallIf(g, WestEdge(x, z)) + WallIf(g, WestEdge(x, z - 1))
  {
    forall e ensures e in WalledCornerEdges(g, x, z) <==>
      e in WallIf(g, NorthEdge(x, z)) + WallIf(g, NorthEdge(x - 1, z)) + WallIf(g, WestEdge(x, z)) + WallIf(g, WestEdge(x, z - 1))
    {
      assert e in CornerEdges(g, x, z) <==>
        InArray(g, e) && (e == NorthEdge(x, z) || e == NorthEdge(x - 1, z) || e == WestEdge(x, z) || e == WestEdge(x, z - 1));
    }
  }

  /** The two lattice points a wall runs between. */
  predicate IsEndpoint(e: Edge, x: int, z: int)
  {
    match e
    case NorthEdge(ex, ez) => (x == ex || x == ex + 1) && z == ez
    case WestEdge(ex, ez) => x == ex && (z == ez || z == ez + 1)
  }

  /** A wall meets a lattice point exactly when the point is one of its ends. */
  lemma CornerEdgesAreEndpoints(g: Grid, x: int, z: int, e: Edge)
    ensures e in CornerEdges(g, x, z) <==> InArray(g, e) && IsEndpoint(e, x, z)
  {
  }

  /**
   * Opening one wall e takes one wall away from each of its two ends and leaves every
   * other lattice point's count as it was.
   */
  lemma OpeningCountsAtCorner(g: Grid, r: Grid, e: Edge, x: int, z: int)
    requires Valid(g) && Valid(r) && SameShape(r, g) && InArray(g, e) && Read(g, e) && !Read(r, e)
    requires forall e' :: InArray(g, e') && e' != e ==> Read(r, e') == Read(g, e')
    requires InCorner(g, x, z)
    ensures GetNumCornerWalls(r, x, z) ==
      GetNumCornerWalls(g, x, z) - (if IsEndpoint(e, x, z) then 1 else 0)
  {
    CornerWallsCount(g, x, z);
    CornerWallsCount(r, x, z);
    CornerEdgesAreEndpoints(g, x, z, e);
    assert CornerEdges(r, x, z) == CornerEdges(g, x, z);
    if IsEndpoint(e, x, z) {
      assert WalledCornerEdges(r, x, z) == WalledCornerEdges(g, x, z) - {e};
    } else {
      assert WalledCornerEdges(r, x, z) == WalledCornerEdges(g, x, z);
    }
  }

  // ---------------------------------------------------------------- the wall pruner

  /** Whether a wall was opened, and the grid afterwards. */
  datatype Attempt = Attempt(success: bool, grid: Grid)

  /**
   * `TryOpenWallWithoutCreatingEmptyCorner(cell, direction, deltaX, deltaZ)`: opens the
   * wall on side `direction` of `cell` when it is closed, leads to a cell of the grid,
   * and both lattice points (x, z) and (x + deltaX, z + deltaZ) have more than one wall.
   * The second point is read only when the earlier tests pass.
   */
  function TryOpenWallWithoutCreatingEmptyCorner(g: Grid, cell: int, d: Direction, dx: int, dz: int): (r: Attempt)
    requires Valid(g) && ValidCell(g, cell)
    requires var x, z := PosX(g, cell), PosY(g, cell);
      (InCell(g, x, z) && GetWall(g, x, z, d) && GetDirectNeighbor(g, x, z, d) >= 0
       && GetNumCornerWalls(g, x, z) > 1) ==> InCorner(g, x + dx, z + dz)
    ensures var x, z := PosX(g, cell), PosY(g, cell);
      InCell(g, x, z) && Valid(r.grid) && SameShape(r.grid, g)
      && (r.success ==> Interior(g, EdgeOf(x, z, d)) && Read(g, EdgeOf(x, z, d)) && !Read(r.grid, EdgeOf(x, z, d)))
      && (forall e :: InArray(g, e) && e != EdgeOf(x, z, d) ==> Read(r.grid, e) == Read(g, e))
      && (!r.success ==> r.grid == g)
  {
    ValidCellCoords(g, cell);
    var cellX, cellZ := PosX(g, cell), PosY(g, cell);
    CellEdgesInArray(g, cellX, cellZ, d);
    if GetWall(g, cellX, cellZ, d) then
      var neighbor := GetDirectNeighbor(g, cellX, cellZ, d);
      if neighbor >= 0 && GetNumCornerWalls(g, cellX, cellZ) > 1 && GetNumCornerWalls(g, cellX + dx, cellZ + dz) > 1 then
        OpenClosedInterior(g, cellX, cellZ, d);
        Attempt(true, SetWall(g, cellX, cellZ, d, false))
      else
        Attempt(false, g)
    else
      Attempt(false, g)
  }

  /** Opening a closed wall between two cells of the grid opens exactly that interior wall. */
  lemma OpenClosedInterior(g: Grid, x: int, z: int, d: Direction)
    requires Valid(g) && InCell(g, x, z) && InCell(g, x + DeltaX(d), z + DeltaY(d)) && GetWall(g, x, z, d)
    ensures var h := SetWall(g, x, z, d, false);
      && Valid(h) && SameShape(h, g)
      && Interior(g, EdgeOf(x, z, d)) && Read(g, EdgeOf(x, z, d)) && !Read(h, EdgeOf(x, z, d))
      && (forall e :: InArray(g, e) && e != EdgeOf(x, z, d) ==> Read(h, e) == Read(g, e))
  {
    EdgeOfEnds(g, x, z, d);
  }

  /** Every lattice point that had a wall in g still has one in h. */
  ghost predicate CornersKeptWalled(g: Grid, h: Grid)
    requires Valid(g) && Valid(h) && SameShape(g, h)
  {
    forall x, z :: InCorner(g, x, z) && GetNumCornerWalls(g, x, z) > 0 ==> GetNumCornerWalls(h, x, z) > 0
  }

  /** h is g with the one closed interior wall e opened. */
  ghost predicate OpensOnly(g: Grid, h: Grid, e: Edge)
  {
    && Valid(g) && Valid(h) && SameShape(g, h) && Interior(g, e)
    && Read(g, e) && !Read(h, e)
    && forall e' :: InArray(g, e') && e' != e ==> Read(h, e') == Read(g, e')
  }

  /**
   * The attempt opens the wall exactly when it is closed, lies between two cells of the
   * grid, and both lattice points it checks have more than one wall.
   */
  lemma TryOpenSucceedsIff(g: Grid, cell: int, d: Direction, dx: int, dz: int)
    requires Valid(g) && ValidCell(g, cell)
    requires var x, z := PosX(g, cell), PosY(g, cell);
      (InCell(g, x, z) && GetWall(g, x, z, d) && GetDirectNeighbor(g, x, z, d) >= 0
       && GetNumCornerWalls(g, x, z) > 1) ==> InCorner(g, x + dx, z + dz)
    ensures var x, z := PosX(g, cell), PosY(g, cell);
      var e := EdgeOf(x, z, d);
      InCell(g, x, z) && InCorner(g, x, z) && InArray(g, e)
      && (TryOpenWallWithoutCreatingEmptyCorner(g, cell, d, dx, dz).success <==>
        Read(g, e) && Interior(g, e) && GetNumCornerWalls(g, x, z) > 1
        && InCorner(g, x + dx, z + dz) && GetNumCornerWalls(g, x + dx, z + dz) > 1)
  {
    var x, z := PosX(g, cell), PosY(g, cell);
    ValidCellCoords(g, cell);
    CellEdgesInArray(g, x, z, d);
    InteriorIffNeighbour(g, x, z, d);
    var e := EdgeOf(x, z, d);
    assert GetWall(g, x, z, d) == Read(g, e);
    var r := TryOpenWallWithoutCreatingEmptyCorner(g, cell, d, dx, dz);
    if !Read(g, e) || !Interior(g, e) || GetNumCornerWalls(g, x, z) <= 1 {
      assert !r.success;
    } else {
      assert InCorner(g, x + dx, z + dz);
      assert r.success <==> GetNumCornerWalls(g, x + dx, z + dz) > 1;
    }
  }

  /** A side of a grid cell is an interior wall exactly when `GetDirectNeighbor` finds a cell there. */
  lemma InteriorIffNeighbour(g: Grid, x: int, z: int, d: Direction)
    requires InCell(g, x, z)
    ensures Interior(g, EdgeOf(x, z, d)) <==> GetDirectNeighbor(g, x, z, d) >= 0
  {
    assert Interior(g, EdgeOf(x, z, d)) <==> InCell(g, x + DeltaX(d), z + DeltaY(d));
  }

  /**
   * Opening the NORTH wall with the corner offset (1, 0), or the WEST wall with (0, 1),
   * checks exactly the two ends of that wall, so no lattice point loses its last wall.
   */
  lemma TryOpenKeepsCornersWalled(g: Grid, cell: int, d: Direction, dx: int, dz: int)
    requires Valid(g) && ValidCell(g, cell)
    requires (d == North && dx == 1 && dz == 0) || (d == West && dx == 0 && dz == 1)
    ensures var r := TryOpenWallWithoutCreatingEmptyCorner(g, cell, d, dx, dz);
      CornersKeptWalled(g, r.grid) && (r.success ==> OpensOnly(g, r.grid, EdgeOf(PosX(g, cell), PosY(g, cell), d)))
  {
    var x, z := PosX(g, cell), PosY(g, cell);
    var r := TryOpenWallWithoutCreatingEmptyCorner(g, cell, d, dx, dz);
    TryOpenSucceedsIff(g, cell, d, dx, dz);
    AttemptKeepsCornersWalled(g, r, x, z, d, dx, dz);
  }

  /** The facts about one attempt that the two cases of `TryOpenKeepsCornersWalled` need. */
  lemma AttemptKeepsCornersWalled(g: Grid, r: Attempt, x: int, z: int, d: Direction, dx: int, dz: int)
    requires (d == North && dx == 1 && dz == 0) || (d == West && dx == 0 && dz == 1)
    requires Valid(g) && Valid(r.grid) && SameShape(r.grid, g) && InCorner(g, x, z)
    requires r.success ==> Interior(g, EdgeOf(x, z, d)) && Read(g, EdgeOf(x, z, d)) && !Read(r.grid, EdgeOf(x, z, d))
    requires forall e :: InArray(g, e) && e != EdgeOf(x, z, d) ==> Read(r.grid, e) == Read(g, e)
    requires !r.success ==> r.grid == g
    requires r.success ==>
      GetNumCornerWalls(g, x, z) > 1 && InCorner(g, x + dx, z + dz) && GetNumCornerWalls(g, x + dx, z + dz) > 1
    ensures CornersKeptWalled(g, r.grid) && (r.success ==> OpensOnly(g, r.grid, EdgeOf(x, z, d)))
  {
    if r.success {
      BusyOpening(g, r.grid, x, z, d, dx, dz);
    } else {
      CornersKeptWalledRefl(g);
    }
  }

  lemma CornersKeptWalledRefl(g: Grid)
    requires Valid(g)
    ensures CornersKeptWalled(g, g)
  {
  }

  /** Opening a cell's north or west wall whose two ends are busy keeps every lattice point walled. */
  lemma BusyOpening(g: Grid, h: Grid, x: int, z: int, d: Direction, dx: int, dz: int)
    requires (d == North && dx == 1 && dz == 0) || (d == West && dx == 0 && dz == 1)
    requires Valid(g) && Valid(h) && SameShape(h, g)
    requires Interior(g, EdgeOf(x, z, d)) && Read(g, EdgeOf(x, z, d)) && !Read(h, EdgeOf(x, z, d))
    requires forall e :: InArray(g, e) && e != EdgeOf(x, z, d) ==> Read(h, e) == Read(g, e)
    requires InCorner(g, x, z) && GetNumCornerWalls(g, x, z) > 1
    requires InCorner(g, x + dx, z + dz) && GetNumCornerWalls(g, x + dx, z + dz) > 1
    ensures OpensOnly(g, h, EdgeOf(x, z, d)) && CornersKeptWalled(g, h)
  {
    EndsOfNorthOrWest(x, z, d, dx, dz);
    OpeningAtBusyEnds(g, h, EdgeOf(x, z, d), x, z, x + dx, z + dz);
  }

  /** The ends of a cell's north wall are its corner and the one at (1, 0); of its west wall, at (0, 1). */
  lemma EndsOfNorthOrWest(x: int, z: int, d: Direction, dx: int, dz: int)
    requires (d == North && dx == 1 && dz == 0) || (d == West && dx == 0 && dz == 1)
    ensures forall cx, cz :: IsEndpoint(EdgeOf(x, z, d), cx, cz) ==> (cx, cz) == (x, z) || (cx, cz) == (x + dx, z + dz)
  {
  }

  /** Opening a wall whose two ends have more than one wall each empties no lattice point. */
  lemma OpeningAtBusyEnds(g: Grid, h: Grid, e: Edge, ax: int, az: int, bx: int, bz: int)
    requires OpensOnly(g, h, e)
    requires forall x, z :: IsEndpoint(e, x, z) ==> (x, z) == (ax, az) || (x, z) == (bx, bz)
    requires InCorner(g, ax, az) && GetNumCornerWalls(g, ax, az) > 1
    requires InCorner(g, bx, bz) && GetNumCornerWalls(g, bx, bz) > 1
    ensures CornersKeptWalled(g, h)
  {
    forall cx, cz | InCorner(g, cx, cz) && GetNumCornerWalls(g, cx, cz) > 0
      ensures GetNumCornerWalls(h, cx, cz) > 0
    {
      OpeningCountsAtCorner(g, h, e, cx, cz);
    }
  }

  /**
   * `TryToOpenNorthOrWestWallOf(cell)`: draw k picks the order, NORTH then WEST or WEST
   * then NORTH; the second is tried only when the first fails.
   */
  function TryToOpenNorthOrWestWallOf(g: Grid, cell: int, rng: nat -> nat, k: nat): (r: Attempt)
    requires Valid(g) && ValidCell(g, cell)
    ensures Valid(r.grid) && SameShape(r.grid, g)
    ensures r.success <==>
      TryOpenWallWithoutCreatingEmptyCorner(g, cell, North, 1, 0).success
      || TryOpenWallWithoutCreatingEmptyCorner(g, cell, West, 0, 1).success
    ensures r.success ==>
      OpensOnly(g, r.grid, EdgeOf(PosX(g, cell), PosY(g, cell), North))
      || OpensOnly(g, r.grid, EdgeOf(PosX(g, cell), PosY(g, cell), West))
    ensures !r.success ==> r.grid == g
    ensures CornersKeptWalled(g, r.grid)
  {
    ValidCellCoords(g, cell);
    TryOpenKeepsCornersWalled(g, cell, North, 1, 0);
    TryOpenKeepsCornersWalled(g, cell, West, 0, 1);
    if Range(rng(k), 0, 2) == 1 then
      var north := TryOpenWallWithoutCreatingEmptyCorner(g, cell, North, 1, 0);
      if !north.success then TryOpenWallWithoutCreatingEmptyCorner(g, cell, West, 0, 1) else north
    else
      var west := TryOpenWallWithoutCreatingEmptyCorner(g, cell, West, 0, 1);
      if !west.success then TryOpenWallWithoutCreatingEmptyCorner(g, cell, North, 1, 0) else west
  }

  /**
   * The pruner's bookkeeping: the walls opened so far were closed interior walls of g0,
   * every other wall is as it was, and no lattice point lost its last wall.
   */
  ghost predicate Pruned(g0: Grid, g: Grid, removed: set<Edge>)
  {
    && Valid(g0) && Valid(g) && SameShape(g, g0)
    && (forall e :: InArray(g0, e) ==> Read(g, e) == (Read(g0, e) && e !in removed))
    && (forall e :: e in removed ==> Interior(g0, e) && Read(g0, e))
    && CornersKeptWalled(g0, g)
  }

  lemma CornersKeptWalledTrans(f: Grid, g: Grid, h: Grid)
    requires Valid(f) && Valid(g) && Valid(h) && SameShape(f, g) && SameShape(g, h)
    requires CornersKeptWalled(f, g) && CornersKeptWalled(g, h)
    ensures CornersKeptWalled(f, h)
  {
    forall x, z | InCorner(f, x, z) && GetNumCornerWalls(f, x, z) > 0 ensures GetNumCornerWalls(h, x, z) > 0 {
      assert GetNumCornerWalls(g, x, z) > 0;
    }
  }

  /** One more successful attempt: one more wall, new to the removed set. */
  lemma PrunedStep(g0: Grid, g: Grid, removed: set<Edge>, h: Grid, e: Edge)
    requires Pruned(g0, g, removed) && OpensOnly(g, h, e) && CornersKeptWalled(g, h)
    ensures e !in removed && Pruned(g0, h, removed + {e})
  {
    CornersKeptWalledTrans(g0, g, h);
  }

  /** The pruner only opens walls, and never one on the boundary. */
  lemma PrunedOnlyOpensInterior(g0: Grid, g: Grid, removed: set<Edge>)
    requires Pruned(g0, g, removed)
    ensures FewerWalls(g0, g)
    ensures forall e :: Boundary(g0, e) ==> Read(g, e) == Read(g0, e)
  {
  }

  /**
   * `RemoveRandomWalls(n)`: at most n * n attempts, each drawing a cell (draw k') and an
   * order (draw k' + 1), until n walls are opened. `removed` is the count the log message
   * reports. The grid changes in exactly `removed` walls, all of them closed interior
   * walls before, and no lattice point is left without a wall.
   */
  method RemoveRandomWalls(g0: Grid, n: int, rng: nat -> nat, k: nat)
    returns (g: Grid, k': nat, removed: int, ghost attempts: nat, ghost removedWalls: set<Edge>)
    requires Valid(g0)
    ensures Pruned(g0, g, removedWalls) && FewerWalls(g0, g)
    ensures forall e :: Boundary(g0, e) ==> Read(g, e) == Read(g0, e)
    ensures |removedWalls| == removed && 0 <= removed && (n > 0 ==> removed <= n)
    ensures n <= 0 ==> g == g0 && removed == 0 && attempts == 0
    ensures n > 0 ==> attempts <= n * n && (removed < n ==> attempts == n * n)
    ensures k' == k + 2 * attempts
  {
    var maxAttempts := n * n;
    ghost var budget := maxAttempts;
    var wallsToOpen := n;
    g, k', attempts, removedWalls := g0, k, 0, {};
    while wallsToOpen > 0 && maxAttempts > 0
      invariant Pruned(g0, g, removedWalls)
      invariant |removedWalls| == n - wallsToOpen && (n > 0 ==> 0 <= wallsToOpen <= n)
      invariant n <= 0 ==> g == g0 && wallsToOpen == n && attempts == 0
      invariant budget >= 0 ==> maxAttempts >= 0
      invariant maxAttempts + attempts == budget && k' == k + 2 * attempts
      decreases maxAttempts
    {
      var success;
      g, success, removedWalls := PruneOnce(g0, g, removedWalls, rng, k');
      if success {
        wallsToOpen := wallsToOpen - 1;
      }
      k' := k' + 2;
      attempts := attempts + 1;
      maxAttempts := maxAttempts - 1;
    }
    removed := n - wallsToOpen;
    if n <= 0 {
      assert removedWalls == {};
    }
    PrunedOnlyOpensInterior(g0, g, removedWalls);
  }

  /** One attempt of the pruner's loop: a cell from draw k, the order from draw k + 1. */
  method PruneOnce(g0: Grid, g: Grid, ghost removedWalls: set<Edge>, rng: nat -> nat, k: nat)
    returns (h: Grid, success: bool, ghost removedWalls': set<Edge>)
    requires Pruned(g0, g, removedWalls)
    ensures Pruned(g0, h, removedWalls')
    ensures success ==> removedWalls <= removedWalls' && |removedWalls'| == |removedWalls| + 1
    ensures success ==> exists e :: e in removedWalls' && e !in removedWalls && removedWalls' == removedWalls + {e}
    ensures !success ==> h == g && removedWalls' == removedWalls
  {
    var cell := Next(rng(k), GetNumberOfCells(g));
    var attempt := TryToOpenNorthOrWestWallOf(g, cell, rng, k + 1);
    h, success := attempt.grid, attempt.success;
    removedWalls' := AttemptBookkeeping(g0, g, removedWalls, cell, rng, k + 1);
  }

  /** The wall a successful attempt opened joins the removed set; a failed one changes nothing. */
  lemma AttemptBookkeeping(g0: Grid, g: Grid, removed: set<Edge>, cell: int, rng: nat -> nat, k: nat)
    returns (removed': set<Edge>)
    requires Pruned(g0, g, removed) && ValidCell(g, cell)
    ensures Pruned(g0, TryToOpenNorthOrWestWallOf(g, cell, rng, k).grid, removed')
    ensures TryToOpenNorthOrWestWallOf(g, cell, rng, k).success ==> removed <= removed' && |removed'| == |removed| + 1
    ensures TryToOpenNorthOrWestWallOf(g, cell, rng, k).success ==>
      exists e :: e in removed' && e !in removed && removed' == removed + {e}
    ensures !TryToOpenNorthOrWestWallOf(g, cell, rng, k).success ==>
      TryToOpenNorthOrWestWallOf(g, cell, rng, k).grid == g && removed' == removed
  {
    var attempt := TryToOpenNorthOrWestWallOf(g, cell, rng, k);
    removed' := removed;
    if attempt.success {
      ValidCellCoords(g, cell);
      var x, z := PosX(g, cell), PosY(g, cell);
      var e := if OpensOnly(g, attempt.grid, EdgeOf(x, z, North)) then EdgeOf(x, z, North) else EdgeOf(x, z, West);
      PrunedStep(g0, g, removed, attempt.grid, e);
      removed' := removed + {e};
    }
  }
}

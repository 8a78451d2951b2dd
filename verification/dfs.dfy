/**
 * `DfsMazeGenerator` (Assets/Scripts/Maze/DfsMazeGenerator.cs): a randomized depth-first
 * carve over a stack. Every cell popped from the stack opens the wall to each of its
 * in-grid neighbours not yet visited, in a shuffled direction order, and pushes them.
 * Starting from a grid whose every wall is closed, the open interior walls are exactly
 * the W*H - 1 carved ones, and every cell is reachable from the start: a spanning tree.
 */
module DfsMazeGenerator {
  import opened Randomness
  import opened Directions
  import opened CustomGrid
  import opened GridPaths
  import opened MazeCommon

  /** The cells a stack holds. */
  function Elements(s: seq<int>): set<int>
  {
    set c | c in s
  }

  /** Pushing a cell adds exactly that cell to the cells the stack holds. */
  lemma ElementsAppend(s: seq<int>, c: int)
    ensures Elements(s + [c]) == Elements(s) + {c}
  {
    assert forall x :: x in s + [c] <==> x in s || x == c;
  }

  /** Every visited cell still waits on the stack or has had all its neighbours visited. */
  ghost predicate Frontier(g0: Grid, stack: seq<int>, visited: set<int>)
    requires Valid(g0)
  {
    forall c {:trigger Expanded(g0, c, visited)} :: c in visited ==> c in Elements(stack) || Expanded(g0, c, visited)
  }

  /**
   * The `foreach` over the shuffled directions of the popped cell `current`: each
   * in-grid neighbour not yet visited has the wall to it removed, is marked visited and
   * pushed. The carve bookkeeping is kept, the cells pushed are exactly the newly visited
   * ones, and afterwards every neighbour of `current` is visited.
   */
  method VisitNeighbors(g0: Grid, g: Grid, visited: set<int>, current: int,
                        directions: seq<Direction>, ghost carved: set<Edge>, ghost start: int)
    returns (g': Grid, visited': set<int>, pushed: seq<int>, ghost carved': set<Edge>)
    requires Carving(g0, g, visited, carved, 0) && Rooted(g, visited, {start})
    requires current in visited && forall d: Direction :: d in directions
    ensures Carving(g0, g', visited', carved', 0) && Rooted(g', visited', {start})
    ensures visited' == visited + Elements(pushed) && visited !! Elements(pushed)
    ensures Expanded(g0, current, visited')
  {
    var x := PosX(g0, current);
    var y := PosY(g0, current);
    g', visited', pushed, carved' := g, visited, [], carved;
    for i := 0 to |directions|
      invariant Carving(g0, g', visited', carved', 0) && Rooted(g', visited', {start})
      invariant visited' == visited + Elements(pushed) && visited !! Elements(pushed)
      invariant ExpandedAlong(g0, current, directions, i, visited')
    {
      ghost var seen := visited';
      var neighbor;
      g', visited', neighbor, carved' := TryCarve(g0, g', visited', current, x, y, directions[i], carved', 0, {start});
      if neighbor >= 0 {
        ElementsAppend(pushed, neighbor);
        pushed := pushed + [neighbor];
      }
      ExpandedAlongStep(g0, current, directions, i, seen, visited');
    }
    ExpandedAlongAll(g0, current, directions, visited');
  }

  /**
   * Popping the top of `stack` and pushing the cells its visit marked keeps every
   * visited cell on the stack or expanded; when something was pushed, fewer cells remain
   * unvisited.
   */
  lemma FrontierAfterVisit(g0: Grid, stack: seq<int>, before: set<int>, visited: set<int>, pushed: seq<int>)
    requires Valid(g0) && |stack| > 0 && Frontier(g0, stack, before) && Elements(stack) <= before
    requires visited == before + Elements(pushed) && before !! Elements(pushed) && visited <= AllCells(g0)
    requires Expanded(g0, stack[|stack| - 1], visited)
    ensures Frontier(g0, stack[..|stack| - 1] + pushed, visited) && Elements(stack[..|stack| - 1] + pushed) <= visited
    ensures pushed != [] ==> AllCells(g0) - visited < AllCells(g0) - before
  {
    var rest, current := stack[..|stack| - 1], stack[|stack| - 1];
    assert stack == rest + [current];
    assert Elements(rest + pushed) == Elements(rest) + Elements(pushed);
    assert Elements(rest + [current]) == Elements(rest) + {current};
    forall c | c in visited ensures c in Elements(rest + pushed) || Expanded(g0, c, visited) {
      if c in before && c !in Elements(rest) && c != current {
        assert Expanded(g0, c, before);
      }
    }
    if pushed != [] {
      assert pushed[0] in (AllCells(g0) - before) - (AllCells(g0) - visited);
    }
  }

  /**
   * A finished carve: every visited cell expanded. Then every cell is visited and
   * reachable from the start, and W*H - 1 interior walls were opened.
   */
  lemma SpanningCarve(g0: Grid, g: Grid, visited: set<int>, carved: set<Edge>, start: int)
    requires Carving(g0, g, visited, carved, 0) && Rooted(g, visited, {start}) && start in visited
    requires Frontier(g0, [], visited)
    ensures Valid(g) && SameShape(g, g0) && FewerWalls(g0, g)
    ensures forall c :: ValidCell(g0, c) ==> Reachable(g, start, c)
    ensures forall e :: InArray(g0, e) ==> Read(g, e) == (Read(g0, e) && e !in carved)
    ensures forall e :: e in carved ==> Interior(g0, e)
    ensures |carved| == GetNumberOfCells(g0) - 1
  {
    assert start in AllCells(g0);
    forall c | c in visited ensures Expanded(g0, c, visited) {
      assert c !in Elements([]);
    }
    AllExpandedIsAll(g0, visited, start);
    assert |AllCells(g0)| == GetNumberOfCells(g0);
    forall c | ValidCell(g0, c) ensures Reachable(g, start, c) {
      assert c in AllCells(g0);
      assert RootedAt(g, {start}, c);
    }
    forall e | InArray(g0, e) && !Read(g0, e) ensures !Read(g, e) {
    }
  }

  /**
   * `GenerateRandomizedPrim` of `DfsMazeGenerator`: the start is drawn from k and k + 1,
   * each popped cell shuffles its directions with three more draws. `k'` is the next
   * unused draw. The carve visits every cell, opens only interior walls, one per newly
   * visited cell, and leaves every cell reachable from the start.
   */
  method GenerateRandomizedPrim(g0: Grid, rng: nat -> nat, k: nat)
    returns (g: Grid, start: int, k': nat, ghost carved: set<Edge>)
    requires Valid(g0)
    ensures Valid(g) && SameShape(g, g0) && FewerWalls(g0, g)
    ensures start == RandomStart(g0, rng, k)
    ensures forall c :: ValidCell(g0, c) ==> Reachable(g, start, c)
    ensures forall e :: InArray(g0, e) ==> Read(g, e) == (Read(g0, e) && e !in carved)
    ensures forall e :: e in carved ==> Interior(g0, e)
    ensures |carved| == GetNumberOfCells(g0) - 1
  {
    start := RandomStart(g0, rng, k);
    k' := k + 2;
    var visited := {start};
    var stack := [start];
    g, carved := g0, {};
    CarvingStarts(g0, start);
    while |stack| > 0
      invariant Carving(g0, g, visited, carved, 0) && Rooted(g, visited, {start})
      invariant start in visited
      invariant Elements(stack) <= visited && Frontier(g0, stack, visited)
      decreases AllCells(g0) - visited, |stack|
    {
      var current := stack[|stack| - 1];
      var directions := GetShuffledDirections(rng, k');
      k' := k' + 3;
      ghost var before := visited;
      var pushed;
      g, visited, pushed, carved := VisitNeighbors(g0, g, visited, current, directions, carved, start);
      FrontierAfterVisit(g0, stack, before, visited, pushed);
      stack := stack[..|stack| - 1] + pushed;
    }
    SpanningCarve(g0, g, visited, carved, start);
  }
}

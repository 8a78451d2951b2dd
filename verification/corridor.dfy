/**
 * `CustomGrid.GetNeighbors`: the corridor-collapsing walk that reports, for each open
 * direction of a cell, the cell where the passage ends. Cells with exactly two walls
 * are passed through; when such a cell blocks the original direction, the walk turns
 * to a perpendicular direction and alternates between the two.
 *
 * The turn phase is guarded by the value `nextNeighbor` had at the end of the straight
 * phase, not by the neighbour it is about to enter (the source tests the stale variable).
 * Two consequences are kept: the turn is never taken at a cell whose straight-ahead step
 * leaves the grid, and inside the turn phase an open boundary wall lets the walk step to
 * index -1, where the source's next array access fails. That failure is `SteppedOff`.
 */
module CorridorGraph {
  import opened Wrappers
  import opened Directions
  import opened CustomGrid
  import opened GridPaths

  /** How far along direction d a cell lies; each step in d adds one. */
  function Progress(g: Grid, c: int, d: Direction): int
    requires g.width > 0
  {
    match d
    case North => -PosY(g, c)
    case East => PosX(g, c)
    case South => PosY(g, c)
    case West => -PosX(g, c)
  }

  lemma ProgressOpposite(g: Grid, c: int, d: Direction)
    requires g.width > 0
    ensures Progress(g, c, Opposite(d)) == -Progress(g, c, d)
  {
  }

  lemma ProgressBound(g: Grid, c: int, d: Direction)
    requires Valid(g) && ValidCell(g, c)
    ensures -(g.width + g.height) < Progress(g, c, d) < g.width + g.height
  {
    ValidCellCoords(g, c);
  }

  /** A step in d advances d by one and leaves the perpendicular progress unchanged. */
  lemma StepProgress(g: Grid, c: int, d: Direction)
    requires Valid(g) && ValidCell(g, c) && Step(g, c, d) >= 0
    ensures Progress(g, Step(g, c, d), d) == Progress(g, c, d) + 1
    ensures Progress(g, Step(g, c, d), Clockwise(d)) == Progress(g, c, Clockwise(d))
    ensures Progress(g, Step(g, c, d), CounterClockwise(d)) == Progress(g, c, CounterClockwise(d))
  {
    StepCoords(g, c, d);
  }

  /** The loop guard of every corridor loop: the way on is open and the cell has two walls. */
  predicate Pass(g: Grid, c: int, d: Direction)
    requires Valid(g) && ValidCell(g, c)
  {
    !WallAt(g, c, d) && NumWallsAt(g, c) == NUM_DIRECTIONS - 2
  }

  /** The straight phase (the first do-while), entered at cell c. */
  function StraightRun(g: Grid, c: int, d: Direction): (r: int)
    requires Valid(g) && ValidCell(g, c)
    ensures ValidCell(g, r)
    ensures Progress(g, r, d) >= Progress(g, c, d)
    ensures Progress(g, r, Clockwise(d)) == Progress(g, c, Clockwise(d))
    decreases g.width + g.height - Progress(g, c, d)
  {
    var next := Step(g, c, d);
    if next >= 0 && !WallAt(g, c, d) && NumWallsAt(g, c) == NUM_DIRECTIONS - 2 then
      StepProgress(g, c, d);
      ProgressBound(g, next, d);
      StraightRun(g, next, d)
    else c
  }

  /**
   * One inner loop of the turn phase: keep stepping in x while `Pass` holds.
   * `None` when a step leaves the grid (the source then indexes the arrays at -1).
   */
  function Run(g: Grid, c: int, x: Direction): (r: Option<int>)
    requires Valid(g) && ValidCell(g, c)
    ensures r.Some? ==> ValidCell(g, r.value) && !Pass(g, r.value, x)
    ensures r.Some? ==> Progress(g, r.value, x) >= Progress(g, c, x)
    ensures r.Some? && Pass(g, c, x) ==> Progress(g, r.value, x) > Progress(g, c, x)
    ensures r.Some? ==> Progress(g, r.value, Clockwise(x)) == Progress(g, c, Clockwise(x))
    decreases g.width + g.height - Progress(g, c, x)
  {
    if Pass(g, c, x) then
      var next := Step(g, c, x);
      if next < 0 then None
      else
        StepProgress(g, c, x);
        ProgressBound(g, next, x);
        Run(g, next, x)
    else Some(c)
  }

  /** The two progress measures of a turn phase are unchanged by a run in the other one. */
  lemma RunKeepsOtherProgress(g: Grid, c: int, x: Direction, y: Direction)
    requires Valid(g) && ValidCell(g, c) && Run(g, c, x).Some?
    requires y == Clockwise(x) || y == CounterClockwise(x)
    ensures Progress(g, Run(g, c, x).value, y) == Progress(g, c, y)
  {
    TurnsArePerpendicular(x);
    ProgressOpposite(g, c, Clockwise(x));
    ProgressOpposite(g, Run(g, c, x).value, Clockwise(x));
  }

  predicate IsTurn(d: Direction, t: Direction)
  {
    t == Clockwise(d) || t == CounterClockwise(d)
  }

  lemma TurnSymmetric(d: Direction, t: Direction)
    requires IsTurn(d, t)
    ensures IsTurn(t, d)
  {
  }

  /**
   * The outer turn loop: while the turned way is open, run in the turned direction,
   * then in the original direction, then test again.
   */
  function TurnPhase(g: Grid, c: int, d: Direction, t: Direction): (r: Option<int>)
    requires Valid(g) && ValidCell(g, c) && IsTurn(d, t)
    ensures r.Some? ==> ValidCell(g, r.value)
    ensures r.Some? ==> Progress(g, r.value, d) >= Progress(g, c, d)
    decreases 2 * (g.width + g.height) - Progress(g, c, d) - Progress(g, c, t)
  {
    ProgressBound(g, c, d);
    ProgressBound(g, c, t);
    if Pass(g, c, t) then
      match Run(g, c, t)
      case None => None
      case Some(c1) =>
        TurnSymmetric(d, t);
        RunKeepsOtherProgress(g, c, t, d);
        match Run(g, c1, d)
        case None => None
        case Some(c2) =>
          RunKeepsOtherProgress(g, c1, d, t);
          TurnPhase(g, c2, d, t)
    else Some(c)
  }

  /** What the walk from a cell records for one direction. */
  datatype Walk = Blocked | Reached(cell: int) | SteppedOff

  /**
   * The body of the `foreach (Direction direction ...)` loop of `GetNeighbors`. The
   * direction is skipped exactly when the wall is closed or the step leaves the grid;
   * otherwise the recorded cell lies strictly further along d than v and is reached
   * from v through open walls only.
   */
  function WalkFrom(g: Grid, v: int, d: Direction): (w: Walk)
    requires Valid(g) && ValidCell(g, v)
    ensures w.Blocked? <==> Step(g, v, d) < 0 || WallAt(g, v, d)
    ensures w.Reached? ==> ValidCell(g, w.cell) && Progress(g, w.cell, d) > Progress(g, v, d) && Reachable(g, v, w.cell)
  {
    var first := Step(g, v, d);
    if first < 0 || WallAt(g, v, d) then Blocked
    else
      var neighbor := StraightRun(g, first, d);
      FirstLegSound(g, v, d);
      if NumWallsAt(g, neighbor) == NUM_DIRECTIONS - 2 then
        var turned := if WallAt(g, neighbor, Clockwise(d)) then CounterClockwise(d) else Clockwise(d);
        if Step(g, neighbor, d) >= 0 then
          match TurnPhase(g, neighbor, d, turned)
          case None => SteppedOff
          case Some(c) =>
            TurnPhaseReachable(g, neighbor, d, turned);
            ReachableTrans(g, v, neighbor, c);
            Reached(c)
        else Reached(neighbor)
      else Reached(neighbor)
  }

  function Found(w: Walk): (s: set<int>)
    ensures |s| <= 1
  {
    if w.Reached? then {w.cell} else {}
  }

  /** The four walks gathered into one set, or `None` when any of them fails. */
  function Collect(n: Walk, e: Walk, s: Walk, w: Walk): (r: Option<set<int>>)
    ensures r.Some? ==> |r.value| <= NUM_DIRECTIONS
  {
    if n.SteppedOff? || e.SteppedOff? || s.SteppedOff? || w.SteppedOff? then None
    else
      assert |Found(n) + Found(e)| <= 2 && |Found(n) + Found(e) + Found(s)| <= 3;
      Some(Found(n) + Found(e) + Found(s) + Found(w))
  }

  /** `GetNeighbors(fromVertex)`; `None` when some walk leaves the grid. */
  function GetNeighbors(g: Grid, v: int): (r: Option<set<int>>)
    requires Valid(g) && ValidCell(g, v)
    ensures r.Some? ==> |r.value| <= NUM_DIRECTIONS
  {
    Collect(WalkFrom(g, v, North), WalkFrom(g, v, East), WalkFrom(g, v, South), WalkFrom(g, v, West))
  }

  // ---------------------------------------------------------------- the walk stays on the grid

  lemma {:induction false} RunStaysOnGrid(g: Grid, c: int, x: Direction)
    requires Valid(g) && ValidCell(g, c) && BoundaryClosed(g)
    ensures Run(g, c, x).Some?
    decreases g.width + g.height - Progress(g, c, x)
  {
    if Pass(g, c, x) {
      OpenWallStaysInGrid(g, c, x);
      var next := Step(g, c, x);
      StepProgress(g, c, x);
      ProgressBound(g, next, x);
      RunStaysOnGrid(g, next, x);
    }
  }

  lemma {:induction false} TurnPhaseStaysOnGrid(g: Grid, c: int, d: Direction, t: Direction)
    requires Valid(g) && ValidCell(g, c) && IsTurn(d, t) && BoundaryClosed(g)
    ensures TurnPhase(g, c, d, t).Some?
    decreases 2 * (g.width + g.height) - Progress(g, c, d) - Progress(g, c, t)
  {
    ProgressBound(g, c, d);
    ProgressBound(g, c, t);
    if Pass(g, c, t) {
      var c2 := TurnRoundStaysOnGrid(g, c, d, t);
      TurnPhaseStaysOnGrid(g, c2, d, t);
    }
  }

  /** One round of the turn phase (a run along t, then along d) lands on a cell of the grid. */
  lemma TurnRoundStaysOnGrid(g: Grid, c: int, d: Direction, t: Direction) returns (c2: int)
    requires Valid(g) && ValidCell(g, c) && IsTurn(d, t) && BoundaryClosed(g) && Pass(g, c, t)
    ensures ValidCell(g, c2) && TurnPhase(g, c, d, t) == TurnPhase(g, c2, d, t)
    ensures Progress(g, c2, d) + Progress(g, c2, t) > Progress(g, c, d) + Progress(g, c, t)
  {
    RunStaysOnGrid(g, c, t);
    var c1 := Run(g, c, t).value;
    TurnSymmetric(d, t);
    RunKeepsOtherProgress(g, c, t, d);
    RunStaysOnGrid(g, c1, d);
    c2 := Run(g, c1, d).value;
    RunKeepsOtherProgress(g, c1, d, t);
  }

  /** With every boundary wall closed, `GetNeighbors` never indexes outside the arrays. */
  lemma GetNeighborsDefined(g: Grid, v: int)
    requires Valid(g) && ValidCell(g, v) && BoundaryClosed(g)
    ensures GetNeighbors(g, v).Some?
  {
    forall d ensures !WalkFrom(g, v, d).SteppedOff? {
      var first := Step(g, v, d);
      if !(first < 0 || WallAt(g, v, d)) {
        var neighbor := StraightRun(g, first, d);
        var turned := if WallAt(g, neighbor, Clockwise(d)) then CounterClockwise(d) else Clockwise(d);
        TurnPhaseStaysOnGrid(g, neighbor, d, turned);
      }
    }
  }

  // ---------------------------------------------------------------- the walk follows open walls

  lemma {:induction false} StraightRunReachable(g: Grid, c: int, d: Direction)
    requires Valid(g) && ValidCell(g, c)
    ensures Reachable(g, c, StraightRun(g, c, d))
    decreases g.width + g.height - Progress(g, c, d)
  {
    var next := Step(g, c, d);
    if next >= 0 && !WallAt(g, c, d) && NumWallsAt(g, c) == NUM_DIRECTIONS - 2 {
      StepProgress(g, c, d);
      ProgressBound(g, next, d);
      StraightRunReachable(g, next, d);
      OpenStepVia(g, c, d);
      ReachableRefl(g, c);
      ReachableExtend(g, c, c, next);
      ReachableTrans(g, c, next, StraightRun(g, next, d));
    } else {
      ReachableRefl(g, c);
    }
  }

  lemma {:induction false} RunReachable(g: Grid, c: int, x: Direction)
    requires Valid(g) && ValidCell(g, c) && Run(g, c, x).Some?
    ensures Reachable(g, c, Run(g, c, x).value)
    decreases g.width + g.height - Progress(g, c, x)
  {
    if Pass(g, c, x) {
      var next := Step(g, c, x);
      StepProgress(g, c, x);
      ProgressBound(g, next, x);
      RunReachable(g, next, x);
      OpenStepVia(g, c, x);
      ReachableRefl(g, c);
      ReachableExtend(g, c, c, next);
      ReachableTrans(g, c, next, Run(g, next, x).value);
    } else {
      ReachableRefl(g, c);
    }
  }

  lemma {:induction false} TurnPhaseReachable(g: Grid, c: int, d: Direction, t: Direction)
    requires Valid(g) && ValidCell(g, c) && IsTurn(d, t) && TurnPhase(g, c, d, t).Some?
    ensures Reachable(g, c, TurnPhase(g, c, d, t).value)
    decreases 2 * (g.width + g.height) - Progress(g, c, d) - Progress(g, c, t)
  {
    ProgressBound(g, c, d);
    ProgressBound(g, c, t);
    if Pass(g, c, t) {
      var c1 := Run(g, c, t).value;
      TurnSymmetric(d, t);
      RunKeepsOtherProgress(g, c, t, d);
      var c2 := Run(g, c1, d).value;
      RunKeepsOtherProgress(g, c1, d, t);
      RunReachable(g, c, t);
      RunReachable(g, c1, d);
      TurnPhaseReachable(g, c2, d, t);
      ReachableTrans(g, c, c1, c2);
      ReachableTrans(g, c, c2, TurnPhase(g, c2, d, t).value);
    } else {
      ReachableRefl(g, c);
    }
  }

  /** The straight leg of a walk through an open wall moves forward and stays reachable. */
  lemma FirstLegSound(g: Grid, v: int, d: Direction)
    requires Valid(g) && ValidCell(g, v) && Step(g, v, d) >= 0 && !WallAt(g, v, d)
    ensures var n := StraightRun(g, Step(g, v, d), d);
      Progress(g, n, d) > Progress(g, v, d) && Reachable(g, v, n)
  {
    var first := Step(g, v, d);
    StepProgress(g, v, d);
    OpenStepVia(g, v, d);
    ReachableRefl(g, v);
    ReachableExtend(g, v, v, first);
    StraightRunReachable(g, first, d);
    ReachableTrans(g, v, first, StraightRun(g, first, d));
  }

  lemma CollectMembers(n: Walk, e: Walk, s: Walk, w: Walk)
    requires Collect(n, e, s, w).Some?
    ensures !n.SteppedOff? && !e.SteppedOff? && !s.SteppedOff? && !w.SteppedOff?
    ensures forall c :: c in Collect(n, e, s, w).value <==>
      n == Reached(c) || e == Reached(c) || s == Reached(c) || w == Reached(c)
  {
  }

  /** The reported set is exactly the cells where the four walks end. */
  lemma GetNeighborsMembers(g: Grid, v: int)
    requires Valid(g) && ValidCell(g, v) && GetNeighbors(g, v).Some?
    ensures forall d :: !WalkFrom(g, v, d).SteppedOff?
    ensures forall d :: WalkFrom(g, v, d).Reached? ==> WalkFrom(g, v, d).cell in GetNeighbors(g, v).value
    ensures forall c :: c in GetNeighbors(g, v).value ==> exists d :: WalkFrom(g, v, d) == Reached(c)
  {
    CollectMembers(WalkFrom(g, v, North), WalkFrom(g, v, East), WalkFrom(g, v, South), WalkFrom(g, v, West));
    forall d ensures !WalkFrom(g, v, d).SteppedOff? {
      match d
      case North => case East => case South => case West =>
    }
    forall d | WalkFrom(g, v, d).Reached? ensures WalkFrom(g, v, d).cell in GetNeighbors(g, v).value {
      match d
      case North => case East => case South => case West =>
    }
  }

  /**
   * `GetNeighbors(v)` reports one cell per open in-grid direction and nothing for the
   * others; it never reports v itself, and every reported cell is reached from v
   * through open walls.
   */
  lemma GetNeighborsSound(g: Grid, v: int)
    requires Valid(g) && ValidCell(g, v) && GetNeighbors(g, v).Some?
    ensures forall d :: Step(g, v, d) >= 0 && !WallAt(g, v, d) ==>
      WalkFrom(g, v, d).Reached? && WalkFrom(g, v, d).cell in GetNeighbors(g, v).value
    ensures forall c :: c in GetNeighbors(g, v).value ==>
      c != v && ValidCell(g, c) && Reachable(g, v, c) &&
      exists d :: Step(g, v, d) >= 0 && !WallAt(g, v, d) && WalkFrom(g, v, d) == Reached(c)
  {
    GetNeighborsMembers(g, v);
    forall d | Step(g, v, d) >= 0 && !WallAt(g, v, d)
      ensures WalkFrom(g, v, d).Reached?
    {
      assert !WalkFrom(g, v, d).Blocked?;
    }
    forall c | c in GetNeighbors(g, v).value
      ensures c != v && ValidCell(g, c) && Reachable(g, v, c)
      ensures exists d :: Step(g, v, d) >= 0 && !WallAt(g, v, d) && WalkFrom(g, v, d) == Reached(c)
    {
      var d :| WalkFrom(g, v, d) == Reached(c);
    }
  }

  // ---------------------------------------------------------------- GetAllVertices

  /** `GetNeighbors` as a successor function on cell numbers; `None` off the grid. */
  function Successors(g: Grid): int -> Option<set<int>>
  {
    c => if Valid(g) && ValidCell(g, c) then GetNeighbors(g, c) else None
  }

  /** Some element of a non-empty set. */
  method Pick(s: set<int>) returns (x: int)
    requires s != {}
    ensures x in s
  {
    if forall y :: y !in s {
      assert false;
    }
    x :| x in s;
  }

  /** Each cell after the first is reported by `next` for the cell before it. */
  ghost predicate IsChain(next: int -> Option<set<int>>, p: seq<int>)
  {
    && |p| >= 1
    && forall i :: 0 <= i < |p| - 1 ==> next(p[i]).Some? && p[i + 1] in next(p[i]).value
  }

  /** b is found from a by repeatedly following `next`. */
  ghost predicate Follows(next: int -> Option<set<int>>, a: int, b: int)
  {
    exists p :: IsChain(next, p) && p[0] == a && p[|p| - 1] == b
  }

  /** b is found from a by repeatedly following `GetNeighbors`. */
  ghost predicate CorridorReachable(g: Grid, a: int, b: int)
  {
    Follows(Successors(g), a, b)
  }

  lemma FollowsRefl(next: int -> Option<set<int>>, a: int)
    ensures Follows(next, a, a)
  {
    assert IsChain(next, [a]);
  }

  lemma FollowsExtend(next: int -> Option<set<int>>, a: int, b: int, c: int)
    requires Follows(next, a, b) && next(b).Some? && c in next(b).value
    ensures Follows(next, a, c)
  {
    var p :| IsChain(next, p) && p[0] == a && p[|p| - 1] == b;
    assert IsChain(next, p + [c]);
  }

  lemma ChainPrefix(next: int -> Option<set<int>>, p: seq<int>)
    requires IsChain(next, p) && |p| > 1
    ensures IsChain(next, p[..|p| - 1])
  {
    var q := p[..|p| - 1];
    forall i | 0 <= i < |q| - 1 ensures next(q[i]).Some? && q[i + 1] in next(q[i]).value {
    }
  }

  /** A set that contains the start of a chain and is closed under `next` contains its end. */
  lemma {:induction false} ClosedSetContainsChain(next: int -> Option<set<int>>, S: set<int>, p: seq<int>)
    requires IsChain(next, p) && p[0] in S
    requires forall c :: c in S ==> next(c).Some? && next(c).value <= S
    ensures p[|p| - 1] in S
    decreases |p|
  {
    if |p| > 1 {
      ChainPrefix(next, p);
      ClosedSetContainsChain(next, S, p[..|p| - 1]);
      assert p[|p| - 2] == p[..|p| - 1][|p| - 2];
    }
  }

  /**
   * The traversal of `GetAllVerticesRecursive` for any successor function that stays
   * inside the finite set `bound`. The recursion is run with an explicit stack; the visiting
   * order differs but the set collected is the same. `None` stands for a failing `next`.
   */
  method Closure(next: int -> Option<set<int>>, s: int, bound: set<int>) returns (r: Option<set<int>>)
    requires s in bound
    requires forall c :: c in bound && next(c).Some? ==> next(c).value <= bound
    ensures r.Some? ==> forall c :: c in r.value <==> Follows(next, s, c)
    ensures r.Some? ==> forall c :: c in r.value ==> next(c).Some? && next(c).value <= r.value
    ensures r.None? ==> exists c :: Follows(next, s, c) && next(c).None?
  {
    var visited: set<int> := {};
    var stack: seq<int> := [s];
    FollowsRefl(next, s);
    while |stack| > 0
      invariant visited <= bound
      invariant forall c :: c in stack ==> c in bound && Follows(next, s, c)
      invariant forall c :: c in visited ==> Follows(next, s, c)
      invariant forall c :: c in visited ==>
        next(c).Some? && forall n :: n in next(c).value ==> n in visited || n in stack
      invariant s in visited || s in stack
      decreases bound - visited, |stack|
    {
      var c := stack[|stack| - 1];
      stack := stack[..|stack| - 1];
      if c !in visited {
        var found := next(c);
        if found.None? {
          return None;
        }
        visited := visited + {c};
        var rest := found.value;
        var stack0 := stack;
        while rest != {}
          invariant rest <= found.value
          invariant forall n :: n in found.value ==> n in rest || n in stack
          invariant forall x :: x in stack0 ==> x in stack
          invariant forall x :: x in stack ==> x in bound && Follows(next, s, x)
          decreases |rest|
        {
          var n := Pick(rest);
          FollowsExtend(next, s, c, n);
          stack := stack + [n];
          rest := rest - {n};
        }
      }
    }
    assert stack == [];
    forall c | c in visited ensures next(c).value <= visited {
      assert forall n :: n in next(c).value ==> n in visited || n in stack;
    }
    forall c | Follows(next, s, c) ensures c in visited {
      var p :| IsChain(next, p) && p[0] == s && p[|p| - 1] == c;
      ClosedSetContainsChain(next, visited, p);
    }
    r := Some(visited);
  }

  /** Every cell found by following `GetNeighbors` lies on the grid and is reached through open walls. */
  lemma {:induction false} ChainOpen(g: Grid, p: seq<int>)
    requires Valid(g) && IsChain(Successors(g), p) && ValidCell(g, p[0])
    ensures ValidCell(g, p[|p| - 1]) && Reachable(g, p[0], p[|p| - 1])
    decreases |p|
  {
    if |p| == 1 {
      ReachableRefl(g, p[0]);
    } else {
      var q := p[..|p| - 1];
      ChainPrefix(Successors(g), p);
      ChainOpen(g, q);
      var b, c := p[|p| - 2], p[|p| - 1];
      GetNeighborsSound(g, b);
      ReachableTrans(g, p[0], b, c);
    }
  }

  /** A cell found from a by following `GetNeighbors` is also reachable by single open steps. */
  lemma CorridorReachableIsReachable(g: Grid, a: int, b: int)
    requires Valid(g) && ValidCell(g, a) && CorridorReachable(g, a, b)
    ensures ValidCell(g, b) && Reachable(g, a, b)
  {
    var p :| IsChain(Successors(g), p) && p[0] == a && p[|p| - 1] == b;
    ChainOpen(g, p);
  }

  /** `GetNeighbors` can fail only where a boundary wall is open. */
  lemma FailureNeedsOpenBoundary(g: Grid, c: int)
    requires Valid(g) && ValidCell(g, c) && GetNeighbors(g, c).None?
    ensures !BoundaryClosed(g)
  {
    if BoundaryClosed(g) {
      GetNeighborsDefined(g, c);
      assert false;
    }
  }

  /** `GetNeighbors` never leaves the grid. */
  lemma SuccessorsInGrid(g: Grid)
    requires Valid(g)
    ensures forall c :: c in AllCells(g) && Successors(g)(c).Some? ==> Successors(g)(c).value <= AllCells(g)
  {
    forall c | c in AllCells(g) && Successors(g)(c).Some? ensures Successors(g)(c).value <= AllCells(g) {
      GetNeighborsSound(g, c);
    }
  }

  /**
   * `GetAllVertices(startVertex)`: on success, exactly the cells found from s by following
   * `GetNeighbors`, a set closed under it; `None` stands for the exception a failing
   * `GetNeighbors` raises, which happens exactly when such a cell has a failing walk.
   */
  method GetAllVertices(g: Grid, s: int) returns (r: Option<set<int>>)
    requires Valid(g) && ValidCell(g, s)
    ensures r.Some? ==> s in r.value
    ensures r.Some? ==> forall c :: c in r.value <==> CorridorReachable(g, s, c)
    ensures r.Some? ==> forall c :: c in r.value ==>
      ValidCell(g, c) && Reachable(g, s, c) && GetNeighbors(g, c).Some? && GetNeighbors(g, c).value <= r.value
    ensures r.None? <==> exists c :: CorridorReachable(g, s, c) && ValidCell(g, c) && GetNeighbors(g, c).None?
    ensures BoundaryClosed(g) ==> r.Some?
  {
    SuccessorsInGrid(g);
    assert Below(s, GetNumberOfCells(g));
    r := Closure(Successors(g), s, AllCells(g));
    FollowsRefl(Successors(g), s);
    if r.Some? {
      forall c | c in r.value
        ensures ValidCell(g, c) && Reachable(g, s, c) && GetNeighbors(g, c).Some? && GetNeighbors(g, c).value <= r.value
      {
        CorridorReachableIsReachable(g, s, c);
      }
    } else {
      ghost var c :| Follows(Successors(g), s, c) && Successors(g)(c).None?;
      CorridorReachableIsReachable(g, s, c);
      FailureNeedsOpenBoundary(g, c);
    }
  }
}

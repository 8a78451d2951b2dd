/**
 * Connectivity of the maze: which cells can be walked between through open walls.
 * These are the notions the generators' spanning-tree and corridor contracts are stated in.
 */
module GridPaths {
  import opened Directions
  import opened CustomGrid

  /** b is the neighbour of a across an open wall. */
  ghost predicate OpenStep(g: Grid, a: int, b: int)
    requires Valid(g)
  {
    ValidCell(g, a) && exists d :: b >= 0 && Step(g, a, d) == b && !WallAt(g, a, d)
  }

  /** A walk through the maze that never crosses a wall. */
  ghost predicate IsOpenPath(g: Grid, p: seq<int>)
    requires Valid(g)
  {
    && |p| >= 1
    && (forall i :: 0 <= i < |p| ==> ValidCell(g, p[i]))
    && (forall i, j :: 0 <= i && j == i + 1 && j < |p| ==> OpenStep(g, p[i], p[j]))
  }

  ghost predicate Reachable(g: Grid, a: int, b: int)
    requires Valid(g)
  {
    exists p :: IsOpenPath(g, p) && p[0] == a && p[|p| - 1] == b
  }

  /** h differs from g only by walls that were opened. */
  ghost predicate FewerWalls(g: Grid, h: Grid)
  {
    && Valid(g) && Valid(h) && SameShape(g, h)
    && forall e :: InArray(g, e) && !Read(g, e) ==> !Read(h, e)
  }

  lemma OpenStepVia(g: Grid, a: int, d: Direction)
    requires Valid(g) && ValidCell(g, a) && Step(g, a, d) >= 0 && !WallAt(g, a, d)
    ensures OpenStep(g, a, Step(g, a, d))
  {
  }

  lemma ReachableRefl(g: Grid, a: int)
    requires Valid(g) && ValidCell(g, a)
    ensures Reachable(g, a, a)
  {
    assert IsOpenPath(g, [a]);
  }

  lemma ReachableExtend(g: Grid, a: int, b: int, c: int)
    requires Valid(g) && Reachable(g, a, b) && OpenStep(g, b, c)
    ensures Reachable(g, a, c)
  {
    var p :| IsOpenPath(g, p) && p[0] == a && p[|p| - 1] == b;
    var q := p + [c];
    assert Step(g, b, StepWitness(g, b, c)) == c;
    assert IsOpenPath(g, q);
  }

  /** The direction of an open step. */
  ghost function StepWitness(g: Grid, a: int, b: int): (d: Direction)
    requires Valid(g) && OpenStep(g, a, b)
    ensures Step(g, a, d) == b && !WallAt(g, a, d) && ValidCell(g, b)
  {
    var d :| b >= 0 && Step(g, a, d) == b && !WallAt(g, a, d);
    d
  }

  lemma ReachableTrans(g: Grid, a: int, b: int, c: int)
    requires Valid(g) && Reachable(g, a, b) && Reachable(g, b, c)
    ensures Reachable(g, a, c)
  {
    var p :| IsOpenPath(g, p) && p[0] == a && p[|p| - 1] == b;
    var q :| IsOpenPath(g, q) && q[0] == b && q[|q| - 1] == c;
    var r := p + q[1..];
    assert IsOpenPath(g, r) by {
      forall i | 0 <= i < |r| - 1 ensures OpenStep(g, r[i], r[i + 1]) {
        if i < |p| - 1 {
          assert r[i] == p[i] && r[i + 1] == p[i + 1];
        } else {
          assert r[i] == q[i - |p| + 1] && r[i + 1] == q[i - |p| + 2];
        }
      }
    }
  }

  /** Walls are shared: an open step can be walked back. */
  lemma OpenStepSymmetric(g: Grid, a: int, b: int)
    requires Valid(g) && OpenStep(g, a, b)
    ensures OpenStep(g, b, a)
  {
    var d := StepWitness(g, a, b);
    StepBack(g, a, d);
    OpenStepVia(g, b, Opposite(d));
  }

  /** Opening walls never disconnects two cells. */
  lemma ReachableMonotone(g: Grid, h: Grid, a: int, b: int)
    requires FewerWalls(g, h) && Reachable(g, a, b)
    ensures Reachable(h, a, b)
  {
    var p :| IsOpenPath(g, p) && p[0] == a && p[|p| - 1] == b;
    forall i | 0 <= i < |p| - 1 ensures OpenStep(h, p[i], p[i + 1]) {
      OpenStepMonotone(g, h, p[i], p[i + 1]);
    }
    assert IsOpenPath(h, p);
  }

  /** One open step stays open when walls are only removed. */
  lemma OpenStepMonotone(g: Grid, h: Grid, a: int, b: int)
    requires FewerWalls(g, h) && OpenStep(g, a, b)
    ensures OpenStep(h, a, b)
  {
    var d := StepWitness(g, a, b);
    ValidCellCoords(g, a);
    CellEdgesInArray(g, PosX(g, a), PosY(g, a), d);
    OpenStepVia(h, a, d);
  }

  lemma FewerWallsTrans(f: Grid, g: Grid, h: Grid)
    requires FewerWalls(f, g) && FewerWalls(g, h)
    ensures FewerWalls(f, h)
  {
  }
}

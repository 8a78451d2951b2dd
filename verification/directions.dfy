/** The four directions of the maze grid and their coordinate deltas. */
module Directions {
  import opened Randomness

  /** Declaration order NORTH, EAST, SOUTH, WEST: the ordinals are 0..3. */
  datatype Direction = North | East | South | West

  const NUM_DIRECTIONS: int := 4

  /** `Enum.GetValues(typeof(Direction))`: the directions in ordinal order. */
  const AllDirections: seq<Direction> := [North, East, South, West]

  /** Per-ordinal deltas: NORTH is z-1, EAST x+1, SOUTH z+1, WEST x-1. */
  const DELTA_X: seq<int> := [0, 1, 0, -1]
  const DELTA_Y: seq<int> := [-1, 0, 1, 0]

  function Ordinal(d: Direction): (i: int)
    ensures 0 <= i < NUM_DIRECTIONS
  {
    match d
    case North => 0
    case East => 1
    case South => 2
    case West => 3
  }

  function FromOrdinal(i: int): (d: Direction)
    requires 0 <= i < NUM_DIRECTIONS
    ensures Ordinal(d) == i
  {
    AllDirections[i]
  }

  function DeltaX(d: Direction): int { DELTA_X[Ordinal(d)] }
  function DeltaY(d: Direction): int { DELTA_Y[Ordinal(d)] }

  /** `(Direction)(((int)d + k) % NUM_DIRECTIONS)`. */
  function Rotate(d: Direction, k: nat): Direction
  {
    FromOrdinal((Ordinal(d) + k) % NUM_DIRECTIONS)
  }

  /** The perpendicular tried first at a corridor turn: ordinal + 1. */
  function Clockwise(d: Direction): Direction { Rotate(d, 1) }

  /** The other perpendicular: ordinal + NUM_DIRECTIONS - 1. */
  function CounterClockwise(d: Direction): Direction { Rotate(d, NUM_DIRECTIONS - 1) }

  function Opposite(d: Direction): Direction { Rotate(d, 2) }

  lemma OppositeDeltas(d: Direction)
    ensures DeltaX(Opposite(d)) == -DeltaX(d) && DeltaY(Opposite(d)) == -DeltaY(d)
    ensures Opposite(Opposite(d)) == d
  {
  }

  /** Both turns are perpendicular to the original direction and to each other's opposite. */
  lemma TurnsArePerpendicular(d: Direction)
    ensures DeltaX(Clockwise(d)) * DeltaX(d) + DeltaY(Clockwise(d)) * DeltaY(d) == 0
    ensures CounterClockwise(d) == Opposite(Clockwise(d))
  {
  }

  /**
   * `GetShuffledDirections`: Fisher-Yates over the four directions using draws
   * rng(k), rng(k+1), rng(k+2). The result is a permutation of the four directions.
   */
  function GetShuffledDirections(rng: nat -> nat, k: nat): (r: seq<Direction>)
    ensures |r| == NUM_DIRECTIONS
    ensures multiset(r) == multiset(AllDirections)
    ensures forall d: Direction :: d in r
  {
    var r := FisherYates(AllDirections, NUM_DIRECTIONS - 1, rng, k);
    forall d: Direction ensures d in r {
      assert AllDirections[Ordinal(d)] == d;
      assert d in multiset(r);
    }
    r
  }
}

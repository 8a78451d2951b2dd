/**
 * The wall grid of `CustomGrid`: two boolean edge arrays and the cell/direction
 * accessors that map every (cell, direction) pair onto one shared array entry.
 *
 * `northWalls[x][z]` is the edge between cell (x, z-1) and cell (x, z);
 * `westWalls[x][z]` is the edge between cell (x-1, z) and cell (x, z).
 * Row z = 0 of `northWalls` and z = height, and columns x = 0 and x = width of
 * `westWalls`, are the grid boundary.
 */
module CustomGrid {
  import opened Directions

  datatype Grid = Grid(width: int, height: int, northWalls: seq<seq<bool>>, westWalls: seq<seq<bool>>)

  /** The arrays have the shapes `bool[width, height + 1]` and `bool[width + 1, height]`. */
  predicate Valid(g: Grid)
  {
    && g.width >= 1 && g.height >= 1
    && |g.northWalls| == g.width
    && (forall x :: 0 <= x < g.width ==> |g.northWalls[x]| == g.height + 1)
    && |g.westWalls| == g.width + 1
    && (forall x :: 0 <= x <= g.width ==> |g.westWalls[x]| == g.height)
  }

  predicate SameShape(a: Grid, b: Grid)
  {
    a.width == b.width && a.height == b.height
  }

  /** One entry of one of the two edge arrays. */
  datatype Edge = NorthEdge(x: int, z: int) | WestEdge(x: int, z: int)

  predicate InArray(g: Grid, e: Edge)
  {
    match e
    case NorthEdge(x, z) => 0 <= x < g.width && 0 <= z <= g.height
    case WestEdge(x, z) => 0 <= x <= g.width && 0 <= z < g.height
  }

  /** Edges between two cells of the grid; the other array entries are the boundary. */
  predicate Interior(g: Grid, e: Edge)
  {
    match e
    case NorthEdge(x, z) => 0 <= x < g.width && 1 <= z < g.height
    case WestEdge(x, z) => 1 <= x < g.width && 0 <= z < g.height
  }

  predicate Boundary(g: Grid, e: Edge)
  {
    InArray(g, e) && !Interior(g, e)
  }

  function Read(g: Grid, e: Edge): bool
    requires Valid(g) && InArray(g, e)
  {
    match e
    case NorthEdge(x, z) => g.northWalls[x][z]
    case WestEdge(x, z) => g.westWalls[x][z]
  }

  /** An array store: exactly one entry takes the new value. */
  function Write(g: Grid, e: Edge, v: bool): (r: Grid)
    requires Valid(g) && InArray(g, e)
    ensures Valid(r) && SameShape(r, g)
    ensures Read(r, e) == v
    ensures forall e' :: InArray(g, e') && e' != e ==> Read(r, e') == Read(g, e')
  {
    match e
    case NorthEdge(x, z) => g.(northWalls := g.northWalls[x := g.northWalls[x][z := v]])
    case WestEdge(x, z) => g.(westWalls := g.westWalls[x := g.westWalls[x][z := v]])
  }

  /** The constructor allocates both arrays; C# initialises them to false. */
  function NewGrid(width: int, height: int): (g: Grid)
    requires width >= 1 && height >= 1
    ensures Valid(g) && g.width == width && g.height == height
    ensures forall e :: InArray(g, e) ==> !Read(g, e)
  {
    Grid(width, height,
      seq(width, _ => seq(height + 1, _ => false)),
      seq(width + 1, _ => seq(height, _ => false)))
  }

  /** The array entry that `GetWall`/`SetWall` use for direction d of (x, z). */
  function EdgeOf(x: int, z: int, d: Direction): Edge
  {
    match d
    case North => NorthEdge(x, z)
    case East => WestEdge(x + 1, z)
    case South => NorthEdge(x, z + 1)
    case West => WestEdge(x, z)
  }

  predicate InCell(g: Grid, x: int, z: int)
  {
    0 <= x < g.width && 0 <= z < g.height
  }

  /** The four edges around a cell. */
  function CellEdges(x: int, z: int): set<Edge>
  {
    {EdgeOf(x, z, North), EdgeOf(x, z, East), EdgeOf(x, z, South), EdgeOf(x, z, West)}
  }

  /** The side of cell (x, z) that a wall of the cell lies on. */
  function EdgeDirection(x: int, z: int, e: Edge): (d: Direction)
    requires e in CellEdges(x, z)
    ensures EdgeOf(x, z, d) == e
  {
    if e == EdgeOf(x, z, North) then North
    else if e == EdgeOf(x, z, East) then East
    else if e == EdgeOf(x, z, South) then South
    else West
  }

  /**
   * `GetWall(x, z, d)`: the entry of the side of (x, z) facing d. When the cell across
   * that side is in the grid, the entry is the one it reads through its opposite side.
   */
  function GetWall(g: Grid, x: int, z: int, d: Direction): (r: bool)
    requires Valid(g) && InArray(g, EdgeOf(x, z, d))
    ensures InCell(g, x + DeltaX(d), z + DeltaY(d)) ==>
      EdgeOf(x + DeltaX(d), z + DeltaY(d), Opposite(d)) == EdgeOf(x, z, d)
      && r == Read(g, EdgeOf(x + DeltaX(d), z + DeltaY(d), Opposite(d)))
  {
    Read(g, EdgeOf(x, z, d))
  }

  function SetWall(g: Grid, x: int, z: int, d: Direction, v: bool): (r: Grid)
    requires Valid(g) && InArray(g, EdgeOf(x, z, d))
    ensures Valid(r) && SameShape(r, g)
    ensures GetWall(r, x, z, d) == v
    ensures forall e :: InArray(g, e) && e != EdgeOf(x, z, d) ==> Read(r, e) == Read(g, e)
  {
    Write(g, EdgeOf(x, z, d), v)
  }

  /** Writes the four edges of cell (x, z): north, east, south, west. */
  function SetWalls(g: Grid, x: int, z: int, v: bool): (r: Grid)
    requires Valid(g) && InCell(g, x, z)
    ensures Valid(r) && SameShape(r, g)
    ensures forall d :: GetWall(r, x, z, d) == v
    ensures forall e :: InArray(g, e) && e !in CellEdges(x, z) ==> Read(r, e) == Read(g, e)
    ensures GetNumWalls(r, x, z) == if v then NUM_DIRECTIONS else 0
  {
    var g1 := Write(g, NorthEdge(x, z), v);
    var g2 := Write(g1, WestEdge(x + 1, z), v);
    var g3 := Write(g2, NorthEdge(x, z + 1), v);
    Write(g3, WestEdge(x, z), v)
  }

  function B(b: bool): int { if b then 1 else 0 }

  /** Number of walled sides of cell (x, z), counted over the four directions. */
  function GetNumWalls(g: Grid, x: int, z: int): (r: int)
    requires Valid(g) && InCell(g, x, z)
    ensures 0 <= r <= NUM_DIRECTIONS
    ensures r == NUM_DIRECTIONS <==> forall d :: GetWall(g, x, z, d)
    ensures r == 0 <==> forall d :: !GetWall(g, x, z, d)
  {
    B(GetWall(g, x, z, North)) + B(GetWall(g, x, z, East))
      + B(GetWall(g, x, z, South)) + B(GetWall(g, x, z, West))
  }

  // ---------------------------------------------------------------- cell indices

  /** C#'s `/` on int truncates toward zero. */
  function CsQuot(a: int, b: int): int
    requires b > 0
  {
    if a >= 0 then a / b else -((-a) / b)
  }

  /** C#'s `%` on int takes the sign of the dividend. */
  function CsRem(a: int, b: int): int
    requires b > 0
  {
    a - b * CsQuot(a, b)
  }

  /** `CellNumber(x, z)`: row-major numbering; a cell inside the grid gets a number in [0, W*H). */
  function CellNumber(g: Grid, x: int, z: int): (c: int)
    ensures InCell(g, x, z) ==> 0 <= c < GetNumberOfCells(g)
  {
    if InCell(g, x, z) then
      RowMajorBound(x, z, g.width, g.height);
      x + z * g.width
    else x + z * g.width
  }

  /**
   * `posX(cell)`: the column. C#'s `%` keeps the sign of the dividend, so a negative
   * index gives a column in (-W, 0] rather than one inside the grid. `PosRoundTrip`
   * gives the non-negative case.
   */
  function PosX(g: Grid, cell: int): (x: int)
    requires g.width > 0
    ensures cell < 0 ==> -g.width < x <= 0
  {
    CsRem(cell, g.width)
  }

  /**
   * `posY(cell)`: the row, with C#'s `/` truncating toward zero: for a negative index
   * the row is not positive and what is left after whole rows lies in (-W, 0].
   * `PosRoundTrip` gives the non-negative case.
   */
  function PosY(g: Grid, cell: int): (z: int)
    requires g.width > 0
    ensures cell < 0 ==> z <= 0 && -g.width < cell - z * g.width <= 0
  {
    CsQuot(cell, g.width)
  }

  /** `GetNumberOfCells()`: W*H, the size of the index range `ForAllCells` walks. */
  function GetNumberOfCells(g: Grid): (n: int)
    ensures g.width >= 0 && g.height >= 0 ==> n >= 0 && |IndexRange(n)| == n
  {
    if g.width >= 0 && g.height >= 0 then
      assert g.width * g.height >= 0;
      RangeCard(g.width * g.height);
      g.width * g.height
    else g.width * g.height
  }

  predicate ValidCell(g: Grid, c: int)
  {
    0 <= c < GetNumberOfCells(g)
  }

  predicate Below(c: int, n: int) { 0 <= c < n }

  /** The indices 0 .. n-1. */
  function IndexRange(n: int): set<int>
  {
    set c | 0 <= c < n && Below(c, n)
  }

  /** `ForAllCells` iterates over these indices. */
  function AllCells(g: Grid): set<int>
  {
    IndexRange(GetNumberOfCells(g))
  }

  lemma MulAtLeast(k: int, b: int)
    requires k >= 1 && b > 0
    ensures k * b >= b
  {
    assert k * b == (k - 1) * b + b;
    assert (k - 1) * b >= 0;
  }

  /** Euclidean division has a unique quotient and remainder. */
  lemma DivModUnique(a: int, b: int, q: int, r: int)
    requires b > 0 && a == q * b + r && 0 <= r < b
    ensures a / b == q && a % b == r
  {
    var q' := a / b;
    var r' := a % b;
    assert a == q' * b + r';
    assert (q - q') * b == r' - r;
    assert (q' - q) * b == r - r';
    if q > q' {
      MulAtLeast(q - q', b);
      assert false;
    } else if q < q' {
      MulAtLeast(q' - q, b);
      assert false;
    }
  }

  /** For a cell of a column inside the grid, the index maps back to its coordinates. */
  lemma CellIndexRoundTrip(g: Grid, x: int, z: int)
    requires g.width > 0 && 0 <= x < g.width && z >= 0
    ensures PosX(g, CellNumber(g, x, z)) == x
    ensures PosY(g, CellNumber(g, x, z)) == z
  {
    DivModUnique(x + z * g.width, g.width, z, x);
  }

  /** Every non-negative index is rebuilt from its coordinates. */
  lemma PosRoundTrip(g: Grid, c: int)
    requires g.width > 0 && c >= 0
    ensures CellNumber(g, PosX(g, c), PosY(g, c)) == c
    ensures 0 <= PosX(g, c) < g.width && PosY(g, c) >= 0
  {
    var q := c / g.width;
    assert c == g.width * q + c % g.width && 0 <= c % g.width < g.width;
    assert PosY(g, c) == q && PosX(g, c) == c % g.width;
    assert q * g.width == g.width * q;
    QuotNonNegative(c, g.width);
  }

  lemma QuotNonNegative(a: int, b: int)
    requires a >= 0 && b > 0
    ensures a / b >= 0
  {
  }

  /** Indices of cells are exactly the indices of grid coordinates. */
  lemma ValidCellCoords(g: Grid, c: int)
    requires g.width > 0
    ensures ValidCell(g, c) <==> c >= 0 && InCell(g, PosX(g, c), PosY(g, c))
  {
    if c >= 0 {
      PosRoundTrip(g, c);
      RowMajorBound(PosX(g, c), PosY(g, c), g.width, g.height);
    }
  }

  /** Row-major index x + z * w of a column x < w lies below w * h exactly when the row z is below h. */
  lemma RowMajorBound(x: int, z: int, w: int, h: int)
    requires w > 0 && 0 <= x < w
    ensures x + z * w < w * h <==> z < h
  {
    if z >= h {
      assert z * w - w * h == (z - h) * w;
      if z > h { MulAtLeast(z - h, w); }
    } else {
      assert w * h - z * w == (h - z) * w;
      MulAtLeast(h - z, w);
    }
  }

  lemma {:induction false} RangeCard(n: int)
    requires n >= 0
    ensures |IndexRange(n)| == n
  {
    if n > 0 {
      var m := n - 1;
      RangeCard(m);
      assert IndexRange(n) == IndexRange(m) + {m};
    }
  }

  // ---------------------------------------------------------------- neighbours

  /** The cell one step in direction d, or -1 when that step leaves the grid. */
  function GetDirectNeighbor(g: Grid, x: int, z: int, d: Direction): (r: int)
    ensures r == -1 <==> !InCell(g, x + DeltaX(d), z + DeltaY(d))
    ensures r != -1 ==> ValidCell(g, r)
    ensures r != -1 ==> r == CellNumber(g, x + DeltaX(d), z + DeltaY(d))
  {
    var neighborX := x + DELTA_X[Ordinal(d)];
    var neighborY := z + DELTA_Y[Ordinal(d)];
    if neighborX < 0 || neighborX >= g.width then -1
    else if neighborY < 0 || neighborY >= g.height then -1
    else CellNumber(g, neighborX, neighborY)
  }

  function Abs(n: int): int { if n < 0 then -n else n }

  /** The neighbour of (x, z) in direction d, when it lies inside the grid. */
  function AdjacentIn(g: Grid, x: int, z: int, d: Direction): (r: set<(int, int)>)
    ensures |r| <= 1
    ensures forall p: (int, int) :: p in r <==> p == (x + DeltaX(d), z + DeltaY(d)) && InCell(g, p.0, p.1)
  {
    var nx := x + DELTA_X[Ordinal(d)];
    var nz := z + DELTA_Y[Ordinal(d)];
    if 0 <= nx < g.width && 0 <= nz < g.height then {(nx, nz)} else {}
  }

  /** The points at Manhattan distance one from (x, z) are its four direct neighbours. */
  lemma ManhattanOne(g: Grid, x: int, z: int, p: (int, int))
    ensures p in AdjacentIn(g, x, z, North) + AdjacentIn(g, x, z, East) + AdjacentIn(g, x, z, South) + AdjacentIn(g, x, z, West)
      <==> InCell(g, p.0, p.1) && Abs(p.0 - x) + Abs(p.1 - z) == 1
  {
  }

  /** In-grid cells at Manhattan distance one from (x, z). */
  function GetAdjacentCells(g: Grid, x: int, z: int): (r: set<(int, int)>)
    ensures forall p: (int, int) :: p in r <==> InCell(g, p.0, p.1) && Abs(p.0 - x) + Abs(p.1 - z) == 1
    ensures |r| <= NUM_DIRECTIONS
  {
    var n, e, s, w := AdjacentIn(g, x, z, North), AdjacentIn(g, x, z, East),
      AdjacentIn(g, x, z, South), AdjacentIn(g, x, z, West);
    assert forall p: (int, int) :: p in n + e + s + w <==> InCell(g, p.0, p.1) && Abs(p.0 - x) + Abs(p.1 - z) == 1 by {
      forall p: (int, int) ensures p in n + e + s + w <==> InCell(g, p.0, p.1) && Abs(p.0 - x) + Abs(p.1 - z) == 1 {
        ManhattanOne(g, x, z, p);
      }
    }
    n + e + s + w
  }

  /**
   * The shared-edge invariant: a cell and its neighbour in direction d read the
   * same array entry, the neighbour through the opposite direction.
   */
  lemma SharedEdgeSymmetry(g: Grid, x: int, z: int, d: Direction)
    requires Valid(g) && InCell(g, x + DeltaX(d), z + DeltaY(d))
    ensures EdgeOf(x, z, d) == EdgeOf(x + DeltaX(d), z + DeltaY(d), Opposite(d))
    ensures GetWall(g, x, z, d) == GetWall(g, x + DeltaX(d), z + DeltaY(d), Opposite(d))
  {
  }

  /**
   * No direction has a private bit: two (cell, direction) pairs that address the same
   * array entry are the same pair, or the two sides of one shared edge.
   */
  lemma EdgeOfSharedOnlyByNeighbours(x: int, z: int, d: Direction, x': int, z': int, d': Direction)
    requires EdgeOf(x, z, d) == EdgeOf(x', z', d')
    ensures (x', z', d') == (x, z, d)
      || ((x', z') == (x + DeltaX(d), z + DeltaY(d)) && d' == Opposite(d))
  {
  }

  /** After `SetWall`, the neighbour across the edge sees the new value too. */
  lemma SetWallSeenByNeighbour(g: Grid, x: int, z: int, d: Direction, v: bool)
    requires Valid(g) && InCell(g, x + DeltaX(d), z + DeltaY(d))
    ensures GetWall(SetWall(g, x, z, d, v), x + DeltaX(d), z + DeltaY(d), Opposite(d)) == v
  {
  }

  // ---------------------------------------------------------------- cell-index accessors

  /** `GetWall(posX(c), posY(c), d)` for a cell index. */
  function WallAt(g: Grid, c: int, d: Direction): bool
    requires Valid(g) && ValidCell(g, c)
  {
    ValidCellCoords(g, c);
    GetWall(g, PosX(g, c), PosY(g, c), d)
  }

  /** `GetNumWalls(posX(c), posY(c))` for a cell index. */
  function NumWallsAt(g: Grid, c: int): int
    requires Valid(g) && ValidCell(g, c)
  {
    ValidCellCoords(g, c);
    GetNumWalls(g, PosX(g, c), PosY(g, c))
  }

  /** `GetDirectNeighbor(posX(c), posY(c), d)` for a cell index. */
  function Step(g: Grid, c: int, d: Direction): int
    requires Valid(g)
  {
    GetDirectNeighbor(g, PosX(g, c), PosY(g, c), d)
  }

  /** Coordinates of a step: the neighbour is one unit away in direction d. */
  lemma StepCoords(g: Grid, c: int, d: Direction)
    requires Valid(g) && Step(g, c, d) >= 0
    ensures PosX(g, Step(g, c, d)) == PosX(g, c) + DeltaX(d)
    ensures PosY(g, Step(g, c, d)) == PosY(g, c) + DeltaY(d)
  {
    ValidCellCoords(g, c);
    CellIndexRoundTrip(g, PosX(g, c) + DeltaX(d), PosY(g, c) + DeltaY(d));
  }

  /** Stepping back in the opposite direction returns to the cell. */
  lemma StepBack(g: Grid, c: int, d: Direction)
    requires Valid(g) && ValidCell(g, c) && Step(g, c, d) >= 0
    ensures Step(g, Step(g, c, d), Opposite(d)) == c
    ensures WallAt(g, Step(g, c, d), Opposite(d)) == WallAt(g, c, d)
  {
    var n := Step(g, c, d);
    StepCoords(g, c, d);
    ValidCellCoords(g, c);
    OppositeDeltas(d);
    PosRoundTrip(g, c);
    SharedEdgeSymmetry(g, PosX(g, c), PosY(g, c), d);
  }

  /** Every wall of a cell exists in the arrays. */
  lemma CellEdgesInArray(g: Grid, x: int, z: int, d: Direction)
    requires InCell(g, x, z)
    ensures InArray(g, EdgeOf(x, z, d))
  {
  }

  /** Every boundary wall of the grid is closed. */
  ghost predicate BoundaryClosed(g: Grid)
    requires Valid(g)
  {
    forall e :: Boundary(g, e) ==> Read(g, e)
  }

  /** With a closed boundary, an open wall always leads to a cell of the grid. */
  lemma OpenWallStaysInGrid(g: Grid, c: int, d: Direction)
    requires Valid(g) && ValidCell(g, c) && BoundaryClosed(g) && !WallAt(g, c, d)
    ensures Step(g, c, d) >= 0
  {
    ValidCellCoords(g, c);
    var x, z := PosX(g, c), PosY(g, c);
    assert WallAt(g, c, d) == Read(g, EdgeOf(x, z, d));
  }
}

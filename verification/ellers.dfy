/**
 * `EllersMazeGenerator` (Assets/Maze/EllersMazeGenerator.cs): Eller's algorithm, one row
 * at a time, over a list of `(coords, setLabel)` entries. Each row joins some adjacent
 * cells of different sets, every set keeps at least one cell without a bottom wall, the
 * cells under a bottom wall get fresh labels, and the row moves one step in z.
 * Wall placement is a Unity side effect; here it is a `WallRecord` appended to a list.
 */
module EllersMazeGenerator {
  import opened Wrappers
  import opened Randomness
  import CustomGrid

  /** A row entry `(coords, setLabel)`: the cell at (x, z) and the label of its set. */
  datatype Cell = Cell(x: int, z: int, setLabel: int)

  type Row = seq<Cell>

  /** The two orientations `PlaceWallXZ` is called with: `Vector3.forward` and `Vector3.right`. */
  datatype WallDir = Forward | Rightward

  /** One `PlaceWallXZ(dir, x, z)` call: a wall segment anchored at lattice point (x, z). */
  datatype WallRecord = WallRecord(dir: WallDir, x: int, z: int)

  /**
   * `InRangeInclusive(num, minRange, maxRange)`: both ends are included, so the accepted
   * values are the maxRange - minRange + 1 offsets from minRange, and none when the
   * range is reversed.
   */
  function InRangeInclusive(num: int, minRange: int, maxRange: int): (r: bool)
    ensures r <==> num - minRange in CustomGrid.IndexRange(maxRange - minRange + 1)
    ensures maxRange < minRange ==> !r
  {
    minRange <= num && num <= maxRange
  }

  /** The draws of `Random.Range(0, 101)` that `InRangeInclusive(_, 0, percentage)` accepts. */
  function Accepting(percentage: int): set<int>
  {
    set n | 0 <= n <= 100 && InRangeInclusive(n, 0, percentage)
  }

  /**
   * A percentage p in 0..100 accepts p + 1 of the 101 possible draws, so 0 still accepts
   * the draw 0 and 100 accepts every draw.
   */
  lemma PercentDraws(percentage: int)
    requires 0 <= percentage <= 100
    ensures |Accepting(percentage)| == percentage + 1
    ensures InRangeInclusive(0, 0, percentage)
    ensures percentage == 100 ==> forall n :: 0 <= n <= 100 ==> InRangeInclusive(n, 0, percentage)
  {
    assert Accepting(percentage) == CustomGrid.IndexRange(percentage + 1);
    CustomGrid.RangeCard(percentage + 1);
  }

  /** `IncreaseAxisRow(addAmount, row)`: the `foreach` appending each entry moved by addAmount in z. */
  function IncreaseAxisRow(addAmount: int, row: Row): (r: Row)
    ensures |r| == |row|
    ensures forall i :: 0 <= i < |row| ==>
      r[i].x == row[i].x && r[i].z == row[i].z + addAmount && r[i].setLabel == row[i].setLabel
  {
    if row == [] then []
    else
      var last := row[|row| - 1];
      IncreaseAxisRow(addAmount, row[..|row| - 1]) + [Cell(last.x, last.z + addAmount, last.setLabel)]
  }

  /** Moving by a and then by b is moving by a + b; moving back undoes the move. */
  lemma IncreaseAxisRowComposes(a: int, b: int, row: Row)
    ensures IncreaseAxisRow(b, IncreaseAxisRow(a, row)) == IncreaseAxisRow(a + b, row)
    ensures IncreaseAxisRow(-a, IncreaseAxisRow(a, row)) == row
  {
    var r1, r2 := IncreaseAxisRow(b, IncreaseAxisRow(a, row)), IncreaseAxisRow(a + b, row);
    assert forall i :: 0 <= i < |row| ==> r1[i] == r2[i];
    var r3 := IncreaseAxisRow(-a, IncreaseAxisRow(a, row));
    assert forall i :: 0 <= i < |row| ==> r3[i] == row[i];
  }

  // ---------------------------------------------------------------- grouping by set

  /** The entries of `row` with label l, in row order. */
  function WithLabel(row: Row, l: int): (r: Row)
    ensures forall c :: c in r <==> c in row && c.setLabel == l
  {
    if row == [] then []
    else WithLabel(row[..|row| - 1], l) + (if row[|row| - 1].setLabel == l then [row[|row| - 1]] else [])
  }

  predicate NonEmptyGroups(groups: seq<Row>)
  {
    forall i :: 0 <= i < |groups| ==> |groups[i]| > 0
  }

  /** Non-empty groups, each of one label, no label in two groups. */
  predicate Grouping(groups: seq<Row>)
  {
    NonEmptyGroups(groups)
    && (forall i, j :: 0 <= i < |groups| && 0 <= j < |groups[i]| ==> groups[i][j].setLabel == groups[i][0].setLabel)
    && (forall i, j :: 0 <= i < j < |groups| ==> groups[i][0].setLabel != groups[j][0].setLabel)
  }

  /** The position of the group with label l, or |groups| when no group has it. */
  function GroupIndex(groups: seq<Row>, l: int, from: nat := 0): (i: int)
    requires from <= |groups| && NonEmptyGroups(groups)
    ensures from <= i <= |groups|
    ensures i < |groups| ==> groups[i][0].setLabel == l
    ensures forall j :: from <= j < i ==> groups[j][0].setLabel != l
    decreases |groups| - from
  {
    if from == |groups| then from
    else if groups[from][0].setLabel == l then from
    else GroupIndex(groups, l, from + 1)
  }

  lemma GroupIndexAtMost(groups: seq<Row>, l: int, j: int, from: nat := 0)
    requires from <= j < |groups| && NonEmptyGroups(groups)
    requires groups[j][0].setLabel == l
    ensures GroupIndex(groups, l, from) <= j
    decreases j - from
  {
    if from < j && groups[from][0].setLabel != l {
      GroupIndexAtMost(groups, l, j, from + 1);
    }
  }

  /** The lookup `GroupBy` builds: c joins the group of its label, or opens a new one at the end. */
  function AddToGroups(groups: seq<Row>, c: Cell): (r: seq<Row>)
    requires Grouping(groups)
    ensures Grouping(r)
    ensures |r| == |groups| || |r| == |groups| + 1
    ensures forall i :: 0 <= i < |groups| ==> r[i][0] == groups[i][0]
  {
    var i := GroupIndex(groups, c.setLabel);
    if i < |groups| then groups[i := groups[i] + [c]] else groups + [[c]]
  }

  lemma WithLabelSnoc(prefix: Row, c: Cell, l: int)
    ensures WithLabel(prefix + [c], l) == WithLabel(prefix, l) + (if c.setLabel == l then [c] else [])
  {
    assert (prefix + [c])[..|prefix|] == prefix;
  }

  /**
   * `RowSortedBySet`: `GroupBy` on the set label. The groups are non-empty, of one label
   * each, every label of the row has its group, and each group is exactly the entries
   * of the row with its label, in row order.
   */
  function RowSortedBySet(row: Row): (r: seq<Row>)
    ensures Grouping(r)
    ensures forall c :: c in row ==> GroupIndex(r, c.setLabel) < |r|
    ensures forall i :: 0 <= i < |r| ==> r[i] == WithLabel(row, r[i][0].setLabel)
    ensures forall i, j :: 0 <= i < j < |r| ==> FirstAt(row, r[i][0].setLabel) < FirstAt(row, r[j][0].setLabel)
  {
    if row == [] then []
    else
      var groups := RowSortedBySet(row[..|row| - 1]);
      var r := AddToGroups(groups, row[|row| - 1]);
      SplitLast(row);
      GroupingStep(row[..|row| - 1], row[|row| - 1], groups, r);
      GroupHeads(row, groups, r);
      GroupOrderStep(row, groups, r);
      r
  }

  /** The position of the first entry of the row with label l, or |row| when there is none. */
  function FirstAt(row: Row, l: int): (i: int)
    ensures 0 <= i <= |row|
    ensures i < |row| ==> row[i].setLabel == l
    ensures forall j :: 0 <= j < i ==> row[j].setLabel != l
  {
    if row == [] then 0
    else
      var p := FirstAt(row[..|row| - 1], l);
      if p < |row| - 1 then p else if row[|row| - 1].setLabel == l then |row| - 1 else |row|
  }

  /**
   * What `AddToGroups` does to the group heads: the old heads stay, each of them an entry
   * of the prefix, and a new group starts with the appended entry, whose label no entry
   * of the prefix has.
   */
  lemma GroupHeads(row: Row, groups: seq<Row>, r: seq<Row>)
    requires |row| > 0 && Grouping(groups)
    requires forall c :: c in row[..|row| - 1] ==> GroupIndex(groups, c.setLabel) < |groups|
    requires forall i :: 0 <= i < |groups| ==> groups[i] == WithLabel(row[..|row| - 1], groups[i][0].setLabel)
    requires r == AddToGroups(groups, row[|row| - 1])
    ensures NonEmptyGroups(r) && |groups| <= |r| <= |groups| + 1
    ensures forall i :: 0 <= i < |groups| ==> r[i][0] == groups[i][0] && groups[i][0] in row[..|row| - 1]
    ensures |r| > |groups| ==> (r[|groups|][0] == row[|row| - 1]
      && forall j :: 0 <= j < |row| - 1 ==> row[j].setLabel != row[|row| - 1].setLabel)
  {
    var n := |row| - 1;
    var prefix, c := row[..n], row[n];
    forall i | 0 <= i < |groups| ensures groups[i][0] in prefix {
      assert groups[i][0] in WithLabel(prefix, groups[i][0].setLabel);
    }
    if |r| > |groups| {
      assert r[|groups|] == [c];
      forall j | 0 <= j < n ensures row[j].setLabel != c.setLabel {
        assert prefix[j] in prefix;
      }
    }
  }

  /**
   * `GroupBy` opens groups in order of first appearance: the groups of the prefix keep
   * their first positions, and a group opened for the last entry starts after all of them.
   */
  lemma GroupOrderStep(row: Row, groups: seq<Row>, r: seq<Row>)
    requires |row| > 0 && NonEmptyGroups(groups) && NonEmptyGroups(r) && |groups| <= |r| <= |groups| + 1
    requires forall i :: 0 <= i < |groups| ==> r[i][0] == groups[i][0] && groups[i][0] in row[..|row| - 1]
    requires |r| > |groups| ==> (r[|groups|][0] == row[|row| - 1]
      && forall j :: 0 <= j < |row| - 1 ==> row[j].setLabel != row[|row| - 1].setLabel)
    requires forall i, j :: 0 <= i < j < |groups| ==>
      FirstAt(row[..|row| - 1], groups[i][0].setLabel) < FirstAt(row[..|row| - 1], groups[j][0].setLabel)
    ensures forall i, j :: 0 <= i < j < |r| ==> FirstAt(row, r[i][0].setLabel) < FirstAt(row, r[j][0].setLabel)
  {
    var n := |row| - 1;
    forall i, j | 0 <= i < j < |r| ensures FirstAt(row, r[i][0].setLabel) < FirstAt(row, r[j][0].setLabel) {
      var head := groups[i][0];
      assert r[i][0] == head;
      FirstAtOfPresent(row[..n], head.setLabel, head);
      if j < |groups| {
        var other := groups[j][0];
        assert r[j][0] == other;
        FirstAtOfPresent(row[..n], other.setLabel, other);
        FirstStaysBefore(row, head.setLabel, other.setLabel);
      } else {
        assert j == |groups| && |r| > |groups|;
        assert r[j][0] == row[n];
        FirstBeforeNew(row, head.setLabel);
      }
    }
  }

  /** Two labels of the prefix keep their order of first appearance after an append. */
  lemma FirstStaysBefore(row: Row, l1: int, l2: int)
    requires |row| > 0 && FirstAt(row[..|row| - 1], l1) < FirstAt(row[..|row| - 1], l2) < |row| - 1
    ensures FirstAt(row, l1) < FirstAt(row, l2)
  {
    FirstAtKeep(row, l1);
    FirstAtKeep(row, l2);
  }

  /** A label of the prefix appears before the label first seen in the appended entry. */
  lemma FirstBeforeNew(row: Row, l: int)
    requires |row| > 0 && FirstAt(row[..|row| - 1], l) < |row| - 1
    requires forall j :: 0 <= j < |row| - 1 ==> row[j].setLabel != row[|row| - 1].setLabel
    ensures FirstAt(row, l) < FirstAt(row, row[|row| - 1].setLabel)
  {
    FirstAtKeep(row, l);
    FirstAtNew(row);
  }

  lemma FirstAtOfPresent(row: Row, l: int, c: Cell)
    requires c in row && c.setLabel == l
    ensures FirstAt(row, l) < |row|
  {
    var j :| 0 <= j < |row| && row[j] == c;
  }

  /** A label already in the prefix keeps its first position when an entry is appended. */
  lemma FirstAtKeep(row: Row, l: int)
    requires |row| > 0 && FirstAt(row[..|row| - 1], l) < |row| - 1
    ensures FirstAt(row, l) == FirstAt(row[..|row| - 1], l)
  {
  }

  /** A label first seen in the last entry is first found there. */
  lemma FirstAtNew(row: Row)
    requires |row| > 0
    requires forall j :: 0 <= j < |row| - 1 ==> row[j].setLabel != row[|row| - 1].setLabel
    ensures FirstAt(row, row[|row| - 1].setLabel) == |row| - 1
  {
    var n := |row| - 1;
    assert forall j :: 0 <= j < n ==> row[..n][j] == row[j];
  }

  lemma SplitLast<T>(s: seq<T>)
    requires |s| > 0
    ensures s == s[..|s| - 1] + [s[|s| - 1]]
  {
  }

  lemma GroupingStep(prefix: Row, c: Cell, groups: seq<Row>, r: seq<Row>)
    requires Grouping(groups)
    requires forall c' :: c' in prefix ==> GroupIndex(groups, c'.setLabel) < |groups|
    requires forall i :: 0 <= i < |groups| ==> groups[i] == WithLabel(prefix, groups[i][0].setLabel)
    requires r == AddToGroups(groups, c)
    ensures forall c' :: c' in prefix + [c] ==> GroupIndex(r, c'.setLabel) < |r|
    ensures forall i :: 0 <= i < |r| ==> r[i] == WithLabel(prefix + [c], r[i][0].setLabel)
  {
    forall i | 0 <= i < |r| ensures r[i] == WithLabel(prefix + [c], r[i][0].setLabel) {
      GroupIsFilter(prefix, c, groups, r, i);
    }
    forall c' | c' in prefix + [c] ensures GroupIndex(r, c'.setLabel) < |r| {
      GroupCovers(prefix, c, groups, r, c');
    }
  }

  lemma GroupIsFilter(prefix: Row, c: Cell, groups: seq<Row>, r: seq<Row>, i: int)
    requires Grouping(groups)
    requires forall c' :: c' in prefix ==> GroupIndex(groups, c'.setLabel) < |groups|
    requires forall i :: 0 <= i < |groups| ==> groups[i] == WithLabel(prefix, groups[i][0].setLabel)
    requires r == AddToGroups(groups, c) && 0 <= i < |r|
    ensures r[i] == WithLabel(prefix + [c], r[i][0].setLabel)
  {
    var k := GroupIndex(groups, c.setLabel);
    if i == |groups| {
      NewGroupIsFilter(prefix, c, groups);
    } else {
      var l := groups[i][0].setLabel;
      WithLabelSnoc(prefix, c, l);
      if i == k {
        assert r[i] == groups[i] + [c];
      } else {
        assert r[i] == groups[i];
      }
    }
  }

  /** A label no group has yet is not in the prefix, so its group is the new entry alone. */
  lemma NewGroupIsFilter(prefix: Row, c: Cell, groups: seq<Row>)
    requires NonEmptyGroups(groups)
    requires forall c' :: c' in prefix ==> GroupIndex(groups, c'.setLabel) < |groups|
    requires GroupIndex(groups, c.setLabel) == |groups|
    ensures WithLabel(prefix + [c], c.setLabel) == [c]
  {
    WithLabelSnoc(prefix, c, c.setLabel);
    FirstWithLabel(prefix, c.setLabel);
  }

  lemma FirstWithLabel(row: Row, l: int)
    ensures WithLabel(row, l) != [] ==> WithLabel(row, l)[0] in row && WithLabel(row, l)[0].setLabel == l
  {
    if WithLabel(row, l) != [] {
      assert WithLabel(row, l)[0] in WithLabel(row, l);
    }
  }

  lemma GroupCovers(prefix: Row, c: Cell, groups: seq<Row>, r: seq<Row>, c': Cell)
    requires Grouping(groups)
    requires forall c' :: c' in prefix ==> GroupIndex(groups, c'.setLabel) < |groups|
    requires r == AddToGroups(groups, c) && c' in prefix + [c]
    ensures GroupIndex(r, c'.setLabel) < |r|
  {
    var j := GroupIndex(groups, c'.setLabel);
    if j < |groups| {
      assert r[j][0] == groups[j][0];
      GroupIndexAtMost(r, c'.setLabel, j);
    } else {
      assert c' == c;
      assert r[|groups|] == [c];
      GroupIndexAtMost(r, c.setLabel, |groups|);
    }
  }

  /** The groups one after the other. */
  function Flatten(groups: seq<Row>): Row
  {
    if groups == [] then [] else Flatten(groups[..|groups| - 1]) + groups[|groups| - 1]
  }

  lemma {:induction false} FlattenExtend(groups: seq<Row>, k: int, c: Cell)
    requires 0 <= k < |groups|
    ensures multiset(Flatten(groups[k := groups[k] + [c]])) == multiset(Flatten(groups)) + multiset{c}
    decreases |groups|
  {
    var n := |groups| - 1;
    var updated := groups[k := groups[k] + [c]];
    assert Flatten(groups) == Flatten(groups[..n]) + groups[n];
    assert Flatten(updated) == Flatten(updated[..n]) + updated[n];
    if k < n {
      assert updated[..n] == groups[..n][k := groups[k] + [c]];
      FlattenExtend(groups[..n], k, c);
    } else {
      assert updated[..n] == groups[..n];
    }
  }

  lemma FlattenAdd(groups: seq<Row>, c: Cell)
    requires Grouping(groups)
    ensures multiset(Flatten(AddToGroups(groups, c))) == multiset(Flatten(groups)) + multiset{c}
  {
    var k := GroupIndex(groups, c.setLabel);
    if k < |groups| {
      FlattenExtend(groups, k, c);
    } else {
      assert (groups + [[c]])[..|groups|] == groups;
    }
  }

  /** The groups of `RowSortedBySet` hold every entry of the row exactly as often as the row does. */
  lemma {:induction false} GroupsPartitionRow(row: Row)
    ensures multiset(Flatten(RowSortedBySet(row))) == multiset(row)
  {
    if row != [] {
      var prefix := row[..|row| - 1];
      GroupsPartitionRow(prefix);
      FlattenAdd(RowSortedBySet(prefix), row[|row| - 1]);
      SplitLast(row);
    }
  }

  // ---------------------------------------------------------------- joining within a row

  /** `Random.Range(0, 101)` on a draw, tested against a spawn percentage. */
  predicate Accepts(draw: nat, percentage: int)
  {
    InRangeInclusive(Range(draw, 0, 101), 0, percentage)
  }

  /** Entry j of the joined row already carried the set of entry j + 1: no draw, never joined. */
  predicate SameSet(row: Row, out: Row, j: int)
    requires 0 <= j && j + 1 < |row| && |out| == |row|
  {
    out[j].setLabel == row[j + 1].setLabel
  }

  /** Entry j + 1 was joined to entry j: it left its own set. */
  predicate Joined(row: Row, out: Row, j: int)
    requires 0 <= j && j + 1 < |row| && |out| == |row|
  {
    out[j + 1].setLabel != row[j + 1].setLabel
  }

  /** The walls between the first m + 1 entries: one left of entry j + 1 for every pair not joined. */
  function DividerWalls(row: Row, out: Row, m: int): seq<WallRecord>
    requires 0 <= m < |row| && |out| == |row|
  {
    if m == 0 then []
    else
      var wall := if Joined(row, out, m - 1) then [] else [WallRecord(Forward, row[m].x, row[m].z)];
      DividerWalls(row, out, m - 1) + wall
  }

  /** The `sameSetWalls` entries the first m pairs add: one below entry j + 1 for every same-set pair. */
  function SameSetMarks(row: Row, out: Row, m: int): seq<(int, int)>
    requires 0 <= m < |row| && |out| == |row|
  {
    if m == 0 then []
    else
      var mark := if SameSet(row, out, m - 1) then [(row[m].x, row[m].z + 1)] else [];
      SameSetMarks(row, out, m - 1) + mark
  }

  /** The draws the first m pairs consume: one per pair of different sets. */
  function DrawsUsed(row: Row, out: Row, m: int): nat
    requires 0 <= m < |row| && |out| == |row|
  {
    if m == 0 then 0
    else DrawsUsed(row, out, m - 1) + (if SameSet(row, out, m - 1) then 0 else 1)
  }

  /** The three pair summaries read the joined row only up to entry m. */
  lemma {:induction false} PairSummariesFrame(row: Row, out: Row, out': Row, m: int)
    requires 0 <= m < |row| && |out| == |row| && |out'| == |row|
    requires forall j :: 0 <= j <= m ==> out[j] == out'[j]
    ensures DividerWalls(row, out, m) == DividerWalls(row, out', m)
    ensures SameSetMarks(row, out, m) == SameSetMarks(row, out', m)
    ensures DrawsUsed(row, out, m) == DrawsUsed(row, out', m)
  {
    if m > 0 {
      PairSummariesFrame(row, out, out', m - 1);
    }
  }

  /** What the join loop did with pair j, in terms of the input and the joined row. */
  predicate PairDone(row: Row, out: Row, j: int, k: nat, rng: nat -> nat, percentage: int)
    requires 0 <= j && j + 1 < |row| && |out| == |row|
  {
    && (out[j + 1] == row[j + 1] || out[j + 1] == Cell(row[j + 1].x, row[j + 1].z, out[j].setLabel))
    && (SameSet(row, out, j) ==> out[j + 1] == row[j + 1])
    && (!SameSet(row, out, j) ==> (Joined(row, out, j) <==> Accepts(rng(k + DrawsUsed(row, out, j)), percentage)))
  }

  /**
   * `JoinRowVerticalWalls`: a wall left of the first entry; then for each pair of
   * neighbours of different sets, one draw decides whether the right one joins the left
   * one's set (no wall) or stays apart (a wall between them); neighbours of the same set
   * always get the wall and a `sameSetWalls` entry below the right one; finally a wall
   * right of the last entry. An empty row fails on `rowCopy[0]`.
   */
  method JoinRowVerticalWalls(row: Row, sameSetWalls: seq<(int, int)>, rng: nat -> nat, k: nat, percentage: int)
    returns (result: Option<Row>, walls: seq<WallRecord>, sameSetWalls': seq<(int, int)>, k': nat)
    ensures row == [] <==> result == None
    ensures row == [] ==> walls == [] && sameSetWalls' == sameSetWalls && k' == k
    ensures result.Some? ==>
      var out := result.value;
      && |out| == |row| && out[0] == row[0]
      && (forall j :: 0 <= j < |row| ==> out[j].x == row[j].x && out[j].z == row[j].z)
      && (forall j :: 0 <= j < |row| - 1 ==> PairDone(row, out, j, k, rng, percentage))
      && walls == [WallRecord(Forward, row[0].x, row[0].z)] + DividerWalls(row, out, |row| - 1)
                  + [WallRecord(Forward, row[|row| - 1].x + 1, row[|row| - 1].z)]
      && sameSetWalls' == sameSetWalls + SameSetMarks(row, out, |row| - 1)
      && k' == k + DrawsUsed(row, out, |row| - 1)
  {
    if row == [] {
      return None, [], sameSetWalls, k;
    }
    var rowCopy := row;
    walls := [WallRecord(Forward, row[0].x, row[0].z)];
    sameSetWalls', k' := sameSetWalls, k;
    for i := 0 to |row| - 1
      invariant |rowCopy| == |row| && rowCopy[0] == row[0]
      invariant forall j :: i < j < |row| ==> rowCopy[j] == row[j]
      invariant forall j :: 0 <= j < |row| ==> rowCopy[j].x == row[j].x && rowCopy[j].z == row[j].z
      invariant forall j :: 0 <= j < i ==> PairDone(row, rowCopy, j, k, rng, percentage)
      invariant walls == [WallRecord(Forward, row[0].x, row[0].z)] + DividerWalls(row, rowCopy, i)
      invariant sameSetWalls' == sameSetWalls + SameSetMarks(row, rowCopy, i)
      invariant k' == k + DrawsUsed(row, rowCopy, i)
    {
      rowCopy, walls, sameSetWalls', k' := JoinPair(row, rowCopy, i, walls, sameSetWalls, sameSetWalls', k, k', rng, percentage);
    }
    var last := rowCopy[|rowCopy| - 1];
    walls := walls + [WallRecord(Forward, last.x + 1, last.z)];
    result := Some(rowCopy);
  }

  /** One pass of the loop of `JoinRowVerticalWalls`: entries i and i + 1. */
  method JoinPair(row: Row, rowCopy: Row, i: int, walls: seq<WallRecord>, ghost marks0: seq<(int, int)>,
                  sameSetWalls: seq<(int, int)>, ghost k0: nat, k: nat, rng: nat -> nat, percentage: int)
    returns (rowCopy': Row, walls': seq<WallRecord>, sameSetWalls': seq<(int, int)>, k': nat)
    requires 0 <= i && i + 1 < |row| && |rowCopy| == |row| && rowCopy[0] == row[0]
    requires forall j :: i < j < |row| ==> rowCopy[j] == row[j]
    requires forall j :: 0 <= j < |row| ==> rowCopy[j].x == row[j].x && rowCopy[j].z == row[j].z
    requires forall j :: 0 <= j < i ==> PairDone(row, rowCopy, j, k0, rng, percentage)
    requires walls == [WallRecord(Forward, row[0].x, row[0].z)] + DividerWalls(row, rowCopy, i)
    requires sameSetWalls == marks0 + SameSetMarks(row, rowCopy, i)
    requires k == k0 + DrawsUsed(row, rowCopy, i)
    ensures |rowCopy'| == |row| && rowCopy'[0] == row[0]
    ensures forall j :: i + 1 < j < |row| ==> rowCopy'[j] == row[j]
    ensures forall j :: 0 <= j < |row| ==> rowCopy'[j].x == row[j].x && rowCopy'[j].z == row[j].z
    ensures forall j :: 0 <= j < i + 1 ==> PairDone(row, rowCopy', j, k0, rng, percentage)
    ensures walls' == [WallRecord(Forward, row[0].x, row[0].z)] + DividerWalls(row, rowCopy', i + 1)
    ensures sameSetWalls' == marks0 + SameSetMarks(row, rowCopy', i + 1)
    ensures k' == k0 + DrawsUsed(row, rowCopy', i + 1)
  {
    var curCell, nextCell := rowCopy[i], rowCopy[i + 1];
    var join := false;
    var sameSet := false;
    k' := k;
    if curCell.setLabel == nextCell.setLabel {
      join, sameSet := false, true;
    } else {
      var randNum := Range(rng(k'), 0, 101);
      k' := k' + 1;
      join := InRangeInclusive(randNum, 0, percentage);
    }
    walls', sameSetWalls', rowCopy' := walls, sameSetWalls, rowCopy;
    if !join {
      walls' := walls + [WallRecord(Forward, nextCell.x, nextCell.z)];
      if sameSet {
        sameSetWalls' := sameSetWalls + [(nextCell.x, nextCell.z + 1)];
      }
    } else {
      rowCopy' := rowCopy[i + 1 := Cell(nextCell.x, nextCell.z, curCell.setLabel)];
    }
    PairSummariesFrame(row, rowCopy, rowCopy', i);
    forall j | 0 <= j < i ensures PairDone(row, rowCopy', j, k0, rng, percentage) {
      PairSummariesFrame(row, rowCopy, rowCopy', j);
      assert PairDone(row, rowCopy, j, k0, rng, percentage);
    }
  }

  /** The labels a row carries. */
  function Labels(row: Row): set<int>
  {
    set c | c in row :: c.setLabel
  }

  /**
   * Joining only merges: every label of the joined row is a label of the input row,
   * so the join never creates a set.
   */
  lemma {:induction false} JoinOnlyMerges(row: Row, out: Row, k: nat, rng: nat -> nat, percentage: int, n: int)
    requires |out| == |row| && |row| > 0 && out[0] == row[0]
    requires forall j :: 0 <= j < |row| - 1 ==> PairDone(row, out, j, k, rng, percentage)
    requires 0 <= n < |row|
    ensures out[n].setLabel in Labels(row)
  {
    if n == 0 {
      assert row[0] in row;
    } else {
      assert PairDone(row, out, n - 1, k, rng, percentage);
      assert row[n] in row;
      JoinOnlyMerges(row, out, k, rng, percentage, n - 1);
    }
  }

  /** Pair j of the join gets a wall left of entry j + 1 exactly when it was not joined. */
  lemma {:induction false} DividerWallAt(row: Row, out: Row, m: int, j: int)
    requires 0 <= m < |row| && |out| == |row| && 0 <= j < m
    requires forall i :: 0 <= i < |row| ==> out[i].x == row[i].x && out[i].z == row[i].z
    ensures !Joined(row, out, j) ==> WallRecord(Forward, row[j + 1].x, row[j + 1].z) in DividerWalls(row, out, m)
  {
    if j < m - 1 {
      DividerWallAt(row, out, m - 1, j);
    }
  }

  /**
   * After the join, two neighbours of different sets always have a wall between them:
   * an opening is only ever left between cells of one set.
   */
  lemma WallsSeparateSets(row: Row, out: Row, k: nat, rng: nat -> nat, percentage: int, j: int)
    requires |out| == |row| && 0 <= j < |row| - 1
    requires forall i :: 0 <= i < |row| ==> out[i].x == row[i].x && out[i].z == row[i].z
    requires PairDone(row, out, j, k, rng, percentage)
    requires out[j].setLabel != out[j + 1].setLabel
    ensures WallRecord(Forward, out[j + 1].x, out[j + 1].z) in DividerWalls(row, out, |row| - 1)
  {
    DividerWallAt(row, out, |row| - 1, j);
  }

  // ---------------------------------------------------------------- bottom walls

  /**
   * `PlaceWallsSameDir(row, dir)`: the `foreach` placing, entry by entry, one wall of
   * orientation dir at the entry's coordinates. Wall i of the result belongs to entry i.
   */
  function PlaceWallsSameDir(row: Row, dir: WallDir): (r: seq<WallRecord>)
    ensures |r| == |row|
    ensures forall i :: 0 <= i < |row| ==> r[i] == WallRecord(dir, row[i].x, row[i].z)
  {
    if row == [] then []
    else [WallRecord(dir, row[0].x, row[0].z)] + PlaceWallsSameDir(row[1..], dir)
  }

  /** The `foreach` building `bWalls` from the `Item1` of each entry. */
  function Coords(row: Row): seq<(int, int)>
  {
    seq(|row|, i requires 0 <= i < |row| => (row[i].x, row[i].z))
  }

  /** Some entry of s carries label l. */
  predicate HasSet(s: Row, l: int)
  {
    exists j :: 0 <= j < |s| && s[j].setLabel == l
  }

  /**
   * The inner `foreach` of `BottomWalls` over one shuffled set: the first entry goes to
   * `noBWallCells`, each later one draws and goes to `bWallCells` when the draw is
   * accepted. Every entry lands in exactly one of the two lists, the first one among the
   * cells that keep the way down; a percentage of 100 or more walls every later entry,
   * a negative one none.
   */
  method SplitSet(shuffled: Row, bWallCells: Row, noBWallCells: Row, rng: nat -> nat, k: nat, percentage: int)
    returns (bWallCells': Row, noBWallCells': Row, k': nat)
    requires |shuffled| > 0
    ensures |bWallCells'| >= |bWallCells| && bWallCells'[..|bWallCells|] == bWallCells
    ensures |noBWallCells'| > |noBWallCells| && noBWallCells'[..|noBWallCells|] == noBWallCells
    ensures noBWallCells'[|noBWallCells|] == shuffled[0]
    ensures multiset(bWallCells'[|bWallCells|..]) + multiset(noBWallCells'[|noBWallCells|..]) == multiset(shuffled)
    ensures percentage >= 100 ==> |noBWallCells'| == |noBWallCells| + 1
    ensures percentage < 0 ==> bWallCells' == bWallCells
    ensures k' == k + |shuffled| - 1
  {
    bWallCells', noBWallCells', k' := bWallCells, noBWallCells + [shuffled[0]], k;
    ghost var chosen: Row, kept: Row := [], [shuffled[0]];
    for i := 1 to |shuffled|
      invariant SplitSoFar(shuffled, i, bWallCells, noBWallCells, bWallCells', noBWallCells', chosen, kept, percentage)
      invariant k' == k + i - 1
    {
      bWallCells', noBWallCells', chosen, kept, k' :=
        SplitOne(shuffled, i, bWallCells, noBWallCells, bWallCells', noBWallCells', chosen, kept, rng, k', percentage);
    }
    assert shuffled[..|shuffled|] == shuffled;
    AppendParts(bWallCells, chosen);
    AppendParts(noBWallCells, kept);
  }

  /** The state of `SplitSet` after the first i entries of the shuffled set. */
  ghost predicate SplitSoFar(shuffled: Row, i: int, bWallCells: Row, noBWallCells: Row,
                             bWallCells': Row, noBWallCells': Row, chosen: Row, kept: Row, percentage: int)
    requires 1 <= i <= |shuffled|
  {
    && bWallCells' == bWallCells + chosen && noBWallCells' == noBWallCells + kept
    && |kept| > 0 && kept[0] == shuffled[0]
    && multiset(chosen) + multiset(kept) == multiset(shuffled[..i])
    && (percentage >= 100 ==> |kept| == 1)
    && (percentage < 0 ==> chosen == [])
  }

  method SplitOne(shuffled: Row, i: int, bWallCells: Row, noBWallCells: Row,
                  bWallCells': Row, noBWallCells': Row, ghost chosen: Row, ghost kept: Row,
                  rng: nat -> nat, k: nat, percentage: int)
    returns (bWallCells'': Row, noBWallCells'': Row, ghost chosen': Row, ghost kept': Row, k': nat)
    requires 1 <= i < |shuffled|
    requires SplitSoFar(shuffled, i, bWallCells, noBWallCells, bWallCells', noBWallCells', chosen, kept, percentage)
    ensures SplitSoFar(shuffled, i + 1, bWallCells, noBWallCells, bWallCells'', noBWallCells'', chosen', kept', percentage)
    ensures k' == k + 1
  {
    var cell := shuffled[i];
    var randNum := Range(rng(k), 0, 101);
    k' := k + 1;
    SortedOneMore(chosen, kept, shuffled[..i], cell, shuffled[..i + 1]);
    if InRangeInclusive(randNum, 0, percentage) {
      bWallCells'', noBWallCells'', chosen', kept' := bWallCells' + [cell], noBWallCells', chosen + [cell], kept;
    } else {
      bWallCells'', noBWallCells'', chosen', kept' := bWallCells', noBWallCells' + [cell], chosen, kept + [cell];
    }
  }

  lemma SortedOneMore(chosen: Row, kept: Row, prefix: Row, e: Cell, whole: Row)
    requires multiset(chosen) + multiset(kept) == multiset(prefix) && whole == prefix + [e]
    ensures multiset(chosen + [e]) + multiset(kept) == multiset(whole)
    ensures multiset(chosen) + multiset(kept + [e]) == multiset(whole)
  {
  }

  lemma AppendParts<T>(a: seq<T>, b: seq<T>)
    ensures (a + b)[..|a|] == a && (a + b)[|a|..] == b
  {
  }

  /** The bottom walls placed after each set: all of `bWallCells` so far, each once more. */
  function PlacedBottomWalls(bWallCells: Row, ends: seq<nat>): seq<WallRecord>
    requires forall j :: 0 <= j < |ends| ==> ends[j] <= |bWallCells|
  {
    if ends == [] then []
    else
      PlacedBottomWalls(bWallCells, ends[..|ends| - 1])
      + PlaceWallsSameDir(IncreaseAxisRow(1, bWallCells[..ends[|ends| - 1]]), Rightward)
  }

  function Sum(s: seq<nat>): nat
  {
    if s == [] then 0 else Sum(s[..|s| - 1]) + s[|s| - 1]
  }

  /** Walls already placed stay as they were when `bWallCells` only grows at the end. */
  lemma {:induction false} PlacedBottomWallsFrame(b: Row, b': Row, ends: seq<nat>)
    requires |b| <= |b'| && b'[..|b|] == b
    requires forall j :: 0 <= j < |ends| ==> ends[j] <= |b|
    ensures PlacedBottomWalls(b', ends) == PlacedBottomWalls(b, ends)
  {
    if ends != [] {
      var n := ends[|ends| - 1];
      assert b'[..n] == b[..n];
      PlacedBottomWallsFrame(b, b', ends[..|ends| - 1]);
    }
  }

  lemma PlacedBottomWallsSnoc(b: Row, ends: seq<nat>, n: nat)
    requires forall j :: 0 <= j < |ends| ==> ends[j] <= |b|
    requires n <= |b|
    ensures PlacedBottomWalls(b, ends + [n]) == PlacedBottomWalls(b, ends) + PlaceWallsSameDir(IncreaseAxisRow(1, b[..n]), Rightward)
  {
    assert (ends + [n])[..|ends|] == ends;
  }

  lemma EndsStep(ends: seq<nat>, n: nat, n': nat)
    requires forall j :: 0 <= j < |ends| ==> ends[j] <= n
    requires n <= n'
    ensures forall j :: 0 <= j < |ends| + 1 ==> (ends + [n'])[j] <= n'
  {
  }

  /** `Flatten` over one more group. */
  lemma FlattenPrefix(groups: seq<Row>, n: int)
    requires 0 <= n < |groups|
    ensures Flatten(groups[..n + 1]) == Flatten(groups[..n]) + groups[n]
  {
    assert groups[..n + 1][..n] == groups[..n];
  }

  /** The cells `BottomWalls` has sorted after the first gi sets. */
  ghost predicate CellsSoFar(groups: seq<Row>, gi: int, bWallCells: Row, noBWallCells: Row, percentage: int)
    requires 0 <= gi <= |groups|
  {
    && multiset(bWallCells) + multiset(noBWallCells) == multiset(Flatten(groups[..gi]))
    && (forall j :: 0 <= j < gi && |groups[j]| > 0 ==> HasSet(noBWallCells, groups[j][0].setLabel))
    && (percentage >= 100 ==> |noBWallCells| == gi)
    && (percentage < 0 ==> bWallCells == [])
  }

  /** The walls placed after each of the first gi sets. */
  ghost predicate WallsSoFar(gi: int, bWallCells: Row, locations: seq<(int, int)>, walls: seq<WallRecord>, ends: seq<nat>)
  {
    && locations == Coords(bWallCells)
    && |ends| == gi && (forall j :: 0 <= j < gi ==> ends[j] <= |bWallCells|)
    && walls == PlacedBottomWalls(bWallCells, ends)
    && (gi > 0 ==> ends[gi - 1] == |bWallCells|)
  }

  /** The draws of both generators the first gi sets used. */
  ghost predicate DrawsSoFar(groups: seq<Row>, gi: int, k0: nat, k: nat, keys0: nat, keys: nat)
    requires 0 <= gi <= |groups|
  {
    k == k0 + |Flatten(groups[..gi])| - gi && keys == keys0 + |Flatten(groups[..gi])|
  }

  /** The state of `BottomWalls` after the first gi sets. */
  ghost predicate BottomSoFar(groups: seq<Row>, gi: int, bWallCells: Row, noBWallCells: Row,
                              locations: seq<(int, int)>, walls: seq<WallRecord>, ends: seq<nat>,
                              k0: nat, k: nat, keys0: nat, keys: nat, percentage: int)
    requires 0 <= gi <= |groups|
  {
    && CellsSoFar(groups, gi, bWallCells, noBWallCells, percentage)
    && WallsSoFar(gi, bWallCells, locations, walls, ends)
    && DrawsSoFar(groups, gi, k0, k, keys0, keys)
  }

  /**
   * One pass of the outer `foreach` of `BottomWalls`: shuffle set gi (keys from
   * `System.Random`), split it, reassign `bottomWallLocations` and place a bottom wall
   * under every cell of `bWallCells` so far.
   */
  method BottomSet(groups: seq<Row>, gi: int, bWallCells: Row, noBWallCells: Row,
                   locations: seq<(int, int)>, walls: seq<WallRecord>, ghost ends: seq<nat>,
                   rng: nat -> nat, ghost k0: nat, k: nat, keyRng: nat -> nat, ghost keys0: nat, keys: nat,
                   percentage: int)
    returns (bWallCells': Row, noBWallCells': Row, locations': seq<(int, int)>, walls': seq<WallRecord>,
             ghost ends': seq<nat>, k': nat, keys': nat)
    requires Grouping(groups) && 0 <= gi < |groups|
    requires BottomSoFar(groups, gi, bWallCells, noBWallCells, locations, walls, ends, k0, k, keys0, keys, percentage)
    ensures BottomSoFar(groups, gi + 1, bWallCells', noBWallCells', locations', walls', ends', k0, k', keys0, keys', percentage)
  {
    var setList := groups[gi];
    var shuffled := Shuffle(setList, keyRng, keys);
    keys' := keys + |setList|;
    bWallCells', noBWallCells', k' := SplitSet(shuffled, bWallCells, noBWallCells, rng, k, percentage);
    locations' := Coords(bWallCells');
    walls' := walls + PlaceWallsSameDir(IncreaseAxisRow(1, bWallCells'), Rightward);
    ends' := ends + [|bWallCells'|];
    SplitSetAccounts(groups, gi, shuffled, bWallCells, noBWallCells, bWallCells', noBWallCells', percentage);
    WallsStep(gi, bWallCells, bWallCells', walls, ends);
    DrawsStep(groups, gi, k0, k, k', keys0, keys, keys');
  }

  lemma WallsStep(gi: int, b: Row, b': Row, walls: seq<WallRecord>, ends: seq<nat>)
    requires WallsSoFar(gi, b, Coords(b), walls, ends)
    requires |b| <= |b'| && b'[..|b|] == b
    ensures WallsSoFar(gi + 1, b', Coords(b'), walls + PlaceWallsSameDir(IncreaseAxisRow(1, b'), Rightward), ends + [|b'|])
  {
    PlacedBottomWallsFrame(b, b', ends);
    PlacedBottomWallsSnoc(b', ends, |b'|);
    assert b'[..|b'|] == b';
    EndsStep(ends, |b|, |b'|);
  }

  lemma DrawsStep(groups: seq<Row>, gi: int, k0: nat, k: nat, k': nat, keys0: nat, keys: nat, keys': nat)
    requires 0 <= gi < |groups| && DrawsSoFar(groups, gi, k0, k, keys0, keys)
    requires k' == k + |groups[gi]| - 1 && keys' == keys + |groups[gi]|
    ensures DrawsSoFar(groups, gi + 1, k0, k', keys0, keys')
  {
    FlattenPrefix(groups, gi);
  }

  lemma SplitSetAccounts(groups: seq<Row>, gi: int, shuffled: Row, b: Row, nb: Row, b': Row, nb': Row, percentage: int)
    requires Grouping(groups) && 0 <= gi < |groups| && multiset(shuffled) == multiset(groups[gi])
    requires CellsSoFar(groups, gi, b, nb, percentage)
    requires |shuffled| > 0
    requires percentage >= 100 ==> |nb'| == |nb| + 1
    requires percentage < 0 ==> b' == b
    requires |b'| >= |b| && b'[..|b|] == b
    requires |nb'| > |nb| && nb'[..|nb|] == nb && nb'[|nb|] == shuffled[0]
    requires multiset(b'[|b|..]) + multiset(nb'[|nb|..]) == multiset(shuffled)
    ensures CellsSoFar(groups, gi + 1, b', nb', percentage)
  {
    assert b' == b + b'[|b|..];
    assert nb' == nb + nb'[|nb|..];
    FlattenPrefix(groups, gi);
    forall j | 0 <= j < gi + 1 && |groups[j]| > 0 ensures HasSet(nb', groups[j][0].setLabel) {
      if j < gi {
        var w :| 0 <= w < |nb| && nb[w].setLabel == groups[j][0].setLabel;
        assert nb'[w] == nb[w];
      } else {
        assert shuffled[0] in multiset(groups[gi]);
        assert nb'[|nb|].setLabel == groups[gi][0].setLabel;
      }
    }
  }

  /**
   * `BottomWalls`: the row grouped by set, each set shuffled and split. Every entry ends
   * in exactly one of `bWallCells` and `noBWallCells`, every set of the row keeps an
   * entry without a bottom wall, `bottomWallLocations` is the coordinates of
   * `bWallCells`, and after each set a bottom wall is placed under every entry of
   * `bWallCells` so far. One draw per entry but the first of its set, one shuffle key
   * per entry.
   */
  method BottomWalls(row: Row, rng: nat -> nat, k: nat, keyRng: nat -> nat, keys: nat, percentage: int)
    returns (bottomWallLocations: seq<(int, int)>, walls: seq<WallRecord>, k': nat, keys': nat,
             bWallCells: Row, noBWallCells: Row, ghost ends: seq<nat>)
    ensures multiset(bWallCells) + multiset(noBWallCells) == multiset(row)
    ensures forall c :: c in row ==> HasSet(noBWallCells, c.setLabel)
    ensures bottomWallLocations == Coords(bWallCells)
    ensures |ends| == |RowSortedBySet(row)| && (forall j :: 0 <= j < |ends| ==> ends[j] <= |bWallCells|)
    ensures |ends| > 0 ==> ends[|ends| - 1] == |bWallCells|
    ensures walls == PlacedBottomWalls(bWallCells, ends)
    ensures percentage >= 100 ==> |noBWallCells| == |RowSortedBySet(row)|
    ensures percentage < 0 ==> bottomWallLocations == [] && walls == []
    ensures k' == k + |row| - |RowSortedBySet(row)| && keys' == keys + |row|
  {
    var groups := RowSortedBySet(row);
    bottomWallLocations, walls, k', keys', bWallCells, noBWallCells, ends := BottomSets(groups, rng, k, keyRng, keys, percentage);
    BottomWallsDone(row, groups, bWallCells, noBWallCells, bottomWallLocations, walls, ends, k, k', keys, keys', percentage);
  }

  /** The outer `foreach` of `BottomWalls` over the groups. */
  method BottomSets(groups: seq<Row>, rng: nat -> nat, k: nat, keyRng: nat -> nat, keys: nat, percentage: int)
    returns (bottomWallLocations: seq<(int, int)>, walls: seq<WallRecord>, k': nat, keys': nat,
             bWallCells: Row, noBWallCells: Row, ghost ends: seq<nat>)
    requires Grouping(groups)
    ensures BottomSoFar(groups, |groups|, bWallCells, noBWallCells, bottomWallLocations, walls, ends, k, k', keys, keys', percentage)
  {
    bWallCells, noBWallCells, bottomWallLocations, walls, ends := [], [], [], [], [];
    k', keys' := k, keys;
    BottomStart(groups, k, keys, percentage);
    for gi := 0 to |groups|
      invariant BottomSoFar(groups, gi, bWallCells, noBWallCells, bottomWallLocations, walls, ends, k, k', keys, keys', percentage)
    {
      bWallCells, noBWallCells, bottomWallLocations, walls, ends, k', keys' :=
        BottomSet(groups, gi, bWallCells, noBWallCells, bottomWallLocations, walls, ends, rng, k, k', keyRng, keys, keys', percentage);
    }
  }

  lemma BottomStart(groups: seq<Row>, k: nat, keys: nat, percentage: int)
    ensures BottomSoFar(groups, 0, [], [], [], [], [], k, k, keys, keys, percentage)
  {
    assert groups[..0] == [];
  }

  lemma BottomWallsDone(row: Row, groups: seq<Row>, b: Row, nb: Row, locations: seq<(int, int)>,
                        walls: seq<WallRecord>, ends: seq<nat>, k0: nat, k: nat, keys0: nat, keys: nat, percentage: int)
    requires groups == RowSortedBySet(row)
    requires BottomSoFar(groups, |groups|, b, nb, locations, walls, ends, k0, k, keys0, keys, percentage)
    ensures multiset(b) + multiset(nb) == multiset(row)
    ensures forall c :: c in row ==> HasSet(nb, c.setLabel)
    ensures locations == Coords(b)
    ensures |ends| == |groups| && (forall j :: 0 <= j < |ends| ==> ends[j] <= |b|)
    ensures |ends| > 0 ==> ends[|ends| - 1] == |b|
    ensures walls == PlacedBottomWalls(b, ends)
    ensures percentage >= 100 ==> |nb| == |groups|
    ensures percentage < 0 ==> locations == [] && walls == []
    ensures k == k0 + |row| - |groups| && keys == keys0 + |row|
  {
    BottomCellsDone(row, groups, b, nb, percentage);
    GroupsPartitionRow(row);
    FlattenLength(row, groups);
    if percentage < 0 {
      PlacedBottomWallsEmpty(ends);
    }
  }

  lemma FlattenLength(row: Row, groups: seq<Row>)
    requires multiset(Flatten(groups)) == multiset(row)
    ensures |Flatten(groups[..|groups|])| == |row|
  {
    assert groups[..|groups|] == groups;
    assert |multiset(Flatten(groups))| == |multiset(row)|;
  }

  lemma BottomCellsDone(row: Row, groups: seq<Row>, b: Row, nb: Row, percentage: int)
    requires groups == RowSortedBySet(row)
    requires CellsSoFar(groups, |groups|, b, nb, percentage)
    ensures multiset(b) + multiset(nb) == multiset(row)
    ensures forall c :: c in row ==> HasSet(nb, c.setLabel)
  {
    assert groups[..|groups|] == groups;
    GroupsPartitionRow(row);
    forall c | c in row ensures HasSet(nb, c.setLabel) {
      var j := GroupIndex(groups, c.setLabel);
      assert groups[j][0].setLabel == c.setLabel;
    }
  }

  lemma {:induction false} PlacedBottomWallsEmpty(ends: seq<nat>)
    requires forall j :: 0 <= j < |ends| ==> ends[j] <= 0
    ensures PlacedBottomWalls([], ends) == []
  {
    if ends != [] {
      PlacedBottomWallsEmpty(ends[..|ends| - 1]);
    }
  }

  /**
   * The walls `BottomWalls` places are, as a set, exactly one bottom wall under each
   * entry of `bWallCells`: later sets place the earlier entries again, and the last set
   * places all of them.
   */
  lemma {:induction false} PlacedBottomWallsCover(b: Row, ends: seq<nat>)
    requires forall j :: 0 <= j < |ends| ==> ends[j] <= |b|
    requires |ends| > 0 && ends[|ends| - 1] == |b|
    ensures forall w :: w in PlacedBottomWalls(b, ends) <==> w in PlaceWallsSameDir(IncreaseAxisRow(1, b), Rightward)
  {
    PlacedBottomWallsWithin(b, ends);
    assert b[..|b|] == b;
  }

  lemma {:induction false} PlacedBottomWallsWithin(b: Row, ends: seq<nat>)
    requires forall j :: 0 <= j < |ends| ==> ends[j] <= |b|
    ensures forall w :: w in PlacedBottomWalls(b, ends) ==> w in PlaceWallsSameDir(IncreaseAxisRow(1, b), Rightward)
  {
    if ends != [] {
      var n := ends[|ends| - 1];
      PlacedBottomWallsWithin(b, ends[..|ends| - 1]);
      var all := PlaceWallsSameDir(IncreaseAxisRow(1, b), Rightward);
      var part := PlaceWallsSameDir(IncreaseAxisRow(1, b[..n]), Rightward);
      forall w | w in part ensures w in all {
        var i :| 0 <= i < |part| && part[i] == w;
        assert all[i] == w;
      }
    }
  }

  // ---------------------------------------------------------------- fresh sets under bottom walls

  /** How many entries of `emptyCells` are the coordinates of c. */
  function Matches(c: Cell, emptyCells: seq<(int, int)>): nat
  {
    if emptyCells == [] then 0
    else
      Matches(c, emptyCells[..|emptyCells| - 1])
      + (if emptyCells[|emptyCells| - 1] == (c.x, c.z) then 1 else 0)
  }

  lemma {:induction false} MatchesPositive(c: Cell, emptyCells: seq<(int, int)>)
    ensures Matches(c, emptyCells) > 0 <==> (c.x, c.z) in emptyCells
  {
    if emptyCells != [] {
      var n := |emptyCells| - 1;
      MatchesPositive(c, emptyCells[..n]);
      assert emptyCells == emptyCells[..n] + [emptyCells[n]];
    }
  }

  /** The matches of all entries of a row: the labels `EmptyCellsNewRow` hands out for it. */
  function MatchTotal(row: Row, emptyCells: seq<(int, int)>): nat
  {
    if row == [] then 0 else MatchTotal(row[..|row| - 1], emptyCells) + Matches(row[|row| - 1], emptyCells)
  }

  lemma MatchTotalStep(row: Row, emptyCells: seq<(int, int)>, i: int)
    requires 0 <= i < |row|
    ensures MatchTotal(row[..i + 1], emptyCells) == MatchTotal(row[..i], emptyCells) + Matches(row[i], emptyCells)
  {
    assert row[..i + 1][..i] == row[..i];
  }

  lemma {:induction false} MatchTotalMonotone(row: Row, emptyCells: seq<(int, int)>, i: int, j: int)
    requires 0 <= i <= j <= |row|
    ensures MatchTotal(row[..i], emptyCells) <= MatchTotal(row[..j], emptyCells)
    decreases j - i
  {
    if i < j {
      MatchTotalStep(row, emptyCells, i);
      MatchTotalMonotone(row, emptyCells, i + 1, j);
    }
  }

  /**
   * Entry i after `EmptyCellsNewRow`: an entry whose coordinates occur m > 0 times in
   * `emptyCells` takes the last of the m labels handed out for it, counting on from
   * maxSetVal over the entries before it; any other entry keeps its label.
   */
  function Relabelled(row: Row, emptyCells: seq<(int, int)>, maxSetVal: int, i: int): Cell
    requires 0 <= i < |row|
  {
    var c, m := row[i], Matches(row[i], emptyCells);
    if m == 0 then c else Cell(c.x, c.z, maxSetVal + MatchTotal(row[..i], emptyCells) + m - 1)
  }

  /**
   * The inner `foreach` of `EmptyCellsNewRow` over `emptyCells` for one entry: each
   * match gives it the label `max_set_val` and increments `max_set_val`.
   */
  method RelabelCell(cell: Cell, emptyCells: seq<(int, int)>, maxSetVal: int)
    returns (relabelled: Cell, maxSetVal': int)
    ensures maxSetVal' == maxSetVal + Matches(cell, emptyCells)
    ensures relabelled.x == cell.x && relabelled.z == cell.z
    ensures relabelled.setLabel == if maxSetVal' == maxSetVal then cell.setLabel else maxSetVal' - 1
  {
    relabelled, maxSetVal' := cell, maxSetVal;
    for j := 0 to |emptyCells|
      invariant maxSetVal' == maxSetVal + Matches(cell, emptyCells[..j])
      invariant relabelled.x == cell.x && relabelled.z == cell.z
      invariant relabelled.setLabel == if maxSetVal' == maxSetVal then cell.setLabel else maxSetVal' - 1
    {
      assert emptyCells[..j + 1][..j] == emptyCells[..j];
      var coord := emptyCells[j];
      if cell.x == coord.0 && cell.z == coord.1 {
        relabelled := Cell(cell.x, cell.z, maxSetVal');
        maxSetVal' := maxSetVal' + 1;
      }
    }
    assert emptyCells[..|emptyCells|] == emptyCells;
  }

  /**
   * `EmptyCellsNewRow(row, emptyCells)`: the entries whose coordinates are in
   * `emptyCells` (the cells under a bottom wall) get fresh labels from `max_set_val` on.
   */
  method EmptyCellsNewRow(row: Row, emptyCells: seq<(int, int)>, maxSetVal: int)
    returns (newRow: Row, maxSetVal': int)
    ensures |newRow| == |row|
    ensures maxSetVal' == maxSetVal + MatchTotal(row, emptyCells)
    ensures forall i :: 0 <= i < |row| ==> newRow[i] == Relabelled(row, emptyCells, maxSetVal, i)
  {
    newRow, maxSetVal' := row, maxSetVal;
    for i := 0 to |row|
      invariant |newRow| == |row|
      invariant maxSetVal' == maxSetVal + MatchTotal(row[..i], emptyCells)
      invariant forall j :: 0 <= j < i ==> newRow[j] == Relabelled(row, emptyCells, maxSetVal, j)
    {
      var cell, next;
      cell, next := RelabelCell(row[i], emptyCells, maxSetVal');
      MatchTotalStep(row, emptyCells, i);
      newRow := newRow[i := cell];
      maxSetVal' := next;
    }
    assert row[..|row|] == row;
  }

  /**
   * The labels `EmptyCellsNewRow` hands out are fresh: when every label of the row is
   * below maxSetVal, exactly the entries in `emptyCells` get a label at or above it,
   * each of them a label no other entry of the new row carries, the fresh labels increase
   * along the row, and every label of the new row is below the new `max_set_val`.
   */
  lemma FreshLabels(row: Row, emptyCells: seq<(int, int)>, maxSetVal: int, newRow: Row, maxSetVal': int)
    requires |newRow| == |row| && maxSetVal' == maxSetVal + MatchTotal(row, emptyCells)
    requires forall i :: 0 <= i < |row| ==> newRow[i] == Relabelled(row, emptyCells, maxSetVal, i)
    requires forall i :: 0 <= i < |row| ==> row[i].setLabel < maxSetVal
    ensures forall i :: 0 <= i < |row| ==> newRow[i].setLabel < maxSetVal'
    ensures forall i :: 0 <= i < |row| ==> ((row[i].x, row[i].z) in emptyCells <==> newRow[i].setLabel >= maxSetVal)
    ensures forall i, j :: 0 <= i < |row| && 0 <= j < |row| && i != j && (row[i].x, row[i].z) in emptyCells ==>
      newRow[i].setLabel != newRow[j].setLabel
    ensures forall i, j :: 0 <= i < j < |row| && (row[i].x, row[i].z) in emptyCells && (row[j].x, row[j].z) in emptyCells ==>
      newRow[i].setLabel < newRow[j].setLabel
  {
    assert row[..|row|] == row;
    forall i | 0 <= i < |row|
      ensures maxSetVal + MatchTotal(row[..i], emptyCells) <= newRow[i].setLabel < maxSetVal + MatchTotal(row[..i + 1], emptyCells) || (Matches(row[i], emptyCells) == 0 && newRow[i] == row[i])
      ensures newRow[i].setLabel < maxSetVal'
      ensures (row[i].x, row[i].z) in emptyCells <==> newRow[i].setLabel >= maxSetVal
    {
      MatchesPositive(row[i], emptyCells);
      MatchTotalStep(row, emptyCells, i);
      MatchTotalMonotone(row, emptyCells, i + 1, |row|);
    }
    forall i, j | 0 <= i < |row| && 0 <= j < |row| && i != j && (row[i].x, row[i].z) in emptyCells
      ensures newRow[i].setLabel != newRow[j].setLabel
    {
      MatchesPositive(row[i], emptyCells);
      if j < i {
        MatchTotalMonotone(row, emptyCells, j + 1, i);
      } else {
        MatchTotalMonotone(row, emptyCells, i + 1, j);
      }
    }
    forall i, j | 0 <= i < j < |row| && (row[i].x, row[i].z) in emptyCells && (row[j].x, row[j].z) in emptyCells
      ensures newRow[i].setLabel < newRow[j].setLabel
    {
      MatchesPositive(row[i], emptyCells);
      MatchesPositive(row[j], emptyCells);
      MatchTotalStep(row, emptyCells, i);
      MatchTotalMonotone(row, emptyCells, i + 1, j);
    }
  }

  // ---------------------------------------------------------------- start and end on the outer wall

  /** The `wall` names `RandomPositionOnOuterWall` reports. */
  datatype Side = Top | Right | Bottom | Left

  /** A cell on the outer wall together with the side it was drawn for. */
  datatype WallPoint = WallPoint(side: Side, x: int, z: int)

  /** `Random.Range(0, n)` for a size n: a value in [0, n), and 0 for n = 0. */
  function RangeUpTo(draw: nat, n: int): (r: int)
    requires n >= 0
    ensures n > 0 ==> 0 <= r < n
    ensures n == 0 ==> r == 0
  {
    if n == 0 then 0 else Range(draw, 0, n)
  }

  /** p is a cell of the side it names: the top row z = height - 1, the right column x = width - 1, and so on. */
  predicate OnSide(p: WallPoint, width: int, height: int)
  {
    match p.side
    case Top => p.z == height - 1 && 0 <= p.x < width
    case Right => p.x == width - 1 && 0 <= p.z < height
    case Bottom => p.z == 0 && 0 <= p.x < width
    case Left => p.x == 0 && 0 <= p.z < height
  }

  /**
   * `RandomPositionOnOuterWall`: one draw picks the side, a second the cell along it.
   * The `default` branch of the `switch` is unreachable, since `Range(0, 4)` is below 4.
   */
  function RandomPositionOnOuterWall(width: int, height: int, sideDraw: nat, posDraw: nat): (p: WallPoint)
    requires width >= 0 && height >= 0
    ensures width >= 1 && height >= 1 ==> OnSide(p, width, height)
  {
    var wallSide := Range(sideDraw, 0, 4);
    if wallSide == 0 then WallPoint(Top, RangeUpTo(posDraw, width), height - 1)
    else if wallSide == 1 then WallPoint(Right, width - 1, RangeUpTo(posDraw, height))
    else if wallSide == 2 then WallPoint(Bottom, RangeUpTo(posDraw, width), 0)
    else WallPoint(Left, 0, RangeUpTo(posDraw, height))
  }

  /** The case of the `switch` that reports a side. */
  function SideIndex(s: Side): (n: nat)
    ensures n < 4
  {
    match s
    case Top => 0
    case Right => 1
    case Bottom => 2
    case Left => 3
  }

  /** The coordinate that runs along p's side: x on the top and bottom, z on the left and right. */
  function AlongSide(p: WallPoint): int
  {
    if p.side == Top || p.side == Bottom then p.x else p.z
  }

  /** Every cell of every side is drawn by some pair of draws: the model excludes no start or end. */
  lemma OuterWallCovered(width: int, height: int, p: WallPoint)
    requires width >= 1 && height >= 1 && OnSide(p, width, height)
    ensures RandomPositionOnOuterWall(width, height, SideIndex(p.side), AlongSide(p)) == p
  {
    match p.side
    case Top => TopCovered(width, height, p.x);
    case Right => RightCovered(width, height, p.z);
    case Bottom => BottomCovered(width, height, p.x);
    case Left => LeftCovered(width, height, p.z);
  }

  lemma TopCovered(width: int, height: int, x: int)
    requires height >= 1 && 0 <= x < width
    ensures RandomPositionOnOuterWall(width, height, 0, x) == WallPoint(Top, x, height - 1)
  {
    RangeOfSmall(0, 4);
    RangeOfSmall(x, width);
  }

  lemma RightCovered(width: int, height: int, z: int)
    requires width >= 1 && 0 <= z < height
    ensures RandomPositionOnOuterWall(width, height, 1, z) == WallPoint(Right, width - 1, z)
  {
    RangeOfSmall(1, 4);
    RangeOfSmall(z, height);
  }

  lemma BottomCovered(width: int, height: int, x: int)
    requires height >= 1 && 0 <= x < width
    ensures RandomPositionOnOuterWall(width, height, 2, x) == WallPoint(Bottom, x, 0)
  {
    RangeOfSmall(2, 4);
    RangeOfSmall(x, width);
  }

  lemma LeftCovered(width: int, height: int, z: int)
    requires width >= 1 && 0 <= z < height
    ensures RandomPositionOnOuterWall(width, height, 3, z) == WallPoint(Left, 0, z)
  {
    RangeOfSmall(3, 4);
    RangeOfSmall(z, height);
  }

  lemma RangeOfSmall(v: int, n: int)
    requires 0 <= v < n
    ensures RangeUpTo(v, n) == v && Range(v, 0, n) == v
  {
  }

  /** The n-th try of the `do`-`while` for the end point, on draws from k on. */
  function EndTry(width: int, height: int, rng: nat -> nat, k: nat, n: nat): WallPoint
    requires width >= 0 && height >= 0
  {
    RandomPositionOnOuterWall(width, height, rng(k + 2 * n), rng(k + 2 * n + 1))
  }

  /** Some try from k on lands on a side other than `side`: otherwise the `do`-`while` never ends. */
  ghost predicate SomeTryLeaves(width: int, height: int, rng: nat -> nat, k: nat, side: Side)
    requires width >= 0 && height >= 0
  {
    exists n: nat :: EndTry(width, height, rng, k, n).side != side
  }

  /**
   * The `do`-`while` that redraws the end point until its side differs from the start's.
   * The result is the first try on another side; `tries` is the number of tries made.
   */
  method RandomEndPoint(width: int, height: int, startSide: Side, rng: nat -> nat, k: nat)
    returns (endPoint: WallPoint, tries: nat)
    requires width >= 0 && height >= 0
    requires SomeTryLeaves(width, height, rng, k, startSide)
    ensures tries >= 1 && endPoint == EndTry(width, height, rng, k, tries - 1)
    ensures endPoint.side != startSide
    ensures forall n: nat :: n < tries - 1 ==> EndTry(width, height, rng, k, n).side == startSide
  {
    ghost var bound: nat :| EndTry(width, height, rng, k, bound).side != startSide;
    tries := 1;
    endPoint := EndTry(width, height, rng, k, 0);
    while endPoint.side == startSide
      invariant tries >= 1 && endPoint == EndTry(width, height, rng, k, tries - 1)
      invariant forall n: nat :: n < tries - 1 ==> EndTry(width, height, rng, k, n).side == startSide
      invariant tries - 1 <= bound
      decreases bound - tries
    {
      endPoint := EndTry(width, height, rng, k, tries);
      tries := tries + 1;
    }
  }

  // ---------------------------------------------------------------- the whole maze

  /**
   * w is a segment of the wall lattice of a width by height grid: a `forward` wall at
   * (x, z) runs along the line x between z and z + 1, with 0 <= x <= width and
   * 0 <= z < height; a `right` wall at (x, z) runs along the line z between x and x + 1,
   * with 0 <= x < width and 0 <= z <= height.
   */
  predicate OnLattice(w: WallRecord, width: int, height: int)
  {
    match w.dir
    case Forward => 0 <= w.x <= width && 0 <= w.z < height
    case Rightward => 0 <= w.x < width && 0 <= w.z <= height
  }

  /** The first row: cell x at (x, 0) in set x + 1, `max_set_val` one past the last label. */
  method FirstRow(width: int) returns (firstRow: Row, maxSetVal: int)
    requires width >= 0
    ensures |firstRow| == width && maxSetVal == width + 1
    ensures forall i :: 0 <= i < width ==> firstRow[i].x == i && firstRow[i].z == 0
    ensures forall i :: 0 <= i < width ==> 1 <= firstRow[i].setLabel < maxSetVal
    ensures forall i, j :: 0 <= i < j < width ==> firstRow[i].setLabel != firstRow[j].setLabel
  {
    firstRow, maxSetVal := [], 1;
    for x := 0 to width
      invariant |firstRow| == x && maxSetVal == x + 1
      invariant forall i :: 0 <= i < x ==> firstRow[i] == Cell(i, 0, i + 1)
    {
      firstRow := firstRow + [Cell(x, 0, maxSetVal)];
      maxSetVal := maxSetVal + 1;
    }
  }

  /**
   * What `SpawnEllersMaze` has placed before row z: the current row is the cells (x, z),
   * every wall is a grid wall, the top border is closed, so are the left and right
   * borders of the rows before z, and once every row is done the bottom border too.
   */
  ghost predicate SpawnSoFar(width: int, height: int, z: int, row: Row, walls: seq<WallRecord>)
  {
    && |row| == width && (forall i :: 0 <= i < width ==> row[i].x == i && row[i].z == z)
    && (forall w :: w in walls ==> OnLattice(w, width, height))
    && (forall x :: 0 <= x < width ==> WallRecord(Rightward, x, 0) in walls)
    && (forall z' :: 0 <= z' < z ==> WallRecord(Forward, 0, z') in walls && WallRecord(Forward, width, z') in walls)
    && (z == height ==> forall x :: 0 <= x < width ==> WallRecord(Rightward, x, height) in walls)
  }

  lemma PlacedOnLattice(row: Row, dir: WallDir, width: int, height: int)
    requires forall i :: 0 <= i < |row| ==> OnLattice(WallRecord(dir, row[i].x, row[i].z), width, height)
    ensures forall w :: w in PlaceWallsSameDir(row, dir) ==> OnLattice(w, width, height)
  {
  }

  lemma PlacedCovers(row: Row, dir: WallDir)
    ensures forall c :: c in row ==> WallRecord(dir, c.x, c.z) in PlaceWallsSameDir(row, dir)
  {
    var placed := PlaceWallsSameDir(row, dir);
    forall c | c in row ensures WallRecord(dir, c.x, c.z) in placed {
      var i :| 0 <= i < |row| && row[i] == c;
      assert placed[i] == WallRecord(dir, c.x, c.z);
    }
  }

  lemma {:induction false} DividerWallsOnLattice(row: Row, out: Row, m: int, width: int, height: int)
    requires 0 <= m < |row| && |out| == |row|
    requires forall i :: 0 <= i < |row| ==> OnLattice(WallRecord(Forward, row[i].x, row[i].z), width, height)
    ensures forall w :: w in DividerWalls(row, out, m) ==> OnLattice(w, width, height)
  {
    if m > 0 {
      DividerWallsOnLattice(row, out, m - 1, width, height);
    }
  }

  /** The bottom walls of a row at z < height lie under its cells, on the grid. */
  lemma BottomWallsOnLattice(row: Row, b: Row, nb: Row, ends: seq<nat>, width: int, height: int, z: int)
    requires |row| == width && 0 <= z < height
    requires forall i :: 0 <= i < width ==> row[i].x == i && row[i].z == z
    requires multiset(b) + multiset(nb) == multiset(row)
    requires forall j :: 0 <= j < |ends| ==> ends[j] <= |b|
    ensures forall w :: w in PlacedBottomWalls(b, ends) ==> OnLattice(w, width, height)
  {
    PlacedBottomWallsWithin(b, ends);
    var placed := PlaceWallsSameDir(IncreaseAxisRow(1, b), Rightward);
    forall w | w in placed ensures OnLattice(w, width, height) {
      var i :| 0 <= i < |placed| && placed[i] == w;
      assert b[i] in multiset(row);
    }
  }

  ghost predicate AllOnLattice(walls: seq<WallRecord>, width: int, height: int)
  {
    forall w :: w in walls ==> OnLattice(w, width, height)
  }

  /** The walls of the join of row z lie on the grid and close its left and right ends. */
  lemma JoinWallsFacts(row: Row, out: Row, joinWalls: seq<WallRecord>, width: int, height: int, z: int)
    requires |row| == width && width > 0 && 0 <= z < height && |out| == |row|
    requires forall i :: 0 <= i < width ==> row[i].x == i && row[i].z == z
    requires joinWalls == [WallRecord(Forward, row[0].x, row[0].z)] + DividerWalls(row, out, |row| - 1)
                          + [WallRecord(Forward, row[|row| - 1].x + 1, row[|row| - 1].z)]
    ensures AllOnLattice(joinWalls, width, height)
    ensures WallRecord(Forward, 0, z) in joinWalls && WallRecord(Forward, width, z) in joinWalls
  {
    DividerWallsOnLattice(row, out, |row| - 1, width, height);
    assert joinWalls[|joinWalls| - 1] == WallRecord(Forward, width, z);
  }

  /** The bottom border placed before the last row's join lies on the grid and closes the bottom. */
  lemma LastRowWallsFacts(row: Row, width: int, height: int)
    requires |row| == width && height >= 1
    requires forall i :: 0 <= i < width ==> row[i].x == i && row[i].z == height - 1
    ensures AllOnLattice(PlaceWallsSameDir(IncreaseAxisRow(1, row), Rightward), width, height)
    ensures forall x :: 0 <= x < width ==> WallRecord(Rightward, x, height) in PlaceWallsSameDir(IncreaseAxisRow(1, row), Rightward)
  {
    PlacedOnLattice(IncreaseAxisRow(1, row), Rightward, width, height);
    PlacedCovers(IncreaseAxisRow(1, row), Rightward);
  }

  /** The next row keeps the columns and moves to z + 1. */
  lemma NextRowCoords(joined: Row, emptyCells: seq<(int, int)>, maxSetVal: int, newRow: Row, width: int, z: int)
    requires |joined| == width && forall i :: 0 <= i < width ==> joined[i].x == i && joined[i].z == z
    requires |newRow| == |joined| && forall i :: 0 <= i < |joined| ==> newRow[i] == Relabelled(joined, emptyCells, maxSetVal, i)
    ensures forall i :: 0 <= i < width ==> IncreaseAxisRow(1, newRow)[i].x == i && IncreaseAxisRow(1, newRow)[i].z == z + 1
  {
  }

  /** The four groups of walls of one pass together keep `SpawnSoFar` for the next row. */
  lemma SpawnStep(width: int, height: int, z: int, row: Row, walls: seq<WallRecord>, lastWalls: seq<WallRecord>,
                  joinWalls: seq<WallRecord>, bottomWalls: seq<WallRecord>, row': Row)
    requires SpawnSoFar(width, height, z, row, walls)
    requires AllOnLattice(lastWalls, width, height) && AllOnLattice(joinWalls, width, height) && AllOnLattice(bottomWalls, width, height)
    requires z == height - 1 ==> forall x :: 0 <= x < width ==> WallRecord(Rightward, x, height) in lastWalls
    requires WallRecord(Forward, 0, z) in joinWalls && WallRecord(Forward, width, z) in joinWalls
    requires |row'| == width && forall i :: 0 <= i < width ==> row'[i].x == i && row'[i].z == z + 1
    ensures SpawnSoFar(width, height, z + 1, row', walls + lastWalls + joinWalls + bottomWalls)
  {
  }

  /** The join of row z, with what the rest of the pass needs to know about it. */
  method JoinStage(width: int, height: int, z: int, row: Row, sameSetWalls: seq<(int, int)>,
                   rng: nat -> nat, k: nat, rPercentage: int)
    returns (joined: Option<Row>, joinWalls: seq<WallRecord>, sameSetWalls': seq<(int, int)>, k': nat)
    requires 0 <= z < height && |row| == width
    requires forall i :: 0 <= i < width ==> row[i].x == i && row[i].z == z
    ensures joined.None? <==> width == 0
    ensures joined.Some? ==> |joined.value| == width && forall i :: 0 <= i < width ==> joined.value[i].x == i && joined.value[i].z == z
    ensures joined.Some? ==> AllOnLattice(joinWalls, width, height)
    ensures joined.Some? ==> WallRecord(Forward, 0, z) in joinWalls && WallRecord(Forward, width, z) in joinWalls
  {
    joined, joinWalls, sameSetWalls', k' := JoinRowVerticalWalls(row, sameSetWalls, rng, k, rPercentage);
    if joined.Some? {
      JoinWallsFacts(row, joined.value, joinWalls, width, height, z);
    }
  }

  /** The bottom walls of the joined row z and the next row, with fresh sets under the bottom walls. */
  method BottomStage(width: int, height: int, z: int, joinedRow: Row, maxSetVal: int,
                     rng: nat -> nat, k: nat, keyRng: nat -> nat, keys: nat, bPercentage: int)
    returns (row': Row, bottomWalls: seq<WallRecord>, maxSetVal': int, k': nat, keys': nat)
    requires 0 <= z < height && |joinedRow| == width
    requires forall i :: 0 <= i < width ==> joinedRow[i].x == i && joinedRow[i].z == z
    ensures AllOnLattice(bottomWalls, width, height)
    ensures |row'| == width && forall i :: 0 <= i < width ==> row'[i].x == i && row'[i].z == z + 1
  {
    var bottomWallLocations, bWallCells, noBWallCells;
    ghost var ends;
    bottomWallLocations, bottomWalls, k', keys', bWallCells, noBWallCells, ends :=
      BottomWalls(joinedRow, rng, k, keyRng, keys, bPercentage);
    BottomWallsOnLattice(joinedRow, bWallCells, noBWallCells, ends, width, height, z);
    var newRow;
    newRow, maxSetVal' := EmptyCellsNewRow(joinedRow, bottomWallLocations, maxSetVal);
    NextRowCoords(joinedRow, bottomWallLocations, maxSetVal, newRow, width, z);
    row' := IncreaseAxisRow(1, newRow);
  }

  /**
   * One pass of the row loop of `SpawnEllersMaze`: on the last row the bottom border,
   * then the join, the bottom walls, fresh sets under the bottom walls, and the move to
   * row z + 1. An empty row fails in the join.
   */
  method SpawnRow(width: int, height: int, z: int, row: Row, walls: seq<WallRecord>,
                  sameSetWalls: seq<(int, int)>, maxSetVal: int,
                  rng: nat -> nat, k: nat, keyRng: nat -> nat, keys: nat, rPercentage: int, bPercentage: int)
    returns (failed: bool, row': Row, walls': seq<WallRecord>, sameSetWalls': seq<(int, int)>,
             maxSetVal': int, k': nat, keys': nat)
    requires 0 <= z < height && SpawnSoFar(width, height, z, row, walls)
    ensures failed <==> width == 0
    ensures !failed ==> SpawnSoFar(width, height, z + 1, row', walls')
  {
    var lastWalls := [];
    if z == height - 1 {
      lastWalls := PlaceWallsSameDir(IncreaseAxisRow(1, row), Rightward);
      LastRowWallsFacts(row, width, height);
    }
    var joined, joinWalls;
    joined, joinWalls, sameSetWalls', k' := JoinStage(width, height, z, row, sameSetWalls, rng, k, rPercentage);
    if joined.None? {
      return true, row, walls + lastWalls, sameSetWalls', maxSetVal, k', keys;
    }
    failed := false;
    var bottomWalls;
    row', bottomWalls, maxSetVal', k', keys' := BottomStage(width, height, z, joined.value, maxSetVal, rng, k', keyRng, keys, bPercentage);
    walls' := walls + lastWalls + joinWalls + bottomWalls;
    SpawnStep(width, height, z, row, walls, lastWalls, joinWalls, bottomWalls, row');
  }

  /**
   * `SpawnEllersMaze`: a start point and an end point on different sides of the outer
   * wall, then Eller's algorithm row by row from z = 0. The draws of `UnityEngine.Random`
   * come from `rng` from k on, the shuffle keys of `System.Random` from `keyRng` from
   * `keys` on; the two spawn percentages are the serialized fields. With width 0 and at
   * least one row the join fails on the empty row. Otherwise every wall is a wall of
   * the width by height lattice and the whole outer border is walled: the `right`
   * segments on the lines z = 0 and z = height and the `forward` segments on the lines
   * x = 0 and x = width.
   */
  method SpawnEllersMaze(width: int, height: int, rPercentage: int, bPercentage: int,
                         rng: nat -> nat, k: nat, keyRng: nat -> nat, keys: nat)
    returns (startPoint: WallPoint, endPoint: WallPoint, walls: Option<seq<WallRecord>>)
    requires width >= 0 && height >= 0
    requires SomeTryLeaves(width, height, rng, k + 2, RandomPositionOnOuterWall(width, height, rng(k), rng(k + 1)).side)
    ensures startPoint.side != endPoint.side
    ensures width >= 1 && height >= 1 ==> OnSide(startPoint, width, height) && OnSide(endPoint, width, height)
    ensures walls.None? <==> width == 0 && height > 0
    ensures walls.Some? ==> forall w :: w in walls.value ==> OnLattice(w, width, height)
    ensures walls.Some? ==> forall x :: 0 <= x < width ==>
      WallRecord(Rightward, x, 0) in walls.value && WallRecord(Rightward, x, height) in walls.value
    ensures walls.Some? ==> forall z :: 0 <= z < height ==>
      WallRecord(Forward, 0, z) in walls.value && WallRecord(Forward, width, z) in walls.value
  {
    startPoint := RandomPositionOnOuterWall(width, height, rng(k), rng(k + 1));
    var tries;
    endPoint, tries := RandomEndPoint(width, height, startPoint.side, rng, k + 2);
    var k': nat := k + 2 + 2 * tries;
    var keys' := keys;
    var row, maxSetVal := FirstRow(width);
    var placed := PlaceWallsSameDir(row, Rightward);
    PlacedOnLattice(row, Rightward, width, height);
    assert forall x :: 0 <= x < width ==> placed[x] == WallRecord(Rightward, x, 0);
    var sameSetWalls := [];
    for z := 0 to height
      invariant SpawnSoFar(width, height, z, row, placed)
      invariant width > 0 || z == 0
    {
      var failed;
      failed, row, placed, sameSetWalls, maxSetVal, k', keys' :=
        SpawnRow(width, height, z, row, placed, sameSetWalls, maxSetVal, rng, k', keyRng, keys', rPercentage, bPercentage);
      if failed {
        return startPoint, endPoint, None;
      }
    }
    walls := Some(placed);
  }
}

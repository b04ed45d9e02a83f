/**
 * `NavigationSystem`: the A* search over a 100 x 100 grid with 8-directional
 * moves (`FindPathJob.Execute` and its static helpers) and the rule of one
 * search per pending request (`OnUpdate`).
 */
module Navigation {
  import opened Components
  import opened Nodes

  const StraightMoveCost := 10
  const DiagonalMoveCost := 14

  /** `int.MaxValue`, the gCost of a cell the search has not reached. */
  const IntMaxValue := 0x7FFF_FFFF

  /** `gridSize = new int2(100, 100)` in `FindPathJob.Execute`. */
  const GridSize := Int2(100, 100)

  /** `gridSize.x * gridSize.y`, the length of the node array. */
  const NodeCount := 10000

  /** Left, right, up, down, then the four diagonals, in the search's order. */
  const NeighbourOffsets: seq<Int2> := [
    Int2(-1, 0), Int2(1, 0), Int2(0, 1), Int2(0, -1),
    Int2(-1, -1), Int2(-1, 1), Int2(1, -1), Int2(1, 1)]

  function Abs(v: int): nat {
    if v < 0 then -v else v
  }

  function Min(a: int, b: int): int {
    if a <= b then a else b
  }

  function Max(a: int, b: int): int {
    if a <= b then b else a
  }

  // ---------------------------------------------------------------------------
  // Static helpers

  /** The linear index of cell (x, z): the row stride is the grid's x size. */
  function CalculateIndex(x: int, z: int, gridWidth: int): int {
    x + z * gridWidth
  }

  predicate IsPositionInsideGrid(gridPosition: Int2, gridSize: Int2) {
    gridPosition.x >= 0 &&
    gridPosition.y >= 0 &&
    gridPosition.x < gridSize.x &&
    gridPosition.y < gridSize.y
  }

  /** Octile distance with straight cost 10 and diagonal cost 14. */
  function CalculateHCost(aPosition: Int2, bPosition: Int2): (cost: int)
    ensures cost >= 0
    ensures cost == 0 <==> aPosition == bPosition
  {
    var xDistance := Abs(aPosition.x - bPosition.x);
    var yDistance := Abs(aPosition.y - bPosition.y);
    var remaining := Abs(xDistance - yDistance);
    DiagonalMoveCost * Min(xDistance, yDistance) + StraightMoveCost * remaining
  }

  function CalculateFCost(a: int, b: int): int {
    a + b
  }

  /** The cell a linear index stands for: the inverse of CalculateIndex. */
  function CellOfIndex(i: int, gridWidth: int): Int2
    requires gridWidth > 0
  {
    Int2(i % gridWidth, i / gridWidth)
  }

  /** 8-neighbourhood: distinct cells at most one step apart on each axis. */
  predicate Adjacent(a: Int2, b: Int2) {
    a != b && Abs(a.x - b.x) <= 1 && Abs(a.y - b.y) <= 1
  }

  function Step(p: Int2, offset: Int2): Int2 {
    Int2(p.x + offset.x, p.y + offset.y)
  }

  // ---------------------------------------------------------------------------
  // Properties of the helpers

  lemma MulMonotone(a: int, b: int, c: int)
    requires a <= b && c >= 0
    ensures a * c <= b * c
  {
  }

  lemma MultipleInOpenUnit(k: int, w: int)
    requires w > 0 && -w < k * w < w
    ensures k == 0
  {
    if k >= 1 {
      MulMonotone(1, k, w);
    } else if k <= -1 {
      MulMonotone(k, -1, w);
    }
  }

  /**
   * CalculateIndex maps the cells of a grid one-to-one onto [0, x size * y size),
   * and CellOfIndex undoes it.
   */
  lemma {:induction false} IndexBijection(p: Int2, gridSize: Int2)
    requires IsPositionInsideGrid(p, gridSize)
    ensures 0 <= CalculateIndex(p.x, p.y, gridSize.x) < gridSize.x * gridSize.y
    ensures CellOfIndex(CalculateIndex(p.x, p.y, gridSize.x), gridSize.x) == p
  {
    var w := gridSize.x;
    var i := CalculateIndex(p.x, p.y, w);
    MulMonotone(p.y, gridSize.y - 1, w);
    MulMonotone(0, p.y, w);
    assert (gridSize.y - 1) * w == gridSize.y * w - w;
    var q, r := i / w, i % w;
    assert (q - p.y) * w == p.x - r;
    MultipleInOpenUnit(q - p.y, w);
  }

  /** Every index of the node array names an in-grid cell whose index it is. */
  lemma {:induction false} CellOfIndexInGrid(i: int, gridSize: Int2)
    requires gridSize.x > 0 && 0 <= i < gridSize.x * gridSize.y
    ensures IsPositionInsideGrid(CellOfIndex(i, gridSize.x), gridSize)
    ensures CalculateIndex(CellOfIndex(i, gridSize.x).x, CellOfIndex(i, gridSize.x).y, gridSize.x) == i
  {
    var w := gridSize.x;
    var q := i / w;
    if q >= gridSize.y {
      MulMonotone(gridSize.y, q, w);
      assert false;
    }
  }

  lemma HCostSymmetric(a: Int2, b: Int2)
    ensures CalculateHCost(a, b) == CalculateHCost(b, a)
  {
  }

  /** The heuristic is 10 * max(|dx|, |dz|) + 4 * min(|dx|, |dz|). */
  lemma HCostIsOctile(a: Int2, b: Int2)
    ensures var dx, dz := Abs(a.x - b.x), Abs(a.y - b.y);
      CalculateHCost(a, b) == StraightMoveCost * Max(dx, dz) + (DiagonalMoveCost - StraightMoveCost) * Min(dx, dz)
  {
  }

  /** Each neighbour offset is one 8-neighbourhood step costing 10 (orthogonal) or 14 (diagonal). */
  lemma StepCost(p: Int2, k: int)
    requires 0 <= k < |NeighbourOffsets|
    ensures Adjacent(p, Step(p, NeighbourOffsets[k]))
    ensures CalculateHCost(p, Step(p, NeighbourOffsets[k])) == if k < 4 then StraightMoveCost else DiagonalMoveCost
  {
  }

  /** Adjacent cells are exactly the eight offsets away. */
  lemma AdjacentIsOffset(a: Int2, b: Int2) returns (k: int)
    requires Adjacent(a, b)
    ensures 0 <= k < |NeighbourOffsets| && Step(a, NeighbourOffsets[k]) == b
  {
    var dx, dz := b.x - a.x, b.y - a.y;
    k := if dx == -1 && dz == 0 then 0
      else if dx == 1 && dz == 0 then 1
      else if dx == 0 && dz == 1 then 2
      else if dx == 0 && dz == -1 then 3
      else if dx == -1 && dz == -1 then 4
      else if dx == -1 && dz == 1 then 5
      else if dx == 1 && dz == -1 then 6
      else 7;
  }

  /** The step cost between adjacent cells is 10 or 14. */
  lemma AdjacentCost(a: Int2, b: Int2)
    requires Adjacent(a, b)
    ensures StraightMoveCost <= CalculateHCost(a, b) <= DiagonalMoveCost
  {
  }

  /** The heuristic is 4 times the Manhattan distance plus 6 times the Chebyshev distance. */
  lemma HCostSplit(a: Int2, b: Int2)
    ensures var dx, dz := Abs(a.x - b.x), Abs(a.y - b.y);
      CalculateHCost(a, b) == 4 * (dx + dz) + 6 * Max(dx, dz)
  {
  }

  /** The heuristic obeys the triangle inequality. */
  lemma HCostTriangle(a: Int2, b: Int2, c: Int2)
    ensures CalculateHCost(a, c) <= CalculateHCost(a, b) + CalculateHCost(b, c)
  {
    HCostSplit(a, c);
    HCostSplit(a, b);
    HCostSplit(b, c);
    AbsTriangle(a.x, b.x, c.x);
    AbsTriangle(a.y, b.y, c.y);
    MaxSubadditive(Abs(a.x - c.x), Abs(a.y - c.y), Abs(a.x - b.x), Abs(a.y - b.y), Abs(b.x - c.x), Abs(b.y - c.y));
  }

  lemma AbsTriangle(a: int, b: int, c: int)
    ensures Abs(a - c) <= Abs(a - b) + Abs(b - c)
  {
  }

  lemma MaxSubadditive(x: int, z: int, x1: int, z1: int, x2: int, z2: int)
    requires x <= x1 + x2 && z <= z1 + z2
    ensures Max(x, z) <= Max(x1, z1) + Max(x2, z2)
  {
  }

  /** The cost of walking a cell sequence, each move priced by CalculateHCost. */
  function PathCost(cells: seq<Int2>): int
    decreases |cells|
  {
    if |cells| <= 1 then 0 else CalculateHCost(cells[0], cells[1]) + PathCost(cells[1..])
  }

  predicate IsWalk(cells: seq<Int2>) {
    forall k :: 0 <= k < |cells| - 1 ==> Adjacent(cells[k], cells[k + 1])
  }

  /**
   * Admissibility: no 8-directional walk between two cells costs less than the
   * heuristic between them.
   */
  lemma {:induction false} HCostAdmissible(cells: seq<Int2>)
    requires |cells| > 0 && IsWalk(cells)
    ensures CalculateHCost(cells[0], cells[|cells| - 1]) <= PathCost(cells)
    decreases |cells|
  {
    if |cells| > 1 {
      var rest := cells[1..];
      assert IsWalk(rest) by {
        forall k | 0 <= k < |rest| - 1 ensures Adjacent(rest[k], rest[k + 1]) {
          assert rest[k] == cells[k + 1] && rest[k + 1] == cells[k + 2];
        }
      }
      HCostAdmissible(rest);
      HCostTriangle(cells[0], cells[1], cells[|cells| - 1]);
    }
  }

  // ---------------------------------------------------------------------------
  // Lists of node indices

  ghost predicate Distinct(s: seq<int>) {
    forall i, j :: 0 <= i < j < |s| ==> s[i] != s[j]
  }

  ghost predicate InNodeRange(s: seq<int>) {
    forall v :: v in s ==> 0 <= v < NodeCount
  }

  /** `NativeList.RemoveAtSwapBack(i)`: the last element moves into slot i. */
  function RemoveAtSwapBack(list: seq<int>, i: int): (remaining: seq<int>)
    requires 0 <= i < |list|
    ensures |remaining| == |list| - 1
    ensures multiset(remaining) == multiset(list) - multiset{list[i]}
    ensures forall k :: 0 <= k < |remaining| ==> remaining[k] == if k == i then list[|list| - 1] else list[k]
  {
    var last := |list| - 1;
    var moved := list[i := list[last]];
    SwapBackMultiset(list, i);
    moved[..last]
  }

  lemma SwapBackMultiset(list: seq<int>, i: int)
    requires 0 <= i < |list|
    ensures var last := |list| - 1;
      multiset(list[i := list[last]][..last]) == multiset(list) - multiset{list[i]}
  {
    var last := |list| - 1;
    var moved := list[i := list[last]];
    calc {
      multiset(moved[..last]);
    == { MultisetOfDropLast(moved, last); }
      multiset(moved) - multiset{moved[last]};
    == { assert moved[last] == list[last]; }
      multiset(moved) - multiset{list[last]};
    == { MultisetOfUpdate(list, i, list[last]); }
      multiset(list) - multiset{list[i]} + multiset{list[last]} - multiset{list[last]};
    == { MultisetSwapCancel(multiset(list), list[i], list[last]); }
      multiset(list) - multiset{list[i]};
    }
  }

  lemma MultisetSwapCancel(m: multiset<int>, x: int, y: int)
    ensures m - multiset{x} + multiset{y} - multiset{y} == m - multiset{x}
  {
  }

  lemma MultisetOfUpdate(s: seq<int>, i: int, v: int)
    requires 0 <= i < |s|
    ensures multiset(s[i := v]) == multiset(s) - multiset{s[i]} + multiset{v}
  {
    var front, back := s[..i], s[i + 1..];
    assert s == front + [s[i]] + back;
    assert s[i := v] == front + [v] + back;
  }

  lemma MultisetOfDropLast(s: seq<int>, last: int)
    requires 0 <= last && |s| == last + 1
    ensures multiset(s[..last]) == multiset(s) - multiset{s[last]}
  {
    assert s == s[..last] + [s[last]];
  }

  /** On a list without duplicates, RemoveAtSwapBack drops exactly the one element. */
  lemma RemoveAtSwapBackDistinct(list: seq<int>, i: int)
    requires 0 <= i < |list| && Distinct(list)
    ensures Distinct(RemoveAtSwapBack(list, i))
    ensures forall v :: v in RemoveAtSwapBack(list, i) <==> v in list && v != list[i]
  {
    var r := RemoveAtSwapBack(list, i);
    forall v | v in list && v != list[i] ensures v in r {
      var k :| 0 <= k < |list| && list[k] == v;
      if k == |list| - 1 {
        assert r[i] == v;
      } else {
        assert r[k] == v;
      }
    }
  }

  /** The position of the first occurrence of x in s. */
  function FirstIndex(s: seq<int>, x: int): (i: int)
    requires x in s
    ensures 0 <= i < |s| && s[i] == x && x !in s[..i]
  {
    if s[0] == x then 0
    else
      var i := 1 + FirstIndex(s[1..], x);
      assert s[..i] == [s[0]] + s[1..][..i - 1];
      i
  }

  /**
   * The loop at the head of each round: finds the first occurrence of the
   * current node in the open list and removes it there, the last element
   * taking its place; without an occurrence the list stays as it is.
   */
  method RemoveFromOpenList(openList: seq<int>, currentNodeIndex: int) returns (remaining: seq<int>)
    ensures currentNodeIndex in openList ==>
      remaining == RemoveAtSwapBack(openList, FirstIndex(openList, currentNodeIndex))
    ensures currentNodeIndex in openList ==>
      multiset(remaining) == multiset(openList) - multiset{currentNodeIndex}
    ensures currentNodeIndex !in openList ==> remaining == openList
    ensures Distinct(openList) ==>
      Distinct(remaining) && forall v :: v in remaining <==> v in openList && v != currentNodeIndex
  {
    remaining := openList;
    var i := 0;
    while i < |remaining|
      invariant 0 <= i <= |remaining| && remaining == openList
      invariant forall k :: 0 <= k < i ==> openList[k] != currentNodeIndex
    {
      if remaining[i] == currentNodeIndex {
        assert i == FirstIndex(openList, currentNodeIndex);
        if Distinct(openList) {
          RemoveAtSwapBackDistinct(openList, i);
        }
        remaining := RemoveAtSwapBack(remaining, i);
        break;
      }
      i := i + 1;
    }
  }

  lemma {:induction false} DistinctCardinality(s: seq<int>)
    requires Distinct(s)
    ensures |set v | v in s| == |s|
  {
    if s != [] {
      var rest := s[1..];
      assert Distinct(rest) by {
        forall i, j | 0 <= i < j < |rest| ensures rest[i] != rest[j] {
          assert rest[i] == s[i + 1] && rest[j] == s[j + 1];
        }
      }
      DistinctCardinality(rest);
      assert (set v | v in s) == {s[0]} + (set v | v in rest);
      assert s[0] !in rest;
    }
  }

  /** The set {0, ..., n-1}. */
  function IndexRange(n: nat): (range: set<int>)
    ensures forall v :: v in range <==> 0 <= v < n
    ensures |range| == n
  {
    if n == 0 then {} else IndexRange(n - 1) + {n - 1}
  }

  /** A list of distinct node indices has at most NodeCount entries. */
  lemma DistinctBound(s: seq<int>)
    requires Distinct(s) && InNodeRange(s)
    ensures |s| <= NodeCount
  {
    DistinctCardinality(s);
    var elements := set v | v in s;
    assert elements <= IndexRange(NodeCount);
    SubsetCardinality(elements, IndexRange(NodeCount));
  }

  lemma SubsetCardinality(a: set<int>, b: set<int>)
    requires a <= b
    ensures |a| <= |b|
  {
    assert b == a + (b - a);
  }

  // ---------------------------------------------------------------------------
  // Choosing the node to expand

  /**
   * Position j of the open list holds a node of least fCost, and every earlier
   * entry costs strictly more: the first minimum in list order.
   */
  ghost predicate FirstLowest(ns: seq<GridNode>, openList: seq<int>, j: int)
    requires forall k :: 0 <= k < |openList| ==> 0 <= openList[k] < |ns|
  {
    && 0 <= j < |openList|
    && (forall k :: 0 <= k < |openList| ==> ns[openList[j]].fCost <= ns[openList[k]].fCost)
    && (forall k :: 0 <= k < j ==> ns[openList[k]].fCost > ns[openList[j]].fCost)
  }

  /** Returns the index stored in the first open node of least fCost. */
  method GetLowestCostFNodeIndex(openList: seq<int>, pathNodeArray: array<GridNode>) returns (lowest: int)
    requires |openList| > 0
    requires forall k :: 0 <= k < |openList| ==> 0 <= openList[k] < pathNodeArray.Length
    ensures exists j :: FirstLowest(pathNodeArray[..], openList, j) && lowest == pathNodeArray[openList[j]].index
  {
    var lowestCostPathNode := pathNodeArray[openList[0]];
    ghost var j := 0;
    for i := 1 to |openList|
      invariant 0 <= j < i
      invariant lowestCostPathNode == pathNodeArray[openList[j]]
      invariant forall k :: 0 <= k < i ==> lowestCostPathNode.fCost <= pathNodeArray[openList[k]].fCost
      invariant forall k :: 0 <= k < j ==> pathNodeArray[openList[k]].fCost > lowestCostPathNode.fCost
    {
      var testPathNode := pathNodeArray[openList[i]];
      if testPathNode.fCost < lowestCostPathNode.fCost {
        lowestCostPathNode := testPathNode;
        j := i;
      }
    }
    lowest := lowestCostPathNode.index;
    assert FirstLowest(pathNodeArray[..], openList, j);
  }

  /** The tie-break is deterministic: there is only one first minimum. */
  lemma FirstLowestUnique(ns: seq<GridNode>, openList: seq<int>, j1: int, j2: int)
    requires forall k :: 0 <= k < |openList| ==> 0 <= openList[k] < |ns|
    requires FirstLowest(ns, openList, j1) && FirstLowest(ns, openList, j2)
    ensures j1 == j2
  {
    assert ns[openList[j1]].fCost == ns[openList[j2]].fCost;
  }

  // ---------------------------------------------------------------------------
  // Search state

  function Position(node: GridNode): Int2 {
    Int2(node.x, node.z)
  }

  /** The node Execute stores for cell (x, z) before the search starts. */
  function InitialNode(x: int, z: int, endPosition: Int2): GridNode {
    var node := DefaultGridNode.(x := x, z := z, index := CalculateIndex(x, z, GridSize.x));
    var costed := node.(gCost := IntMaxValue, hCost := CalculateHCost(Int2(x, z), endPosition));
    // fCost is computed from gCost and the default fCost (0), not from hCost.
    var framed := costed.(fCost := CalculateFCost(costed.gCost, costed.fCost));
    framed.(walkable := true, previousNodeIndex := -1)
  }

  /** What initialisation fixes for node i and the search never changes. */
  ghost predicate Placed(node: GridNode, i: int, endPosition: Int2) {
    && node.index == i
    && Position(node) == CellOfIndex(i, GridSize.x)
    && node.hCost == CalculateHCost(Position(node), endPosition)
  }

  ghost predicate Shaped(ns: seq<GridNode>, endPosition: Int2) {
    |ns| == NodeCount && forall i :: 0 <= i < NodeCount ==> Placed(ns[i], i, endPosition)
  }

  ghost predicate AllWalkable(ns: seq<GridNode>) {
    forall i :: 0 <= i < |ns| ==> ns[i].walkable
  }

  /** Node i has been reached: it is the start node or has a back-pointer. */
  ghost predicate Reached(ns: seq<GridNode>, startIndex: int, i: int)
    requires 0 <= i < |ns|
  {
    i == startIndex || ns[i].previousNodeIndex != -1
  }

  /**
   * A reached node carries a finite gCost, at most 14 per closed node, and
   * fCost = gCost + hCost; an unreached one still has int.MaxValue for both.
   */
  ghost predicate Costed(ns: seq<GridNode>, startIndex: int, closedCount: int, i: int)
    requires 0 <= i < |ns|
  {
    if Reached(ns, startIndex, i) then
      0 <= ns[i].gCost <= DiagonalMoveCost * closedCount && ns[i].fCost == ns[i].gCost + ns[i].hCost
    else
      ns[i].gCost == IntMaxValue && ns[i].fCost == IntMaxValue
  }

  /**
   * A back-pointer leads to a closed, 8-adjacent node, and the gCost is that
   * node's gCost plus the step between the two.
   */
  ghost predicate Linked(ns: seq<GridNode>, closedList: seq<int>, i: int)
    requires 0 <= i < |ns|
  {
    var p := ns[i].previousNodeIndex;
    p == -1 ||
      (&& 0 <= p < |ns|
       && p in closedList
       && Adjacent(Position(ns[p]), Position(ns[i]))
       && ns[i].gCost == ns[p].gCost + CalculateHCost(Position(ns[p]), Position(ns[i])))
  }

  /** The k-th neighbour of node c is off the grid, not walkable, or reached. */
  ghost predicate NeighbourSettled(ns: seq<GridNode>, startIndex: int, c: int, k: int)
    requires |ns| == NodeCount && 0 <= c < NodeCount && 0 <= k < |NeighbourOffsets|
  {
    var p := Step(Position(ns[c]), NeighbourOffsets[k]);
    IsPositionInsideGrid(p, GridSize) ==>
      var n := CalculateIndex(p.x, p.y, GridSize.x);
      !ns[n].walkable || Reached(ns, startIndex, n)
  }

  ghost predicate Settled(ns: seq<GridNode>, startIndex: int, c: int, done: int)
    requires |ns| == NodeCount && 0 <= c < NodeCount && done <= |NeighbourOffsets|
  {
    forall k :: 0 <= k < done ==> NeighbourSettled(ns, startIndex, c, k)
  }

  /**
   * The invariant of the search loop. Open and closed lists hold distinct node
   * indices and never share one; a node is reached exactly when it is on one of
   * them; costs and back-pointers are as Costed and Linked say; and every
   * neighbour of a closed node is settled, except that the neighbours of
   * `pending` from offset `done` on are still to be looked at.
   */
  ghost predicate SearchState(ns: seq<GridNode>, startIndex: int, endPosition: Int2,
                              openList: seq<int>, closedList: seq<int>, pending: int, done: int)
  {
    && Shaped(ns, endPosition)
    && 0 <= startIndex < NodeCount
    && ns[startIndex].gCost == 0 && ns[startIndex].previousNodeIndex == -1
    && Distinct(openList) && Distinct(closedList)
    && InNodeRange(openList) && InNodeRange(closedList)
    && (forall v :: v in openList ==> v !in closedList)
    && |closedList| <= NodeCount
    && (forall i :: 0 <= i < NodeCount ==> (Reached(ns, startIndex, i) <==> (i in openList || i in closedList)))
    && (forall i :: 0 <= i < NodeCount ==> Costed(ns, startIndex, |closedList|, i))
    && (forall i :: 0 <= i < NodeCount ==> Linked(ns, closedList, i))
    && (forall c :: c in closedList && c != pending ==> Settled(ns, startIndex, c, |NeighbourOffsets|))
    && (pending in closedList ==> 0 <= done <= |NeighbourOffsets| && Settled(ns, startIndex, pending, done))
  }

  /**
   * Lines 56-74 of Execute: one node per cell, written at CalculateIndex(x, z),
   * x-major then z.
   */
  method InitialiseNodes(endPosition: Int2) returns (gridNodeArray: array<GridNode>)
    ensures fresh(gridNodeArray) && gridNodeArray.Length == NodeCount
    ensures forall i :: 0 <= i < NodeCount ==>
      gridNodeArray[i] == InitialNode(i % GridSize.x, i / GridSize.x, endPosition)
  {
    var gridSize := GridSize;
    gridNodeArray := new GridNode[gridSize.x * gridSize.y];
    for x := 0 to gridSize.x
      invariant forall i :: 0 <= i < NodeCount && i % GridSize.x < x ==>
        gridNodeArray[i] == InitialNode(i % GridSize.x, i / GridSize.x, endPosition)
    {
      for z := 0 to gridSize.y
        invariant forall i :: 0 <= i < NodeCount && i % GridSize.x < x ==>
          gridNodeArray[i] == InitialNode(i % GridSize.x, i / GridSize.x, endPosition)
        invariant forall i :: 0 <= i < NodeCount && i % GridSize.x == x && i / GridSize.x < z ==>
          gridNodeArray[i] == InitialNode(i % GridSize.x, i / GridSize.x, endPosition)
      {
        var gridNode := DefaultGridNode;
        gridNode := gridNode.(x := x, z := z, index := CalculateIndex(x, z, gridSize.x));
        gridNode := gridNode.(gCost := IntMaxValue);
        gridNode := gridNode.(hCost := CalculateHCost(Int2(x, z), endPosition));
        gridNode := gridNode.(fCost := CalculateFCost(gridNode.gCost, gridNode.fCost));
        gridNode := gridNode.(walkable := true);
        gridNode := gridNode.(previousNodeIndex := -1);
        IndexBijection(Int2(x, z), GridSize);
        gridNodeArray[gridNode.index] := gridNode;
      }
    }
  }

  /**
   * After initialisation every node sits on its own cell with its own index, is
   * walkable, has no back-pointer and has gCost = fCost = int.MaxValue: the
   * fCost comes from gCost plus the default fCost 0, not from hCost.
   */
  lemma InitialNodeFacts(i: int, endPosition: Int2)
    requires 0 <= i < NodeCount
    ensures var node := InitialNode(i % GridSize.x, i / GridSize.x, endPosition);
      && Placed(node, i, endPosition)
      && node.walkable && node.previousNodeIndex == -1
      && node.gCost == IntMaxValue && node.fCost == IntMaxValue
  {
  }

  // ---------------------------------------------------------------------------
  // Expanding one node

  /** Reached only grows and positions and walkability stay: settled neighbours stay settled. */
  lemma SettledGrows(ns: seq<GridNode>, ns': seq<GridNode>, startIndex: int, c: int, done: int)
    requires |ns| == |ns'| == NodeCount && 0 <= c < NodeCount && done <= |NeighbourOffsets|
    requires forall i :: 0 <= i < NodeCount ==> Position(ns'[i]) == Position(ns[i]) && ns'[i].walkable == ns[i].walkable
    requires forall i :: 0 <= i < NodeCount && Reached(ns, startIndex, i) ==> Reached(ns', startIndex, i)
    requires Settled(ns, startIndex, c, done)
    ensures Settled(ns', startIndex, c, done)
  {
    forall k | 0 <= k < done ensures NeighbourSettled(ns', startIndex, c, k) {
      assert NeighbourSettled(ns, startIndex, c, k);
    }
  }

  /** The position of the node stored at the index of an in-grid cell is that cell. */
  lemma PlacedAt(ns: seq<GridNode>, endPosition: Int2, p: Int2)
    requires Shaped(ns, endPosition) && IsPositionInsideGrid(p, GridSize)
    ensures 0 <= CalculateIndex(p.x, p.y, GridSize.x) < NodeCount
    ensures Position(ns[CalculateIndex(p.x, p.y, GridSize.x)]) == p
  {
    IndexBijection(p, GridSize);
  }

  /** Replacing node n, not closed, by a reached node with consistent costs keeps reachability and costs in step with the lists. */
  lemma RelaxKeepsCosts(ns: seq<GridNode>, ns': seq<GridNode>, startIndex: int,
                        openList: seq<int>, open': seq<int>, closedList: seq<int>, n: int)
    requires |ns| == NodeCount && 0 <= n < NodeCount && n != startIndex && n !in closedList
    requires |ns'| == |ns| && ns' == ns[n := ns'[n]]
    requires ns'[n].previousNodeIndex != -1
    requires 0 <= ns'[n].gCost <= DiagonalMoveCost * |closedList| && ns'[n].fCost == ns'[n].gCost + ns'[n].hCost
    requires open' == if n in openList then openList else openList + [n]
    requires forall i :: 0 <= i < NodeCount ==> (Reached(ns, startIndex, i) <==> (i in openList || i in closedList))
    requires forall i :: 0 <= i < NodeCount ==> Costed(ns, startIndex, |closedList|, i)
    ensures forall i :: 0 <= i < NodeCount ==> (Reached(ns', startIndex, i) <==> (i in open' || i in closedList))
    ensures forall i :: 0 <= i < NodeCount ==> Reached(ns, startIndex, i) ==> Reached(ns', startIndex, i)
    ensures forall i :: 0 <= i < NodeCount ==> Costed(ns', startIndex, |closedList|, i)
  {
    forall i | 0 <= i < NodeCount
      ensures Reached(ns', startIndex, i) <==> (i in open' || i in closedList)
      ensures Reached(ns, startIndex, i) ==> Reached(ns', startIndex, i)
      ensures Costed(ns', startIndex, |closedList|, i)
    {
      if i != n {
        assert ns'[i] == ns[i];
        assert Costed(ns, startIndex, |closedList|, i);
      }
    }
  }

  /** Replacing node n, not closed and so no node's back-pointer, by a linked node keeps every node linked. */
  lemma RelaxKeepsLinks(ns: seq<GridNode>, ns': seq<GridNode>, closedList: seq<int>, n: int)
    requires |ns| == NodeCount && 0 <= n < NodeCount && n !in closedList
    requires |ns'| == |ns| && ns' == ns[n := ns'[n]] && Position(ns'[n]) == Position(ns[n])
    requires Linked(ns', closedList, n)
    requires forall i :: 0 <= i < NodeCount ==> Linked(ns, closedList, i)
    ensures forall i :: 0 <= i < NodeCount ==> Linked(ns', closedList, i)
  {
    forall i | 0 <= i < NodeCount ensures Linked(ns', closedList, i) {
      assert Linked(ns, closedList, i);
      if i != n && ns[i].previousNodeIndex != -1 {
        assert ns[i].previousNodeIndex != n;
      }
    }
  }

  /** Settledness survives the replacement, given that reachability only grows. */
  lemma RelaxKeepsSettled(ns: seq<GridNode>, ns': seq<GridNode>, startIndex: int,
                          closedList: seq<int>, c: int, k: int, n: int)
    requires |ns| == NodeCount && 0 <= n < NodeCount && 0 <= c < NodeCount && 0 <= k < |NeighbourOffsets|
    requires |ns'| == |ns| && ns' == ns[n := ns'[n]] && Position(ns'[n]) == Position(ns[n]) && ns'[n].walkable == ns[n].walkable
    requires forall i :: 0 <= i < NodeCount ==> Reached(ns, startIndex, i) ==> Reached(ns', startIndex, i)
    requires InNodeRange(closedList)
    requires forall c' :: c' in closedList && c' != c ==> Settled(ns, startIndex, c', |NeighbourOffsets|)
    requires Settled(ns, startIndex, c, k) && NeighbourSettled(ns', startIndex, c, k)
    ensures forall c' :: c' in closedList && c' != c ==> Settled(ns', startIndex, c', |NeighbourOffsets|)
    ensures Settled(ns', startIndex, c, k + 1)
  {
    assert forall i :: 0 <= i < NodeCount ==>
      Position(ns'[i]) == Position(ns[i]) && ns'[i].walkable == ns[i].walkable by {
      forall i | 0 <= i < NodeCount
        ensures Position(ns'[i]) == Position(ns[i]) && ns'[i].walkable == ns[i].walkable
      {
      }
    }
    forall c' | c' in closedList && c' != c ensures Settled(ns', startIndex, c', |NeighbourOffsets|) {
      SettledGrows(ns, ns', startIndex, c', |NeighbourOffsets|);
    }
    SettledGrows(ns, ns', startIndex, c, k);
  }

  /**
   * One improving step at line 150: the neighbour n at offset k of the pending
   * node c takes c as its back-pointer, its new gCost and fCost, and joins the
   * open list if it is not on it. The search invariant holds again with one
   * more offset done.
   */
  lemma RelaxKeepsState(ns: seq<GridNode>, startIndex: int, endPosition: Int2,
                        openList: seq<int>, closedList: seq<int>, c: int, k: int, n: int, tentative: int)
    requires SearchState(ns, startIndex, endPosition, openList, closedList, c, k)
    requires c in closedList && 0 <= k < |NeighbourOffsets|
    requires ns[c].gCost <= DiagonalMoveCost * (|closedList| - 1)
    requires IsPositionInsideGrid(Step(Position(ns[c]), NeighbourOffsets[k]), GridSize)
    requires n == CalculateIndex(Step(Position(ns[c]), NeighbourOffsets[k]).x, Step(Position(ns[c]), NeighbourOffsets[k]).y, GridSize.x)
    requires n !in closedList
    requires tentative == ns[c].gCost + CalculateHCost(Position(ns[c]), Step(Position(ns[c]), NeighbourOffsets[k]))
    requires tentative < ns[n].gCost
    ensures 0 <= n < NodeCount && n != startIndex
    ensures var node := Lowered(ns[n], c, tentative);
      && SearchState(ns[n := node], startIndex, endPosition,
                     if n in openList then openList else openList + [n], closedList, c, k + 1)
      && Relaxed(ns, ns[n := node], openList, if n in openList then openList else openList + [n], closedList, c)
  {
    var cp := Position(ns[c]);
    var p := Step(cp, NeighbourOffsets[k]);
    PlacedAt(ns, endPosition, p);
    StepCost(cp, k);
    assert Reached(ns, startIndex, c) && Costed(ns, startIndex, |closedList|, c);
    var node := Lowered(ns[n], c, tentative);
    var ns' := ns[n := node];
    var open' := if n in openList then openList else openList + [n];
    assert Placed(ns[n], n, endPosition);
    assert Shaped(ns', endPosition) by {
      forall i | 0 <= i < NodeCount ensures Placed(ns'[i], i, endPosition) {
        assert Placed(ns[i], i, endPosition);
      }
    }
    assert Distinct(open') && InNodeRange(open');
    RelaxKeepsCosts(ns, ns', startIndex, openList, open', closedList, n);
    assert Linked(ns', closedList, n);
    RelaxKeepsLinks(ns, ns', closedList, n);
    assert NeighbourSettled(ns', startIndex, c, k);
    RelaxKeepsSettled(ns, ns', startIndex, closedList, c, k, n);
    UpdateIsRelaxed(ns, n, node, openList, open', closedList, c);
    assert SearchState(ns', startIndex, endPosition, open', closedList, c, k + 1) by {
      assert ns'[startIndex] == ns[startIndex];
    }
  }

  /** Lowering the gCost of one non-closed node adjacent to c, with c as its back-pointer, is Relaxed. */
  lemma UpdateIsRelaxed(ns: seq<GridNode>, n: int, node: GridNode,
                        openList: seq<int>, open': seq<int>, closedList: seq<int>, c: int)
    requires 0 <= n < |ns| && 0 <= c < |ns| && n !in closedList
    requires Position(node) == Position(ns[n]) && node.walkable == ns[n].walkable && node.gCost < ns[n].gCost
    requires node.previousNodeIndex == c && Adjacent(Position(ns[c]), Position(node))
    requires open' == if n in openList then openList else openList + [n]
    ensures Relaxed(ns, ns[n := node], openList, open', closedList, c)
  {
    var ns' := ns[n := node];
    forall i | 0 <= i < |ns| ensures ns'[i] != ns[i] <==> i == n {
    }
  }

  /**
   * What expanding node c may do to the node array: positions and walkability
   * stay; a node that changes has a strictly lower gCost, c as its
   * back-pointer, is not closed and is adjacent to c; and the open list gains
   * exactly the nodes that changed.
   */
  ghost predicate Relaxed(before: seq<GridNode>, after: seq<GridNode>,
                          openBefore: seq<int>, openAfter: seq<int>, closedList: seq<int>, c: int)
  {
    && |after| == |before|
    && 0 <= c < |before|
    && (forall i :: 0 <= i < |before| ==>
          && Position(after[i]) == Position(before[i])
          && after[i].walkable == before[i].walkable
          && after[i].gCost <= before[i].gCost)
    && (forall i :: 0 <= i < |before| && after[i] != before[i] ==>
          && after[i].gCost < before[i].gCost
          && after[i].previousNodeIndex == c
          && i !in closedList
          && Adjacent(Position(before[c]), Position(after[i])))
    && (forall v :: v in openAfter <==> v in openBefore || (0 <= v < |before| && after[v] != before[v]))
  }

  /**
   * Lines 123-162 on values: the node array and open list after looking at the
   * k-th neighbour of node c. A neighbour inside the grid, not closed and
   * walkable, that c reaches more cheaply takes c as its back-pointer, the
   * lower gCost and fCost = gCost + hCost, and joins the open list unless it
   * is there; in every other case nothing changes.
   */
  function Visit(ns: seq<GridNode>, c: int, k: int, openList: seq<int>, closedList: seq<int>)
    : (r: (seq<GridNode>, seq<int>))
    requires |ns| == NodeCount && 0 <= c < NodeCount && 0 <= k < |NeighbourOffsets|
    ensures |r.0| == NodeCount
  {
    var p := Step(Position(ns[c]), NeighbourOffsets[k]);
    if !IsPositionInsideGrid(p, GridSize) then (ns, openList)
    else
      IndexBijection(p, GridSize);
      var n := CalculateIndex(p.x, p.y, GridSize.x);
      if n in closedList || !ns[n].walkable then (ns, openList)
      else
        var tentative := ns[c].gCost + CalculateHCost(Position(ns[c]), p);
        if tentative < ns[n].gCost then
          (ns[n := Lowered(ns[n], c, tentative)], if n in openList then openList else openList + [n])
        else (ns, openList)
  }

  /** Lines 152-154: the node with back-pointer c, gCost g and fCost = g + hCost. */
  function Lowered(node: GridNode, c: int, g: int): (lowered: GridNode)
    ensures lowered.index == node.index && Position(lowered) == Position(node) && lowered.walkable == node.walkable
    ensures lowered.hCost == node.hCost && lowered.fCost == g + node.hCost
    ensures lowered.previousNodeIndex == c && lowered.gCost == g
  {
    node.(previousNodeIndex := c, gCost := g, fCost := CalculateFCost(g, node.hCost))
  }

  /** Every case in which Visit leaves the array and the open list as they are. */
  lemma VisitSkips(ns: seq<GridNode>, c: int, k: int, openList: seq<int>, closedList: seq<int>)
    requires |ns| == NodeCount && 0 <= c < NodeCount && 0 <= k < |NeighbourOffsets|
    requires var p := Step(Position(ns[c]), NeighbourOffsets[k]);
      || !IsPositionInsideGrid(p, GridSize)
      || (var n := CalculateIndex(p.x, p.y, GridSize.x);
          && 0 <= n < NodeCount
          && (n in closedList || !ns[n].walkable || ns[n].gCost <= ns[c].gCost + CalculateHCost(Position(ns[c]), p)))
    ensures Visit(ns, c, k, openList, closedList) == (ns, openList)
  {
  }

  /** The one case in which Visit lowers a node. */
  lemma VisitLowers(ns: seq<GridNode>, c: int, k: int, openList: seq<int>, closedList: seq<int>)
    requires |ns| == NodeCount && 0 <= c < NodeCount && 0 <= k < |NeighbourOffsets|
    requires var p := Step(Position(ns[c]), NeighbourOffsets[k]);
      && IsPositionInsideGrid(p, GridSize)
      && var n := CalculateIndex(p.x, p.y, GridSize.x);
      && 0 <= n < NodeCount && n !in closedList && ns[n].walkable
      && ns[c].gCost + CalculateHCost(Position(ns[c]), p) < ns[n].gCost
    ensures var p := Step(Position(ns[c]), NeighbourOffsets[k]);
      var n := CalculateIndex(p.x, p.y, GridSize.x);
      var tentative := ns[c].gCost + CalculateHCost(Position(ns[c]), p);
      Visit(ns, c, k, openList, closedList)
        == (ns[n := Lowered(ns[n], c, tentative)], if n in openList then openList else openList + [n])
  {
  }

  /** Lines 121-163 on values: the first k neighbours of node c visited in offset order. */
  function ExpandedBy(ns: seq<GridNode>, c: int, openList: seq<int>, closedList: seq<int>, k: int)
    : (r: (seq<GridNode>, seq<int>))
    requires |ns| == NodeCount && 0 <= c < NodeCount && 0 <= k <= |NeighbourOffsets|
    ensures |r.0| == NodeCount
  {
    if k == 0 then (ns, openList)
    else
      var before := ExpandedBy(ns, c, openList, closedList, k - 1);
      Visit(before.0, c, k - 1, before.1, closedList)
  }

  lemma RelaxedTransitive(a: seq<GridNode>, b: seq<GridNode>, c: seq<GridNode>,
                          oa: seq<int>, ob: seq<int>, oc: seq<int>, closedList: seq<int>, cur: int)
    requires Relaxed(a, b, oa, ob, closedList, cur) && Relaxed(b, c, ob, oc, closedList, cur)
    ensures Relaxed(a, c, oa, oc, closedList, cur)
  {
    forall i | 0 <= i < |a| ensures c[i] != a[i] <==> (b[i] != a[i] || c[i] != b[i]) {
      if b[i] != a[i] {
        assert c[i].gCost < a[i].gCost;
      }
    }
  }

  /** A neighbour that needs no update leaves the state as it is, one offset further on. */
  lemma SettleKeepsState(ns: seq<GridNode>, startIndex: int, endPosition: Int2,
                         openList: seq<int>, closedList: seq<int>, c: int, k: int)
    requires SearchState(ns, startIndex, endPosition, openList, closedList, c, k)
    requires c in closedList && 0 <= k < |NeighbourOffsets|
    requires NeighbourSettled(ns, startIndex, c, k)
    ensures SearchState(ns, startIndex, endPosition, openList, closedList, c, k + 1)
    ensures Relaxed(ns, ns, openList, openList, closedList, c)
  {
  }

  /**
   * Looking at one neighbour keeps the search invariant, one offset further on,
   * and only makes improvements (Relaxed); the pending node itself is left as it is.
   */
  lemma VisitKeepsState(ns: seq<GridNode>, ns': seq<GridNode>, startIndex: int, endPosition: Int2,
                        openList: seq<int>, open': seq<int>, closedList: seq<int>, c: int, k: int)
    requires SearchState(ns, startIndex, endPosition, openList, closedList, c, k)
    requires c in closedList && 0 <= k < |NeighbourOffsets|
    requires ns[c].gCost <= DiagonalMoveCost * (|closedList| - 1)
    requires (ns', open') == Visit(ns, c, k, openList, closedList)
    ensures SearchState(ns', startIndex, endPosition, open', closedList, c, k + 1)
    ensures Relaxed(ns, ns', openList, open', closedList, c)
    ensures ns'[c] == ns[c]
  {
    var p := Step(Position(ns[c]), NeighbourOffsets[k]);
    if !IsPositionInsideGrid(p, GridSize) {
      VisitSkips(ns, c, k, openList, closedList);
      assert ns' == ns && open' == openList;
      SettleKeepsState(ns, startIndex, endPosition, openList, closedList, c, k);
      return;
    }
    var n := CalculateIndex(p.x, p.y, GridSize.x);
    PlacedAt(ns, endPosition, p);
    var tentative := ns[c].gCost + CalculateHCost(Position(ns[c]), p);
    if n in closedList || !ns[n].walkable {
      VisitSkips(ns, c, k, openList, closedList);
      assert ns' == ns && open' == openList;
      SettleKeepsState(ns, startIndex, endPosition, openList, closedList, c, k);
    } else if tentative < ns[n].gCost {
      VisitLowers(ns, c, k, openList, closedList);
      assert ns' == ns[n := Lowered(ns[n], c, tentative)];
      assert open' == if n in openList then openList else openList + [n];
      RelaxKeepsState(ns, startIndex, endPosition, openList, closedList, c, k, n, tentative);
    } else {
      VisitSkips(ns, c, k, openList, closedList);
      assert ns' == ns && open' == openList;
      NoGainKeepsState(ns, startIndex, endPosition, openList, closedList, c, k, tentative);
    }
  }

  /**
   * Looking at the first k neighbours keeps the search invariant with k offsets
   * done, and only makes improvements; the pending node is left as it is.
   */
  lemma {:induction false} ExpandKeepsState(ns: seq<GridNode>, ns': seq<GridNode>, startIndex: int, endPosition: Int2,
                                            openList: seq<int>, open': seq<int>, closedList: seq<int>, c: int, k: int)
    requires SearchState(ns, startIndex, endPosition, openList, closedList, c, 0)
    requires c in closedList && 0 <= k <= |NeighbourOffsets|
    requires ns[c].gCost <= DiagonalMoveCost * (|closedList| - 1)
    requires (ns', open') == ExpandedBy(ns, c, openList, closedList, k)
    ensures SearchState(ns', startIndex, endPosition, open', closedList, c, k)
    ensures Relaxed(ns, ns', openList, open', closedList, c)
    ensures ns'[c] == ns[c]
    decreases k
  {
    if k == 0 {
      assert ns' == ns && open' == openList;
    } else {
      var before := ExpandedBy(ns, c, openList, closedList, k - 1);
      ExpandKeepsState(ns, before.0, startIndex, endPosition, openList, before.1, closedList, c, k - 1);
      VisitKeepsState(before.0, ns', startIndex, endPosition, before.1, open', closedList, c, k - 1);
      RelaxedTransitive(ns, before.0, ns', openList, before.1, open', closedList, c);
    }
  }

  /** Lines 123-162 for the k-th neighbour of the current node. */
  method VisitNeighbour(gridNodeArray: array<GridNode>, currentNodeIndex: int, currentNode: GridNode, k: int,
                        openList: seq<int>, closedList: seq<int>)
    returns (openList': seq<int>)
    requires gridNodeArray.Length == NodeCount && 0 <= currentNodeIndex < NodeCount && 0 <= k < |NeighbourOffsets|
    requires forall i :: 0 <= i < gridNodeArray.Length ==> gridNodeArray[i].index == i
    requires currentNode == gridNodeArray[currentNodeIndex]
    modifies gridNodeArray
    ensures (gridNodeArray[..], openList') == Visit(old(gridNodeArray[..]), currentNodeIndex, k, openList, closedList)
  {
    ghost var ns := gridNodeArray[..];
    openList' := openList;
    var neighbourOffset := NeighbourOffsets[k];
    var neighbourPosition := Int2(currentNode.x + neighbourOffset.x, currentNode.z + neighbourOffset.y);
    assert neighbourPosition == Step(Position(ns[currentNodeIndex]), NeighbourOffsets[k]);
    if !IsPositionInsideGrid(neighbourPosition, GridSize) {
      return;
    }
    var neighbourNodeIndex := CalculateIndex(neighbourPosition.x, neighbourPosition.y, GridSize.x);
    IndexBijection(neighbourPosition, GridSize);
    if neighbourNodeIndex in closedList {
      return;
    }
    var neighbourNode := gridNodeArray[neighbourNodeIndex];
    if !neighbourNode.walkable {
      return;
    }
    var currentNodePosition := Int2(currentNode.x, currentNode.z);
    var tentativeGCost := currentNode.gCost + CalculateHCost(currentNodePosition, neighbourPosition);
    assert currentNodePosition == Position(ns[currentNodeIndex]);
    if tentativeGCost < neighbourNode.gCost {
      openList' := RelaxNeighbour(gridNodeArray, currentNodeIndex, neighbourNodeIndex, tentativeGCost, openList);
    }
  }

  /** Lines 150-161 skipped: a neighbour the current node cannot improve is left as it is. */
  lemma NoGainKeepsState(ns: seq<GridNode>, startIndex: int, endPosition: Int2,
                         openList: seq<int>, closedList: seq<int>, c: int, k: int, tentative: int)
    requires SearchState(ns, startIndex, endPosition, openList, closedList, c, k)
    requires c in closedList && 0 <= k < |NeighbourOffsets|
    requires ns[c].gCost <= DiagonalMoveCost * (|closedList| - 1)
    requires var p := Step(Position(ns[c]), NeighbourOffsets[k]);
      && IsPositionInsideGrid(p, GridSize)
      && tentative == ns[c].gCost + CalculateHCost(Position(ns[c]), p)
      && 0 <= CalculateIndex(p.x, p.y, GridSize.x) < NodeCount
      && ns[CalculateIndex(p.x, p.y, GridSize.x)].gCost <= tentative
    ensures SearchState(ns, startIndex, endPosition, openList, closedList, c, k + 1)
    ensures Relaxed(ns, ns, openList, openList, closedList, c)
  {
    var p := Step(Position(ns[c]), NeighbourOffsets[k]);
    var n := CalculateIndex(p.x, p.y, GridSize.x);
    assert tentative < IntMaxValue by {
      DistinctBound(closedList);
      StepCost(Position(ns[c]), k);
    }
    assert Costed(ns, startIndex, |closedList|, n);
    NoGainSettled(ns, startIndex, |closedList|, c, k, tentative);
    SettleKeepsState(ns, startIndex, endPosition, openList, closedList, c, k);
  }

  /**
   * A neighbour whose cost the current node cannot lower is already reached:
   * an unreached node still has int.MaxValue, above any tentative cost.
   */
  lemma NoGainSettled(ns: seq<GridNode>, startIndex: int, closedCount: int, c: int, k: int, tentative: int)
    requires |ns| == NodeCount && 0 <= c < NodeCount && 0 <= k < |NeighbourOffsets|
    requires var p := Step(Position(ns[c]), NeighbourOffsets[k]);
      IsPositionInsideGrid(p, GridSize) ==>
        var n := CalculateIndex(p.x, p.y, GridSize.x);
        && 0 <= n < NodeCount
        && Costed(ns, startIndex, closedCount, n)
        && ns[n].gCost <= tentative < IntMaxValue
    ensures NeighbourSettled(ns, startIndex, c, k)
  {
  }

  /**
   * Lines 152-159: the neighbour takes the current node as its back-pointer,
   * the lower gCost and fCost = gCost + hCost, is written back to the array,
   * and its index joins the open list unless it is there already.
   */
  method RelaxNeighbour(gridNodeArray: array<GridNode>, currentNodeIndex: int, neighbourNodeIndex: int,
                        tentativeGCost: int, openList: seq<int>)
    returns (openList': seq<int>)
    requires 0 <= neighbourNodeIndex < gridNodeArray.Length
    modifies gridNodeArray
    ensures gridNodeArray[..] == old(gridNodeArray[..])[neighbourNodeIndex :=
      Lowered(old(gridNodeArray[neighbourNodeIndex]), currentNodeIndex, tentativeGCost)]
    ensures var index := old(gridNodeArray[neighbourNodeIndex]).index;
      openList' == if index in openList then openList else openList + [index]
  {
    var neighbourNode := gridNodeArray[neighbourNodeIndex];
    neighbourNode := neighbourNode.(previousNodeIndex := currentNodeIndex, gCost := tentativeGCost);
    neighbourNode := neighbourNode.(fCost := CalculateFCost(neighbourNode.gCost, neighbourNode.hCost));
    gridNodeArray[neighbourNodeIndex] := neighbourNode;
    openList' := openList;
    if neighbourNode.index !in openList' {
      openList' := openList' + [neighbourNode.index];
    }
  }

  /**
   * Lines 121-163: looks at the eight neighbours of the current node in order and
   * lowers the gCost of each in-grid, open-or-unseen, walkable one that the
   * current node reaches more cheaply. Afterwards every neighbour of every
   * closed node is settled again.
   */
  method ExpandNeighbours(gridNodeArray: array<GridNode>, currentNodeIndex: int, currentNode: GridNode,
                          openList: seq<int>, closedList: seq<int>,
                          ghost startIndex: int, ghost endPosition: Int2)
    returns (openList': seq<int>)
    requires gridNodeArray.Length == NodeCount
    requires SearchState(gridNodeArray[..], startIndex, endPosition, openList, closedList, currentNodeIndex, 0)
    requires currentNodeIndex in closedList && currentNode == gridNodeArray[currentNodeIndex]
    requires currentNode.gCost <= DiagonalMoveCost * (|closedList| - 1)
    modifies gridNodeArray
    ensures (gridNodeArray[..], openList')
      == ExpandedBy(old(gridNodeArray[..]), currentNodeIndex, openList, closedList, |NeighbourOffsets|)
    ensures SearchState(gridNodeArray[..], startIndex, endPosition, openList', closedList, -1, 0)
    ensures Relaxed(old(gridNodeArray[..]), gridNodeArray[..], openList, openList', closedList, currentNodeIndex)
  {
    openList' := openList;
    for i := 0 to |NeighbourOffsets|
      invariant (gridNodeArray[..], openList') == ExpandedBy(old(gridNodeArray[..]), currentNodeIndex, openList, closedList, i)
    {
      assert gridNodeArray[currentNodeIndex] == currentNode
        && forall j :: 0 <= j < gridNodeArray.Length ==> gridNodeArray[j].index == j
      by {
        ExpandKeepsState(old(gridNodeArray[..]), gridNodeArray[..], startIndex, endPosition, openList, openList',
                         closedList, currentNodeIndex, i);
        assert Shaped(gridNodeArray[..], endPosition);
      }
      openList' := VisitNeighbour(gridNodeArray, currentNodeIndex, currentNode, i, openList', closedList);
    }
    ExpandKeepsState(old(gridNodeArray[..]), gridNodeArray[..], startIndex, endPosition, openList, openList',
                     closedList, currentNodeIndex, |NeighbourOffsets|);
  }

  // ---------------------------------------------------------------------------
  // The search loop

  /**
   * Before the loop (lines 86-96): only the start node is reached, with gCost 0
   * and fCost = hCost, and it is the only open node.
   */
  lemma InitialState(ns0: seq<GridNode>, ns: seq<GridNode>, startIndex: int, endPosition: Int2)
    requires |ns0| == NodeCount && 0 <= startIndex < NodeCount
    requires forall i :: 0 <= i < NodeCount ==> ns0[i] == InitialNode(i % GridSize.x, i / GridSize.x, endPosition)
    requires ns == ns0[startIndex := ns0[startIndex].(gCost := 0, fCost := ns0[startIndex].hCost)]
    ensures SearchState(ns, startIndex, endPosition, [startIndex], [], -1, 0)
    ensures AllWalkable(ns)
  {
    forall i | 0 <= i < NodeCount
      ensures Placed(ns[i], i, endPosition) && ns[i].walkable && ns[i].previousNodeIndex == -1
      ensures i != startIndex ==> ns[i].gCost == IntMaxValue && ns[i].fCost == IntMaxValue
    {
      InitialNodeFacts(i, endPosition);
    }
  }

  /**
   * Lines 109-119: the selected node leaves the open list and is appended to
   * the closed list; its neighbours are then still to be looked at.
   */
  lemma CloseKeepsState(ns: seq<GridNode>, startIndex: int, endPosition: Int2,
                        openList: seq<int>, closedList: seq<int>, current: int, remaining: seq<int>)
    requires SearchState(ns, startIndex, endPosition, openList, closedList, -1, 0)
    requires current in openList
    requires Distinct(remaining) && forall v :: v in remaining <==> v in openList && v != current
    ensures SearchState(ns, startIndex, endPosition, remaining, closedList + [current], current, 0)
    ensures ns[current].gCost <= DiagonalMoveCost * |closedList|
  {
    var closed' := closedList + [current];
    assert Distinct(closed') && InNodeRange(closed');
    DistinctBound(closed');
    assert Reached(ns, startIndex, current) && Costed(ns, startIndex, |closedList|, current);
    forall i | 0 <= i < NodeCount
      ensures Costed(ns, startIndex, |closed'|, i) && Linked(ns, closed', i)
    {
      assert Costed(ns, startIndex, |closedList|, i) && Linked(ns, closedList, i);
    }
  }

  /** The unit step from p toward t, as one of the eight offsets. */
  lemma StepToward(p: Int2, t: Int2) returns (k: int)
    requires p != t
    ensures 0 <= k < |NeighbourOffsets|
    ensures var q := Step(p, NeighbourOffsets[k]);
      && Max(Abs(q.x - t.x), Abs(q.y - t.y)) < Max(Abs(p.x - t.x), Abs(p.y - t.y))
      && Min(p.x, t.x) <= q.x <= Max(p.x, t.x)
      && Min(p.y, t.y) <= q.y <= Max(p.y, t.y)
  {
    var dx := if p.x < t.x then 1 else if p.x > t.x then -1 else 0;
    var dz := if p.y < t.y then 1 else if p.y > t.y then -1 else 0;
    k := AdjacentIsOffset(p, Int2(p.x + dx, p.y + dz));
  }

  /**
   * With nothing left open and every node walkable, the closed set is closed
   * under moves: from a closed cell, every cell of the grid is closed.
   */
  lemma {:induction false} ClosedSpreads(ns: seq<GridNode>, startIndex: int, endPosition: Int2,
                                         closedList: seq<int>, p: Int2, t: Int2)
    requires SearchState(ns, startIndex, endPosition, [], closedList, -1, 0) && AllWalkable(ns)
    requires IsPositionInsideGrid(p, GridSize) && IsPositionInsideGrid(t, GridSize)
    requires CalculateIndex(p.x, p.y, GridSize.x) in closedList
    ensures CalculateIndex(t.x, t.y, GridSize.x) in closedList
    decreases Max(Abs(p.x - t.x), Abs(p.y - t.y))
  {
    if p != t {
      var k := StepToward(p, t);
      var q := Step(p, NeighbourOffsets[k]);
      var c := CalculateIndex(p.x, p.y, GridSize.x);
      PlacedAt(ns, endPosition, p);
      PlacedAt(ns, endPosition, q);
      assert Settled(ns, startIndex, c, |NeighbourOffsets|);
      assert NeighbourSettled(ns, startIndex, c, k);
      ClosedSpreads(ns, startIndex, endPosition, closedList, q, t);
    }
  }

  /**
   * Completeness on the all-walkable grid: while the end node is not closed,
   * the open list is not empty, so the loop of lines 98-164 can only end at
   * the break of line 106.
   */
  lemma OpenListNeverRunsDry(ns: seq<GridNode>, startIndex: int, endPosition: Int2,
                             openList: seq<int>, closedList: seq<int>)
    requires SearchState(ns, startIndex, endPosition, openList, closedList, -1, 0) && AllWalkable(ns)
    requires IsPositionInsideGrid(endPosition, GridSize)
    requires CalculateIndex(endPosition.x, endPosition.y, GridSize.x) !in closedList
    ensures openList != []
  {
    if openList == [] {
      var s := CellOfIndex(startIndex, GridSize.x);
      CellOfIndexInGrid(startIndex, GridSize);
      assert Reached(ns, startIndex, startIndex);
      ClosedSpreads(ns, startIndex, endPosition, closedList, s, endPosition);
    }
  }

  // ---------------------------------------------------------------------------
  // Following the back-pointers

  /**
   * Every gCost is non-negative, and every back-pointer leads to an adjacent
   * node whose gCost is lower by the cost of the step between them.
   */
  ghost predicate Descending(ns: seq<GridNode>) {
    forall i :: 0 <= i < |ns| ==> DescendsAt(ns, i)
  }

  ghost predicate DescendsAt(ns: seq<GridNode>, i: int)
    requires 0 <= i < |ns|
  {
    var p := ns[i].previousNodeIndex;
    && 0 <= ns[i].gCost
    && (p != -1 ==>
          && 0 <= p < |ns|
          && ns[p].gCost < ns[i].gCost
          && Adjacent(Position(ns[p]), Position(ns[i]))
          && ns[i].gCost == ns[p].gCost + CalculateHCost(Position(ns[p]), Position(ns[i])))
  }

  lemma SearchStateDescending(ns: seq<GridNode>, startIndex: int, endPosition: Int2,
                              openList: seq<int>, closedList: seq<int>, pending: int, done: int)
    requires SearchState(ns, startIndex, endPosition, openList, closedList, pending, done)
    ensures Descending(ns)
  {
    forall i | 0 <= i < NodeCount ensures DescendsAt(ns, i) {
      assert Costed(ns, startIndex, |closedList|, i) && Linked(ns, closedList, i);
      var p := ns[i].previousNodeIndex;
      if p != -1 {
        assert Costed(ns, startIndex, |closedList|, p);
        AdjacentCost(Position(ns[p]), Position(ns[i]));
      }
    }
  }

  /** The j-th node of the chain points back to the (j+1)-th. */
  ghost predicate LinkedInChain(ns: seq<GridNode>, chain: seq<int>, j: int)
    requires 0 <= j < |chain| - 1 && 0 <= chain[j] < |ns|
  {
    ns[chain[j]].previousNodeIndex == chain[j + 1]
  }

  /** The node indices met following back-pointers from node i, i first. */
  function BackIndices(ns: seq<GridNode>, i: int): (chain: seq<int>)
    requires Descending(ns) && 0 <= i < |ns|
    ensures |chain| >= 1 && chain[0] == i
    ensures forall j :: 0 <= j < |chain| ==> 0 <= chain[j] < |ns|
    ensures forall j :: 0 <= j < |chain| - 1 ==> LinkedInChain(ns, chain, j)
    ensures ns[chain[|chain| - 1]].previousNodeIndex == -1
    decreases ns[i].gCost
  {
    assert DescendsAt(ns, i);
    if ns[i].previousNodeIndex == -1 then [i]
    else
      var rest := BackIndices(ns, ns[i].previousNodeIndex);
      LinkedInChainCons(ns, i, rest);
      [i] + rest
  }

  lemma LinkedInChainCons(ns: seq<GridNode>, i: int, rest: seq<int>)
    requires 0 <= i < |ns| && |rest| >= 1 && rest[0] == ns[i].previousNodeIndex
    requires forall j :: 0 <= j < |rest| ==> 0 <= rest[j] < |ns|
    requires forall j :: 0 <= j < |rest| - 1 ==> LinkedInChain(ns, rest, j)
    ensures forall j :: 0 <= j < |rest| ==> LinkedInChain(ns, [i] + rest, j)
  {
    var chain := [i] + rest;
    forall j | 0 <= j < |rest| ensures LinkedInChain(ns, chain, j) {
      if j > 0 {
        assert LinkedInChain(ns, rest, j - 1);
      }
    }
  }

  /** The cells of a sequence of node indices, as path entries. */
  function PathOf(ns: seq<GridNode>, chain: seq<int>): (path: seq<Path>)
    requires forall j :: 0 <= j < |chain| ==> 0 <= chain[j] < |ns|
    ensures |path| == |chain|
  {
    if chain == [] then [] else [Path(Position(ns[chain[0]]))] + PathOf(ns, chain[1..])
  }

  lemma {:induction false} PathOfCells(ns: seq<GridNode>, chain: seq<int>)
    requires forall j :: 0 <= j < |chain| ==> 0 <= chain[j] < |ns|
    ensures forall j :: 0 <= j < |chain| ==> PathOf(ns, chain)[j].position == Position(ns[chain[j]])
  {
    if chain != [] {
      PathOfCells(ns, chain[1..]);
    }
  }

  function Positions(path: seq<Path>): (cells: seq<Int2>)
    ensures |cells| == |path| && forall j :: 0 <= j < |path| ==> cells[j] == path[j].position
  {
    if path == [] then [] else [path[0].position] + Positions(path[1..])
  }

  /** The path CalculatePath appends for node i: from i's cell back to the root's. */
  function BackChain(ns: seq<GridNode>, i: int): seq<Path>
    requires Descending(ns) && 0 <= i < |ns|
  {
    PathOf(ns, BackIndices(ns, i))
  }

  /** One step along the chain: the tail after i is the previous node's cell and then its tail. */
  lemma BackChainStep(ns: seq<GridNode>, i: int)
    requires Descending(ns) && 0 <= i < |ns|
    ensures |BackChain(ns, i)| >= 1 && BackChain(ns, i)[0] == Path(Position(ns[i]))
    ensures ns[i].previousNodeIndex == -1 ==> BackChain(ns, i)[1..] == []
    ensures ns[i].previousNodeIndex != -1 ==>
      && 0 <= ns[i].previousNodeIndex < |ns|
      && BackChain(ns, i)[1..] == BackChain(ns, ns[i].previousNodeIndex)
      && BackChain(ns, i)[1..] == [Path(Position(ns[ns[i].previousNodeIndex]))]
                                  + BackChain(ns, ns[i].previousNodeIndex)[1..]
  {
    assert DescendsAt(ns, i);
    var rest := if ns[i].previousNodeIndex == -1 then [] else BackIndices(ns, ns[i].previousNodeIndex);
    assert BackIndices(ns, i) == [i] + rest;
    assert ([i] + rest)[1..] == rest;
  }

  /**
   * Lines 209-228: with a back-pointer on the end node, appends the end cell
   * and then the cell of each node met following back-pointers, ending at a
   * node without one; with none, appends nothing.
   */
  method CalculatePath(pathNodeArray: array<GridNode>, endNode: GridNode, pathPositionBuffer: seq<Path>,
                       ghost ns: seq<GridNode>)
    returns (buffer: seq<Path>)
    requires ns == pathNodeArray[..] && Descending(ns)
    requires 0 <= endNode.index < |ns| && ns[endNode.index] == endNode
    ensures endNode.previousNodeIndex == -1 ==> buffer == pathPositionBuffer
    ensures endNode.previousNodeIndex != -1 ==>
      && |buffer| >= |pathPositionBuffer|
      && buffer[..|pathPositionBuffer|] == pathPositionBuffer
      && buffer[|pathPositionBuffer|..] == BackChain(ns, endNode.index)
  {
    buffer := pathPositionBuffer;
    if endNode.previousNodeIndex != -1 {
      ghost var target := pathPositionBuffer + BackChain(ns, endNode.index);
      ChainStart(ns, endNode.index, pathPositionBuffer);
      buffer := buffer + [Path(Int2(endNode.x, endNode.z))];
      var currentNode := endNode;
      ghost var current := endNode.index;
      while currentNode.previousNodeIndex != -1
        invariant 0 <= current < |ns| && currentNode == ns[current]
        invariant buffer + BackChain(ns, current)[1..] == target
        decreases currentNode.gCost
      {
        ChainStep(ns, current, buffer, target);
        var cameFromNode := pathNodeArray[currentNode.previousNodeIndex];
        buffer := buffer + [Path(Int2(cameFromNode.x, cameFromNode.z))];
        current := currentNode.previousNodeIndex;
        currentNode := cameFromNode;
      }
      ChainDone(ns, current, buffer, pathPositionBuffer, endNode.index);
    }
  }

  /** Before CalculatePath's loop: the end cell is the head of the end node's chain. */
  lemma ChainStart(ns: seq<GridNode>, i: int, prefix: seq<Path>)
    requires Descending(ns) && 0 <= i < |ns|
    ensures (prefix + [Path(Position(ns[i]))]) + BackChain(ns, i)[1..] == prefix + BackChain(ns, i)
  {
    BackChainStep(ns, i);
    var chain := BackChain(ns, i);
    assert chain == [chain[0]] + chain[1..];
  }

  /** One round of CalculatePath's loop appends the predecessor's cell, the head of the rest of the chain. */
  lemma ChainStep(ns: seq<GridNode>, current: int, buffer: seq<Path>, target: seq<Path>)
    requires Descending(ns) && 0 <= current < |ns| && ns[current].previousNodeIndex != -1
    requires buffer + BackChain(ns, current)[1..] == target
    ensures 0 <= ns[current].previousNodeIndex < |ns|
    ensures 0 <= ns[ns[current].previousNodeIndex].gCost < ns[current].gCost
    ensures (buffer + [Path(Position(ns[ns[current].previousNodeIndex]))])
            + BackChain(ns, ns[current].previousNodeIndex)[1..] == target
  {
    assert DescendsAt(ns, current);
    assert DescendsAt(ns, ns[current].previousNodeIndex);
    BackChainStep(ns, current);
  }

  /** After CalculatePath's loop: the buffer is the old entries followed by the whole chain. */
  lemma ChainDone(ns: seq<GridNode>, current: int, buffer: seq<Path>, prefix: seq<Path>, i: int)
    requires Descending(ns) && 0 <= current < |ns| && ns[current].previousNodeIndex == -1 && 0 <= i < |ns|
    requires buffer + BackChain(ns, current)[1..] == prefix + BackChain(ns, i)
    ensures |buffer| >= |prefix| && buffer[..|prefix|] == prefix && buffer[|prefix|..] == BackChain(ns, i)
  {
    BackChainStep(ns, current);
    assert buffer + [] == buffer;
    assert buffer == prefix + BackChain(ns, i);
  }

  /** The chain from a reached node passes only reached nodes and ends at the start node. */
  lemma BackIndicesEndAtStart(ns: seq<GridNode>, startIndex: int, endPosition: Int2,
                              openList: seq<int>, closedList: seq<int>, pending: int, done: int, i: int)
    requires SearchState(ns, startIndex, endPosition, openList, closedList, pending, done)
    requires 0 <= i < NodeCount && Reached(ns, startIndex, i)
    requires Descending(ns)
    ensures var chain := BackIndices(ns, i);
      && (forall j :: 0 <= j < |chain| ==> Reached(ns, startIndex, chain[j]))
      && chain[|chain| - 1] == startIndex
  {
    var chain := BackIndices(ns, i);
    forall j | 0 <= j < |chain| ensures Reached(ns, startIndex, chain[j]) {
      if j > 0 {
        assert Linked(ns, closedList, chain[j - 1]) && LinkedInChain(ns, chain, j - 1);
      }
    }
  }

  ghost predicate GCostFalls(ns: seq<GridNode>, chain: seq<int>)
    requires forall j :: 0 <= j < |chain| ==> 0 <= chain[j] < |ns|
  {
    forall a, b :: 0 <= a < b < |chain| ==> ns[chain[a]].gCost > ns[chain[b]].gCost
  }

  /** gCost strictly falls along the chain. */
  lemma {:induction false} BackIndicesDescend(ns: seq<GridNode>, i: int)
    requires Descending(ns) && 0 <= i < |ns|
    ensures GCostFalls(ns, BackIndices(ns, i))
    decreases ns[i].gCost
  {
    assert DescendsAt(ns, i);
    var chain := BackIndices(ns, i);
    var p := ns[i].previousNodeIndex;
    if p != -1 {
      var rest := BackIndices(ns, p);
      assert chain == [i] + rest;
      BackIndicesDescend(ns, p);
      assert GCostFalls(ns, rest);
      assert LinkedInChain(ns, chain, 0);
      forall a, b | 0 <= a < b < |chain| ensures ns[chain[a]].gCost > ns[chain[b]].gCost {
        assert chain[b] == rest[b - 1];
        if a == 0 {
          assert chain[a] == i && rest[0] == p;
          if b > 1 {
            assert ns[rest[0]].gCost > ns[rest[b - 1]].gCost;
          }
        } else {
          assert chain[a] == rest[a - 1] && chain[b] == rest[b - 1];
        }
      }
    }
  }

  /** The cost of the chain's walk is the gCost dropped along it. */
  lemma {:induction false} BackChainCost(ns: seq<GridNode>, i: int)
    requires Descending(ns) && 0 <= i < |ns|
    ensures ChainCostDrops(ns, i)
    decreases ns[i].gCost
  {
    assert DescendsAt(ns, i);
    var p := ns[i].previousNodeIndex;
    if p == -1 {
      ChainCostRoot(ns, i);
    } else {
      BackChainCost(ns, p);
      ChainCostStep(ns, i);
    }
  }

  ghost predicate ChainCostDrops(ns: seq<GridNode>, i: int)
    requires Descending(ns) && 0 <= i < |ns|
  {
    var chain := BackIndices(ns, i);
    PathCost(Positions(BackChain(ns, i))) == ns[i].gCost - ns[chain[|chain| - 1]].gCost
  }

  /** A node without a back-pointer is a chain of one cell, which costs nothing. */
  lemma ChainCostRoot(ns: seq<GridNode>, i: int)
    requires Descending(ns) && 0 <= i < |ns| && ns[i].previousNodeIndex == -1
    ensures ChainCostDrops(ns, i)
  {
    var path := BackChain(ns, i);
    BackChainStep(ns, i);
    var chain := BackIndices(ns, i);
    assert chain == [i];
    assert |Positions(path)| == 1;
    assert PathCost(Positions(path)) == 0;
  }

  /** The first step of the chain costs the gCost the node adds to its predecessor's. */
  lemma ChainCostStep(ns: seq<GridNode>, i: int)
    requires Descending(ns) && 0 <= i < |ns| && ns[i].previousNodeIndex != -1
    requires 0 <= ns[i].previousNodeIndex < |ns| && ChainCostDrops(ns, ns[i].previousNodeIndex)
    ensures ChainCostDrops(ns, i)
  {
    assert DescendsAt(ns, i);
    var p := ns[i].previousNodeIndex;
    var path := BackChain(ns, i);
    BackChainStep(ns, i);
    BackChainStep(ns, p);
    PositionsTail(path);
    var chain, rest := BackIndices(ns, i), BackIndices(ns, p);
    assert chain[|chain| - 1] == rest[|rest| - 1] by {
      assert chain == [i] + rest;
    }
    HCostSymmetric(Position(ns[p]), Position(ns[i]));
    var cells := Positions(path);
    assert cells[0] == Position(ns[i]) && cells[1] == Position(ns[p]);
    assert PathCost(cells) == CalculateHCost(cells[0], cells[1]) + PathCost(cells[1..]);
    assert PathCost(cells[1..]) == ns[p].gCost - ns[rest[|rest| - 1]].gCost;
  }

  lemma PositionsTail(path: seq<Path>)
    requires |path| > 0
    ensures Positions(path)[1..] == Positions(path[1..])
  {
    assert Positions(path) == [path[0].position] + Positions(path[1..]);
  }

  /** Consecutive cells of the chain are 8-adjacent. */
  lemma BackChainWalk(ns: seq<GridNode>, i: int)
    requires Descending(ns) && 0 <= i < |ns|
    ensures IsWalk(Positions(BackChain(ns, i)))
  {
    var chain := BackIndices(ns, i);
    var path := PathOf(ns, chain);
    var cells := Positions(path);
    PathOfCells(ns, chain);
    forall k | 0 <= k < |cells| - 1 ensures Adjacent(cells[k], cells[k + 1]) {
      assert LinkedInChain(ns, chain, k);
      LinkAdjacent(ns, chain[k], chain[k + 1]);
      assert path[k].position == Position(ns[chain[k]]) && path[k + 1].position == Position(ns[chain[k + 1]]);
    }
    assert cells == Positions(BackChain(ns, i));
  }

  /** A node and the node its back-pointer names sit in 8-adjacent cells. */
  lemma LinkAdjacent(ns: seq<GridNode>, a: int, b: int)
    requires Descending(ns) && 0 <= a < |ns| && 0 <= b < |ns| && ns[a].previousNodeIndex == b
    ensures Adjacent(Position(ns[a]), Position(ns[b]))
  {
    assert DescendsAt(ns, a);
  }

  /** The chain's cells lie inside the grid, and none repeats. */
  lemma BackChainCells(ns: seq<GridNode>, endPosition: Int2, i: int)
    requires Shaped(ns, endPosition) && Descending(ns) && 0 <= i < |ns|
    ensures var path := BackChain(ns, i);
      && (forall k :: 0 <= k < |path| ==> IsPositionInsideGrid(path[k].position, GridSize))
      && (forall a, b :: 0 <= a < b < |path| ==> path[a].position != path[b].position)
  {
    var chain := BackIndices(ns, i);
    var path := BackChain(ns, i);
    PathOfCells(ns, chain);
    BackIndicesDescend(ns, i);
    forall k | 0 <= k < |path| ensures IsPositionInsideGrid(path[k].position, GridSize) {
      assert Placed(ns[chain[k]], chain[k], endPosition);
      CellOfIndexInGrid(chain[k], GridSize);
    }
    forall a, b | 0 <= a < b < |path| ensures path[a].position != path[b].position {
      assert Placed(ns[chain[a]], chain[a], endPosition) && Placed(ns[chain[b]], chain[b], endPosition);
      CellOfIndexInGrid(chain[a], GridSize);
      CellOfIndexInGrid(chain[b], GridSize);
      assert ns[chain[a]].gCost > ns[chain[b]].gCost;
    }
  }

  /**
   * The path CalculatePath builds from node i, whose chain of back-pointers
   * ends at the start node: it starts at i's cell, ends at the start cell, is
   * an 8-adjacent walk inside the grid that repeats no cell, costs exactly i's
   * gCost, and has more than one cell exactly when i is not the start node.
   */
  lemma BackChainIsPath(ns: seq<GridNode>, startIndex: int, endPosition: Int2, i: int)
    requires Shaped(ns, endPosition) && Descending(ns)
    requires 0 <= startIndex < NodeCount && ns[startIndex].gCost == 0 && ns[startIndex].previousNodeIndex == -1
    requires 0 <= i < NodeCount && BackIndices(ns, i)[|BackIndices(ns, i)| - 1] == startIndex
    ensures var path := BackChain(ns, i);
      && path[0].position == Position(ns[i])
      && path[|path| - 1].position == Position(ns[startIndex])
      && (|path| >= 2 <==> i != startIndex)
      && IsWalk(Positions(path))
      && (forall k :: 0 <= k < |path| ==> IsPositionInsideGrid(path[k].position, GridSize))
      && (forall a, b :: 0 <= a < b < |path| ==> path[a].position != path[b].position)
      && PathCost(Positions(path)) == ns[i].gCost
  {
    BackChainEnds(ns, startIndex, i);
    BackChainWalk(ns, i);
    BackChainCells(ns, endPosition, i);
  }

  /** The chain from i to the start node: its end cells, its length and its cost. */
  lemma BackChainEnds(ns: seq<GridNode>, startIndex: int, i: int)
    requires Descending(ns)
    requires 0 <= startIndex < |ns| && ns[startIndex].gCost == 0
    requires 0 <= i < |ns| && BackIndices(ns, i)[|BackIndices(ns, i)| - 1] == startIndex
    ensures var path := BackChain(ns, i);
      && path[0].position == Position(ns[i])
      && path[|path| - 1].position == Position(ns[startIndex])
      && (|path| >= 2 <==> i != startIndex)
      && PathCost(Positions(path)) == ns[i].gCost
  {
    var chain := BackIndices(ns, i);
    var path := BackChain(ns, i);
    PathOfCells(ns, chain);
    var last := |chain| - 1;
    assert path[last].position == Position(ns[chain[last]]);
    BackChainStep(ns, i);
    BackChainCost(ns, i);
  }

  // ---------------------------------------------------------------------------
  // One search

  /**
   * What one search leaves in the path buffer and the path-follow cursor. A
   * request whose start is its end gets index -1 and an empty buffer (the end
   * node, being the start node, has no back-pointer). Any other request gets a
   * path from the end cell (first) to the start cell (last, where the cursor
   * points): an 8-adjacent walk inside the grid that repeats no cell.
   */
  predicate PathResult(startPosition: Int2, endPosition: Int2, path: seq<Path>, pathFollow: PathFollow) {
    && (startPosition == endPosition ==> path == [] && pathFollow.pathIndex == -1)
    && (startPosition != endPosition ==>
          && |path| >= 2 && pathFollow.pathIndex == |path| - 1
          && path[0].position == endPosition && path[|path| - 1].position == startPosition
          && IsWalk(Positions(path))
          && (forall k :: 0 <= k < |path| ==> IsPositionInsideGrid(path[k].position, GridSize))
          && (forall a, b :: 0 <= a < b < |path| ==> path[a].position != path[b].position))
  }

  /** A path in the sense of PathResult never costs less than the heuristic between its ends. */
  lemma PathResultAdmissible(startPosition: Int2, endPosition: Int2, path: seq<Path>, pathFollow: PathFollow)
    requires PathResult(startPosition, endPosition, path, pathFollow) && startPosition != endPosition
    ensures CalculateHCost(endPosition, startPosition) <= PathCost(Positions(path))
  {
    HCostAdmissible(Positions(path));
  }

  /**
   * Lines 93-164 of Execute: the A* loop. Each round selects the first open
   * node of least fCost, stops if it is the end node, and otherwise closes it
   * and expands its neighbours. It ends with the end node selected, still
   * open; the number of closed nodes bounds the rounds.
   */
  method Search(gridNodeArray: array<GridNode>, startNodeIndex: int, endNodeIndex: int, ghost endPosition: Int2)
    returns (openList: seq<int>, closedList: seq<int>)
    requires gridNodeArray.Length == NodeCount
    requires SearchState(gridNodeArray[..], startNodeIndex, endPosition, [startNodeIndex], [], -1, 0)
    requires AllWalkable(gridNodeArray[..])
    requires IsPositionInsideGrid(endPosition, GridSize)
    requires endNodeIndex == CalculateIndex(endPosition.x, endPosition.y, GridSize.x)
    modifies gridNodeArray
    ensures SearchState(gridNodeArray[..], startNodeIndex, endPosition, openList, closedList, -1, 0)
    ensures forall k :: 0 <= k < |openList| ==> 0 <= openList[k] < NodeCount
    ensures exists j :: FirstLowest(gridNodeArray[..], openList, j) && openList[j] == endNodeIndex
  {
    openList := [startNodeIndex];
    closedList := [];
    ghost var found := false;
    while |openList| > 0
      invariant SearchState(gridNodeArray[..], startNodeIndex, endPosition, openList, closedList, -1, 0)
      invariant AllWalkable(gridNodeArray[..])
      invariant endNodeIndex !in closedList
      invariant !found
      decreases NodeCount - |closedList|
    {
      assert forall k :: 0 <= k < |openList| ==> openList[k] in openList;
      var currentNodeIndex := GetLowestCostFNodeIndex(openList, gridNodeArray);
      ghost var j :| FirstLowest(gridNodeArray[..], openList, j) && currentNodeIndex == gridNodeArray[openList[j]].index;
      assert openList[j] == currentNodeIndex by {
        assert Placed(gridNodeArray[openList[j]], openList[j], endPosition);
      }
      if currentNodeIndex == endNodeIndex {
        found := true;
        assert FirstLowest(gridNodeArray[..], openList, j) && openList[j] == endNodeIndex;
        break;
      }
      openList, closedList := CloseAndExpand(gridNodeArray, currentNodeIndex, openList, closedList,
                                             startNodeIndex, endPosition);
    }
    if !found {
      OpenListNeverRunsDry(gridNodeArray[..], startNodeIndex, endPosition, openList, closedList);
      assert false;
    }
  }

  /**
   * Lines 101 and 109-163, one round after the selection: the current node,
   * the first open entry of least fCost, moves from the open list to the
   * closed list and its neighbours are expanded. The search invariant and
   * walkability are kept.
   */
  method CloseAndExpand(gridNodeArray: array<GridNode>, currentNodeIndex: int, openList: seq<int>, closedList: seq<int>,
                        ghost startNodeIndex: int, ghost endPosition: Int2)
    returns (openList': seq<int>, closedList': seq<int>)
    requires gridNodeArray.Length == NodeCount
    requires SearchState(gridNodeArray[..], startNodeIndex, endPosition, openList, closedList, -1, 0)
    requires AllWalkable(gridNodeArray[..])
    requires forall k :: 0 <= k < |openList| ==> 0 <= openList[k] < NodeCount
    requires exists j :: FirstLowest(gridNodeArray[..], openList, j) && openList[j] == currentNodeIndex
    requires currentNodeIndex in openList
    modifies gridNodeArray
    ensures SearchState(gridNodeArray[..], startNodeIndex, endPosition, openList', closedList', -1, 0)
    ensures AllWalkable(gridNodeArray[..])
    ensures closedList' == closedList + [currentNodeIndex]
    ensures var remaining := RemoveAtSwapBack(openList, FirstIndex(openList, currentNodeIndex));
      && (gridNodeArray[..], openList')
           == ExpandedBy(old(gridNodeArray[..]), currentNodeIndex, remaining, closedList', |NeighbourOffsets|)
      && Relaxed(old(gridNodeArray[..]), gridNodeArray[..], remaining, openList', closedList', currentNodeIndex)
  {
    var currentNode := gridNodeArray[currentNodeIndex];
    var remaining := RemoveFromOpenList(openList, currentNodeIndex);
    CloseKeepsState(gridNodeArray[..], startNodeIndex, endPosition, openList, closedList, currentNodeIndex, remaining);
    closedList' := closedList + [currentNodeIndex];
    openList' := ExpandNeighbours(gridNodeArray, currentNodeIndex, currentNode, remaining, closedList',
                                  startNodeIndex, endPosition);
  }

  /**
   * What the write-back needs from a finished search: node costs fall along
   * back-pointers, the start node has none, and the end node either is the
   * start node or has a chain of back-pointers leading to it.
   */
  ghost predicate Finished(ns: seq<GridNode>, startIndex: int, endNodeIndex: int, endPosition: Int2) {
    && Shaped(ns, endPosition) && Descending(ns)
    && 0 <= startIndex < NodeCount && ns[startIndex].gCost == 0 && ns[startIndex].previousNodeIndex == -1
    && 0 <= endNodeIndex < NodeCount
    && (ns[endNodeIndex].previousNodeIndex == -1 ==> endNodeIndex == startIndex)
    && (ns[endNodeIndex].previousNodeIndex != -1 ==>
          BackIndices(ns, endNodeIndex)[|BackIndices(ns, endNodeIndex)| - 1] == startIndex)
  }

  lemma SearchFinished(ns: seq<GridNode>, startIndex: int, endPosition: Int2,
                       openList: seq<int>, closedList: seq<int>, endNodeIndex: int)
    requires SearchState(ns, startIndex, endPosition, openList, closedList, -1, 0)
    requires endNodeIndex in openList
    ensures Finished(ns, startIndex, endNodeIndex, endPosition)
  {
    SearchStateDescending(ns, startIndex, endPosition, openList, closedList, -1, 0);
    assert Reached(ns, startIndex, endNodeIndex);
    BackIndicesEndAtStart(ns, startIndex, endPosition, openList, closedList, -1, 0, endNodeIndex);
  }

  /**
   * What the write-back reads off the end node: it has no back-pointer exactly
   * when the request's start is its end, and otherwise its back-chain is a path
   * in the sense of PathResult that costs the end node's gCost.
   */
  ghost predicate Outcome(ns: seq<GridNode>, startPosition: Int2, endPosition: Int2, endNodeIndex: int) {
    && 0 <= endNodeIndex < |ns| && Descending(ns) && ns[endNodeIndex].index == endNodeIndex
    && (ns[endNodeIndex].previousNodeIndex == -1 <==> startPosition == endPosition)
    && (ns[endNodeIndex].previousNodeIndex != -1 ==>
          && PathResult(startPosition, endPosition, BackChain(ns, endNodeIndex),
                        PathFollow(|BackChain(ns, endNodeIndex)| - 1))
          && PathCost(Positions(BackChain(ns, endNodeIndex))) == ns[endNodeIndex].gCost)
  }

  lemma FinishedOutcome(ns: seq<GridNode>, startPosition: Int2, endPosition: Int2, endNodeIndex: int)
    requires IsPositionInsideGrid(startPosition, GridSize) && IsPositionInsideGrid(endPosition, GridSize)
    requires endNodeIndex == CalculateIndex(endPosition.x, endPosition.y, GridSize.x)
    requires Finished(ns, CalculateIndex(startPosition.x, startPosition.y, GridSize.x), endNodeIndex, endPosition)
    ensures Outcome(ns, startPosition, endPosition, endNodeIndex)
  {
    var startIndex := CalculateIndex(startPosition.x, startPosition.y, GridSize.x);
    PlacedAt(ns, endPosition, endPosition);
    PlacedAt(ns, endPosition, startPosition);
    assert Placed(ns[endNodeIndex], endNodeIndex, endPosition);
    if ns[endNodeIndex].previousNodeIndex != -1 {
      BackChainIsPath(ns, startIndex, endPosition, endNodeIndex);
    }
  }

  /**
   * Lines 166-181 of Execute: clears the path buffer; then either reports
   * index -1, when the end node has no back-pointer, or fills the buffer
   * through CalculatePath and points the cursor at its last entry.
   */
  method WritePath(gridNodeArray: array<GridNode>, endNodeIndex: int, pathBuffer: seq<Path>,
                   ghost startPosition: Int2, ghost endPosition: Int2)
    returns (pathBuffer': seq<Path>, pathFollow: PathFollow)
    requires Outcome(gridNodeArray[..], startPosition, endPosition, endNodeIndex)
    ensures gridNodeArray[endNodeIndex].previousNodeIndex == -1 ==> pathBuffer' == [] && pathFollow.pathIndex == -1
    ensures gridNodeArray[endNodeIndex].previousNodeIndex != -1 ==>
      && pathBuffer' == BackChain(gridNodeArray[..], endNodeIndex)
      && pathFollow.pathIndex == |pathBuffer'| - 1
    ensures PathResult(startPosition, endPosition, pathBuffer', pathFollow)
  {
    ghost var ns := gridNodeArray[..];
    pathBuffer' := [];
    var endNode := gridNodeArray[endNodeIndex];
    if endNode.previousNodeIndex == -1 {
      pathFollow := PathFollow(-1);
    } else {
      pathBuffer' := CalculatePath(gridNodeArray, endNode, pathBuffer', ns);
      pathFollow := PathFollow(|pathBuffer'| - 1);
    }
  }

  /**
   * FindPathJob.Execute, lines 50-188: the A* search on the 100 x 100 grid
   * from startPosition to endPosition, then the path written back. The search
   * always ends by selecting the end node, so the only request without a path
   * is the one whose start is its end. Any other request gets the end node's
   * back-pointer chain in the final node array ns, which costs the end node's
   * gCost.
   */
  method Execute(startPosition: Int2, endPosition: Int2, pathBuffer: seq<Path>)
    returns (pathBuffer': seq<Path>, pathFollow: PathFollow, ghost ns: seq<GridNode>)
    requires IsPositionInsideGrid(startPosition, GridSize) && IsPositionInsideGrid(endPosition, GridSize)
    ensures PathResult(startPosition, endPosition, pathBuffer', pathFollow)
    ensures Finished(ns, CalculateIndex(startPosition.x, startPosition.y, GridSize.x),
                     CalculateIndex(endPosition.x, endPosition.y, GridSize.x), endPosition)
    ensures var endIndex := CalculateIndex(endPosition.x, endPosition.y, GridSize.x);
      startPosition != endPosition ==>
        && pathBuffer' == BackChain(ns, endIndex)
        && PathCost(Positions(pathBuffer')) == ns[endIndex].gCost
  {
    var gridSize := GridSize;
    var gridNodeArray := InitialiseNodes(endPosition);
    IndexBijection(startPosition, GridSize);
    var endNodeIndex := CalculateIndex(endPosition.x, endPosition.y, gridSize.x);
    ghost var ns0 := gridNodeArray[..];
    ghost var startIndex := CalculateIndex(startPosition.x, startPosition.y, gridSize.x);
    var startNode := gridNodeArray[CalculateIndex(startPosition.x, startPosition.y, gridSize.x)];
    InitialNodeFacts(startIndex, endPosition);
    startNode := startNode.(gCost := 0);
    startNode := startNode.(fCost := CalculateFCost(startNode.gCost, startNode.hCost));
    gridNodeArray[startNode.index] := startNode;
    InitialState(ns0, gridNodeArray[..], startIndex, endPosition);
    var openList, closedList := Search(gridNodeArray, startNode.index, endNodeIndex, endPosition);
    SearchFinished(gridNodeArray[..], startIndex, endPosition, openList, closedList, endNodeIndex);
    FinishedOutcome(gridNodeArray[..], startPosition, endPosition, endNodeIndex);
    ns := gridNodeArray[..];
    pathBuffer', pathFollow := WritePath(gridNodeArray, endNodeIndex, pathBuffer, startPosition, endPosition);
  }

  // ---------------------------------------------------------------------------
  // The system

  /** The entities the system's ForEach visits: a pending request and a path buffer. */
  predicate Requested(entity: Entity) {
    entity.navigation.Some? && entity.path.Some?
  }

  /**
   * What a visited entity must offer: both cells of its request inside the
   * grid (the search indexes its node array with them) and a PathFollow
   * component for the job to write.
   */
  predicate Routable(entity: Entity) {
    Requested(entity) ==>
      && entity.pathFollow.Some?
      && IsPositionInsideGrid(entity.navigation.value.startPosition, GridSize)
      && IsPositionInsideGrid(entity.navigation.value.endPosition, GridSize)
  }

  /**
   * One entity before and after an update: a visited entity has its request
   * removed and its buffer and cursor set as PathResult says, the rest of it
   * unchanged; any other entity is untouched.
   */
  predicate Served(before: Entity, after: Entity) {
    && (Requested(before) ==>
          && after.navigation.None?
          && after.selected == before.selected && after.translation == before.translation
          && after.path.Some? && after.pathFollow.Some?
          && PathResult(before.navigation.value.startPosition, before.navigation.value.endPosition,
                        after.path.value, after.pathFollow.value))
    && (!Requested(before) ==> after == before)
  }

  /**
   * NavigationSystem.OnUpdate, lines 18-34: one search per entity that has a
   * request and a path buffer, after which the request is removed. Afterwards
   * no entity is left with a request to serve, so a request is searched once.
   */
  method OnUpdate(entities: seq<Entity>) returns (updated: seq<Entity>)
    requires forall k :: 0 <= k < |entities| ==> Routable(entities[k])
    ensures |updated| == |entities|
    ensures forall k :: 0 <= k < |entities| ==> Served(entities[k], updated[k])
    ensures forall k :: 0 <= k < |updated| ==> !Requested(updated[k])
  {
    updated := [];
    for k := 0 to |entities|
      invariant |updated| == k
      invariant forall j :: 0 <= j < k ==> Served(entities[j], updated[j]) && !Requested(updated[j])
    {
      var entity := entities[k];
      if entity.navigation.Some? && entity.path.Some? {
        var navigationData := entity.navigation.value;
        var pathBuffer, pathFollow, _ := Execute(navigationData.startPosition, navigationData.endPosition,
                                              entity.path.value);
        entity := entity.(path := Some(pathBuffer), pathFollow := Some(pathFollow));
        entity := entity.(navigation := None);
      }
      updated := updated + [entity];
    }
  }
}

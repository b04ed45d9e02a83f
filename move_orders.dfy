/**
 * `UnitMoveOrderSystem`: on a right click that hits the ground, every selected
 * unit gets a path request from its own cell to the clicked cell, a path-follow
 * cursor of -1 and an empty path buffer. Both cells are read off the grid with
 * a half-cell offset and clamped into it.
 */
module MoveOrders {
  import opened Components
  import opened Nodes
  import opened Grid
  import Navigation

  /** Unity.Mathematics `math.clamp(x, a, b)`, which is `max(a, min(b, x))`. */
  function Clamp(x: int, a: int, b: int): (r: int)
    ensures a <= b ==> a <= r <= b
    ensures a <= x <= b ==> r == x
    ensures x < a ==> r == a
    ensures a <= b < x ==> r == b
    ensures b < a ==> r == a
  {
    var m := if b < x then b else x;
    if a > m then a else m
  }

  /** Clamping twice into the same range is clamping once. */
  lemma ClampIdempotent(x: int, a: int, b: int)
    ensures Clamp(Clamp(x, a, b), a, b) == Clamp(x, a, b)
  {
  }

  /**
   * `ValidateGridPosition`, lines 61-65: clamps x into [0, Length - 1] and z
   * into [0, Width - 1]. On a grid with no rows or columns the clamp yields 0.
   */
  function ValidateGridPosition(grid: CoordinateGrid<GridNode>, x: int, z: int): (cell: (int, int))
    ensures 1 <= grid.Length ==> 0 <= cell.0 < grid.Length
    ensures 1 <= grid.Width ==> 0 <= cell.1 < grid.Width
    ensures 0 <= x < grid.Length ==> cell.0 == x
    ensures 0 <= z < grid.Width ==> cell.1 == z
    ensures x < 0 || grid.Length < 1 ==> cell.0 == 0
    ensures z < 0 || grid.Width < 1 ==> cell.1 == 0
  {
    (Clamp(x, 0, grid.Length - 1), Clamp(z, 0, grid.Width - 1))
  }

  /** A validated cell validates to itself. */
  lemma ValidateIdempotent(grid: CoordinateGrid<GridNode>, x: int, z: int)
    ensures var cell := ValidateGridPosition(grid, x, z);
      ValidateGridPosition(grid, cell.0, cell.1) == cell
  {
    ClampIdempotent(x, 0, grid.Length - 1);
    ClampIdempotent(z, 0, grid.Width - 1);
  }

  /** `new Vector3(1, 1) * cellSize * 0.5f`: half a cell along x and along y, none along z. */
  function HalfCellOffset(cellSize: real): Vector3 {
    Vector3(1.0, 1.0, 0.0).Scale(cellSize).Scale(0.5)
  }

  /**
   * Lines 30-32 and 41-43: the validated cell of a world position shifted by
   * the half-cell offset.
   */
  function OrderCell(grid: CoordinateGrid<GridNode>, worldPosition: Vector3): (cell: Int2)
    requires grid.CellSize != 0.0
    ensures 1 <= grid.Length ==> 0 <= cell.x < grid.Length
    ensures 1 <= grid.Width ==> 0 <= cell.y < grid.Width
  {
    var raw := grid.GetCellCoordinate(worldPosition.Plus(HalfCellOffset(grid.CellSize)));
    var valid := ValidateGridPosition(grid, raw.0, raw.1);
    Int2(valid.0, valid.1)
  }

  /**
   * The offset moves the position half a cell along x, so x is rounded to the
   * nearest cell corner, while z, which the offset does not touch, is floored
   * as GetCellCoordinate does on its own.
   */
  lemma OrderCellRoundsXOnly(grid: CoordinateGrid<GridNode>, worldPosition: Vector3)
    requires grid.CellSize > 0.0
    ensures var raw := grid.GetCellCoordinate(worldPosition.Plus(HalfCellOffset(grid.CellSize)));
      && (raw.0 as real - 0.5) * grid.CellSize <= worldPosition.x - grid.originPosition.x
      && worldPosition.x - grid.originPosition.x < (raw.0 as real + 0.5) * grid.CellSize
      && raw.1 == grid.GetCellCoordinate(worldPosition).1
  {
    var shifted := worldPosition.Plus(HalfCellOffset(grid.CellSize));
    assert shifted.z == worldPosition.z;
    assert shifted.x == worldPosition.x + 0.5 * grid.CellSize;
  }

  /** The request, cursor and empty buffer the order adds to one selected unit (lines 41-56). */
  function Ordered(grid: CoordinateGrid<GridNode>, entity: Entity, endPosition: Int2): (ordered: Entity)
    requires grid.CellSize != 0.0
    ensures ordered.selected == entity.selected && ordered.translation == entity.translation
    ensures ordered.navigation == Some(NavigationData(OrderCell(grid, entity.translation), endPosition))
    ensures ordered.pathFollow == Some(PathFollow(-1)) && ordered.path == Some([])
  {
    var startPosition := OrderCell(grid, entity.translation);
    entity.(navigation := Some(NavigationData(startPosition, endPosition)),
            pathFollow := Some(PathFollow(-1)),
            path := Some([]))
  }

  /**
   * `UnitMoveOrderSystem.OnUpdate`, lines 20-59. Without a right click this
   * frame, or when the ray from the mouse hits nothing, nothing changes.
   * Otherwise every selected unit is given an order towards the clicked cell
   * and every other unit is left alone. The mouse and the raycast are inputs.
   */
  method IssueMoveOrders(grid: CoordinateGrid<GridNode>, rightButtonPressed: bool, hit: Option<Vector3>,
                         entities: seq<Entity>)
    returns (updated: seq<Entity>)
    requires rightButtonPressed && hit.Some? ==> grid.CellSize != 0.0
    ensures |updated| == |entities|
    ensures !rightButtonPressed || hit.None? ==> updated == entities
    ensures rightButtonPressed && hit.Some? ==>
      forall k :: 0 <= k < |entities| ==>
        updated[k] == if entities[k].selected then Ordered(grid, entities[k], OrderCell(grid, hit.value))
                      else entities[k]
  {
    if !rightButtonPressed || hit.None? {
      return entities;
    }
    var endPosition := OrderCell(grid, hit.value);
    updated := [];
    for k := 0 to |entities|
      invariant |updated| == k
      invariant forall j :: 0 <= j < k ==>
        updated[j] == if entities[j].selected then Ordered(grid, entities[j], endPosition) else entities[j]
    {
      var entity := entities[k];
      if entity.selected {
        var startPosition := OrderCell(grid, entity.translation);
        entity := entity.(navigation := Some(NavigationData(startPosition, endPosition)));
        entity := entity.(pathFollow := Some(PathFollow(-1)));
        entity := entity.(path := Some([]));
      }
      updated := updated + [entity];
    }
  }

  /**
   * On a grid of at most 100 x 100 cells with at least one cell, every order
   * meets what NavigationSystem asks of the entities it visits: both cells
   * inside its fixed 100 x 100 search grid and a cursor to write.
   */
  lemma OrdersAreRoutable(grid: CoordinateGrid<GridNode>, entity: Entity, hit: Vector3)
    requires grid.CellSize != 0.0
    requires 1 <= grid.Length <= Navigation.GridSize.x && 1 <= grid.Width <= Navigation.GridSize.y
    ensures Navigation.Requested(Ordered(grid, entity, OrderCell(grid, hit)))
    ensures Navigation.Routable(Ordered(grid, entity, OrderCell(grid, hit)))
  {
  }
}

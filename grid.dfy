/**
 * `CoordinateGrid<TGridNode>`: a length x width array of cell payloads filled
 * eagerly by a factory, indexed get and set, and the mapping between world
 * positions and cells. World coordinates are exact reals here; the floor
 * mapping is `.Floor`.
 */
module Grid {
  import opened Components

  class CoordinateGrid<TGridNode(0)> {
    const Length: int
    const Width: int
    const Height: real
    const CellSize: real
    const originPosition: Vector3
    const gridArray: array2<TGridNode>

    /** The array has the recorded dimensions. */
    ghost predicate Valid() {
      gridArray.Length0 == Length && gridArray.Length1 == Width
    }

    /**
     * Records the parameters and fills every cell with `createGridNote(this, x, z)`,
     * x-major then z. Display of the grid is not modelled, so `displayGrid` has
     * no effect.
     */
    constructor (length: int, width: int, cellSize: real, originPosition: Vector3, displayGrid: bool,
                 createGridNote: (CoordinateGrid<TGridNode>, int, int) -> TGridNode)
      requires 0 <= length && 0 <= width
      ensures Valid() && fresh(gridArray)
      ensures Length == length && Width == width && CellSize == cellSize
      ensures this.originPosition == originPosition && Height == originPosition.y
      ensures forall x, z :: 0 <= x < length && 0 <= z < width ==> gridArray[x, z] == createGridNote(this, x, z)
    {
      Length := length;
      Width := width;
      Height := originPosition.y;
      CellSize := cellSize;
      this.originPosition := originPosition;
      gridArray := new TGridNode[length, width];
      new;
      var x := 0;
      while x < gridArray.Length0
        invariant 0 <= x <= length
        invariant forall i, j :: 0 <= i < x && 0 <= j < width ==> gridArray[i, j] == createGridNote(this, i, j)
      {
        var z := 0;
        while z < gridArray.Length1
          invariant 0 <= z <= width
          invariant forall i, j :: 0 <= i < x && 0 <= j < width ==> gridArray[i, j] == createGridNote(this, i, j)
          invariant forall j :: 0 <= j < z ==> gridArray[x, j] == createGridNote(this, x, j)
        {
          gridArray[x, z] := createGridNote(this, x, z);
          z := z + 1;
        }
        x := x + 1;
      }
    }

    /** World position of cell corner (x, y, z): `new Vector3(x, y, z) * CellSize + originPosition`. */
    function GetWorldPosition(x: real, y: real, z: real): Vector3 {
      Vector3(x, y, z).Scale(CellSize).Plus(originPosition)
    }

    /**
     * The cell holding a world position: the floor of the offset from the origin
     * divided by the cell size, for x and z; y plays no part. No clamping: the
     * result may lie outside the grid.
     */
    function GetCellCoordinate(worldPosition: Vector3): (cell: (int, int))
      requires CellSize != 0.0
      ensures CellSize > 0.0 ==>
        cell.0 as real * CellSize <= worldPosition.x - originPosition.x < (cell.0 + 1) as real * CellSize
      ensures CellSize > 0.0 ==>
        cell.1 as real * CellSize <= worldPosition.z - originPosition.z < (cell.1 + 1) as real * CellSize
    {
      var offset := worldPosition.Minus(originPosition);
      var x := (offset.x / CellSize).Floor;
      var z := (offset.z / CellSize).Floor;
      FloorScaled(offset.x, CellSize);
      FloorScaled(offset.z, CellSize);
      (x, z)
    }

    function GetGridNode(x: int, z: int): TGridNode
      requires Valid() && 0 <= x < Length && 0 <= z < Width
      reads gridArray
    {
      gridArray[x, z]
    }

    /** `GetGridNode(Vector3)`: convert with GetCellCoordinate, then index. */
    function GetGridNodeAtWorld(worldPosition: Vector3): (value: TGridNode)
      requires Valid() && CellSize != 0.0
      requires var cell := GetCellCoordinate(worldPosition); 0 <= cell.0 < Length && 0 <= cell.1 < Width
      reads gridArray
      ensures CellSize > 0.0 ==> exists x, z ::
        && x as real * CellSize <= worldPosition.x - originPosition.x < (x + 1) as real * CellSize
        && z as real * CellSize <= worldPosition.z - originPosition.z < (z + 1) as real * CellSize
        && 0 <= x < Length && 0 <= z < Width && value == gridArray[x, z]
    {
      var cell := GetCellCoordinate(worldPosition);
      GetGridNode(cell.0, cell.1)
    }

    /** Writes one cell; every other cell keeps its payload. */
    method SetValue(x: int, z: int, value: TGridNode)
      requires Valid() && 0 <= x < Length && 0 <= z < Width
      modifies gridArray
      ensures GetGridNode(x, z) == value
      ensures forall i, j :: 0 <= i < Length && 0 <= j < Width && (i, j) != (x, z) ==>
        gridArray[i, j] == old(gridArray[i, j])
    {
      gridArray[x, z] := value;
    }

    /** `SetValue(Vector3, value)`: convert with GetCellCoordinate, then SetValue. */
    method SetValueAtWorld(worldPosition: Vector3, value: TGridNode)
      requires Valid() && CellSize != 0.0
      requires var cell := GetCellCoordinate(worldPosition); 0 <= cell.0 < Length && 0 <= cell.1 < Width
      modifies gridArray
      ensures GetGridNodeAtWorld(worldPosition) == value
      ensures var cell := GetCellCoordinate(worldPosition);
        forall i, j :: 0 <= i < Length && 0 <= j < Width && (i, j) != cell ==>
          gridArray[i, j] == old(gridArray[i, j])
    {
      var cell := GetCellCoordinate(worldPosition);
      SetValue(cell.0, cell.1, value);
    }

    /** The corner of cell (x, z) maps back to (x, z), whatever the height. */
    lemma CellOfWorldPosition(x: int, y: real, z: int)
      requires CellSize > 0.0
      ensures GetCellCoordinate(GetWorldPosition(x as real, y, z as real)) == (x, z)
    {
      var p := GetWorldPosition(x as real, y, z as real);
      var offset := p.Minus(originPosition);
      assert offset.x == x as real * CellSize && offset.z == z as real * CellSize;
      assert offset.x / CellSize == x as real;
      assert offset.z / CellSize == z as real;
    }

    /** The height of a world position does not affect its cell. */
    lemma CellIgnoresHeight(worldPosition: Vector3, y: real)
      requires CellSize != 0.0
      ensures GetCellCoordinate(worldPosition.(y := y)) == GetCellCoordinate(worldPosition)
    {
    }

    /** Reading a cell by the world position of its corner reads that cell. */
    lemma GetGridNodeAtCorner(x: int, z: int)
      requires Valid() && CellSize > 0.0 && 0 <= x < Length && 0 <= z < Width
      ensures GetCellCoordinate(GetWorldPosition(x as real, Height, z as real)) == (x, z)
      ensures GetGridNodeAtWorld(GetWorldPosition(x as real, Height, z as real)) == GetGridNode(x, z)
    {
      CellOfWorldPosition(x, Height, z);
    }
  }

  /** With a positive cell size, the floor of d / c is the n with n*c <= d < (n+1)*c. */
  lemma FloorScaled(d: real, c: real)
    requires c != 0.0
    ensures c > 0.0 ==> (d / c).Floor as real * c <= d < ((d / c).Floor + 1) as real * c
  {
    if c > 0.0 {
      var q := d / c;
      var n := q.Floor;
      assert q * c == d;
      assert n as real <= q < (n + 1) as real;
      MulMonotone(n as real, q, c);
      MulMonotone(q, (n + 1) as real, c);
      assert d < (n + 1) as real * c;
    }
  }

  lemma MulMonotone(a: real, b: real, c: real)
    requires c > 0.0
    ensures a <= b ==> a * c <= b * c
    ensures a < b ==> a * c < b * c
  {
  }
}

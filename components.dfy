/**
 * The value types the pathfinding core exchanges with the entity framework:
 * Unity's `int2` and `Vector3`, the per-entity request (`NavigationData`), one
 * element of the per-entity path buffer (`Path`), the path-follow cursor
 * (`PathFollow`), and the components one unit entity carries.
 */
module Components {

  datatype Option<T> = None | Some(value: T)

  /** Unity.Mathematics `int2`; the pathfinder stores a cell's z coordinate in `y`. */
  datatype Int2 = Int2(x: int, y: int)

  /** UnityEngine `Vector3`, with exact reals in place of single-precision floats. */
  datatype Vector3 = Vector3(x: real, y: real, z: real) {
    function Plus(other: Vector3): Vector3 {
      Vector3(x + other.x, y + other.y, z + other.z)
    }
    function Minus(other: Vector3): Vector3 {
      Vector3(x - other.x, y - other.y, z - other.z)
    }
    function Scale(k: real): Vector3 {
      Vector3(x * k, y * k, z * k)
    }
  }

  /** A pending path request: start and end cell of one search. */
  datatype NavigationData = NavigationData(startPosition: Int2, endPosition: Int2)

  /** One element of an entity's path buffer. */
  datatype Path = Path(position: Int2)

  /** The path-follow cursor; `-1` means "no path". */
  datatype PathFollow = PathFollow(pathIndex: int)

  /**
   * The components of one unit entity that the move-order and navigation
   * systems read or write. `selected` stands for the `SelectionStateData`
   * tag; `path` is the `Path` dynamic buffer, absent until one is added.
   */
  datatype Entity = Entity(
    selected: bool,
    translation: Vector3,
    navigation: Option<NavigationData>,
    pathFollow: Option<PathFollow>,
    path: Option<seq<Path>>)
}

/**
 * The value types the maze generator and the level consumers share: the tile and entity records
 * and the enumerations the game defines for them. The enumerations keep only the members the
 * generator and the movement logic use.
 */
module Levels {

  datatype Option<+T> = None | Some(value: T)

  /** `Math.abs` on an integer. */
  function Abs(n: int): nat {
    if n < 0 then -n else n
  }

  /** A tile-grid coordinate; the grid is column-major, so `x` is the column and `y` the row. */
  datatype Pos = Pos(x: int, y: int)

  datatype TileType =
    | Floor
    | WallLeftTop
    | WallRightTop
    | WallLeftBottom
    | WallRightBottom
    | WallColumn
    | WallRow

  /**
   * A tile of the map. The generator writes only two shapes of record: `{src: null, type: null}`,
   * a passable opening with nothing drawn, and `{src: n, type: t}` with both fields set.
   */
  datatype Tile = Opening | Placed(src: int, kind: TileType)

  /** The test the generator uses to recognise floor: the tile's type is FLOOR. */
  predicate IsFloor(t: Tile) {
    t.Placed? && t.kind == Floor
  }

  /** A wall: a drawn tile of any type other than FLOOR. */
  predicate IsWall(t: Tile) {
    t.Placed? && t.kind != Floor
  }

  datatype Direction = Top | Bottom | Left | Right

  datatype EntityState = Idle | TurnLeft | TurnRight

  datatype EntityType = Player | Door | SkeletonWooden

  /** An entity placement of a level: position, facing, state and kind. */
  datatype Entity = Entity(x: int, y: int, direction: Direction, state: EntityState, kind: EntityType) {
    function Position(): Pos {
      Pos(x, y)
    }
  }

  /** The level the generator returns; `mapInfo` is the generator's own grid, not a copy. */
  datatype Level = Level(
    mapInfo: array2<Tile>,
    player: Entity,
    enemies: seq<Entity>,
    spikes: seq<Entity>,
    bursts: seq<Entity>,
    door: Entity)
}

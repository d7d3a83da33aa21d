// The value types of the game engine: directions, tiles, positions,
// the value view of a moving entity and the game-wide state record.

module Types {

  /** A heading. `None` is the stopped / no-request value. */
  datatype Direction = Up | Down | Left | Right | None

  /** The direction straight back; `None` has no opposite and maps to itself. */
  function Opposite(d: Direction): (r: Direction)
    ensures d != None ==> r != None && r != d
    ensures r == None ==> d == None
  {
    match d
    case Up => Down
    case Down => Up
    case Left => Right
    case Right => Left
    case None => None
  }

  datatype Kind = Player | Police

  datatype Tile = Empty | Wall | Cash | Turbo | Spawn

  /** A continuous position in tile units; integral values are tile centres. */
  datatype Position = Position(x: real, y: real)

  /** The value of a moving entity at one instant (its identifier is left out). */
  datatype EntityState = EntityState(
    pos: Position,
    dir: Direction,
    nextDir: Direction,
    speed: real,
    kind: Kind)

  datatype Status = Start | Playing | GameOver | Win | LevelUp

  datatype GameState = GameState(
    score: int,
    lives: int,
    status: Status,
    level: int,
    cashRemaining: int,
    isVulnerable: bool,
    vulnerableTimer: int)

  /**
   * The constants the engine imports from its constants module, which is not
   * part of this model: the maze layout, the three speeds and the turbo
   * duration in ticks.
   */
  datatype Config = Config(
    layout: seq<seq<Tile>>,
    baseSpeed: real,
    policeSpeedNormal: real,
    policeSpeedScared: real,
    turboDuration: int)
}

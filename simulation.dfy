// One frame of the game as a function of the whole world, the keyboard
// handler, the two buttons and the mount-time reset, with the invariant
// they all keep.

module Simulation {
  import opened Types
  import opened Grid
  import opened Movement
  import opened PoliceAI
  import opened Lifecycle
  import opened Radio
  import opened Collisions

  /** What the engine needs of its constants: a rectangular layout and a positive turbo. */
  ghost predicate ValidConfig(cfg: Config) {
    Rectangular(cfg.layout) && cfg.turboDuration > 0
  }

  /** No open tile of the maze is boxed in on all four sides (wall tiles may be). */
  ghost predicate NoEnclosedTile(maze: seq<seq<Tile>>)
    requires Rectangular(maze)
  {
    forall c, r {:trigger Options(maze, c, r)} :: InGrid(maze, c, r) && maze[r][c] != Wall ==> |Options(maze, c, r)| > 0
  }

  /**
   * On such a layout a car that is not inside a wall always has an open
   * neighbour, so near a centre it queues a real direction: the source's
   * `finalOptions[0]` is defined there. Off the grid the outward
   * neighbour is always open.
   */
  lemma DecisionDefined(maze: seq<seq<Tile>>, cop: EntityState, p: Position, scared: bool)
    requires Rectangular(maze) && NoEnclosedTile(maze)
    requires !IsWall(maze, cop.pos.x, cop.pos.y)
    ensures |Options(maze, Round(cop.pos.x), Round(cop.pos.y))| > 0
    ensures NearCentre(cop.pos) ==> Decide(maze, cop, p, scared).nextDir != None
  {
    var rx, ry := Round(cop.pos.x), Round(cop.pos.y);
    if !InGrid(maze, rx, ry) {
      if ry < 0 {
        RoundOfTile((ry - 1) as real, ry - 1);
        assert Up in Options(maze, rx, ry);
      } else if ry >= |maze| {
        RoundOfTile((ry + 1) as real, ry + 1);
        assert Down in Options(maze, rx, ry);
      } else if rx < 0 {
        RoundOfTile((rx - 1) as real, rx - 1);
        assert Left in Options(maze, rx, ry);
      } else {
        RoundOfTile((rx + 1) as real, rx + 1);
        assert Right in Options(maze, rx, ry);
      }
    }
    DecideFacts(maze, cop, p, scared);
  }

  lemma SetTileRectangular(maze: seq<seq<Tile>>, col: int, row: int, t: Tile)
    requires Rectangular(maze) && InGrid(maze, col, row)
    ensures Rectangular(SetTile(maze, col, row, t))
  {
  }

  /** After emptying a tile every open neighbour is still open. */
  lemma EmptyingKeepsOptions(maze: seq<seq<Tile>>, col: int, row: int, c: int, r: int, d: Direction)
    requires Rectangular(maze) && InGrid(maze, col, row)
    requires d in Options(maze, c, r)
    ensures Rectangular(SetTile(maze, col, row, Empty))
    ensures d in Options(SetTile(maze, col, row, Empty), c, r)
  {
    var m := SetTile(maze, col, row, Empty);
    SetTileRectangular(maze, col, row, Empty);
    var x, y := c + DeltaX(d), r + DeltaY(d);
    RoundOfTile(x as real, x);
    RoundOfTile(y as real, y);
    assert !IsWall(maze, x as real, y as real);
    assert !IsWall(m, x as real, y as real);
  }

  /** Emptying an open tile (as a pickup does) keeps every open tile with an open neighbour. */
  lemma EmptyingKeepsShape(maze: seq<seq<Tile>>, col: int, row: int)
    requires Rectangular(maze) && NoEnclosedTile(maze) && InGrid(maze, col, row) && maze[row][col] != Wall
    ensures Rectangular(SetTile(maze, col, row, Empty))
    ensures NoEnclosedTile(SetTile(maze, col, row, Empty))
  {
    var m := SetTile(maze, col, row, Empty);
    SetTileRectangular(maze, col, row, Empty);
    forall c, r | InGrid(m, c, r) && m[r][c] != Wall ensures |Options(m, c, r)| > 0 {
      assert InGrid(maze, c, r) && maze[r][c] != Wall;
      var d :| d in Options(maze, c, r);
      EmptyingKeepsOptions(maze, col, row, c, r, d);
    }
  }

  /**
   * The invariant of the world between frames: a rectangular maze, three police
   * cars and one player, a consistent state, cash left counted exactly
   * while playing, lives left while playing, full lives before starting,
   * and at most three radio lines.
   */
  ghost predicate Inv(w: World) {
    && Rectangular(w.maze)
    && |w.police| == PoliceCount
    && w.player.kind == Player
    && (forall i :: 0 <= i < PoliceCount ==> w.police[i].kind == Police)
    && Consistent(w.state)
    && (w.state.status == Playing ==> w.state.cashRemaining == CountCash(w.maze) && w.state.lives >= 1)
    && (w.state.status == Start ==> w.state.lives == MaxLives)
    && |w.messages| <= Capacity
  }

  /**
   * The movement half of a frame: the player moves, then every car
   * decides and moves with the player's new position in view.
   */
  function MoveAll(cfg: Config, w: World, dt: real): (r: World)
    requires Rectangular(w.maze) && |w.police| == PoliceCount
    ensures r.maze == w.maze && r.state == w.state && r.messages == w.messages
    ensures |r.police| == PoliceCount
  {
    var player := Move(w.maze, w.player, Travel(w.player.speed, dt));
    var cops := seq(PoliceCount, i requires 0 <= i < PoliceCount =>
      PoliceStep(cfg, w.maze, w.police[i], player.pos, w.state.isVulnerable, dt));
    w.(player := player, police := cops)
  }

  /** The rest of a frame: collisions with `read` as the state read, then the turbo countdown. */
  function Resolve(cfg: Config, read: GameState, w: World, now: int): World
    requires |w.police| == PoliceCount
  {
    var hit := CheckCollisions(cfg, read, w, now);
    if read.isVulnerable then hit.(state := Countdown(hit.state)) else hit
  }

  /**
   * One animation frame of dt seconds at clock reading `now`. The state is
   * read once, at the start of the frame. Only while playing: the player
   * moves, every car decides and moves towards (or away from) the player's
   * new position, collisions are resolved, and a running turbo ticks down.
   */
  function Step(cfg: Config, w: World, dt: real, now: int): World
    requires Rectangular(w.maze) && |w.police| == PoliceCount
  {
    if w.state.status != Playing then w
    else Resolve(cfg, w.state, MoveAll(cfg, w, dt), now)
  }

  /** The movement half entity by entity: the player's own move, then each car's update. */
  lemma MoveAllParts(cfg: Config, w: World, dt: real)
    requires Rectangular(w.maze) && |w.police| == PoliceCount
    ensures var r := MoveAll(cfg, w, dt);
      && r.player == Move(w.maze, w.player, Travel(w.player.speed, dt))
      && forall i :: 0 <= i < PoliceCount ==>
           r.police[i] == PoliceStep(cfg, w.maze, w.police[i], r.player.pos, w.state.isVulnerable, dt)
  {
  }

  /** Movement keeps every entity's kind, hence the invariant. */
  lemma MoveAllKeepsInv(cfg: Config, w: World, dt: real)
    requires Inv(w)
    ensures Inv(MoveAll(cfg, w, dt))
  {
    var r := MoveAll(cfg, w, dt);
    var player := Move(w.maze, w.player, Travel(w.player.speed, dt));
    forall i | 0 <= i < PoliceCount ensures r.police[i].kind == Police {
      DecideFacts(w.maze, w.police[i], player.pos, w.state.isVulnerable);
    }
  }

  /** The pickup keeps the invariant of a world in play, and play goes on with the same lives. */
  lemma PickupKeepsInv(cfg: Config, w: World)
    requires ValidConfig(cfg) && Inv(w) && w.state.status == Playing
    ensures var r := Pickup(cfg, w);
      && Inv(r) && r.state.status == Playing
      && r.state.lives == w.state.lives && r.state.score >= w.state.score
  {
    PickupKeepsCount(cfg, w);
    var px, py := Round(w.player.pos.x), Round(w.player.pos.y);
    if InGrid(w.maze, px, py) && w.maze[py][px] in {Cash, Turbo} {
      SetTileRectangular(w.maze, px, py, Empty);
    }
  }

  /**
   * The collision phase, reading the state the world holds, keeps the
   * invariant; the game ends only from the last life.
   */
  lemma CollisionsKeepInv(cfg: Config, w: World, now: int)
    requires ValidConfig(cfg) && Inv(w) && w.state.status == Playing
    ensures var r := CheckCollisions(cfg, w.state, w, now);
      && Inv(r)
      && (r.state.status == Playing || (r.state.status == GameOver && w.state.lives == 1 && r.state.lives == 0))
      && (r.state.lives == w.state.lives || r.state.lives == w.state.lives - 1)
      && (w.state.isVulnerable ==> r.state.lives == w.state.lives && r.state.status == Playing)
      && r.state.score >= w.state.score
  {
    var w1 := Pickup(cfg, w);
    PickupKeepsInv(cfg, w);
    HitsFromFacts(w.state, w1, 0, now);
  }

  /** The facts of StepFacts for the collision half, reading the state the world holds. */
  lemma ResolveFacts(cfg: Config, w: World, now: int)
    requires ValidConfig(cfg) && Inv(w) && w.state.status == Playing
    ensures var r := Resolve(cfg, w.state, w, now);
      && Inv(r)
      && (r.state.status == w.state.status || r.state.status == GameOver)
      && (r.state.status == GameOver ==> w.state.lives == 1 && r.state.lives == 0)
      && (r.state.lives == w.state.lives || r.state.lives == w.state.lives - 1)
      && (w.state.isVulnerable ==> r.state.lives == w.state.lives && r.state.status == w.state.status)
      && r.state.score >= w.state.score
  {
    CollisionsKeepInv(cfg, w, now);
  }

  /**
   * A frame keeps the invariant. Besides: nothing happens unless playing;
   * the status stays or becomes GameOver, and GameOver comes only from the
   * last life; at most one life is lost; none while the turbo runs; the
   * score never falls.
   */
  lemma StepFacts(cfg: Config, w: World, dt: real, now: int)
    requires ValidConfig(cfg) && Inv(w)
    ensures var r := Step(cfg, w, dt, now);
      && Inv(r)
      && (w.state.status != Playing ==> r == w)
      && (r.state.status == w.state.status || r.state.status == GameOver)
      && (r.state.status == GameOver && w.state.status == Playing ==> w.state.lives == 1 && r.state.lives == 0)
      && (r.state.lives == w.state.lives || r.state.lives == w.state.lives - 1)
      && (w.state.isVulnerable ==> r.state.lives == w.state.lives && r.state.status == w.state.status)
      && r.state.score >= w.state.score
  {
    if w.state.status == Playing {
      MoveAllKeepsInv(cfg, w, dt);
      ResolveFacts(cfg, MoveAll(cfg, w, dt), now);
    }
  }

  /** The keys that steer: w, a, s and d in either case. */
  function KeyDirection(key: string): (d: Direction)
    ensures d == Up <==> key == "w" || key == "W"
    ensures d == Down <==> key == "s" || key == "S"
    ensures d == Left <==> key == "a" || key == "A"
    ensures d == Right <==> key == "d" || key == "D"
  {
    if key == "w" || key == "W" then Up
    else if key == "s" || key == "S" then Down
    else if key == "a" || key == "A" then Left
    else if key == "d" || key == "D" then Right
    else None
  }

  /**
   * A key press: a steering key is queued, except that the direction
   * straight back is taken at once (and the queue cleared). Other keys do
   * nothing. The position is never touched.
   */
  function PressKey(p: EntityState, key: string): (r: EntityState)
    ensures r.pos == p.pos && r.speed == p.speed && r.kind == p.kind
    ensures KeyDirection(key) == None ==> r == p
    ensures KeyDirection(key) != None && p.dir != None && KeyDirection(key) == Opposite(p.dir) ==>
      r.dir == KeyDirection(key) && r.nextDir == None
    ensures KeyDirection(key) != None && (p.dir == None || KeyDirection(key) != Opposite(p.dir)) ==>
      r.dir == p.dir && r.nextDir == KeyDirection(key)
  {
    var next := KeyDirection(key);
    if next == None then p
    else if p.dir != None && Opposite(p.dir) == next then p.(dir := next, nextDir := None)
    else p.(nextDir := next)
  }

  /** A reversal turns the player round; pressing the same key again is queued, not reversed. */
  lemma ReverseThenSame(p: EntityState, key: string)
    requires p.dir != None && KeyDirection(key) == Opposite(p.dir)
    ensures PressKey(PressKey(p, key), key) == PressKey(p, key).(nextDir := KeyDirection(key))
  {
  }

  /** The start button (shown only before the first frame of a game). */
  function StartGame(w: World): (r: World)
    requires w.state.status == Start
    ensures r.state.status == Playing && r.state.cashRemaining == CountCash(w.maze)
    ensures r.maze == w.maze && r.player == w.player && r.police == w.police && r.messages == w.messages
    ensures r.state.(status := Start, cashRemaining := w.state.cashRemaining) == w.state
  {
    w.(state := StartPlaying(w.state, CountCash(w.maze)))
  }

  /**
   * The reset button (shown only after a game over): the initial state,
   * whose change of status then restores the layout and the start positions.
   */
  function ResetGame(cfg: Config, w: World): (r: World)
    requires w.state.status == GameOver && |w.police| == PoliceCount
    ensures r.state == Initial() && r.maze == cfg.layout && r.messages == w.messages
    ensures |r.police| == PoliceCount
    ensures r.player == w.player.(pos := PlayerSpawn, dir := None, nextDir := None)
    ensures forall i :: 0 <= i < PoliceCount ==>
      r.police[i] == w.police[i].(pos := CopSpawn(i), dir := Left, nextDir := Left)
  {
    ResetEntities(w.(state := Initial(), maze := cfg.layout))
  }

  /** The player as first created. */
  function PlayerAtStart(cfg: Config): EntityState {
    EntityState(PlayerSpawn, None, None, cfg.baseSpeed, Player)
  }

  /** The cars as first created, heading Left, Right and Up. */
  function PoliceAtStart(cfg: Config): seq<EntityState> {
    [ EntityState(CopSpawn(0), Left, Left, cfg.policeSpeedNormal, Police),
      EntityState(CopSpawn(1), Right, Right, cfg.policeSpeedNormal, Police),
      EntityState(CopSpawn(2), Up, Up, cfg.policeSpeedNormal, Police) ]
  }

  /**
   * The world when the canvas is mounted: a fresh copy of the layout, the
   * initial state, and the entities put back by the status effect's reset,
   * so every car heads Left.
   */
  function Init(cfg: Config): (w: World)
    ensures w.state == Initial() && w.maze == cfg.layout && w.messages == []
    ensures w.player == PlayerAtStart(cfg) && |w.police| == PoliceCount
    ensures forall i :: 0 <= i < PoliceCount ==>
      w.police[i] == EntityState(CopSpawn(i), Left, Left, cfg.policeSpeedNormal, Police)
  {
    ResetEntities(World(cfg.layout, PlayerAtStart(cfg), PoliceAtStart(cfg), Initial(), []))
  }

  /** The invariant holds at mount and after each button and key press. */
  lemma InvInitAndEvents(cfg: Config, w: World, key: string)
    requires ValidConfig(cfg)
    ensures Inv(Init(cfg))
    ensures Inv(w) ==> Inv(w.(player := PressKey(w.player, key)))
    ensures Inv(w) && w.state.status == Start ==> Inv(StartGame(w))
    ensures Inv(w) && w.state.status == GameOver ==> Inv(ResetGame(cfg, w))
  {
  }
}

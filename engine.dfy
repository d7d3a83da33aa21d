// The game canvas as the stateful object it is: the entities are mutable
// records updated in place, the maze is reassigned tile by tile, and each
// operation is proved to do to the world what its pure counterpart in
// Simulation, Collisions, Movement and PoliceAI describes.

module Engine {
  import opened Types
  import opened Grid
  import opened Movement
  import opened PoliceAI
  import opened Lifecycle
  import opened Radio
  import opened Collisions
  import opened Simulation

  /** A car on the board: the player or a police car. */
  class Entity {
    var pos: Position
    var dir: Direction
    var nextDir: Direction
    var speed: real
    const kind: Kind
    const id: string

    /** The value of this entity now. */
    function State(): EntityState
      reads this
    {
      EntityState(pos, dir, nextDir, speed, kind)
    }

    constructor (s: EntityState, id: string)
      ensures State() == s && this.id == id
    {
      pos := s.pos;
      dir := s.dir;
      nextDir := s.nextDir;
      speed := s.speed;
      kind := s.kind;
      this.id := id;
    }
  }

  /** The smaller of two reals. */
  function MinReal(a: real, b: real): (r: real)
    ensures r <= a && r <= b && (r == a || r == b)
  {
    if a <= b then a else b
  }

  /**
   * The frame length in seconds for a frame at `time` milliseconds after
   * one at `last` (0 meaning no frame yet, which makes the first frame
   * empty), capped at a tenth of a second.
   */
  function FrameDelta(last: real, time: real): (dt: real)
    ensures dt <= 0.1
    ensures last == 0.0 ==> dt == 0.0
    ensures last != 0.0 && time - last <= 100.0 ==> dt == (time - last) / 1000.0
    ensures last != 0.0 && time - last > 100.0 ==> dt == 0.1
  {
    var start := if last == 0.0 then time else last;
    MinReal((time - start) / 1000.0, 0.1)
  }

  class Game {
    const cfg: Config
    var maze: seq<seq<Tile>>
    const player: Entity
    const police: seq<Entity>
    var state: GameState
    var messages: seq<RadioMessage>
    /** Timestamp of the previous frame in milliseconds; 0 before the first. */
    var lastTime: real

    /** Three distinct police cars and a player among them, each of its kind. */
    ghost predicate Sound()
    {
      && |police| == PoliceCount
      && player !in police
      && police[0] != police[1] && police[0] != police[2] && police[1] != police[2]
      && player.kind == Player
      && (forall i :: 0 <= i < PoliceCount ==> police[i].kind == Police)
    }

    /** The value of the police cars now. */
    function PoliceStates(): (r: seq<EntityState>)
      requires |police| == PoliceCount
      reads police
      ensures |r| == PoliceCount && forall i :: 0 <= i < PoliceCount ==> r[i] == police[i].State()
    {
      [police[0].State(), police[1].State(), police[2].State()]
    }

    /** The value of the whole world now. */
    function View(): World
      requires |police| == PoliceCount
      reads this, player, police
    {
      World(maze, player.State(), PoliceStates(), state, messages)
    }

    ghost predicate Valid()
      reads this, player, police
    {
      Sound() && ValidConfig(cfg) && Inv(View())
    }

    /**
     * Mounting the canvas: the entities as first created, a copy of the
     * layout, the initial state, then the effect of the initial status,
     * which puts every entity back on its start (all cars heading Left).
     */
    constructor (cfg: Config)
      requires ValidConfig(cfg)
      ensures Valid() && this.cfg == cfg
      ensures View() == Init(cfg) && lastTime == 0.0
      ensures fresh(player) && forall i :: 0 <= i < PoliceCount ==> fresh(police[i])
    {
      this.cfg := cfg;
      maze := cfg.layout;
      var cops := PoliceAtStart(cfg);
      player := new Entity(PlayerAtStart(cfg), "player");
      var c1 := new Entity(cops[0], "cop_1");
      var c2 := new Entity(cops[1], "cop_2");
      var c3 := new Entity(cops[2], "cop_3");
      police := [c1, c2, c3];
      state := Initial();
      messages := [];
      lastTime := 0.0;
      new;
      StatusEffect();
    }

    /** What a change of status triggers: on Start, a fresh layout and the start positions. */
    method StatusEffect()
      requires Sound()
      modifies this, player, police
      ensures state == old(state) && messages == old(messages) && lastTime == old(lastTime)
      ensures state.status == Start ==> View() == Collisions.ResetEntities(old(View()).(maze := cfg.layout))
      ensures state.status != Start ==> View() == old(View())
    {
      if state.status == Start {
        maze := cfg.layout;
        ResetEntities();
      }
    }

    /** The player and the cars back at their start positions. */
    method ResetEntities()
      requires Sound()
      modifies player, police
      ensures View() == Collisions.ResetEntities(old(View()))
    {
      player.pos := PlayerSpawn;
      player.dir := None;
      player.nextDir := None;
      police[0].pos := CopSpawn(0);
      police[1].pos := CopSpawn(1);
      police[2].pos := CopSpawn(2);
      for i := 0 to PoliceCount
        invariant player.State() == old(player.State()).(pos := PlayerSpawn, dir := None, nextDir := None)
        invariant forall j :: 0 <= j < i ==>
          police[j].State() == old(police[j].State()).(pos := CopSpawn(j), dir := Left, nextDir := Left)
        invariant forall j :: i <= j < PoliceCount ==>
          police[j].State() == old(police[j].State()).(pos := CopSpawn(j))
      {
        police[i].dir := Left;
        police[i].nextDir := Left;
      }
    }

    /**
     * The intersection rule for `e` at centre (cx, cy) with tentative
     * position (nextX, nextY), as the pure Intersect describes it.
     */
    method HandleIntersection(e: Entity, cx: int, cy: int, nextX: real, nextY: real)
      requires Rectangular(maze)
      modifies e
      ensures e.State() == Intersect(maze, old(e.State()), cx, cy, Position(nextX, nextY))
    {
      if e.nextDir != None && e.nextDir != e.dir {
        var canTurn := false;
        if e.nextDir == Up && !IsWall(maze, cx as real, (cy - 1) as real) { canTurn := true; }
        if e.nextDir == Down && !IsWall(maze, cx as real, (cy + 1) as real) { canTurn := true; }
        if e.nextDir == Left && !IsWall(maze, (cx - 1) as real, cy as real) { canTurn := true; }
        if e.nextDir == Right && !IsWall(maze, (cx + 1) as real, cy as real) { canTurn := true; }
        assert canTurn == !WallAhead(maze, cx, cy, e.nextDir);
        if canTurn {
          e.pos := Position(cx as real, cy as real);
          e.dir := e.nextDir;
          if e.kind == Player { e.nextDir := None; }
          return;
        }
      }
      var blocked := false;
      if e.dir == Up && IsWall(maze, cx as real, (cy - 1) as real) { blocked := true; }
      if e.dir == Down && IsWall(maze, cx as real, (cy + 1) as real) { blocked := true; }
      if e.dir == Left && IsWall(maze, (cx - 1) as real, cy as real) { blocked := true; }
      if e.dir == Right && IsWall(maze, (cx + 1) as real, cy as real) { blocked := true; }
      assert blocked == WallAhead(maze, cx, cy, e.dir);
      if blocked {
        e.pos := Position(cx as real, cy as real);
        e.dir := None;
      } else {
        e.pos := Position(nextX, nextY);
      }
    }

    /** One tick of movement for `e` over distance `step`, as the pure Move describes it. */
    method MoveEntity(e: Entity, step: real)
      requires Rectangular(maze)
      modifies e
      ensures e.State() == Move(maze, old(e.State()), step)
    {
      ghost var s0 := e.State();
      var oldPos := e.pos;
      var next := Advance(oldPos, e.dir, step);
      var cx, cy := Round(oldPos.x), Round(oldPos.y);
      var crossedX := (oldPos.x <= cx as real && next.x >= cx as real) || (oldPos.x >= cx as real && next.x <= cx as real);
      var crossedY := (oldPos.y <= cy as real && next.y >= cy as real) || (oldPos.y >= cy as real && next.y <= cy as real);
      if (e.dir == Left || e.dir == Right || e.dir == None) && crossedX {
        HandleIntersection(e, cx, cy, next.x, next.y);
      } else if (e.dir == Up || e.dir == Down || e.dir == None) && crossedY {
        HandleIntersection(e, cx, cy, next.x, next.y);
      } else {
        e.pos := next;
      }
      assert e.State() == Stepped(maze, s0, next);
      var width := |maze[0]| as real;
      var p := e.pos;
      if p.x < -0.5 { p := p.(x := width - 0.5); }
      if p.x > width - 0.5 { p := p.(x := -0.5); }
      e.pos := p;
    }

    /** The open neighbours of tile (rx, ry) in the order Up, Down, Left, Right. */
    method OpenNeighbours(rx: int, ry: int) returns (options: seq<Direction>)
      requires Rectangular(maze)
      ensures options == Options(maze, rx, ry)
    {
      ghost var up := if !IsWall(maze, rx as real, (ry - 1) as real) then [Up] else [];
      ghost var down := if !IsWall(maze, rx as real, (ry + 1) as real) then [Down] else [];
      ghost var left := if !IsWall(maze, (rx - 1) as real, ry as real) then [Left] else [];
      options := [];
      if !IsWall(maze, rx as real, (ry - 1) as real) { options := options + [Up]; }
      assert options == up;
      if !IsWall(maze, rx as real, (ry + 1) as real) { options := options + [Down]; }
      assert options == up + down;
      if !IsWall(maze, (rx - 1) as real, ry as real) { options := options + [Left]; }
      assert options == up + down + left;
      if !IsWall(maze, (rx + 1) as real, ry as real) { options := options + [Right]; }
    }

    /**
     * The decision part of one police update, as the pure Decide describes
     * it: near a tile centre list the open neighbours, drop the way back
     * unless it is the only one, and queue the best by the scan (setting
     * off in it when stopped).
     */
    method DecideDirection(cop: Entity, playerPos: Position, scared: bool)
      requires Rectangular(maze)
      modifies cop
      ensures cop.State() == Decide(maze, old(cop.State()), playerPos, scared)
    {
      ghost var s0 := cop.State();
      var rx, ry := Round(cop.pos.x), Round(cop.pos.y);
      if Abs(cop.pos.x - rx as real) < 0.1 && Abs(cop.pos.y - ry as real) < 0.1 {
        assert NearCentre(s0.pos);
        var options := OpenNeighbours(rx, ry);
        var filtered := Without(options, Opposite(cop.dir));
        var finalOptions := if |filtered| > 0 then filtered else options;
        assert finalOptions == FinalOptions(options, cop.dir);
        if |finalOptions| == 0 {
          // finalOptions[0] is undefined here; None stands for it
          cop.nextDir := None;
        } else {
          var best := ChooseDirection(finalOptions, rx, ry, playerPos, scared);
          cop.nextDir := best;
          if cop.dir == None { cop.dir := best; }
        }
      } else {
        assert !NearCentre(s0.pos);
      }
    }

    /** One police update, as the pure PoliceStep describes it: decide, set the mode's speed, move. */
    method UpdatePoliceAI(cop: Entity, playerPos: Position, scared: bool, dt: real)
      requires Rectangular(maze)
      modifies cop
      ensures cop.State() == PoliceStep(cfg, maze, old(cop.State()), playerPos, scared, dt)
    {
      DecideDirection(cop, playerPos, scared);
      cop.speed := if scared then cfg.policeSpeedScared else cfg.policeSpeedNormal;
      MoveEntity(cop, Travel(cop.speed, dt));
    }

    /** The pickup under the player, as the pure Pickup describes it. */
    method Pickup()
      requires Sound()
      modifies this
      ensures lastTime == old(lastTime)
      ensures View() == Collisions.Pickup(cfg, old(View()))
    {
      var px, py := Round(player.pos.x), Round(player.pos.y);
      if InGrid(maze, px, py) && maze[py][px] == Cash {
        maze := SetTile(maze, px, py, Empty);
        state := CollectCash(state);
      } else if InGrid(maze, px, py) && maze[py][px] == Turbo {
        maze := SetTile(maze, px, py, Empty);
        state := CollectTurbo(state, cfg.turboDuration);
      }
    }

    /**
     * The test of the i-th car against the player with `read` as the state
     * the engine reads, as the pure HitCop describes it.
     */
    method HitCop(read: GameState, i: nat, now: int)
      requires Sound() && i < PoliceCount
      modifies this, player, police
      ensures lastTime == old(lastTime)
      ensures View() == Collisions.HitCop(read, old(View()), i, now)
    {
      ghost var w := View();
      var cop := police[i];
      var dx := cop.pos.x - player.pos.x;
      var dy := cop.pos.y - player.pos.y;
      if dx * dx + dy * dy < 0.36 {
        assert Touching(w.police[i].pos, w.player.pos);
        if read.isVulnerable {
          cop.pos := CaptureSpot;
          state := AwardCapture(state);
          messages := AddMessage(messages, ArrestText, DjGemini, now);
          assert PoliceStates() == w.police[i := w.police[i].(pos := CaptureSpot)];
        } else {
          var nextLives := read.lives - 1;
          if nextLives <= 0 {
            state := state.(status := GameOver, lives := 0);
          } else {
            state := state.(lives := nextLives);
            ResetEntities();
          }
        }
      } else {
        assert !Touching(w.police[i].pos, w.player.pos);
      }
    }

    /**
     * The collision phase with `read` as the state the engine reads, as
     * the pure CheckCollisions describes it: the pickup, then each car in turn.
     */
    method CheckCollisions(read: GameState, now: int)
      requires Sound()
      modifies this, player, police
      ensures lastTime == old(lastTime)
      ensures View() == Collisions.CheckCollisions(cfg, read, old(View()), now)
    {
      Pickup();
      ghost var picked := View();
      var i := 0;
      while i < PoliceCount
        invariant 0 <= i <= PoliceCount
        invariant lastTime == old(lastTime)
        invariant HitsFrom(read, View(), i, now) == HitsFrom(read, picked, 0, now)
      {
        HitCop(read, i, now);
        i := i + 1;
      }
    }

    /** Each car in turn decides and moves, with the player at `p`. */
    method MovePolice(p: Position, scared: bool, dt: real)
      requires Sound() && Rectangular(maze)
      modifies police
      ensures forall j :: 0 <= j < PoliceCount ==>
        police[j].State() == PoliceStep(cfg, maze, old(police[j].State()), p, scared, dt)
    {
      ghost var goal := [PoliceStep(cfg, maze, police[0].State(), p, scared, dt),
        PoliceStep(cfg, maze, police[1].State(), p, scared, dt),
        PoliceStep(cfg, maze, police[2].State(), p, scared, dt)];
      for i := 0 to PoliceCount
        invariant forall j :: 0 <= j < i ==> police[j].State() == goal[j]
        invariant forall j :: i <= j < PoliceCount ==> police[j].State() == old(police[j].State())
      {
        UpdatePoliceAI(police[i], p, scared, dt);
      }
    }

    /**
     * The movement half of a frame, as the pure MoveAll describes it: the
     * player moves, then each car decides and moves with the player's new
     * position in view.
     */
    method MoveEntities(dt: real)
      requires Sound() && Rectangular(maze)
      modifies player, police
      ensures View() == MoveAll(cfg, old(View()), dt)
    {
      MoveAllParts(cfg, View(), dt);
      MoveEntity(player, Travel(player.speed, dt));
      MovePolice(player.pos, state.isVulnerable, dt);
    }

    /**
     * The work of a frame in play, reading `read` (the state at the start of
     * the frame), as the pure Resolve after MoveAll describes it.
     */
    method PlayFrame(read: GameState, dt: real, now: int)
      requires Sound() && Rectangular(maze) && read == state
      modifies this, player, police
      ensures lastTime == old(lastTime)
      ensures View() == Resolve(cfg, read, MoveAll(cfg, old(View()), dt), now)
    {
      MoveEntities(dt);
      CheckCollisions(read, now);
      if read.isVulnerable {
        state := Countdown(state);
      }
    }

    /**
     * One animation frame of dt seconds at clock reading `now`, as the
     * pure Step describes it; the invariant is kept.
     */
    method Tick(dt: real, now: int)
      requires Valid()
      modifies this, player, police
      ensures Valid() && lastTime == old(lastTime)
      ensures View() == Step(cfg, old(View()), dt, now)
    {
      ghost var w := View();
      var read := state;
      if read.status == Playing {
        PlayFrame(read, dt, now);
      }
      StepFacts(cfg, w, dt, now);
      assert View() == Step(cfg, w, dt, now);
    }

    /**
     * A frame callback at `time` milliseconds: the first frame only records
     * the time; each frame runs Tick with the elapsed seconds, capped at 0.1.
     */
    method Frame(time: real, now: int)
      requires Valid()
      modifies this, player, police
      ensures Valid() && lastTime == time
      ensures View() == Step(cfg, old(View()), FrameDelta(old(lastTime), time), now)
    {
      ghost var w := View();
      if lastTime == 0.0 {
        lastTime := time;
      }
      var dt := MinReal((time - lastTime) / 1000.0, 0.1);
      lastTime := time;
      assert dt == FrameDelta(old(lastTime), time);
      assert View() == w;
      Tick(dt, now);
    }

    /** A key press, as the pure PressKey describes it; only the player changes. */
    method HandleKey(key: string)
      requires Valid()
      modifies player
      ensures Valid()
      ensures player.State() == PressKey(old(player.State()), key)
    {
      var next := None;
      if key == "w" || key == "W" { next := Up; }
      else if key == "s" || key == "S" { next := Down; }
      else if key == "a" || key == "A" { next := Left; }
      else if key == "d" || key == "D" { next := Right; }
      if next != None {
        player.nextDir := next;
        if player.dir != None && Opposite(player.dir) == next {
          player.dir := next;
          player.nextDir := None;
        }
      }
      InvInitAndEvents(cfg, old(View()), key);
    }

    /** The start button: playing, counting the cash on the maze. */
    method StartGame()
      requires Valid() && state.status == Start
      modifies this
      ensures Valid() && lastTime == old(lastTime)
      ensures View() == Simulation.StartGame(old(View()))
    {
      state := state.(status := Playing, cashRemaining := CountCash(maze));
      InvInitAndEvents(cfg, old(View()), "");
    }

    /** The reset button: the initial state, then its status effect. */
    method ResetGame()
      requires Valid() && state.status == GameOver
      modifies this, player, police
      ensures Valid() && lastTime == old(lastTime)
      ensures View() == Simulation.ResetGame(cfg, old(View()))
    {
      state := Initial();
      StatusEffect();
      InvInitAndEvents(cfg, old(View()), "");
    }
  }
}

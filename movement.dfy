// Movement of one entity over one tick: a tentative step along the current
// heading, the intersection rule when the step reaches the centre of the
// tile the entity is on, and the horizontal tunnel wrap applied last.

module Movement {
  import opened Types
  import opened Grid

  /** The tentative position after a step of length `step` along `d`. */
  function Advance(p: Position, d: Direction, step: real): Position {
    match d
    case Up => p.(y := p.y - step)
    case Down => p.(y := p.y + step)
    case Left => p.(x := p.x - step)
    case Right => p.(x := p.x + step)
    case None => p
  }

  /** The step from `before` to `after` reaches or passes the centre `c`. */
  predicate Crossed(before: real, after: real, c: int) {
    (before <= c as real && after >= c as real) || (before >= c as real && after <= c as real)
  }

  function Centre(cx: int, cy: int): Position {
    Position(cx as real, cy as real)
  }

  /**
   * The intersection rule at centre (cx, cy) with tentative position `next`:
   * turn into a different, open queued direction (snapping to the centre;
   * a player's queue is then cleared, a police car's kept); else stop at
   * the centre if the way ahead is a wall; else go on to `next`.
   * Headings change only at the centre, and never towards a wall.
   */
  function Intersect(maze: seq<seq<Tile>>, e: EntityState, cx: int, cy: int, next: Position): (r: EntityState)
    requires Rectangular(maze)
    ensures r.speed == e.speed && r.kind == e.kind
    ensures r.pos == next || r.pos == Centre(cx, cy)
    ensures r.dir != e.dir ==> r.pos == Centre(cx, cy) && (r.dir == None || !WallAhead(maze, cx, cy, r.dir))
    ensures r.dir == e.dir ==> r.pos == next && r.nextDir == e.nextDir && !WallAhead(maze, cx, cy, e.dir)
    ensures r.nextDir != e.nextDir ==> e.kind == Player && r.nextDir == None && r.dir == e.nextDir
  {
    if e.nextDir != None && e.nextDir != e.dir && !WallAhead(maze, cx, cy, e.nextDir) then
      e.(pos := Centre(cx, cy), dir := e.nextDir,
         nextDir := if e.kind == Player then None else e.nextDir)
    else if WallAhead(maze, cx, cy, e.dir) then
      e.(pos := Centre(cx, cy), dir := None)
    else
      e.(pos := next)
  }

  /** The three outcomes of the intersection rule, each with the condition that selects it. */
  lemma IntersectOutcomes(maze: seq<seq<Tile>>, e: EntityState, cx: int, cy: int, next: Position)
    requires Rectangular(maze)
    ensures var r := Intersect(maze, e, cx, cy, next);
      var turns := e.nextDir != None && e.nextDir != e.dir && !WallAhead(maze, cx, cy, e.nextDir);
      && (turns ==> r.pos == Centre(cx, cy) && r.dir == e.nextDir
                    && r.nextDir == (if e.kind == Player then None else e.nextDir))
      && (!turns && WallAhead(maze, cx, cy, e.dir) ==>
            r.pos == Centre(cx, cy) && r.dir == None && r.nextDir == e.nextDir)
      && (!turns && !WallAhead(maze, cx, cy, e.dir) ==> r == e.(pos := next))
  {
  }

  /**
   * The tunnel wrap: left of -0.5 reappears at the right edge, right of
   * width - 0.5 reappears at -0.5; y is never wrapped.
   */
  function Wrap(p: Position, width: nat): (r: Position)
    ensures -0.5 <= r.x <= width as real - 0.5 && r.y == p.y
    ensures p.x < -0.5 ==> r.x == width as real - 0.5
    ensures p.x > width as real - 0.5 ==> r.x == -0.5
    ensures -0.5 <= p.x <= width as real - 0.5 ==> r == p
  {
    var x1 := if p.x < -0.5 then width as real - 0.5 else p.x;
    var x2 := if x1 > width as real - 0.5 then -0.5 else x1;
    p.(x := x2)
  }

  /** Whether the tentative step reaches the centre on the axis the intersection rule watches. */
  predicate AtIntersection(e: EntityState, next: Position) {
    var horizontal := e.dir == Left || e.dir == Right || e.dir == None;
    var vertical := e.dir == Up || e.dir == Down || e.dir == None;
    (horizontal && Crossed(e.pos.x, next.x, Round(e.pos.x)))
    || (vertical && Crossed(e.pos.y, next.y, Round(e.pos.y)))
  }

  /**
   * The entity after the tentative step to `next`: through the intersection
   * rule at the centre of its tile when the step reaches that centre,
   * otherwise simply at `next`.
   */
  function Stepped(maze: seq<seq<Tile>>, e: EntityState, next: Position): EntityState
    requires Rectangular(maze)
  {
    if AtIntersection(e, next) then Intersect(maze, e, Round(e.pos.x), Round(e.pos.y), next)
    else e.(pos := next)
  }

  /** The distance covered in `dt` seconds at `speed` tiles per second. */
  function Travel(speed: real, dt: real): real {
    speed * dt
  }

  /**
   * One tick of movement for any entity covering distance `step` (its
   * speed times the tick length, see Travel).
   */
  function Move(maze: seq<seq<Tile>>, e: EntityState, step: real): (r: EntityState)
    requires Rectangular(maze)
    ensures -0.5 <= r.pos.x <= Width(maze) as real - 0.5
    ensures r.speed == e.speed && r.kind == e.kind
  {
    var moved := Stepped(maze, e, Advance(e.pos, e.dir, step));
    moved.(pos := Wrap(moved.pos, Width(maze)))
  }

  /** The tentative step moves by the heading's tile offsets, scaled by the step length. */
  lemma AdvanceByDelta(p: Position, d: Direction, step: real)
    ensures Advance(p, d, step) == Position(p.x + step * (DeltaX(d) as real), p.y + step * (DeltaY(d) as real))
  {
    match d
    case Up => assert step * (DeltaY(d) as real) == -step;
    case Down => assert step * (DeltaY(d) as real) == step;
    case Left => assert step * (DeltaX(d) as real) == -step;
    case Right => assert step * (DeltaX(d) as real) == step;
    case None =>
  }

  /**
   * At a tile centre inside the grid's width a step of length zero keeps
   * the position, and a second zero step changes nothing more.
   */
  lemma ZeroStepAtCentre(maze: seq<seq<Tile>>, e: EntityState, c: int, r: int)
    requires Rectangular(maze)
    requires e.pos == Position(c as real, r as real) && 0 <= c < Width(maze)
    ensures Move(maze, e, 0.0).pos == e.pos
    ensures Move(maze, Move(maze, e, 0.0), 0.0) == Move(maze, e, 0.0)
  {
    RoundOfTile(c as real, c);
    RoundOfTile(r as real, r);
  }

  /** An entity with no heading and nothing queued stays exactly where it is, whatever the step. */
  lemma MoveIdle(maze: seq<seq<Tile>>, e: EntityState, step: real)
    requires Rectangular(maze)
    requires e.dir == None && e.nextDir == None
    requires -0.5 <= e.pos.x <= Width(maze) as real - 0.5
    ensures Move(maze, e, step) == e
  {
    var next := Advance(e.pos, e.dir, step);
    assert next == e.pos;
    if AtIntersection(e, next) {
      assert Intersect(maze, e, Round(e.pos.x), Round(e.pos.y), next) == e;
    }
  }

  /**
   * A heading changes only at the centre of the tile the entity was on
   * (wrapped if that centre lies past the right edge), and a new heading
   * never points at a wall.
   */
  lemma MoveTurnsAtCentre(maze: seq<seq<Tile>>, e: EntityState, step: real)
    requires Rectangular(maze)
    ensures var r := Move(maze, e, step);
      var cx, cy := Round(e.pos.x), Round(e.pos.y);
      r.dir != e.dir ==>
        && r.pos == Wrap(Centre(cx, cy), Width(maze))
        && (r.dir == None || !WallAhead(maze, cx, cy, r.dir))
  {
  }

  /** Moving left from the first column's left half: no intersection, straight into the tunnel. */
  lemma TunnelLeft(maze: seq<seq<Tile>>, e: EntityState, step: real)
    requires Rectangular(maze)
    requires e.dir == Left && step >= 0.0
    requires -0.5 <= e.pos.x < 0.0
    ensures var x := e.pos.x - step;
      Move(maze, e, step) == e.(pos := e.pos.(x := if x < -0.5 then Width(maze) as real - 0.5 else x))
  {
    RoundOfTile(e.pos.x, 0);
    var next := Advance(e.pos, e.dir, step);
    assert next.x <= e.pos.x < 0.0;
    assert !AtIntersection(e, next);
  }

  /** Moving right from the last column's right half: straight on, out at -0.5 past the edge. */
  lemma TunnelRight(maze: seq<seq<Tile>>, e: EntityState, step: real)
    requires Rectangular(maze)
    requires e.dir == Right && step >= 0.0
    requires Width(maze) as real - 1.0 < e.pos.x < Width(maze) as real - 0.5
    ensures var x := e.pos.x + step;
      Move(maze, e, step) == e.(pos := e.pos.(x := if x > Width(maze) as real - 0.5 then -0.5 else x))
  {
    RoundOfTile(e.pos.x, Width(maze) - 1);
    var next := Advance(e.pos, e.dir, step);
    assert next.x >= e.pos.x > (Width(maze) - 1) as real;
    assert !AtIntersection(e, next);
  }
}

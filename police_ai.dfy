// The police decision rule: at (almost) a tile centre a police car lists
// the open neighbours in the order Up, Down, Left, Right, drops the way
// back unless nothing else is open, and queues the neighbour closest to
// the player (furthest when scared), the earliest one winning ties.

module PoliceAI {
  import opened Types
  import opened Grid
  import opened Movement

  /** The position of a direction in the enumeration order Up, Down, Left, Right. */
  function Rank(d: Direction): nat {
    match d
    case Up => 0
    case Down => 1
    case Left => 2
    case Right => 3
    case None => 4
  }

  /** Strictly increasing in enumeration order, hence also free of repeats. */
  ghost predicate Ordered(s: seq<Direction>) {
    forall i, j :: 0 <= i < j < |s| ==> Rank(s[i]) < Rank(s[j])
  }

  /** The open neighbours of tile (rx, ry), in enumeration order. */
  function Options(maze: seq<seq<Tile>>, rx: int, ry: int): (r: seq<Direction>)
    requires Rectangular(maze)
    ensures forall d :: d in r <==> d != None && !WallAhead(maze, rx, ry, d)
    ensures Ordered(r)
  {
    (if !IsWall(maze, rx as real, (ry - 1) as real) then [Up] else [])
    + (if !IsWall(maze, rx as real, (ry + 1) as real) then [Down] else [])
    + (if !IsWall(maze, (rx - 1) as real, ry as real) then [Left] else [])
    + (if !IsWall(maze, (rx + 1) as real, ry as real) then [Right] else [])
  }

  /** The options other than `d`, in their original order. */
  function Without(opts: seq<Direction>, d: Direction): (r: seq<Direction>)
    ensures forall x :: x in r <==> x in opts && x != d
    ensures Ordered(opts) ==> Ordered(r)
  {
    if opts == [] then []
    else
      var rest := Without(opts[1..], d);
      assert Ordered(opts) ==> forall x :: x in rest ==> Rank(opts[0]) < Rank(x) by {
        if Ordered(opts) {
          forall x | x in rest ensures Rank(opts[0]) < Rank(x) {
            var j :| 0 <= j < |opts[1..]| && opts[1..][j] == x;
            assert opts[j + 1] == x;
          }
        }
      }
      (if opts[0] == d then [] else [opts[0]]) + rest
  }

  /** The options without the way back, or all options when that leaves none. */
  function FinalOptions(opts: seq<Direction>, dir: Direction): seq<Direction> {
    var filtered := Without(opts, Opposite(dir));
    if |filtered| > 0 then filtered else opts
  }

  /** Squared distance from the tile one step from (rx, ry) along d to the player. */
  function SqDist(d: Direction, rx: int, ry: int, p: Position): (r: real)
    ensures r >= 0.0
  {
    var dx := (rx + DeltaX(d)) as real - p.x;
    var dy := (ry + DeltaY(d)) as real - p.y;
    assert dx * dx >= 0.0 && dy * dy >= 0.0 by { SquareNonNegative(dx); SquareNonNegative(dy); }
    dx * dx + dy * dy
  }

  lemma SquareNonNegative(a: real)
    ensures a * a >= 0.0
  {
    if a < 0.0 {
      assert a * a == (-a) * (-a);
    }
  }

  /** The strict preference: nearer when chasing, further when scared. */
  predicate Better(scared: bool, a: real, b: real) {
    if scared then a > b else a < b
  }

  /**
   * The chosen option: optimal, and strictly better than every option
   * before it (so ties go to the earliest).
   */
  ghost predicate IsPick(opts: seq<Direction>, k: int, rx: int, ry: int, p: Position, scared: bool) {
    && 0 <= k < |opts|
    && (forall j :: 0 <= j < |opts| ==> !Better(scared, SqDist(opts[j], rx, ry, p), SqDist(opts[k], rx, ry, p)))
    && (forall j :: 0 <= j < k ==> Better(scared, SqDist(opts[k], rx, ry, p), SqDist(opts[j], rx, ry, p)))
  }

  /** The index chosen by the first-strict-improvement scan, as a function. */
  function Pick(opts: seq<Direction>, rx: int, ry: int, p: Position, scared: bool): (k: nat)
    requires |opts| > 0
    ensures k < |opts|
    decreases |opts|
  {
    if |opts| == 1 then 0
    else
      var k := Pick(opts[..|opts| - 1], rx, ry, p, scared);
      if Better(scared, SqDist(opts[|opts| - 1], rx, ry, p), SqDist(opts[k], rx, ry, p)) then |opts| - 1
      else k
  }

  lemma {:induction false} PickIsPick(opts: seq<Direction>, rx: int, ry: int, p: Position, scared: bool)
    requires |opts| > 0
    ensures IsPick(opts, Pick(opts, rx, ry, p, scared), rx, ry, p, scared)
  {
    if |opts| > 1 {
      var pre := opts[..|opts| - 1];
      PickIsPick(pre, rx, ry, p, scared);
      var k := Pick(pre, rx, ry, p, scared);
      assert forall j :: 0 <= j < |pre| ==> pre[j] == opts[j];
    }
  }

  /** At most one option satisfies the choice rule. */
  lemma PickUnique(opts: seq<Direction>, k1: int, k2: int, rx: int, ry: int, p: Position, scared: bool)
    requires IsPick(opts, k1, rx, ry, p, scared) && IsPick(opts, k2, rx, ry, p, scared)
    ensures k1 == k2
  {
    assert !Better(scared, SqDist(opts[k2], rx, ry, p), SqDist(opts[k1], rx, ry, p));
    assert !Better(scared, SqDist(opts[k1], rx, ry, p), SqDist(opts[k2], rx, ry, p));
  }

  /** A best distance so far: JavaScript's Infinity or a number. */
  datatype Bound = Infinity | Finite(value: real)

  predicate Above(d: real, b: Bound) {
    b.Finite? && d > b.value
  }

  predicate Below(d: real, b: Bound) {
    b.Infinity? || d < b.value
  }

  /**
   * The scan over the final options: start from the first option with a
   * best distance of -1 (scared) or Infinity, and take every option that
   * strictly improves on the best so far.
   */
  method ChooseDirection(opts: seq<Direction>, rx: int, ry: int, p: Position, scared: bool)
    returns (best: Direction)
    requires |opts| > 0
    ensures best == opts[Pick(opts, rx, ry, p, scared)]
  {
    best := opts[0];
    var bestDist := if scared then Finite(-1.0) else Infinity;
    var i := 0;
    while i < |opts|
      invariant 0 <= i <= |opts|
      invariant i == 0 ==> best == opts[0] && bestDist == (if scared then Finite(-1.0) else Infinity)
      invariant i > 0 ==> best == opts[Pick(opts[..i], rx, ry, p, scared)]
      invariant i > 0 ==> bestDist == Finite(SqDist(best, rx, ry, p))
    {
      var d := opts[i];
      var dist := SqDist(d, rx, ry, p);
      if scared {
        if Above(dist, bestDist) {
          bestDist := Finite(dist);
          best := d;
        }
      } else {
        if Below(dist, bestDist) {
          bestDist := Finite(dist);
          best := d;
        }
      }
      assert opts[..i + 1][..i] == opts[..i];
      assert opts[..i + 1][i] == d;
      i := i + 1;
    }
    assert opts[..|opts|] == opts;
  }

  /** Within 0.1 of the nearest tile centre on both axes. */
  predicate NearCentre(pos: Position) {
    Abs(pos.x - Round(pos.x) as real) < 0.1 && Abs(pos.y - Round(pos.y) as real) < 0.1
  }

  /**
   * The decision part of one police update (direction only). With no open
   * neighbour the source queues `finalOptions[0]`, which is JavaScript's
   * undefined; None stands for it, and behaves the same in the movement
   * rule (neither starts a turn nor moves the car).
   */
  function Decide(maze: seq<seq<Tile>>, cop: EntityState, p: Position, scared: bool): EntityState
    requires Rectangular(maze)
  {
    if NearCentre(cop.pos) then
      var rx := Round(cop.pos.x);
      var ry := Round(cop.pos.y);
      var opts := FinalOptions(Options(maze, rx, ry), cop.dir);
      if |opts| == 0 then cop.(nextDir := None)
      else
        var best := opts[Pick(opts, rx, ry, p, scared)];
        cop.(nextDir := best, dir := if cop.dir == None then best else cop.dir)
    else cop
  }

  function PoliceSpeed(cfg: Config, scared: bool): real {
    if scared then cfg.policeSpeedScared else cfg.policeSpeedNormal
  }

  /** One police update: decide, set the speed for the mode, then move. */
  function PoliceStep(cfg: Config, maze: seq<seq<Tile>>, cop: EntityState, p: Position, scared: bool, dt: real): EntityState
    requires Rectangular(maze)
  {
    Move(maze, Decide(maze, cop, p, scared).(speed := PoliceSpeed(cfg, scared)), Travel(PoliceSpeed(cfg, scared), dt))
  }

  /**
   * The final options are the options other than the way back, in order;
   * the way back survives only as the sole option.
   */
  lemma FinalOptionsFacts(all: seq<Direction>, dir: Direction)
    requires Ordered(all)
    ensures var opts := FinalOptions(all, dir);
      && Ordered(opts)
      && (forall d :: d in opts ==> d in all)
      && (forall d :: d in all && d != Opposite(dir) ==> d in opts)
      && (dir != None && Opposite(dir) in opts ==> all == [Opposite(dir)])
      && (|all| > 0 ==> |opts| > 0)
  {
    var back := Opposite(dir);
    var filtered := Without(all, back);
    assert FinalOptions(all, dir) == if |filtered| > 0 then filtered else all;
    if dir != None && back in FinalOptions(all, dir) {
      assert |filtered| == 0;
      forall i | 0 <= i < |all| ensures all[i] == back {
        assert all[i] in all;
      }
      assert Rank(all[0]) == Rank(all[|all| - 1]);
    }
  }

  /**
   * What a police car decides: nothing unless near a tile centre; there it
   * queues an open neighbour, the way back only when it is the sole open
   * neighbour, and is set going in it when it was stopped. Boxed in on all
   * four sides it queues None and keeps its heading.
   */
  lemma DecideFacts(maze: seq<seq<Tile>>, cop: EntityState, p: Position, scared: bool)
    requires Rectangular(maze)
    ensures var r := Decide(maze, cop, p, scared);
      var rx, ry := Round(cop.pos.x), Round(cop.pos.y);
      && r.pos == cop.pos && r.speed == cop.speed && r.kind == cop.kind
      && (!NearCentre(cop.pos) ==> r == cop)
      && (NearCentre(cop.pos) && |Options(maze, rx, ry)| == 0 ==> r == cop.(nextDir := None))
      && (NearCentre(cop.pos) && |Options(maze, rx, ry)| > 0 ==>
            && r.nextDir != None && !WallAhead(maze, rx, ry, r.nextDir)
            && (cop.dir != None && r.nextDir == Opposite(cop.dir) ==> Options(maze, rx, ry) == [r.nextDir])
            && r.dir == (if cop.dir == None then r.nextDir else cop.dir))
  {
    if NearCentre(cop.pos) {
      var rx, ry := Round(cop.pos.x), Round(cop.pos.y);
      var all := Options(maze, rx, ry);
      var opts := FinalOptions(all, cop.dir);
      FinalOptionsFacts(all, cop.dir);
      if |all| > 0 {
        var best := opts[Pick(opts, rx, ry, p, scared)];
        assert best in opts;
        assert best in all;
      } else {
        assert |opts| == 0;
      }
    }
  }

  /**
   * The greedy choice: the queued direction is at minimal distance to the
   * player (maximal when scared) among all open neighbours except the way
   * back, and among the final options every option earlier in the order
   * Up, Down, Left, Right is strictly worse.
   */
  lemma DecideGreedy(maze: seq<seq<Tile>>, cop: EntityState, p: Position, scared: bool)
    requires Rectangular(maze) && NearCentre(cop.pos)
    requires |Options(maze, Round(cop.pos.x), Round(cop.pos.y))| > 0
    ensures var r := Decide(maze, cop, p, scared);
      var rx, ry := Round(cop.pos.x), Round(cop.pos.y);
      var opts := FinalOptions(Options(maze, rx, ry), cop.dir);
      && r.nextDir in opts
      && (forall d :: d in Options(maze, rx, ry) && d != Opposite(cop.dir) ==>
            !Better(scared, SqDist(d, rx, ry, p), SqDist(r.nextDir, rx, ry, p)))
      && (forall d :: d in opts ==> !Better(scared, SqDist(d, rx, ry, p), SqDist(r.nextDir, rx, ry, p)))
      && (forall d :: d in opts && Rank(d) < Rank(r.nextDir) ==>
            Better(scared, SqDist(r.nextDir, rx, ry, p), SqDist(d, rx, ry, p)))
  {
    var rx, ry := Round(cop.pos.x), Round(cop.pos.y);
    var opts := FinalOptions(Options(maze, rx, ry), cop.dir);
    FinalOptionsFacts(Options(maze, rx, ry), cop.dir);
    var k := Pick(opts, rx, ry, p, scared);
    PickIsPick(opts, rx, ry, p, scared);
    forall d | d in opts && Rank(d) < Rank(opts[k])
      ensures Better(scared, SqDist(opts[k], rx, ry, p), SqDist(d, rx, ry, p))
    {
      var j :| 0 <= j < |opts| && opts[j] == d;
      if j >= k {
        assert false;
      }
    }
  }

  /** The police speed follows the mode on every update, decision or not. */
  lemma PoliceStepSpeed(cfg: Config, maze: seq<seq<Tile>>, cop: EntityState, p: Position, scared: bool, dt: real)
    requires Rectangular(maze)
    ensures PoliceStep(cfg, maze, cop, p, scared, dt).speed
         == (if scared then cfg.policeSpeedScared else cfg.policeSpeedNormal)
  {
  }

  /** Scared, with Up three tiles from the player and Down one: Up is chosen. */
  lemma FleeExample()
    ensures Pick([Up, Down], 2, 2, Position(2.0, 4.0), true) == 0
  {
    assert [Up, Down][..1] == [Up];
  }

  /** Chasing, with Left and Right equally far: Left, the earlier, is chosen. */
  lemma TieExample()
    ensures Pick([Left, Right], 2, 2, Position(2.0, 5.0), false) == 0
  {
    assert [Left, Right][..1] == [Left];
  }
}

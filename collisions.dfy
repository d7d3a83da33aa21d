// The collision phase of a tick: the player picks up the Cash or Turbo
// tile it stands on, then each police car in turn is tested against the
// player and either arrested (turbo) or costs a life (no turbo).

module Collisions {
  import opened Types
  import opened Grid
  import opened Lifecycle
  import opened Radio

  /** Everything one tick reads and writes: the maze, the entities, the state and the radio log. */
  datatype World = World(
    maze: seq<seq<Tile>>,
    player: EntityState,
    police: seq<EntityState>,
    state: GameState,
    messages: seq<RadioMessage>)

  const PoliceCount := 3
  const PlayerSpawn := Position(12.0, 18.0)
  /** Where every arrested police car is put back. */
  const CaptureSpot := Position(12.0, 10.0)
  const ArrestText := "¡Patrulla arrestada!"

  /** The start position of the i-th police car. */
  function CopSpawn(i: int): Position {
    if i == 0 then Position(12.0, 7.0)
    else if i == 1 then Position(11.0, 10.0)
    else Position(13.0, 10.0)
  }

  /** Player and car closer than 0.6 tiles (compared squared). */
  predicate Touching(a: Position, b: Position) {
    (a.x - b.x) * (a.x - b.x) + (a.y - b.y) * (a.y - b.y) < 0.36
  }

  /**
   * The player and the cars back at their start positions: the player
   * stopped with nothing queued, every car heading and queuing Left.
   * Speeds, the maze, the state and the log are kept.
   */
  function ResetEntities(w: World): (r: World)
    requires |w.police| == PoliceCount
    ensures r.maze == w.maze && r.state == w.state && r.messages == w.messages
    ensures r.player == w.player.(pos := PlayerSpawn, dir := None, nextDir := None)
    ensures |r.police| == PoliceCount
    ensures forall i :: 0 <= i < PoliceCount ==>
      r.police[i] == w.police[i].(pos := CopSpawn(i), dir := Left, nextDir := Left)
  {
    var cops := seq(PoliceCount, i requires 0 <= i < PoliceCount =>
      w.police[i].(pos := CopSpawn(i), dir := Left, nextDir := Left));
    w.(player := w.player.(pos := PlayerSpawn, dir := None, nextDir := None), police := cops)
  }

  /** Resetting twice is resetting once. */
  lemma ResetIdempotent(w: World)
    requires |w.police| == PoliceCount
    ensures ResetEntities(ResetEntities(w)) == ResetEntities(w)
  {
    var r := ResetEntities(w);
    var rr := ResetEntities(r);
    assert rr.police == r.police;
  }

  /**
   * The pickup on the tile the player's position rounds to, when that tile
   * is on the grid: Cash is emptied for ten points and one fewer to
   * collect; Turbo is emptied and starts the turbo; anything else is left.
   */
  function Pickup(cfg: Config, w: World): (r: World)
    ensures r.player == w.player && r.police == w.police && r.messages == w.messages
    ensures |r.maze| == |w.maze| && forall i :: 0 <= i < |w.maze| ==> |r.maze[i]| == |w.maze[i]|
    ensures var px, py := Round(w.player.pos.x), Round(w.player.pos.y);
      if InGrid(w.maze, px, py) && w.maze[py][px] in {Cash, Turbo} then
        && r.maze == SetTile(w.maze, px, py, Empty)
        && r.state == (if w.maze[py][px] == Cash then CollectCash(w.state)
                       else CollectTurbo(w.state, cfg.turboDuration))
      else r == w
  {
    var px, py := Round(w.player.pos.x), Round(w.player.pos.y);
    if InGrid(w.maze, px, py) && w.maze[py][px] == Cash then
      w.(maze := SetTile(w.maze, px, py, Empty), state := CollectCash(w.state))
    else if InGrid(w.maze, px, py) && w.maze[py][px] == Turbo then
      w.(maze := SetTile(w.maze, px, py, Empty), state := CollectTurbo(w.state, cfg.turboDuration))
    else w
  }

  /** A second pickup on the same position finds nothing left. */
  lemma PickupIdempotent(cfg: Config, w: World)
    ensures Pickup(cfg, Pickup(cfg, w)) == Pickup(cfg, w)
  {
  }

  /**
   * The pickup keeps the count of cash left in step with the maze, and
   * keeps the state consistent when the turbo duration is positive.
   */
  lemma PickupKeepsCount(cfg: Config, w: World)
    requires w.state.cashRemaining == CountCash(w.maze)
    ensures Pickup(cfg, w).state.cashRemaining == CountCash(Pickup(cfg, w).maze)
    ensures Consistent(w.state) && cfg.turboDuration > 0 ==> Consistent(Pickup(cfg, w).state)
  {
    var px, py := Round(w.player.pos.x), Round(w.player.pos.y);
    if InGrid(w.maze, px, py) {
      ConsumeCount(w.maze, px, py);
      if w.maze[py][px] == Cash {
        CashInRowPositive(w.maze, px, py);
      }
    }
  }

  /** A maze holding a Cash tile has a positive cash count. */
  lemma CashInRowPositive(maze: seq<seq<Tile>>, col: int, row: int)
    requires InGrid(maze, col, row) && maze[row][col] == Cash
    ensures CountCash(maze) > 0
  {
    ConsumeCount(maze, col, row);
  }

  /**
   * The test of the i-th car against the player. `read` is the state the
   * engine reads its turbo flag and lives from. Touching with the turbo:
   * the car goes to the capture spot, 200 points, an arrest line on the
   * radio. Touching without: a life is lost by the rule of Damage, and
   * unless that ended the game everyone goes back to the start.
   */
  function HitCop(read: GameState, w: World, i: nat, now: int): (r: World)
    requires i < |w.police| == PoliceCount
    ensures r.maze == w.maze && |r.police| == PoliceCount
    ensures forall j :: 0 <= j < PoliceCount ==> r.police[j].kind == w.police[j].kind && r.police[j].speed == w.police[j].speed
    ensures r.player.kind == w.player.kind && r.player.speed == w.player.speed
    ensures !Touching(w.police[i].pos, w.player.pos) ==> r == w
    ensures Touching(w.police[i].pos, w.player.pos) && read.isVulnerable ==>
      && r.police == w.police[i := w.police[i].(pos := CaptureSpot)]
      && r.player == w.player
      && r.state == AwardCapture(w.state)
      && r.messages == AddMessage(w.messages, ArrestText, DjGemini, now)
    ensures Touching(w.police[i].pos, w.player.pos) && !read.isVulnerable ==>
      && r.state == Damage(read.lives, w.state) && r.messages == w.messages
      && (read.lives - 1 <= 0 ==> r == w.(state := r.state))
      && (read.lives - 1 > 0 ==> r == ResetEntities(w.(state := r.state)))
  {
    var cop := w.police[i];
    if !Touching(cop.pos, w.player.pos) then w
    else if read.isVulnerable then
      w.(police := w.police[i := cop.(pos := CaptureSpot)],
         state := AwardCapture(w.state),
         messages := AddMessage(w.messages, ArrestText, DjGemini, now))
    else if read.lives - 1 <= 0 then
      w.(state := Damage(read.lives, w.state))
    else
      ResetEntities(w.(state := Damage(read.lives, w.state)))
  }

  /** The tests of cars i, i+1, ... in order. */
  function HitsFrom(read: GameState, w: World, i: nat, now: int): (r: World)
    requires |w.police| == PoliceCount
    decreases PoliceCount - i
  {
    if i >= PoliceCount then w
    else HitsFrom(read, HitCop(read, w, i, now), i + 1, now)
  }

  /** The collision phase: the pickup, then every car in order. */
  function CheckCollisions(cfg: Config, read: GameState, w: World, now: int): World
    requires |w.police| == PoliceCount
  {
    HitsFrom(read, Pickup(cfg, w), 0, now)
  }

  /** The facts about the collision tests that hold whatever hits happen. */
  ghost predicate HitsAgree(read: GameState, w: World, r: World) {
    && r.maze == w.maze
    && |w.police| == |r.police| == PoliceCount
    && (forall j :: 0 <= j < PoliceCount ==> r.police[j].kind == w.police[j].kind && r.police[j].speed == w.police[j].speed)
    && r.player.kind == w.player.kind && r.player.speed == w.player.speed
    && r.state.cashRemaining == w.state.cashRemaining
    && r.state.level == w.state.level
    && r.state.isVulnerable == w.state.isVulnerable
    && r.state.vulnerableTimer == w.state.vulnerableTimer
    && (r.state.status == w.state.status || (r.state.status == GameOver && r.state.lives == 0 && read.lives <= 1))
    && (|| r.state.lives == w.state.lives
        || (read.lives - 1 > 0 && r.state.lives == read.lives - 1)
        || (r.state.status == GameOver && r.state.lives == 0 && read.lives <= 1))
    && (read.isVulnerable ==> r.state.lives == w.state.lives && r.state.status == w.state.status)
    && (!read.isVulnerable ==> r.state.score == w.state.score && r.messages == w.messages)
    && r.state.score >= w.state.score
    && (|w.messages| <= Capacity ==> |r.messages| <= Capacity)
  }

  /**
   * Over all the car tests: the maze and the cash count are untouched, the
   * status only moves to GameOver, and then with 0 lives from at most one
   * read life; otherwise lives only become the read lives minus one; with
   * the turbo no life is lost while without it no points are scored.
   */
  lemma {:induction false} HitsFromFacts(read: GameState, w: World, i: nat, now: int)
    requires |w.police| == PoliceCount
    ensures HitsAgree(read, w, HitsFrom(read, w, i, now))
    ensures Consistent(w.state) && read.lives <= MaxLives ==> Consistent(HitsFrom(read, w, i, now).state)
    decreases PoliceCount - i
  {
    if i < PoliceCount {
      var w1 := HitCop(read, w, i, now);
      HitCopAgrees(read, w, i, now);
      HitsFromFacts(read, w1, i + 1, now);
      AgreeTrans(read, w, w1, HitsFrom(read, w1, i + 1, now));
    }
  }

  /** One car test satisfies the facts above and keeps the state consistent. */
  lemma HitCopAgrees(read: GameState, w: World, i: nat, now: int)
    requires i < |w.police| == PoliceCount
    ensures HitsAgree(read, w, HitCop(read, w, i, now))
    ensures Consistent(w.state) && read.lives <= MaxLives ==> Consistent(HitCop(read, w, i, now).state)
  {
    var r := HitCop(read, w, i, now);
    if Touching(w.police[i].pos, w.player.pos) && !read.isVulnerable {
      assert r.state == Damage(read.lives, w.state);
    }
  }

  /**
   * Once a hit without the turbo has ended the game (lives 0, GameOver,
   * read lives at most one), the tests of the remaining cars in the same
   * frame change nothing.
   */
  lemma {:induction false} HitsAfterGameOver(read: GameState, w: World, i: nat, now: int)
    requires |w.police| == PoliceCount
    requires !read.isVulnerable && read.lives <= 1
    requires w.state.status == GameOver && w.state.lives == 0
    ensures HitsFrom(read, w, i, now) == w
    decreases PoliceCount - i
  {
    if i < PoliceCount {
      assert HitCop(read, w, i, now) == w;
      HitsAfterGameOver(read, w, i + 1, now);
    }
  }

  /** The facts compose: two runs of tests in a row satisfy them as one. */
  lemma AgreeTrans(read: GameState, a: World, b: World, c: World)
    requires HitsAgree(read, a, b) && HitsAgree(read, b, c)
    ensures HitsAgree(read, a, c)
  {
  }
}

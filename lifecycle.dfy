// The game-wide state record and every update applied to it: the initial
// state, starting and resetting, the pickup and collision effects, the
// turbo countdown and the single-field updaters the app hands the canvas.
// Also the stale-snapshot defect of the engine's copy of this record.

module Lifecycle {
  import opened Types

  const CashReward := 10
  const CaptureBonus := 200
  const MaxLives := 3

  /**
   * The invariant every reachable state keeps: non-negative score, cash and
   * timer, lives in [0, 3], a positive level, and the turbo flag set
   * exactly while the timer is positive.
   */
  ghost predicate Consistent(s: GameState) {
    && s.score >= 0
    && 0 <= s.lives <= MaxLives
    && s.level >= 1
    && s.cashRemaining >= 0
    && s.vulnerableTimer >= 0
    && (s.isVulnerable <==> s.vulnerableTimer > 0)
  }

  /** The state the app starts with; the reset button installs the same record. */
  function Initial(): (s: GameState)
    ensures Consistent(s) && s.status == Start
    ensures s.score == 0 && s.lives == MaxLives && s.level == 1
    ensures s.cashRemaining == 0 && !s.isVulnerable && s.vulnerableTimer == 0
  {
    GameState(score := 0, lives := 3, status := Start, level := 1,
              cashRemaining := 0, isVulnerable := false, vulnerableTimer := 0)
  }

  /** The start button: playing, with the cash still on the maze to collect. */
  function StartPlaying(s: GameState, cashOnMaze: nat): (r: GameState)
    ensures r.status == Playing && r.cashRemaining == cashOnMaze
    ensures r.(status := s.status, cashRemaining := s.cashRemaining) == s
    ensures Consistent(s) ==> Consistent(r)
  {
    s.(status := Playing, cashRemaining := cashOnMaze)
  }

  /** A Cash tile collected: ten points, one fewer left. */
  function CollectCash(s: GameState): (r: GameState)
    ensures r.score == s.score + CashReward && r.cashRemaining == s.cashRemaining - 1
    ensures r.(score := s.score, cashRemaining := s.cashRemaining) == s
    ensures Consistent(s) && s.cashRemaining > 0 ==> Consistent(r)
  {
    s.(score := s.score + 10, cashRemaining := s.cashRemaining - 1)
  }

  /** A Turbo tile collected: vulnerable police for the full duration. */
  function CollectTurbo(s: GameState, duration: int): (r: GameState)
    ensures r.isVulnerable && r.vulnerableTimer == duration
    ensures r.(isVulnerable := s.isVulnerable, vulnerableTimer := s.vulnerableTimer) == s
    ensures Consistent(s) && duration > 0 ==> Consistent(r)
  {
    s.(isVulnerable := true, vulnerableTimer := duration)
  }

  /** A police car arrested while vulnerable: the capture bonus. */
  function AwardCapture(s: GameState): (r: GameState)
    ensures r.score == s.score + CaptureBonus && r.(score := s.score) == s
    ensures Consistent(s) ==> Consistent(r)
  {
    s.(score := s.score + 200)
  }

  /**
   * A hit while not vulnerable, given the lives the engine reads from its
   * copy of the state: the game ends with 0 lives when that leaves none,
   * otherwise lives become that count minus one. Nothing else changes.
   */
  function Damage(readLives: int, s: GameState): (r: GameState)
    ensures readLives - 1 <= 0 ==> r.status == GameOver && r.lives == 0
    ensures readLives - 1 > 0 ==> r.status == s.status && r.lives == readLives - 1
    ensures r.(status := s.status, lives := s.lives) == s
    ensures Consistent(s) && readLives <= MaxLives ==> Consistent(r)
  {
    var nextLives := readLives - 1;
    if nextLives <= 0 then s.(status := GameOver, lives := 0)
    else s.(lives := nextLives)
  }

  /**
   * One tick of the turbo countdown: the timer drops by one; when that
   * reaches zero or less the timer is 0 and the flag cleared in the same
   * update. The timer never goes negative.
   */
  function Countdown(s: GameState): (r: GameState)
    ensures r.vulnerableTimer >= 0
    ensures s.vulnerableTimer > 1 ==> r.vulnerableTimer == s.vulnerableTimer - 1 && r.isVulnerable == s.isVulnerable
    ensures s.vulnerableTimer <= 1 ==> r.vulnerableTimer == 0 && !r.isVulnerable
    ensures r.(isVulnerable := s.isVulnerable, vulnerableTimer := s.vulnerableTimer) == s
    ensures Consistent(s) ==> Consistent(r)
  {
    var nextTimer := s.vulnerableTimer - 1;
    if nextTimer <= 0 then s.(isVulnerable := false, vulnerableTimer := 0)
    else s.(vulnerableTimer := nextTimer)
  }

  function CountdownTimes(s: GameState, k: nat): GameState
    decreases k
  {
    if k == 0 then s else CountdownTimes(Countdown(s), k - 1)
  }

  /**
   * A turbo of duration d: after k < d ticks the flag is still set with
   * d - k ticks left; after exactly d ticks it is clear with the timer at 0.
   */
  lemma {:induction false} CountdownRunsOut(s: GameState, k: nat)
    requires s.isVulnerable && s.vulnerableTimer > 0 && k <= s.vulnerableTimer
    ensures var r := CountdownTimes(s, k);
      && r.vulnerableTimer == s.vulnerableTimer - k
      && (r.isVulnerable <==> k < s.vulnerableTimer)
    decreases k
  {
    if k > 0 {
      var s1 := Countdown(s);
      if s.vulnerableTimer > 1 {
        CountdownRunsOut(s1, k - 1);
      }
    }
  }

  /** The app's score updater: replaces the score and nothing else. */
  function SetScore(s: GameState, score: int): (r: GameState)
    ensures r.score == score
    ensures r.lives == s.lives && r.status == s.status && r.level == s.level
    ensures r.cashRemaining == s.cashRemaining && r.isVulnerable == s.isVulnerable
    ensures r.vulnerableTimer == s.vulnerableTimer
  {
    s.(score := score)
  }

  /** The app's lives updater: replaces the lives and nothing else. */
  function SetLives(s: GameState, lives: int): (r: GameState)
    ensures r.lives == lives
    ensures r.score == s.score && r.status == s.status && r.level == s.level
    ensures r.cashRemaining == s.cashRemaining && r.isVulnerable == s.isVulnerable
    ensures r.vulnerableTimer == s.vulnerableTimer
  {
    s.(lives := lives)
  }

  /** The app's level updater: replaces the level and nothing else. */
  function SetLevel(s: GameState, level: int): (r: GameState)
    ensures r.level == level
    ensures r.score == s.score && r.lives == s.lives && r.status == s.status
    ensures r.cashRemaining == s.cashRemaining && r.isVulnerable == s.isVulnerable
    ensures r.vulnerableTimer == s.vulnerableTimer
  {
    s.(level := level)
  }

  // The engine's copy of the state ("stateRef") is refreshed by an effect
  // that runs only when the status changes. During play it therefore keeps
  // the record stored when play began.

  /** The copy as the source keeps it: replaced only when the status differs. */
  function SyncAsWritten(copy: GameState, s: GameState): (r: GameState)
    ensures r.status == s.status
    ensures s.status == copy.status ==> r == copy
    ensures s.status != copy.status ==> r == s
  {
    if s.status != copy.status then s else copy
  }

  /** n damaging hits in n ticks, the copy refreshed as written after each tick. */
  function HitsAsWritten(copy: GameState, s: GameState, n: nat): GameState
    decreases n
  {
    if n == 0 then s
    else
      var s1 := Damage(copy.lives, s);
      HitsAsWritten(SyncAsWritten(copy, s1), s1, n - 1)
  }

  /** n damaging hits in n ticks, each tick reading the state it starts from. */
  function HitsFresh(s: GameState, n: nat): GameState
    decreases n
  {
    if n == 0 then s else HitsFresh(Damage(s.lives, s), n - 1)
  }

  /**
   * As written, a copy taken with lives L >= 2 makes every later hit set
   * lives to L - 1: from the 3 lives play starts with, lives stay at 2
   * and the game never ends.
   */
  lemma {:induction false} StaleCopyNeverEnds(copy: GameState, s: GameState, n: nat)
    requires copy.status == Playing && s.status == Playing && copy.lives >= 2 && n >= 1
    ensures HitsAsWritten(copy, s, n).lives == copy.lives - 1
    ensures HitsAsWritten(copy, s, n).status == Playing
    decreases n
  {
    var s1 := Damage(copy.lives, s);
    assert SyncAsWritten(copy, s1) == copy;
    if n > 1 {
      StaleCopyNeverEnds(copy, s1, n - 1);
    }
  }

  /** As written, collecting a Turbo never reaches the copy: police stay unscared. */
  lemma StaleCopyNeverScared(copy: GameState, s: GameState, duration: int)
    requires copy.status == Playing && s.status == Playing && !copy.isVulnerable
    ensures !SyncAsWritten(copy, CollectTurbo(s, duration)).isVulnerable
  {
  }

  /**
   * Read fresh, every hit costs exactly one life and the L-th hit from L
   * lives ends the game with 0 lives.
   */
  lemma {:induction false} FreshHitsEndGame(s: GameState, n: nat)
    requires s.status == Playing && s.lives >= 1
    ensures n < s.lives ==> HitsFresh(s, n).lives == s.lives - n && HitsFresh(s, n).status == Playing
    ensures n >= s.lives ==> HitsFresh(s, n).lives == 0 && HitsFresh(s, n).status == GameOver
    decreases n
  {
    if n > 0 {
      var s1 := Damage(s.lives, s);
      if s.lives > 1 {
        FreshHitsEndGame(s1, n - 1);
      } else {
        GameOverStays(s1, n - 1);
      }
    }
  }

  lemma {:induction false} GameOverStays(s: GameState, n: nat)
    requires s.status == GameOver && s.lives == 0
    ensures HitsFresh(s, n).lives == 0 && HitsFresh(s, n).status == GameOver
    decreases n
  {
    if n > 0 {
      GameOverStays(Damage(s.lives, s), n - 1);
    }
  }
}

/**
 * The synchronous actions of the game store, as pure transitions on
 * `GameState`. `completeLevel` may schedule a deferred `startLevel`; rather
 * than a timer, its result says whether it did (`schedulesStart`), and the
 * session model decides when the scheduled start fires.
 */
module GameActions {
  import opened Wrappers
  import opened GameModel
  import Spawn

  /** A new state, and whether a deferred `startLevel` was scheduled. */
  datatype Transition = Transition(game: GameState, schedulesStart: bool)

  /** `startLevel`: play the current level with a fresh batch and a full clock. */
  function StartLevel(s: GameState, draws: nat -> Spawn.SpawnDraws): (r: GameState)
    ensures r.isPlaying
    ensures r.timeLeft == LevelTimeLimit(s.currentLevel) && r.timeLeft >= 10
    ensures r.bugs == Spawn.GenerateBugs(s.currentLevel, draws)
    ensures BugsRemaining(r.bugs) == |r.bugs| == Spawn.SpawnCount(s.currentLevel)
    ensures r == s.(isPlaying := true, timeLeft := r.timeLeft, bugs := r.bugs)
  {
    s.(isPlaying := true,
       timeLeft := LevelTimeLimit(s.currentLevel),
       bugs := Spawn.GenerateBugs(s.currentLevel, draws))
  }

  /** `startNewGame`: level 1, score 0, flags cleared, then `startLevel`. */
  function StartNewGame(s: GameState, draws: nat -> Spawn.SpawnDraws): (r: GameState)
    ensures r.currentLevel == 1 && r.score == 0
    ensures r.isPlaying && !r.isGameOver && !r.isGameWon && !r.isPaused
    ensures r.timeLeft == BaseTimeLimit
    ensures |r.bugs| == BaseBugCount && BugsRemaining(r.bugs) == BaseBugCount
    ensures forall i :: 0 <= i < |r.bugs| ==> r.bugs[i].id == BugId(1, i)
    ensures Valid(r) && PhasesExclusive(r)
  {
    var cleared := s.(currentLevel := 1, score := 0, isGameOver := false, isGameWon := false, isPaused := false);
    StartLevel(cleared, draws)
  }

  /** A new game does not depend on the state it was started from. */
  lemma NewGameForgetsPast(s: GameState, t: GameState, draws: nat -> Spawn.SpawnDraws)
    ensures StartNewGame(s, draws) == StartNewGame(t, draws)
  {
  }

  /** `gameOver`: stop playing and mark the game lost. */
  function GameOver(s: GameState): (r: GameState)
    ensures !r.isPlaying && r.isGameOver
    ensures r == s.(isPlaying := false, isGameOver := true)
  {
    s.(isPlaying := false, isGameOver := true)
  }

  /**
   * `completeLevel`: stop playing; on the last level the game is won,
   * otherwise the level advances, the remaining seconds earn 5 points each,
   * and a start of the next level is scheduled.
   */
  function CompleteLevel(s: GameState): (r: Transition)
    ensures !r.game.isPlaying
    ensures s.currentLevel >= MaxLevel ==>
      r.game.isGameWon && !r.schedulesStart
      && r.game.currentLevel == s.currentLevel && r.game.score == s.score
    ensures s.currentLevel < MaxLevel ==>
      r.schedulesStart && r.game.isGameWon == s.isGameWon
      && r.game.currentLevel == s.currentLevel + 1
      && r.game.score == s.score + 5 * s.timeLeft
    ensures r.game.bugs == s.bugs && r.game.timeLeft == s.timeLeft
    ensures r.game.isGameOver == s.isGameOver && r.game.isPaused == s.isPaused
  {
    var stopped := s.(isPlaying := false);
    if s.currentLevel >= MaxLevel then
      Transition(stopped.(isGameWon := true), false)
    else
      Transition(stopped.(currentLevel := s.currentLevel + 1, score := s.score + s.timeLeft * 5), true)
  }

  /** The first part of `spikeBug`: kill the first bug with `id` if alive, and score it. */
  function KillBug(s: GameState, id: string): (r: GameState)
    ensures !CanSpike(s.bugs, id) ==> r == s
    ensures CanSpike(s.bugs, id) ==>
      var k := FirstIndexOf(s.bugs, id).value;
      && |r.bugs| == |s.bugs|
      && r.bugs[k] == s.bugs[k].(isAlive := false)
      && r.bugs == s.bugs[k := s.bugs[k].(isAlive := false)]
      && r.score == s.score + 10 * s.currentLevel
      && BugsRemaining(r.bugs) == BugsRemaining(s.bugs) - 1
      && r == s.(bugs := r.bugs, score := r.score)
  {
    match FirstIndexOf(s.bugs, id)
    case None => s
    case Some(k) =>
      if !s.bugs[k].isAlive then s
      else
        RemainingAfterKill(s.bugs, k);
        s.(bugs := s.bugs[k := s.bugs[k].(isAlive := false)], score := s.score + 10 * s.currentLevel)
  }

  /**
   * `spikeBug(id)`: kill and score the bug, then complete the level if that
   * was the last alive bug of a level being played.
   */
  function SpikeBug(s: GameState, id: string): (r: Transition)
    ensures !CanSpike(s.bugs, id) ==> r == Transition(s, false)
    ensures CanSpike(s.bugs, id) ==>
      r.game.isPlaying == (s.isPlaying && BugsRemaining(s.bugs) > 1)
    // Not the last bug, or the level is not being played: only the kill and its points.
    ensures CanSpike(s.bugs, id) && !(s.isPlaying && BugsRemaining(s.bugs) == 1) ==>
      && !r.schedulesStart
      && r.game == KillBug(s, id)
      && r.game.score == s.score + 10 * s.currentLevel
    // The last bug of a level below the last: advance, with the time bonus.
    ensures (CanSpike(s.bugs, id) && s.isPlaying && BugsRemaining(s.bugs) == 1
             && s.currentLevel < MaxLevel) ==>
      && r.schedulesStart
      && r.game.currentLevel == s.currentLevel + 1
      && r.game.score == s.score + 10 * s.currentLevel + 5 * s.timeLeft
      && r.game.bugs == s.bugs[FirstIndexOf(s.bugs, id).value := s.bugs[FirstIndexOf(s.bugs, id).value].(isAlive := false)]
      && r.game == s.(isPlaying := false, bugs := r.game.bugs, currentLevel := r.game.currentLevel, score := r.game.score)
      && BugsRemaining(r.game.bugs) == 0
    // The last bug of the last level: the game is won.
    ensures (CanSpike(s.bugs, id) && s.isPlaying && BugsRemaining(s.bugs) == 1
             && s.currentLevel >= MaxLevel) ==>
      && !r.schedulesStart
      && r.game.isGameWon
      && r.game.currentLevel == s.currentLevel
      && r.game.score == s.score + 10 * s.currentLevel
      && r.game.bugs == s.bugs[FirstIndexOf(s.bugs, id).value := s.bugs[FirstIndexOf(s.bugs, id).value].(isAlive := false)]
      && r.game == s.(isPlaying := false, isGameWon := true, bugs := r.game.bugs, score := r.game.score)
      && BugsRemaining(r.game.bugs) == 0
  {
    if !CanSpike(s.bugs, id) then Transition(s, false)
    else
      var killed := KillBug(s, id);
      if IsLevelComplete(killed) then CompleteLevel(killed) else Transition(killed, false)
  }

  /** Spiking the same bug twice has the effect of spiking it once. */
  lemma SpikeIdempotent(s: GameState, id: string)
    ensures var once := SpikeBug(s, id).game;
      SpikeBug(once, id) == Transition(once, false)
  {
    var once := SpikeBug(s, id).game;
    if CanSpike(s.bugs, id) {
      var killed := KillBug(s, id);
      FirstIndexOfSameIds(s.bugs, killed.bugs, id);
      FirstIndexOfSameIds(killed.bugs, once.bugs, id);
    }
  }

  /**
   * `removeBug(id)`: delete the first bug with `id`, alive or dead, keeping
   * the order of the others; no effect when no bug has that id.
   */
  function RemoveBug(s: GameState, id: string): (r: GameState)
    ensures FirstIndexOf(s.bugs, id).None? ==> r == s
    ensures FirstIndexOf(s.bugs, id).Some? ==>
      var k := FirstIndexOf(s.bugs, id).value;
      && |r.bugs| == |s.bugs| - 1
      && (forall j :: 0 <= j < k ==> r.bugs[j] == s.bugs[j])
      && (forall j :: k <= j < |r.bugs| ==> r.bugs[j] == s.bugs[j + 1])
    ensures r == s.(bugs := r.bugs)
    ensures FirstIndexOf(s.bugs, id).Some? ==>
      BugsRemaining(r.bugs) == BugsRemaining(s.bugs)
        - (if s.bugs[FirstIndexOf(s.bugs, id).value].isAlive then 1 else 0)
  {
    match FirstIndexOf(s.bugs, id)
    case None => s
    case Some(k) =>
      var rest := s.bugs[..k] + s.bugs[k + 1..];
      assert forall j :: 0 <= j < k ==> rest[j] == s.bugs[j];
      assert forall j :: k <= j < |rest| ==> rest[j] == s.bugs[j + 1];
      RemainingAfterDelete(s.bugs, k);
      s.(bugs := rest)
  }

  /**
   * Removing the last alive bug does not complete the level: unlike
   * spiking, removal never checks for completion, so the level stays in
   * play with nothing left to spike.
   */
  lemma RemovingLastAliveBugLeavesLevelOpen(s: GameState, id: string)
    requires s.isPlaying && CanSpike(s.bugs, id) && BugsRemaining(s.bugs) == 1
    ensures var r := RemoveBug(s, id);
      IsLevelComplete(r) && r.isPlaying && r.currentLevel == s.currentLevel && r.score == s.score
  {
  }

  /** `pauseGame`: toggle the pause flag, only while playing. */
  function PauseGame(s: GameState): (r: GameState)
    ensures s.isPlaying ==> r.isPaused == !s.isPaused
    ensures r == s.(isPaused := r.isPaused)
    ensures !s.isPlaying ==> r == s
  {
    if s.isPlaying then s.(isPaused := !s.isPaused) else s
  }

  /** Toggling the pause twice restores the state. */
  lemma PauseTwiceIsIdentity(s: GameState)
    ensures PauseGame(PauseGame(s)) == s
  {
  }

  /** `resetGame`: back to the idle state of a fresh session. */
  function ResetGame(): (r: GameState)
    ensures r.currentLevel == 1 && r.score == 0 && r.bugs == [] && r.timeLeft == 0
    ensures !r.isPlaying && !r.isGameOver && !r.isGameWon && !r.isPaused
    ensures Valid(r) && PhasesExclusive(r)
  {
    GameState(1, 0, [], 0, false, false, false, false)
  }

  /**
   * `updateTimer`: one second passes while a level is played and not
   * paused; the game is lost when the clock reaches zero.
   */
  function UpdateTimer(s: GameState): (r: GameState)
    ensures !(s.isPlaying && !s.isPaused && s.timeLeft > 0) ==> r == s
    ensures s.isPlaying && !s.isPaused && s.timeLeft > 0 ==>
      && r.timeLeft == s.timeLeft - 1
      && (r.timeLeft > 0 ==> r == s.(timeLeft := r.timeLeft))
      && (r.timeLeft <= 0 ==> r == s.(timeLeft := r.timeLeft, isPlaying := false, isGameOver := true))
  {
    if s.isPlaying && !s.isPaused && s.timeLeft > 0 then
      var ticked := s.(timeLeft := s.timeLeft - 1);
      if ticked.timeLeft <= 0 then GameOver(ticked) else ticked
    else s
  }

  /** Once the clock has run out, further ticks change nothing. */
  lemma TimerStopsAtZero(s: GameState)
    requires s.isPlaying && !s.isPaused && s.timeLeft == 1
    ensures var r := UpdateTimer(s);
      r.isGameOver && !r.isPlaying && r.timeLeft == 0 && UpdateTimer(r) == r
  {
  }
}

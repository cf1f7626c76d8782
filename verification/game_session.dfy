/**
 * A session with the game store: the state plus the starts of the next
 * level that `completeLevel` has scheduled (`setTimeout(startLevel, 2000)`)
 * and that have not fired yet. Each user action, timer tick, animation
 * frame, and firing of a scheduled start is an `Event`; the order of events
 * is free, so a scheduled start may fire after any other event, exactly as
 * the uncancelled timeout may.
 */
module GameSession {
  import opened GameModel
  import opened GameActions
  import Spawn
  import Movement

  datatype Store = Store(game: GameState, pendingStarts: nat)

  datatype Event =
    | NewGame(spawn: nat -> Spawn.SpawnDraws)
    | Spike(bugId: string)
    | Remove(bugId: string)
    | Tick
    | TogglePause
    | Reset
    | Frame(width: real, height: real, moves: nat -> Movement.MoveDraws, hypot: (real, real) -> real)
    | PendingStartFires(spawn: nat -> Spawn.SpawnDraws)

  /** The session of a first visit: the store's initial values, nothing scheduled. */
  function InitialStore(): (st: Store)
    ensures st.game == ResetGame() && st.pendingStarts == 0
  {
    Store(GameState(1, 0, [], 0, false, false, false, false), 0)
  }

  function Apply(st: Store, e: Event): Store {
    var g := st.game;
    match e
    case NewGame(spawn) => Store(StartNewGame(g, spawn), st.pendingStarts)
    case Spike(id) => SpikeInStore(st, id)
    case Remove(id) => Store(RemoveBug(g, id), st.pendingStarts)
    case Tick => Store(UpdateTimer(g), st.pendingStarts)
    case TogglePause => Store(PauseGame(g), st.pendingStarts)
    case Reset => Store(ResetGame(), st.pendingStarts)
    case Frame(w, h, moves, hypot) => Store(Movement.UpdateBugPositions(g, w, h, moves, hypot), st.pendingStarts)
    case PendingStartFires(spawn) => FirePendingStart(st, spawn)
  }

  /** `spikeBug(id)`, recording the start it may schedule. */
  function SpikeInStore(st: Store, id: string): Store {
    var t := SpikeBug(st.game, id);
    Store(t.game, st.pendingStarts + (if t.schedulesStart then 1 else 0))
  }

  /** The deferred `startLevel` callback, when one is scheduled. */
  function FirePendingStart(st: Store, spawn: nat -> Spawn.SpawnDraws): (r: Store)
    ensures st.pendingStarts == 0 ==> r == st
    ensures st.pendingStarts > 0 ==>
      r.game == StartLevel(st.game, spawn) && r.pendingStarts == st.pendingStarts - 1
  {
    if st.pendingStarts == 0 then st
    else Store(StartLevel(st.game, spawn), st.pendingStarts - 1)
  }

  /** The events applied in order. */
  function Run(st: Store, events: seq<Event>): Store
    decreases |events|
  {
    if |events| == 0 then st else Run(Apply(st, events[0]), events[1..])
  }

  /** Every event keeps the level in [1, 4] and the score and clock non-negative. */
  lemma ApplyKeepsValid(st: Store, e: Event)
    requires Valid(st.game)
    ensures Valid(Apply(st, e).game)
  {
  }

  /** The score never falls, except through a new game or a reset. */
  lemma ScoreNeverDecreases(st: Store, e: Event)
    requires Valid(st.game)
    requires !e.NewGame? && !e.Reset?
    ensures Apply(st, e).game.score >= st.game.score
  {
  }

  lemma {:induction false} RunKeepsValid(st: Store, events: seq<Event>)
    requires Valid(st.game)
    ensures Valid(Run(st, events).game)
    decreases |events|
  {
    if |events| > 0 {
      ApplyKeepsValid(st, events[0]);
      RunKeepsValid(Apply(st, events[0]), events[1..]);
    }
  }

  /** Along any run without a new game or a reset, the score only grows. */
  lemma {:induction false} RunScoreNeverDecreases(st: Store, events: seq<Event>)
    requires Valid(st.game)
    requires forall i :: 0 <= i < |events| ==> !events[i].NewGame? && !events[i].Reset?
    ensures Run(st, events).game.score >= st.game.score
    decreases |events|
  {
    if |events| > 0 {
      ApplyKeepsValid(st, events[0]);
      ScoreNeverDecreases(st, events[0]);
      RunScoreNeverDecreases(Apply(st, events[0]), events[1..]);
    }
  }

  /**
   * Every event keeps game-over and game-won exclusive of each other and of
   * playing, except a scheduled start firing into a lost or won game.
   */
  lemma ApplyKeepsPhasesExclusive(st: Store, e: Event)
    requires PhasesExclusive(st.game)
    requires e.PendingStartFires? && st.pendingStarts > 0 ==>
      !st.game.isGameOver && !st.game.isGameWon
    ensures PhasesExclusive(Apply(st, e).game)
  {
  }

  /** No event other than the scheduled start firing ever withdraws a scheduled start. */
  lemma NothingCancelsPendingStart(st: Store, e: Event)
    ensures !e.PendingStartFires? ==> Apply(st, e).pendingStarts >= st.pendingStarts
    ensures !e.Spike? ==> Apply(st, e).pendingStarts <= st.pendingStarts
    ensures e.Spike? ==> Apply(st, e).pendingStarts <= st.pendingStarts + 1
  {
  }

  /**
   * A start scheduled before a reset still fires after it: the idle state is
   * left for level 1 in play, with a full clock and 8 bugs.
   */
  lemma StaleStartAfterReset(st: Store, spawn: nat -> Spawn.SpawnDraws)
    requires st.pendingStarts > 0
    ensures var r := Apply(Apply(st, Reset), PendingStartFires(spawn));
      && r.game.isPlaying
      && r.game.currentLevel == 1 && r.game.score == 0
      && r.game.timeLeft == BaseTimeLimit
      && |r.game.bugs| == BaseBugCount
      && r.pendingStarts == st.pendingStarts - 1
  {
  }

  /** A start that fires after the game was lost leaves it both lost and in play. */
  lemma StaleStartAfterLoss(st: Store, spawn: nat -> Spawn.SpawnDraws)
    requires st.pendingStarts > 0 && st.game.isGameOver
    ensures var r := Apply(st, PendingStartFires(spawn));
      r.game.isPlaying && r.game.isGameOver && !PhasesExclusive(r.game)
  {
  }

  /** All alive bugs of `bugs` lie in the width x height play area. */
  predicate AliveInArea(bugs: seq<Bug>, width: real, height: real) {
    forall i :: 0 <= i < |bugs| && bugs[i].isAlive ==> Movement.InArea(bugs[i], width, height)
  }

  /**
   * With frames of one play area at least 800x600 (so that fresh bugs spawn
   * inside it), no event moves an alive bug out of the area.
   */
  lemma ApplyKeepsAliveInArea(st: Store, e: Event, width: real, height: real)
    requires width >= SpawnWidth + BugSize && height >= SpawnHeight + BugSize
    requires e.Frame? ==> e.width == width && e.height == height
    requires AliveInArea(st.game.bugs, width, height)
    ensures AliveInArea(Apply(st, e).game.bugs, width, height)
  {
    var g := st.game;
    match e
    case Spike(id) =>
      var killed := KillBug(g, id);
      assert AliveInArea(killed.bugs, width, height);
    case Remove(id) =>
      var r := RemoveBug(g, id);
      if FirstIndexOf(g.bugs, id).Some? {
        var k := FirstIndexOf(g.bugs, id).value;
        forall i | 0 <= i < |r.bugs| && r.bugs[i].isAlive
          ensures Movement.InArea(r.bugs[i], width, height)
        {
          if i >= k {
            assert r.bugs[i] == g.bugs[i + 1];
          }
        }
      }
    case _ =>
  }

  /** Alive bugs stay in the play area after any number of frames and other events. */
  lemma {:induction false} RunKeepsAliveInArea(st: Store, events: seq<Event>, width: real, height: real)
    requires width >= SpawnWidth + BugSize && height >= SpawnHeight + BugSize
    requires forall i :: 0 <= i < |events| && events[i].Frame? ==>
      events[i].width == width && events[i].height == height
    requires AliveInArea(st.game.bugs, width, height)
    ensures AliveInArea(Run(st, events).game.bugs, width, height)
    decreases |events|
  {
    if |events| > 0 {
      ApplyKeepsAliveInArea(st, events[0], width, height);
      RunKeepsAliveInArea(Apply(st, events[0]), events[1..], width, height);
    }
  }

  /** `n` timer ticks. */
  function Ticks(g: GameState, n: nat): GameState
    decreases n
  {
    if n == 0 then g else Ticks(UpdateTimer(g), n - 1)
  }

  /**
   * Ticking a level in play until the clock runs out loses the game, keeps
   * level, score and bugs, and leaves the timer inert.
   */
  lemma {:induction false} ClockRunsOut(g: GameState)
    requires g.isPlaying && !g.isPaused && g.timeLeft > 0
    ensures var r := Ticks(g, g.timeLeft);
      && r.isGameOver && !r.isPlaying && r.timeLeft == 0
      && r.currentLevel == g.currentLevel && r.score == g.score && r.bugs == g.bugs
      && UpdateTimer(r) == r
    decreases g.timeLeft
  {
    var next := UpdateTimer(g);
    assert Ticks(g, g.timeLeft) == Ticks(next, g.timeLeft - 1);
    if g.timeLeft > 1 {
      ClockRunsOut(next);
    }
  }

  /**
   * Pausing a level in play freezes the clock and every bug, and pausing
   * again restores the level exactly.
   */
  lemma PauseFreezes(g: GameState, width: real, height: real,
                     moves: nat -> Movement.MoveDraws, hypot: (real, real) -> real)
    requires g.isPlaying && !g.isPaused
    ensures var p := PauseGame(g);
      && p.isPaused
      && UpdateTimer(p) == p
      && Movement.UpdateBugPositions(p, width, height, moves, hypot) == p
      && PauseGame(p) == g
  {
  }

  /** A new game after a loss starts level 1 from scratch. */
  lemma NewGameAfterLoss(st: Store, spawn: nat -> Spawn.SpawnDraws)
    requires st.game.isGameOver
    ensures var r := Apply(st, NewGame(spawn)).game;
      && r.currentLevel == 1 && r.score == 0 && !r.isGameOver && r.isPlaying
      && |r.bugs| == BaseBugCount && BugsRemaining(r.bugs) == BaseBugCount
  {
  }

  /** The last bug of the last level wins the game and schedules nothing. */
  lemma LastLevelWins(st: Store, id: string)
    requires st.game.isPlaying && st.game.currentLevel == MaxLevel
    requires CanSpike(st.game.bugs, id) && BugsRemaining(st.game.bugs) == 1
    ensures var r := Apply(st, Spike(id));
      r.game.isGameWon && !r.game.isPlaying && r.pendingStarts == st.pendingStarts
  {
  }

  /** The events that spike each id in turn. */
  function Spikes(ids: seq<string>): (es: seq<Event>)
    ensures |es| == |ids|
    ensures forall i :: 0 <= i < |ids| ==> es[i] == Spike(ids[i])
  {
    seq(|ids|, i requires 0 <= i < |ids| => Spike(ids[i]))
  }

  /** Spiking each id in turn, without the event wrapper. */
  function SpikeEach(st: Store, ids: seq<string>): Store
    decreases |ids|
  {
    if |ids| == 0 then st else SpikeEach(SpikeInStore(st, ids[0]), ids[1..])
  }

  lemma {:induction false} RunSpikesIsSpikeEach(st: Store, ids: seq<string>)
    ensures Run(st, Spikes(ids)) == SpikeEach(st, ids)
    decreases |ids|
  {
    if |ids| > 0 {
      var es := Spikes(ids);
      assert Apply(st, es[0]) == SpikeInStore(st, ids[0]);
      assert es[1..] == Spikes(ids[1..]);
      RunSpikesIsSpikeEach(SpikeInStore(st, ids[0]), ids[1..]);
    }
  }

  predicate DistinctIds(bugs: seq<Bug>) {
    forall i, j :: 0 <= i < j < |bugs| ==> bugs[i].id != bugs[j].id
  }

  lemma FirstIndexOfDistinct(bugs: seq<Bug>, k: nat)
    requires DistinctIds(bugs) && k < |bugs|
    ensures FirstIndexOf(bugs, bugs[k].id) == Wrappers.Some(k)
  {
  }

  /** With the first k bugs dead and the rest alive, n - k bugs remain. */
  lemma {:induction false} RemainingOfAliveSuffix(bugs: seq<Bug>, k: nat)
    requires k <= |bugs|
    requires forall j :: 0 <= j < |bugs| ==> (bugs[j].isAlive <==> j >= k)
    ensures BugsRemaining(bugs) == |bugs| - k
    decreases |bugs|
  {
    if |bugs| > 0 {
      if k > 0 {
        RemainingOfAliveSuffix(bugs[1..], k - 1);
      } else {
        RemainingOfAliveSuffix(bugs[1..], 0);
      }
    }
  }

  /** The shape of a level being cleared in order: bugs k.. alive, the rest dead. */
  predicate ClearingFrom(g: GameState, ids: seq<string>, k: nat) {
    && g.isPlaying && 1 <= g.currentLevel < MaxLevel
    && k < |g.bugs| == |ids|
    && (forall j :: 0 <= j < |ids| ==> g.bugs[j].id == ids[j])
    && DistinctIds(g.bugs)
    && (forall j :: 0 <= j < |ids| ==> (g.bugs[j].isAlive <==> j >= k))
  }

  /** Spiking bug k when it is not the last alive one: its points, and the next shape. */
  lemma SpikeNotLast(st: Store, ids: seq<string>, k: nat)
    requires ClearingFrom(st.game, ids, k) && k + 1 < |ids|
    ensures var next := SpikeInStore(st, ids[k]);
      && ClearingFrom(next.game, ids, k + 1)
      && next.game.currentLevel == st.game.currentLevel
      && next.game.timeLeft == st.game.timeLeft
      && next.game.score == st.game.score + 10 * st.game.currentLevel
      && next.pendingStarts == st.pendingStarts
  {
    var g := st.game;
    FirstIndexOfDistinct(g.bugs, k);
    RemainingOfAliveSuffix(g.bugs, k);
    assert CanSpike(g.bugs, ids[k]);
    var killed := KillBug(g, ids[k]);
    assert SpikeBug(g, ids[k]) == Transition(killed, false);
  }

  /** Spiking the last alive bug: the level completes with its time bonus. */
  lemma SpikeLast(st: Store, ids: seq<string>)
    requires |ids| >= 1 && ClearingFrom(st.game, ids, |ids| - 1)
    ensures var g, next := st.game, SpikeInStore(st, ids[|ids| - 1]);
      && next.game.currentLevel == g.currentLevel + 1
      && next.game.score == g.score + 10 * g.currentLevel + 5 * g.timeLeft
      && !next.game.isPlaying
      && next.pendingStarts == st.pendingStarts + 1
  {
    var g := st.game;
    var k := |ids| - 1;
    FirstIndexOfDistinct(g.bugs, k);
    RemainingOfAliveSuffix(g.bugs, k);
    assert CanSpike(g.bugs, ids[k]);
  }

  /** `n` times `a`, as repeated addition. */
  function Times(a: int, n: nat): int
    decreases n
  {
    if n == 0 then 0 else a + Times(a, n - 1)
  }

  lemma {:induction false} TimesIsProduct(a: int, n: nat)
    ensures Times(a, n) == a * n
    decreases n
  {
    if n > 0 {
      TimesIsProduct(a, n - 1);
    }
  }

  /** Spiking bugs k..n-1 of a level below the last, whose first k bugs are already dead. */
  lemma {:induction false} SpikeRemaining(st: Store, ids: seq<string>, k: nat, points: int)
    requires ClearingFrom(st.game, ids, k)
    requires points == 10 * st.game.currentLevel
    ensures var g, r := st.game, SpikeEach(st, ids[k..]);
      && r.game.currentLevel == g.currentLevel + 1
      && r.game.score == g.score + Times(points, |ids| - k) + 5 * g.timeLeft
      && !r.game.isPlaying
      && r.pendingStarts == st.pendingStarts + 1
    decreases |ids| - k
  {
    var g := st.game;
    var next := SpikeInStore(st, ids[k]);
    assert ids[k..][0] == ids[k] && ids[k..][1..] == ids[k + 1..];
    var r := SpikeEach(next, ids[k + 1..]);
    assert SpikeEach(st, ids[k..]) == r;
    if k == |ids| - 1 {
      assert ids[k + 1..] == [];
      SpikeLast(st, ids);
      assert r == next;
      assert Times(points, 1) == points + Times(points, 0);
      assert r.game.score == g.score + Times(points, |ids| - k) + 5 * g.timeLeft;
    } else {
      SpikeNotLast(st, ids, k);
      SpikeRemaining(next, ids, k + 1, points);
      var m := |ids| - (k + 1);
      assert r.game.score == next.game.score + Times(points, m) + 5 * g.timeLeft;
      assert next.game.score == g.score + points;
      assert Times(points, m + 1) == points + Times(points, m);
      assert r.game.score == g.score + Times(points, |ids| - k) + 5 * g.timeLeft;
    }
  }

  /**
   * Clearing a level below the last: spiking every bug in order earns 10
   * points per bug per level plus 5 per second left, advances the level
   * once, and schedules one start; when it fires, the next level is in play
   * with its full clock and its larger batch.
   */
  lemma ClearLevel(st: Store, spawn: nat -> Spawn.SpawnDraws)
    requires st.game.isPlaying && 1 <= st.game.currentLevel < MaxLevel
    requires 1 <= |st.game.bugs| && DistinctIds(st.game.bugs)
    requires forall j :: 0 <= j < |st.game.bugs| ==> st.game.bugs[j].isAlive
    ensures var g := st.game;
      var ids := seq(|g.bugs|, j requires 0 <= j < |g.bugs| => g.bugs[j].id);
      var cleared := Run(st, Spikes(ids));
      var next := Apply(cleared, PendingStartFires(spawn)).game;
      && cleared.game.currentLevel == g.currentLevel + 1
      && cleared.game.score == g.score + 10 * g.currentLevel * |g.bugs| + 5 * g.timeLeft
      && !cleared.game.isPlaying
      && cleared.pendingStarts == st.pendingStarts + 1
      && next.isPlaying
      && next.currentLevel == g.currentLevel + 1
      && next.timeLeft == LevelTimeLimit(g.currentLevel + 1)
      && |next.bugs| == LevelBugCount(g.currentLevel + 1)
      && BugsRemaining(next.bugs) == |next.bugs|
  {
    var g := st.game;
    var ids := seq(|g.bugs|, j requires 0 <= j < |g.bugs| => g.bugs[j].id);
    var cleared := Run(st, Spikes(ids));
    RunSpikesIsSpikeEach(st, ids);
    var points := 10 * g.currentLevel;
    assert cleared.game.score == g.score + Times(points, |g.bugs|) + 5 * g.timeLeft
        && cleared.game.currentLevel == g.currentLevel + 1
        && !cleared.game.isPlaying
        && cleared.pendingStarts == st.pendingStarts + 1 by {
      assert ClearingFrom(g, ids, 0);
      assert ids[0..] == ids;
      SpikeRemaining(st, ids, 0, points);
    }
    TimesIsProduct(points, |g.bugs|);
    assert Apply(cleared, PendingStartFires(spawn)) == FirePendingStart(cleared, spawn);
  }
}

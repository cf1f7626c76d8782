/**
 * The state of the game store: the bug record, the game-state record, the
 * fixed configuration, the parameters derived from the current level, and
 * the counting and lookup helpers the actions share.
 */
module GameModel {
  import opened Wrappers
  import Decimal

  /** One value of `Math.random()`: a real in [0, 1). */
  type Draw = r: real | 0.0 <= r < 1.0

  // Fixed configuration of the store.
  const MaxLevel: int := 4
  const BaseTimeLimit: int := 15
  const BaseBugCount: int := 8
  const BaseSpeed: real := 2.0

  /** Side length of a bug's square footprint, in pixels. */
  const BugSize: real := 32.0

  /** Spawn area: the default 800x600 play area less one footprint. */
  const SpawnWidth: real := 768.0
  const SpawnHeight: real := 568.0

  datatype Bug = Bug(
    id: string,
    x: real,
    y: real,
    speed: real,
    isAlive: bool,
    velocityX: real,
    velocityY: real,
    targetX: real,
    targetY: real)

  datatype GameState = GameState(
    currentLevel: int,
    score: int,
    bugs: seq<Bug>,
    timeLeft: int,
    isPlaying: bool,
    isGameOver: bool,
    isGameWon: bool,
    isPaused: bool)

  function Max(a: int, b: int): int {
    if a >= b then a else b
  }

  /** Seconds allowed on a level: 15, shrinking by 2 per level, never under 10. */
  function LevelTimeLimit(level: int): (t: int)
    ensures t >= 10
    ensures level >= 1 ==> t <= BaseTimeLimit
  {
    Max(10, BaseTimeLimit - (level - 1) * 2)
  }

  /** Bugs spawned on a level: 8, plus 2 per level. */
  function LevelBugCount(level: int): int {
    BaseBugCount + (level - 1) * 2
  }

  /** Base bug speed on a level: 2, plus 0.8 per level. */
  function LevelSpeed(level: int): real {
    BaseSpeed + (level - 1) as real * 0.8
  }

  lemma TimeLimitNonIncreasing(a: int, b: int)
    requires a <= b
    ensures LevelTimeLimit(b) <= LevelTimeLimit(a)
  {
  }

  lemma BugCountIncreasing(a: int, b: int)
    requires a <= b
    ensures LevelBugCount(a) <= LevelBugCount(b)
    ensures a < b ==> LevelBugCount(a) < LevelBugCount(b)
  {
  }

  lemma SpeedIncreasing(a: int, b: int)
    requires a <= b
    ensures LevelSpeed(a) <= LevelSpeed(b)
    ensures a < b ==> LevelSpeed(a) < LevelSpeed(b)
  {
  }

  /** The time limit reaches its floor of 10 seconds from level 4 on. */
  lemma TimeLimitFloor(level: int)
    ensures LevelTimeLimit(level) == 10 <==> level >= 4
  {
  }

  /** `bug-<level>-<index>`, the identifier of the index-th bug of a level. */
  function BugId(level: int, index: nat): string {
    "bug-" + Decimal.IntToString(level) + "-" + Decimal.NatToString(index)
  }

  /** Within one level, different indices give different identifiers. */
  lemma {:induction false} BugIdInjective(level: int, i: nat, j: nat)
    requires BugId(level, i) == BugId(level, j)
    ensures i == j
  {
    var p := "bug-" + Decimal.IntToString(level) + "-";
    assert BugId(level, i) == p + Decimal.NatToString(i);
    assert BugId(level, j) == p + Decimal.NatToString(j);
    assert Decimal.NatToString(i) == BugId(level, i)[|p|..];
    assert Decimal.NatToString(j) == BugId(level, j)[|p|..];
    Decimal.NatToStringInjective(i, j);
  }

  lemma BugIdsDistinct(level: int)
    ensures forall i: nat, j: nat :: i != j ==> BugId(level, i) != BugId(level, j)
  {
    forall i: nat, j: nat | BugId(level, i) == BugId(level, j)
      ensures i == j
    {
      BugIdInjective(level, i, j);
    }
  }

  /**
   * Identifiers of bugs from different non-negative levels never collide
   * either: a regenerated batch never reuses an identifier.
   */
  lemma {:induction false} BugIdInjectiveAcrossLevels(l1: nat, i1: nat, l2: nat, i2: nat)
    requires BugId(l1, i1) == BugId(l2, i2)
    ensures l1 == l2 && i1 == i2
  {
    var a, b := Decimal.IntToString(l1), Decimal.NatToString(i1);
    var c, d := Decimal.IntToString(l2), Decimal.NatToString(i2);
    assert BugId(l1, i1) == "bug-" + (a + "-" + b);
    assert BugId(l2, i2) == "bug-" + (c + "-" + d);
    assert a + "-" + b == BugId(l1, i1)[4..];
    assert c + "-" + d == BugId(l2, i2)[4..];
    Decimal.SplitAtFirstDash(a, b, c, d);
    Decimal.IntToStringInjective(l1, l2);
    Decimal.NatToStringInjective(i1, i2);
  }

  /** Number of alive bugs (the store's `bugsRemaining`). */
  function BugsRemaining(bugs: seq<Bug>): (n: nat)
    ensures n <= |bugs|
  {
    if |bugs| == 0 then 0
    else (if bugs[0].isAlive then 1 else 0) + BugsRemaining(bugs[1..])
  }

  /** No bug remains exactly when every bug is dead. */
  lemma {:induction false} NoneRemainingIffAllDead(bugs: seq<Bug>)
    ensures BugsRemaining(bugs) == 0 <==> forall i :: 0 <= i < |bugs| ==> !bugs[i].isAlive
    decreases |bugs|
  {
    if |bugs| > 0 {
      NoneRemainingIffAllDead(bugs[1..]);
      assert forall i :: 1 <= i < |bugs| ==> bugs[i] == bugs[1..][i - 1];
    }
  }

  /** Every bug remains exactly when every bug is alive. */
  lemma {:induction false} AllRemainingIffAllAlive(bugs: seq<Bug>)
    ensures BugsRemaining(bugs) == |bugs| <==> forall i :: 0 <= i < |bugs| ==> bugs[i].isAlive
    decreases |bugs|
  {
    if |bugs| > 0 {
      AllRemainingIffAllAlive(bugs[1..]);
      assert forall i :: 1 <= i < |bugs| ==> bugs[i] == bugs[1..][i - 1];
    }
  }

  /** Killing one alive bug lowers the alive count by exactly one. */
  lemma {:induction false} RemainingAfterKill(bugs: seq<Bug>, k: nat)
    requires k < |bugs| && bugs[k].isAlive
    ensures BugsRemaining(bugs[k := bugs[k].(isAlive := false)]) == BugsRemaining(bugs) - 1
    decreases |bugs|
  {
    var after := bugs[k := bugs[k].(isAlive := false)];
    if k > 0 {
      assert after[1..] == bugs[1..][k - 1 := bugs[k].(isAlive := false)];
      RemainingAfterKill(bugs[1..], k - 1);
    } else {
      assert after[1..] == bugs[1..];
    }
  }

  /** Deleting the bug at k lowers the alive count by one exactly when that bug was alive. */
  lemma {:induction false} RemainingAfterDelete(bugs: seq<Bug>, k: nat)
    requires k < |bugs|
    ensures BugsRemaining(bugs[..k] + bugs[k + 1..])
      == BugsRemaining(bugs) - (if bugs[k].isAlive then 1 else 0)
    decreases |bugs|
  {
    var after := bugs[..k] + bugs[k + 1..];
    if k > 0 {
      assert after[0] == bugs[0];
      assert after[1..] == bugs[1..][..k - 1] + bugs[1..][k..];
      RemainingAfterDelete(bugs[1..], k - 1);
    } else {
      assert after == bugs[1..];
    }
  }

  /** The level is complete when no bug is alive and the level is being played. */
  predicate IsLevelComplete(s: GameState) {
    BugsRemaining(s.bugs) == 0 && s.isPlaying
  }

  /** Position of the first bug carrying `id`, as `Array.prototype.findIndex` finds it. */
  function FirstIndexOf(bugs: seq<Bug>, id: string): (r: Option<nat>)
    ensures r.Some? ==> r.value < |bugs| && bugs[r.value].id == id
    ensures r.Some? ==> forall j :: 0 <= j < r.value ==> bugs[j].id != id
    ensures r.None? ==> forall j :: 0 <= j < |bugs| ==> bugs[j].id != id
  {
    if |bugs| == 0 then None
    else if bugs[0].id == id then Some(0)
    else match FirstIndexOf(bugs[1..], id)
      case None => None
      case Some(k) => Some(k + 1)
  }

  /** Two bug lists with the same identifiers in the same order find the same first index. */
  lemma FirstIndexOfSameIds(a: seq<Bug>, b: seq<Bug>, id: string)
    requires |a| == |b|
    requires forall i :: 0 <= i < |a| ==> a[i].id == b[i].id
    ensures FirstIndexOf(a, id) == FirstIndexOf(b, id)
  {
  }

  /** `spikeBug(id)` has an effect: the first bug with that id exists and is alive. */
  predicate CanSpike(bugs: seq<Bug>, id: string) {
    var k := FirstIndexOf(bugs, id);
    k.Some? && bugs[k.value].isAlive
  }

  /** The logical phase the four flags and the level encode. */
  datatype Phase = Idle | Playing | Paused | LevelTransition | Over | Won

  function PhaseOf(s: GameState): Phase {
    if s.isGameOver then Over
    else if s.isGameWon then Won
    else if s.isPlaying then (if s.isPaused then Paused else Playing)
    else if s.currentLevel > 1 then LevelTransition
    else Idle
  }

  /** Bounds every reachable state keeps on the numeric fields. */
  predicate Valid(s: GameState) {
    && 1 <= s.currentLevel <= MaxLevel
    && s.score >= 0
    && s.timeLeft >= 0
  }

  /** At most one of game-over and game-won, and neither while playing. */
  predicate PhasesExclusive(s: GameState) {
    && !(s.isGameOver && s.isGameWon)
    && !(s.isPlaying && (s.isGameOver || s.isGameWon))
  }
}

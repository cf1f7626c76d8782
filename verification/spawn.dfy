/**
 * Batch generation of the bugs of a level (`generateBugs`). Every
 * `Math.random()` call is an input: the i-th bug consumes the seven draws of
 * `draws(i)`, in the order the store makes them.
 */
module Spawn {
  import opened GameModel

  datatype SpawnDraws = SpawnDraws(
    x: Draw,
    y: Draw,
    speed: Draw,
    velocityX: Draw,
    velocityY: Draw,
    targetX: Draw,
    targetY: Draw)

  /** `Math.random() * extent`: a uniform position in [0, extent). */
  function Scale(r: Draw, extent: real): (v: real)
    ensures extent > 0.0 ==> 0.0 <= v < extent
  {
    r * extent
  }

  /** `(Math.random() - 0.5) * 4`: an initial velocity component in [-2, 2). */
  function InitialVelocity(r: Draw): (v: real)
    ensures -2.0 <= v < 2.0
  {
    (r - 0.5) * 4.0
  }

  /** `base * (0.7 + Math.random() * 0.6)`: the base speed jittered by a factor in [0.7, 1.3). */
  function JitteredSpeed(r: Draw, base: real): (v: real)
    ensures base > 0.0 ==> 0.7 * base <= v < 1.3 * base
  {
    assert base > 0.0 ==> r * (0.6 * base) < 0.6 * base;
    base * (0.7 + r * 0.6)
  }

  /** The index-th bug of a level, built from its seven draws. */
  function SpawnBug(level: int, index: nat, d: SpawnDraws): (b: Bug)
    ensures b.isAlive
    ensures b.id == BugId(level, index)
    ensures 0.0 <= b.x < SpawnWidth && 0.0 <= b.y < SpawnHeight
    ensures 0.0 <= b.targetX < SpawnWidth && 0.0 <= b.targetY < SpawnHeight
    ensures -2.0 <= b.velocityX < 2.0 && -2.0 <= b.velocityY < 2.0
    ensures LevelSpeed(level) > 0.0 ==>
      0.7 * LevelSpeed(level) <= b.speed < 1.3 * LevelSpeed(level)
  {
    Bug(
      id := BugId(level, index),
      x := Scale(d.x, SpawnWidth),
      y := Scale(d.y, SpawnHeight),
      speed := JitteredSpeed(d.speed, LevelSpeed(level)),
      isAlive := true,
      velocityX := InitialVelocity(d.velocityX),
      velocityY := InitialVelocity(d.velocityY),
      targetX := Scale(d.targetX, SpawnWidth),
      targetY := Scale(d.targetY, SpawnHeight))
  }

  /** Number of bugs the loop of `generateBugs` creates: none for a negative count. */
  function SpawnCount(level: int): nat {
    if LevelBugCount(level) < 0 then 0 else LevelBugCount(level)
  }

  /** A fresh batch for `level`, independent of any earlier bugs. */
  function GenerateBugs(level: int, draws: nat -> SpawnDraws): (bugs: seq<Bug>)
    ensures |bugs| == SpawnCount(level)
    ensures level >= 1 ==> |bugs| == LevelBugCount(level)
    ensures forall i :: 0 <= i < |bugs| ==> bugs[i].isAlive && bugs[i].id == BugId(level, i)
    ensures forall i, j :: 0 <= i < j < |bugs| ==> bugs[i].id != bugs[j].id
    ensures forall i :: 0 <= i < |bugs| ==>
      0.0 <= bugs[i].x < SpawnWidth && 0.0 <= bugs[i].y < SpawnHeight
    ensures forall i :: 0 <= i < |bugs| ==>
      0.0 <= bugs[i].targetX < SpawnWidth && 0.0 <= bugs[i].targetY < SpawnHeight
    ensures forall i :: 0 <= i < |bugs| ==>
      -2.0 <= bugs[i].velocityX < 2.0 && -2.0 <= bugs[i].velocityY < 2.0
    ensures level >= 1 ==> forall i :: 0 <= i < |bugs| ==>
      0.7 * LevelSpeed(level) <= bugs[i].speed < 1.3 * LevelSpeed(level)
    ensures BugsRemaining(bugs) == |bugs|
  {
    var bugs := seq(SpawnCount(level), i requires 0 <= i => SpawnBug(level, i, draws(i)));
    assert forall i :: 0 <= i < |bugs| ==> bugs[i] == SpawnBug(level, i, draws(i));
    AllRemainingIffAllAlive(bugs);
    BugIdsDistinct(level);
    bugs
  }
}

/**
 * The per-frame movement step (`updateBugPositions`): every alive bug steers
 * toward its target, integrates its velocity, and is clamped to the play
 * area, bouncing off the wall it crossed.
 *
 * `Math.random()` draws are inputs (`draws(i)` for the i-th bug), and the
 * Euclidean length `Math.sqrt(dx*dx + dy*dy)` is the caller-supplied
 * `hypot`: nothing about it is assumed, because the bounds come from the
 * clamp alone.
 */
module Movement {
  import opened GameModel
  import Spawn

  datatype MoveDraws = MoveDraws(
    retargetX: Draw,
    retargetY: Draw,
    speedFactor: Draw,
    jitterX: Draw,
    jitterY: Draw,
    wallLeft: Draw,
    wallRight: Draw,
    wallTop: Draw,
    wallBottom: Draw)

  /** A bug closer than this to its target picks a new target. */
  const ArrivalDistance: real := 20.0

  function Abs(v: real): (a: real)
    ensures a >= 0.0 && (a == v || a == -v)
  {
    if v < 0.0 then -v else v
  }

  /** The bug lies in the box [0, width - 32] x [0, height - 32]. */
  predicate InArea(b: Bug, width: real, height: real) {
    0.0 <= b.x <= width - BugSize && 0.0 <= b.y <= height - BugSize
  }

  /**
   * Retarget when close, steer toward the target with a jittered speed, and
   * integrate the position (before any wall is considered).
   */
  function Steer(b: Bug, d: MoveDraws, hypot: (real, real) -> real, width: real, height: real): (r: Bug)
    ensures r.id == b.id && r.speed == b.speed && r.isAlive == b.isAlive
    ensures r.x == b.x + r.velocityX && r.y == b.y + r.velocityY
    ensures (hypot(b.targetX - b.x, b.targetY - b.y) >= ArrivalDistance
             && (b.targetX != b.x || b.targetY != b.y)) ==>
      r.targetX == b.targetX && r.targetY == b.targetY
    ensures r.targetX != b.targetX && width > BugSize ==> 0.0 <= r.targetX < width - BugSize
    ensures r.targetY != b.targetY && height > BugSize ==> 0.0 <= r.targetY < height - BugSize
  {
    var retarget :=
      hypot(b.targetX - b.x, b.targetY - b.y) < ArrivalDistance
      || (b.targetX == b.x && b.targetY == b.y);
    var tx := if retarget then Spawn.Scale(d.retargetX, width - BugSize) else b.targetX;
    var ty := if retarget then Spawn.Scale(d.retargetY, height - BugSize) else b.targetY;
    var dx, dy := tx - b.x, ty - b.y;
    var distance := hypot(dx, dy);
    var factor := 0.8 + d.speedFactor * 0.4;
    var vx := if distance > 0.0 then dx / distance * b.speed * factor + (d.jitterX - 0.5) * 0.5 else b.velocityX;
    var vy := if distance > 0.0 then dy / distance * b.speed * factor + (d.jitterY - 0.5) * 0.5 else b.velocityY;
    b.(targetX := tx, targetY := ty, velocityX := vx, velocityY := vy, x := b.x + vx, y := b.y + vy)
  }

  /** The two horizontal wall checks, in source order. */
  function ClampX(b: Bug, d: MoveDraws, width: real): (r: Bug)
    ensures r == b.(x := r.x, velocityX := r.velocityX, targetX := r.targetX)
    ensures width >= BugSize ==> 0.0 <= r.x <= width - BugSize
    ensures width >= BugSize && b.x < 0.0 ==> r.x == 0.0 && r.velocityX >= 0.0
    ensures b.x > width - BugSize ==> r.x == width - BugSize && r.velocityX <= 0.0
    ensures 0.0 <= b.x <= width - BugSize ==> r == b
  {
    var b1 :=
      if b.x < 0.0 then
        b.(x := 0.0, velocityX := Abs(b.velocityX), targetX := Spawn.Scale(d.wallLeft, width - BugSize))
      else b;
    if b1.x > width - BugSize then
      b1.(x := width - BugSize, velocityX := -Abs(b1.velocityX), targetX := Spawn.Scale(d.wallRight, width - BugSize))
    else b1
  }

  /** The two vertical wall checks, in source order. */
  function ClampY(b: Bug, d: MoveDraws, height: real): (r: Bug)
    ensures r == b.(y := r.y, velocityY := r.velocityY, targetY := r.targetY)
    ensures height >= BugSize ==> 0.0 <= r.y <= height - BugSize
    ensures height >= BugSize && b.y < 0.0 ==> r.y == 0.0 && r.velocityY >= 0.0
    ensures b.y > height - BugSize ==> r.y == height - BugSize && r.velocityY <= 0.0
    ensures 0.0 <= b.y <= height - BugSize ==> r == b
  {
    var b1 :=
      if b.y < 0.0 then
        b.(y := 0.0, velocityY := Abs(b.velocityY), targetY := Spawn.Scale(d.wallTop, height - BugSize))
      else b;
    if b1.y > height - BugSize then
      b1.(y := height - BugSize, velocityY := -Abs(b1.velocityY), targetY := Spawn.Scale(d.wallBottom, height - BugSize))
    else b1
  }

  /** One frame for one bug: dead bugs are skipped. */
  function StepBug(b: Bug, d: MoveDraws, hypot: (real, real) -> real, width: real, height: real): (r: Bug)
    ensures r.id == b.id && r.speed == b.speed && r.isAlive == b.isAlive
    ensures !b.isAlive ==> r == b
    ensures b.isAlive && width >= BugSize && height >= BugSize ==> InArea(r, width, height)
  {
    if !b.isAlive then b
    else ClampY(ClampX(Steer(b, d, hypot, width, height), d, width), d, height)
  }

  /** `updateBugPositions(width, height)`: one frame for the whole store. */
  function UpdateBugPositions(
    s: GameState, width: real, height: real,
    draws: nat -> MoveDraws, hypot: (real, real) -> real): (r: GameState)
    ensures !s.isPlaying || s.isPaused ==> r == s
    ensures r == s.(bugs := r.bugs)
    ensures |r.bugs| == |s.bugs|
    ensures forall i :: 0 <= i < |s.bugs| ==>
      r.bugs[i].id == s.bugs[i].id && r.bugs[i].isAlive == s.bugs[i].isAlive
      && r.bugs[i].speed == s.bugs[i].speed
    ensures forall i :: 0 <= i < |s.bugs| && !s.bugs[i].isAlive ==> r.bugs[i] == s.bugs[i]
    ensures s.isPlaying && !s.isPaused && width >= BugSize && height >= BugSize ==>
      forall i :: 0 <= i < |r.bugs| && r.bugs[i].isAlive ==> InArea(r.bugs[i], width, height)
    ensures BugsRemaining(r.bugs) == BugsRemaining(s.bugs)
  {
    if !s.isPlaying || s.isPaused then s
    else
      var moved := seq(|s.bugs|, i requires 0 <= i < |s.bugs| =>
        StepBug(s.bugs[i], draws(i), hypot, width, height));
      assert forall i :: 0 <= i < |moved| ==> moved[i] == StepBug(s.bugs[i], draws(i), hypot, width, height);
      SameAliveSameRemaining(s.bugs, moved);
      s.(bugs := moved)
  }

  /** Bug lists that agree on which bugs are alive have the same alive count. */
  lemma {:induction false} SameAliveSameRemaining(a: seq<Bug>, b: seq<Bug>)
    requires |a| == |b|
    requires forall i :: 0 <= i < |a| ==> a[i].isAlive == b[i].isAlive
    ensures BugsRemaining(a) == BugsRemaining(b)
    decreases |a|
  {
    if |a| > 0 {
      SameAliveSameRemaining(a[1..], b[1..]);
    }
  }
}

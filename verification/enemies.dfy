/** The `Enemy` sprite: a visual rectangle with a smaller hitbox that chases
    the player through the obstacles, an animation, and a death sequence
    (alive, then a silhouette for a fixed time, then removed). */
module Enemies {
  import opened Simulation
  import opened Geometry
  import opened Collision

  /** Frames advanced per second of simulated time. */
  const AnimationSpeed: real := 6.0
  /** Distance travelled per second. */
  const Speed: real := 300.0
  /** Milliseconds a dying enemy stays on screen. */
  const DeathDuration: int := 400
  /** How much narrower and shorter the hitbox is than the image. */
  const HitboxInflateW: real := -20.0
  const HitboxInflateH: real := -40.0

  /** The image an enemy shows: one of its animation frames, or the white
      silhouette of its first frame once it has been destroyed. */
  datatype Picture = Frame(index: nat) | Silhouette

  /** `deathTime == 0` means alive; any other value is the clock reading at
      which `destroy` was called. */
  datatype Enemy = Enemy(
    frames: seq<Size>,
    frameIndex: real,
    image: Picture,
    rect: Rect,
    hitbox: Rect,
    direction: Vec,
    deathTime: int)

  predicate Alive(e: Enemy)
  {
    e.deathTime == 0
  }

  /** What every enemy satisfies from construction on: it has frames, the
      image rectangle and the hitbox share a centre, and the hitbox keeps its
      inset size. */
  predicate Valid(e: Enemy)
  {
    && |e.frames| > 0
    && e.rect.Center() == e.hitbox.Center()
    && e.hitbox.w == e.rect.w + HitboxInflateW
    && e.hitbox.h == e.rect.h + HitboxInflateH
  }

  /** `int(x)` on a float: truncation toward zero. */
  function Trunc(x: real): (t: int)
    ensures 0.0 <= x ==> 0 <= t && t as real <= x < t as real + 1.0
    ensures x < 0.0 ==> t <= 0 && t as real - 1.0 < x <= t as real
  {
    if x >= 0.0 then x.Floor else -((-x).Floor)
  }

  /** `int(frame_index) % len(frames)`; Python's `%` with a positive divisor
      agrees with Dafny's. */
  function FrameSlot(frameIndex: real, count: nat): (k: nat)
    requires count > 0
    ensures k < count
  {
    Trunc(frameIndex) % count
  }

  /** During the first cycle the frames are shown in order, one per whole unit
      of the frame index. */
  lemma FrameSlotFirstCycle(frameIndex: real, count: nat)
    requires count > 0
    requires 0.0 <= frameIndex < count as real
    ensures FrameSlot(frameIndex, count) == frameIndex.Floor
  {
  }

  lemma FloorUnique(x: real, a: int, b: int)
    requires a as real <= x < a as real + 1.0
    requires b as real <= x < b as real + 1.0
    ensures a == b
  {
  }

  /** The remainder is determined by any division with a remainder in range. */
  lemma ModUnique(x: int, n: int, q: int, r: int)
    requires n > 0 && 0 <= r < n && x == q * n + r
    ensures x % n == r
  {
    var q0 := x / n;
    var r0 := x % n;
    assert x == q0 * n + r0;
    assert (q - q0) * n == r0 - r;
    if q > q0 {
      MulAtLeast(q - q0, n);
    } else if q < q0 {
      MulAtLeast(q0 - q, n);
    }
  }

  lemma MulAtLeast(k: int, n: int)
    requires k >= 1 && n > 0
    ensures k * n >= n
  {
    assert k * n == (k - 1) * n + n;
    assert (k - 1) * n >= 0;
  }

  lemma ModShift(t: int, n: int)
    requires n > 0
    ensures (t + n) % n == t % n
  {
    assert t == (t / n) * n + t % n;
    assert t + n == (t / n + 1) * n + t % n;
    ModUnique(t + n, n, t / n + 1, t % n);
  }

  /** Advancing the frame index by the number of frames shows the same frame
      again: the animation loops. */
  lemma FrameSlotPeriodic(frameIndex: real, count: nat)
    requires count > 0 && frameIndex >= 0.0
    ensures FrameSlot(frameIndex + count as real, count) == FrameSlot(frameIndex, count)
  {
    var t := Trunc(frameIndex);
    var later := frameIndex + count as real;
    assert (t + count) as real <= later < (t + count) as real + 1.0;
    FloorUnique(later, Trunc(later), t + count);
    ModShift(t, count);
  }

  /** `Enemy(pos, frames, ...)`. Reading `frames[0]` raises `IndexError` on an
      empty list, so construction yields no enemy then. */
  function NewEnemy(pos: Vec, frames: seq<Size>): (r: Option<Enemy>)
    ensures r.None? <==> |frames| == 0
    ensures r.Some? ==> Valid(r.value) && Alive(r.value)
    ensures r.Some? ==> r.value.image == Frame(0) && r.value.frameIndex == 0.0
    ensures r.Some? ==> r.value.rect.Center() == pos && r.value.hitbox.Center() == pos
    ensures r.Some? ==> r.value.rect.w == frames[0].w && r.value.rect.h == frames[0].h
    ensures r.Some? ==> r.value.frames == frames && r.value.direction == Zero
  {
    if |frames| == 0 then
      None
    else
      var rect := RectAtCenter(pos, frames[0]);
      Some(Enemy(frames, 0.0, Frame(0), rect, rect.Inflate(HitboxInflateW, HitboxInflateH), Zero, 0))
  }

  /** `animate(dt)`: advance the frame index and show the frame it selects. */
  function Animate(e: Enemy, dt: real): (r: Enemy)
    requires |e.frames| > 0
    ensures r.image.Frame? && r.image.index < |r.frames|
    ensures r.image.index == FrameSlot(r.frameIndex, |r.frames|)
    ensures r.frameIndex == e.frameIndex + AnimationSpeed * dt
    ensures dt >= 0.0 ==> r.frameIndex >= e.frameIndex
    ensures r == e.(frameIndex := r.frameIndex, image := r.image)
    ensures Valid(e) ==> Valid(r)
  {
    var index := e.frameIndex + AnimationSpeed * dt;
    e.(frameIndex := index, image := Frame(FrameSlot(index, |e.frames|)))
  }

  /** How far an enemy heading in `direction` travels in `dt` seconds if nothing stops it. */
  function Stride(direction: Vec, dt: real): Vec
  {
    direction.Scale(Speed * dt)
  }

  /** The hitbox after shifting it by `dx` along x and resolving horizontal collisions. */
  function SlideX(hitbox: Rect, dx: real, direction: Vec, obstacles: seq<Rect>): Rect
  {
    Pass(hitbox.(x := hitbox.x + dx), obstacles, Horizontal, direction)
  }

  /** The hitbox after shifting it by `dy` along y and resolving vertical collisions. */
  function SlideY(hitbox: Rect, dy: real, direction: Vec, obstacles: seq<Rect>): Rect
  {
    Pass(hitbox.(y := hitbox.y + dy), obstacles, Vertical, direction)
  }

  /** The direction `move` computes toward the player, given the unit vector
      that `normalize()` returns for the offset between the two centres. */
  function Chase(e: Enemy, playerCenter: Vec, unit: Vec): (d: Vec)
    requires playerCenter != e.rect.Center() ==> SameSigns(unit, playerCenter.Minus(e.rect.Center()))
    ensures SameSigns(d, playerCenter.Minus(e.rect.Center()))
    ensures playerCenter == e.rect.Center() ==> d == Zero
    ensures playerCenter != e.rect.Center() ==> d == unit
  {
    Heading(playerCenter.Minus(e.rect.Center()), unit)
  }

  /** `move(dt)`: head for the player, slide along x and resolve, slide along y
      and resolve, then put the image rectangle's centre on the hitbox's. */
  function Move(e: Enemy, playerCenter: Vec, unit: Vec, dt: real, obstacles: seq<Rect>): (r: Enemy)
    requires playerCenter != e.rect.Center() ==> SameSigns(unit, playerCenter.Minus(e.rect.Center()))
    ensures r.direction == Chase(e, playerCenter, unit)
    ensures SameSigns(r.direction, playerCenter.Minus(e.rect.Center()))
    ensures r.rect.Center() == r.hitbox.Center()
    ensures r.rect.w == e.rect.w && r.rect.h == e.rect.h
    ensures r.hitbox.w == e.hitbox.w && r.hitbox.h == e.hitbox.h
    ensures r.frames == e.frames && r.frameIndex == e.frameIndex && r.image == e.image
    ensures r.deathTime == e.deathTime
    ensures playerCenter == e.rect.Center() ==> r.hitbox == e.hitbox
    ensures |obstacles| == 0 ==> r.hitbox.Center() == e.hitbox.Center().Plus(Stride(r.direction, dt))
    ensures Valid(e) ==> Valid(r)
  {
    var d := Chase(e, playerCenter, unit);
    var stride := Stride(d, dt);
    var h := SlideY(SlideX(e.hitbox, stride.x, d, obstacles), stride.y, d, obstacles);
    e.(direction := d, hitbox := h, rect := e.rect.WithCenter(h.Center()))
  }

  /** Each coordinate of the hitbox after `move` is either the free slide along
      that axis or has the hitbox's leading edge on the trailing edge of some
      obstacle: the vertical pass never disturbs what the horizontal pass
      decided. */
  lemma MoveSlidesOrSnaps(e: Enemy, playerCenter: Vec, unit: Vec, dt: real, obstacles: seq<Rect>)
    requires playerCenter != e.rect.Center() ==> SameSigns(unit, playerCenter.Minus(e.rect.Center()))
    ensures var r := Move(e, playerCenter, unit, dt, obstacles);
            || r.hitbox.x == e.hitbox.x + Stride(r.direction, dt).x
            || exists i :: 0 <= i < |obstacles| && SnappedTo(r.hitbox, obstacles[i], Horizontal, r.direction)
    ensures var r := Move(e, playerCenter, unit, dt, obstacles);
            var afterX := SlideX(e.hitbox, Stride(r.direction, dt).x, r.direction, obstacles);
            || r.hitbox.y == afterX.y + Stride(r.direction, dt).y
            || exists i :: 0 <= i < |obstacles| && SnappedTo(r.hitbox, obstacles[i], Vertical, r.direction)
  {
    var d := Chase(e, playerCenter, unit);
    var stride := Stride(d, dt);
    var movedX := e.hitbox.(x := e.hitbox.x + stride.x);
    var afterX := Pass(movedX, obstacles, Horizontal, d);
    var movedY := afterX.(y := afterX.y + stride.y);
    var afterY := Pass(movedY, obstacles, Vertical, d);
    var r := Move(e, playerCenter, unit, dt, obstacles);
    assert r.direction == d && r.hitbox == afterY;
    assert afterY.x == afterX.x && afterY.w == afterX.w;
    PassEndsSnapped(movedX, obstacles, Horizontal, d);
    PassEndsSnapped(movedY, obstacles, Vertical, d);
    if afterX != movedX {
      var i :| 0 <= i < |obstacles| && SnappedTo(afterX, obstacles[i], Horizontal, d);
      assert SnappedTo(afterY, obstacles[i], Horizontal, d);
    }
  }

  /** With non-negative sizes, collisions never carry the enemy past where a
      free slide would have taken it. */
  lemma MoveNeverOvershoots(e: Enemy, playerCenter: Vec, unit: Vec, dt: real, obstacles: seq<Rect>)
    requires playerCenter != e.rect.Center() ==> SameSigns(unit, playerCenter.Minus(e.rect.Center()))
    requires HasNonNegativeSize(e.hitbox)
    requires forall i :: 0 <= i < |obstacles| ==> HasNonNegativeSize(obstacles[i])
    ensures var r := Move(e, playerCenter, unit, dt, obstacles);
            && (r.direction.x > 0.0 ==> r.hitbox.x <= e.hitbox.x + Stride(r.direction, dt).x)
            && (r.direction.x < 0.0 ==> r.hitbox.x >= e.hitbox.x + Stride(r.direction, dt).x)
  {
    var d := Chase(e, playerCenter, unit);
    var stride := Stride(d, dt);
    var movedX := e.hitbox.(x := e.hitbox.x + stride.x);
    var afterX := Pass(movedX, obstacles, Horizontal, d);
    var r := Move(e, playerCenter, unit, dt, obstacles);
    assert r.direction == d;
    assert r.hitbox == SlideY(afterX, stride.y, d, obstacles);
    assert r.hitbox.x == afterX.x;
    assert HasNonNegativeSize(movedX);
    PassPushesBack(movedX, obstacles, Horizontal, d);
  }

  /** The vertical counterpart: with non-negative sizes, the vertical pass never
      carries the enemy past the free vertical slide from where the horizontal
      pass left it. */
  lemma MoveNeverOvershootsVertically(e: Enemy, playerCenter: Vec, unit: Vec, dt: real, obstacles: seq<Rect>)
    requires playerCenter != e.rect.Center() ==> SameSigns(unit, playerCenter.Minus(e.rect.Center()))
    requires HasNonNegativeSize(e.hitbox)
    requires forall i :: 0 <= i < |obstacles| ==> HasNonNegativeSize(obstacles[i])
    ensures var r := Move(e, playerCenter, unit, dt, obstacles);
            var afterX := SlideX(e.hitbox, Stride(r.direction, dt).x, r.direction, obstacles);
            && (r.direction.y > 0.0 ==> r.hitbox.y <= afterX.y + Stride(r.direction, dt).y)
            && (r.direction.y < 0.0 ==> r.hitbox.y >= afterX.y + Stride(r.direction, dt).y)
  {
    var d := Chase(e, playerCenter, unit);
    var stride := Stride(d, dt);
    var movedX := e.hitbox.(x := e.hitbox.x + stride.x);
    var afterX := Pass(movedX, obstacles, Horizontal, d);
    var movedY := afterX.(y := afterX.y + stride.y);
    var r := Move(e, playerCenter, unit, dt, obstacles);
    assert r.direction == d;
    assert r.hitbox == Pass(movedY, obstacles, Vertical, d);
    assert HasNonNegativeSize(movedY);
    PassPushesBack(movedY, obstacles, Vertical, d);
  }

  /** `move` really resolves collisions: with non-negative sizes, when the
      enemy heads right (left) and the hitbox, slid along x, overlaps some
      obstacle, the final hitbox ends strictly left (right) of that slide. */
  lemma MoveResolvesHorizontalOverlap(e: Enemy, playerCenter: Vec, unit: Vec, dt: real, obstacles: seq<Rect>, i: int)
    requires playerCenter != e.rect.Center() ==> SameSigns(unit, playerCenter.Minus(e.rect.Center()))
    requires HasNonNegativeSize(e.hitbox)
    requires forall j :: 0 <= j < |obstacles| ==> HasNonNegativeSize(obstacles[j])
    requires 0 <= i < |obstacles|
    ensures var r := Move(e, playerCenter, unit, dt, obstacles);
            var slid := e.hitbox.(x := e.hitbox.x + Stride(r.direction, dt).x);
            && (r.direction.x > 0.0 && Collides(obstacles[i], slid) ==> r.hitbox.x < slid.x)
            && (r.direction.x < 0.0 && Collides(obstacles[i], slid) ==> r.hitbox.x > slid.x)
  {
    var d := Chase(e, playerCenter, unit);
    var stride := Stride(d, dt);
    var movedX := e.hitbox.(x := e.hitbox.x + stride.x);
    var afterX := Pass(movedX, obstacles, Horizontal, d);
    var r := Move(e, playerCenter, unit, dt, obstacles);
    assert r.direction == d;
    assert r.hitbox == SlideY(afterX, stride.y, d, obstacles);
    assert r.hitbox.x == afterX.x;
    assert HasNonNegativeSize(movedX);
    if Collides(obstacles[i], movedX) && d.x != 0.0 {
      PassPushesBackStrictly(movedX, obstacles, Horizontal, d, i);
    }
  }

  /** The vertical counterpart: when the enemy heads down (up) and the hitbox,
      slid along y from where the horizontal pass left it, overlaps some
      obstacle, the final hitbox ends strictly above (below) that slide. */
  lemma MoveResolvesVerticalOverlap(e: Enemy, playerCenter: Vec, unit: Vec, dt: real, obstacles: seq<Rect>, i: int)
    requires playerCenter != e.rect.Center() ==> SameSigns(unit, playerCenter.Minus(e.rect.Center()))
    requires HasNonNegativeSize(e.hitbox)
    requires forall j :: 0 <= j < |obstacles| ==> HasNonNegativeSize(obstacles[j])
    requires 0 <= i < |obstacles|
    ensures var r := Move(e, playerCenter, unit, dt, obstacles);
            var afterX := SlideX(e.hitbox, Stride(r.direction, dt).x, r.direction, obstacles);
            var slid := afterX.(y := afterX.y + Stride(r.direction, dt).y);
            && (r.direction.y > 0.0 && Collides(obstacles[i], slid) ==> r.hitbox.y < slid.y)
            && (r.direction.y < 0.0 && Collides(obstacles[i], slid) ==> r.hitbox.y > slid.y)
  {
    var d := Chase(e, playerCenter, unit);
    var stride := Stride(d, dt);
    var movedX := e.hitbox.(x := e.hitbox.x + stride.x);
    var afterX := Pass(movedX, obstacles, Horizontal, d);
    var movedY := afterX.(y := afterX.y + stride.y);
    var r := Move(e, playerCenter, unit, dt, obstacles);
    assert r.direction == d;
    assert r.hitbox == Pass(movedY, obstacles, Vertical, d);
    assert HasNonNegativeSize(movedY);
    if Collides(obstacles[i], movedY) && d.y != 0.0 {
      PassPushesBackStrictly(movedY, obstacles, Vertical, d, i);
    }
  }

  /** `destroy()`: start the death timer and show the silhouette. */
  function Destroy(e: Enemy, now: int): (r: Enemy)
    ensures r.deathTime == now && r.image == Silhouette
    ensures now != 0 ==> !Alive(r)
    ensures r.rect == e.rect && r.hitbox == e.hitbox && r.frameIndex == e.frameIndex
    ensures r.frames == e.frames && r.direction == e.direction
    ensures Valid(e) ==> Valid(r)
  {
    e.(deathTime := now, image := Silhouette)
  }

  /** `death_timer()`: whether the enemy is removed at clock reading `now`. */
  function DeathTimer(e: Enemy, now: int): (removed: bool)
    ensures removed <==> now >= e.deathTime + DeathDuration
  {
    Expired(now, e.deathTime, DeathDuration)
  }

  /** `update(dt)`: an alive enemy moves and animates; a dying one only polls
      its death timer. */
  function Update(e: Enemy, now: int, dt: real, playerCenter: Vec, unit: Vec, obstacles: seq<Rect>): (r: Updated<Enemy>)
    requires |e.frames| > 0
    requires Alive(e) && playerCenter != e.rect.Center() ==> SameSigns(unit, playerCenter.Minus(e.rect.Center()))
    ensures Alive(e) ==> !r.removed
    ensures Alive(e) ==> r.entity == Animate(Move(e, playerCenter, unit, dt, obstacles), dt)
    ensures Alive(e) ==> r.entity.image.Frame? && r.entity.image.index < |r.entity.frames|
    ensures Alive(e) && dt >= 0.0 ==> r.entity.frameIndex >= e.frameIndex
    ensures !Alive(e) ==> r.entity == e
    ensures !Alive(e) ==> (r.removed <==> now - e.deathTime >= DeathDuration)
    ensures r.entity.deathTime == e.deathTime
    ensures Valid(e) ==> Valid(r.entity)
  {
    if Alive(e) then
      Updated(Animate(Move(e, playerCenter, unit, dt, obstacles), dt), false)
    else
      Updated(e, DeathTimer(e, now))
  }

  /** An enemy destroyed at a non-zero time `t` is shown frozen at every update
      before `t + 400` and is removed by the first update at or after it. */
  lemma {:induction false} DyingEnemyLifecycle(e: Enemy, t: int, now: int, dt: real, playerCenter: Vec, unit: Vec, obstacles: seq<Rect>)
    requires |e.frames| > 0 && t != 0
    ensures var dying := Destroy(e, t);
            var r := Update(dying, now, dt, playerCenter, unit, obstacles);
            && r.entity == dying
            && r.entity.image == Silhouette
            && (r.removed <==> now >= t + DeathDuration)
    ensures Update(Destroy(e, t), t + DeathDuration - 1, dt, playerCenter, unit, obstacles).removed == false
    ensures Update(Destroy(e, t), t + DeathDuration, dt, playerCenter, unit, obstacles).removed == true
  {
  }

  /** The `death_time == 0` sentinel: `destroy` called when the clock reads 0
      shows the silhouette but leaves the enemy alive, so it keeps moving and is
      never removed by `update`. */
  lemma DestroyAtTimeZeroKeepsAlive(e: Enemy, now: int, dt: real, playerCenter: Vec, unit: Vec, obstacles: seq<Rect>)
    requires |e.frames| > 0
    requires playerCenter != e.rect.Center() ==> SameSigns(unit, playerCenter.Minus(e.rect.Center()))
    ensures Alive(Destroy(e, 0))
    ensures !Update(Destroy(e, 0), now, dt, playerCenter, unit, obstacles).removed
  {
  }
}

/** The `Bullet` sprite: flies in a straight line at constant speed and is
    removed a fixed time after it was fired. */
module Bullets {
  import opened Simulation
  import opened Geometry

  /** Distance travelled per second. */
  const BulletSpeed: real := 1200.0
  /** Milliseconds a bullet lives. */
  const Lifetime: int := 1000

  datatype Bullet = Bullet(rect: Rect, direction: Vec, spawnTime: int)

  /** How far a bullet heading in `direction` travels in `dt` seconds. */
  function Flight(direction: Vec, dt: real): Vec
  {
    direction.Scale(BulletSpeed * dt)
  }

  /** `Bullet(surf, pos, direction, ...)` fired when the clock reads `now`. */
  function NewBullet(size: Size, pos: Vec, direction: Vec, now: int): (b: Bullet)
    ensures b.rect.Center() == pos && b.rect.w == size.w && b.rect.h == size.h
    ensures b.direction == direction && b.spawnTime == now
  {
    Bullet(RectAtCenter(pos, size), direction, now)
  }

  /** `update(dt)`: move the centre, then remove the bullet if it has lived
      its lifetime. The move happens on the removing update too. */
  function Update(b: Bullet, now: int, dt: real): (r: Updated<Bullet>)
    ensures r.entity.rect.Center() == b.rect.Center().Plus(Flight(b.direction, dt))
    ensures r.entity.rect.w == b.rect.w && r.entity.rect.h == b.rect.h
    ensures r.entity.direction == b.direction && r.entity.spawnTime == b.spawnTime
    ensures r.removed <==> now >= b.spawnTime + Lifetime
  {
    var moved := b.(rect := b.rect.WithCenter(b.rect.Center().Plus(Flight(b.direction, dt))));
    Updated(moved, Expired(now, b.spawnTime, Lifetime))
  }

  /** Two updates move a bullet as far as one update over the combined time. */
  lemma UpdatesAccumulate(b: Bullet, now1: int, dt1: real, now2: int, dt2: real)
    ensures var once := Update(b, now1, dt1).entity;
            Update(once, now2, dt2).entity.rect.Center()
              == Update(b, now2, dt1 + dt2).entity.rect.Center()
  {
    var d := b.direction;
    assert Flight(d, dt1 + dt2) == Flight(d, dt1).Plus(Flight(d, dt2)) by {
      assert BulletSpeed * (dt1 + dt2) == BulletSpeed * dt1 + BulletSpeed * dt2;
      assert d.x * (BulletSpeed * (dt1 + dt2)) == d.x * (BulletSpeed * dt1) + d.x * (BulletSpeed * dt2);
      assert d.y * (BulletSpeed * (dt1 + dt2)) == d.y * (BulletSpeed * dt1) + d.y * (BulletSpeed * dt2);
    }
  }

  /** A bullet fired at time `t` is still there at the update at `t + 999` and
      is removed by the update at `t + 1000`; whether an update removes it
      depends only on the clock, not on how far it has flown. */
  lemma BulletLifetime(size: Size, pos: Vec, direction: Vec, t: int, dt: real)
    ensures !Update(NewBullet(size, pos, direction, t), t + Lifetime - 1, dt).removed
    ensures Update(NewBullet(size, pos, direction, t), t + Lifetime, dt).removed
    ensures forall now :: now < t + Lifetime ==> !Update(NewBullet(size, pos, direction, t), now, dt).removed
  {
  }
}

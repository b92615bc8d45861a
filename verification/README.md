# Vampire-Shooter sprite rules in Dafny

A model of the per-frame simulation rules of the sprites in `sprites.py` of
the Vampire-Shooter game: how an `Enemy` chases the player and resolves its
hitbox against the static collision sprites one axis at a time, how it
animates, how its death sequence runs (alive, silhouette for 400 ms,
removed), and how a `Bullet` flies and expires after 1000 ms.

Everything is immutable data and pure functions:

- `simulation.dfy` (module `Simulation`): `Option`, the result of one
  `update` call (`Updated`: new state plus whether `kill()` happened), and the
  polling timer `Expired(now, start, duration)` behind both `get_ticks()`
  comparisons.
- `geometry.dfy` (module `Geometry`): vectors and pygame's float rectangle
  `FRect` over `real` (edges, edge and centre setters that keep the size,
  `inflate`, `get_frect(center=...)`), `colliderect`, and the guarded
  normalisation "zero vector when the length is 0".
- `collision.dfy` (module `Collision`): `Enemy.collisions` as a fold over the
  obstacle rectangles: `Resolve` is the loop body for one obstacle, `Pass` the
  whole loop.
- `enemies.dfy` (module `Enemies`): construction, `animate`, `move`,
  `destroy`, `death_timer` and `update` of `Enemy`.
- `bullets.dfy` (module `Bullets`): construction and `update` of `Bullet`.

Interfaces to the outside are parameters: the clock reading
`pygame.time.get_ticks()` is `now: int` (milliseconds), the frame time is
`dt: real` (seconds), `kill()` is the `removed` flag of `Updated`, the
collision sprites are the sequence of their rectangles in group order, the
player is its centre, and images are their sizes (`Size`) or, for the
enemy's current image, a `Picture` (a frame index or the silhouette).

`colliderect` follows pygame's rule: a rectangle with zero width or height
collides with nothing, negative sizes are folded over, and the overlap test is
strict, so rectangles that only share an edge do not collide.

An empty frame list is not degraded to a harmless no-op: `Enemy.__init__`
reads `frames[0]` and fails, so `NewEnemy` returns `None` for an empty frame
list, and every later operation takes a non-empty list. Because
`death_time == 0` is the "alive" sentinel, a `destroy()` at clock reading 0
leaves the enemy alive, which `DestroyAtTimeZeroKeepsAlive` states.

## Model

| member | source | states |
|---|---|---|
| Simulation.ExpiredExactlyAtDuration | sprites.py:145-147 | a polling timer is not expired one millisecond before `start + duration`, is expired at it, and stays expired afterwards |
| Geometry.CollidesIffCommonInteriorPoint | sprites.py:125 | `colliderect` holds exactly when some point lies strictly inside both rectangles, so touching edges and zero-size rectangles never collide |
| Geometry.Heading | sprites.py:106-112 | the chase direction is the zero vector when the offset to the player is zero, and otherwise has the same component signs as that offset |
| Collision.Resolve | sprites.py:123-135 | for one obstacle: no overlap or a zero direction component leaves the hitbox alone; otherwise the right edge goes to the obstacle's left (x > 0), the left to its right (x < 0), the bottom to its top (y > 0) or the top to its bottom (y < 0); only the pass's own axis coordinate changes |
| Collision.Pass | sprites.py:123-135 | a horizontal pass keeps y, width and height; a vertical pass keeps x, width and height; a zero direction component on the pass's axis leaves the hitbox unchanged whatever it overlaps |
| Collision.PassConcat | sprites.py:124-125 | a pass over two runs of obstacles equals the pass over the second run starting from where the first left the hitbox |
| Collision.PassWithoutContact | sprites.py:124-125 | when no obstacle overlaps the hitbox (in particular when there are none) the pass is the identity |
| Collision.PassIgnoresFinalMiss | sprites.py:124-125 | an extra obstacle at the end that the resulting hitbox does not overlap has no effect |
| Collision.PassEndsSnapped | sprites.py:123-135 | after a pass the hitbox is either unchanged or has its leading edge on the trailing edge of one of the obstacles |
| Collision.ResolveSeparates | sprites.py:125-135 | with non-negative sizes, resolving an overlap moves the hitbox strictly back against its direction and leaves it no longer overlapping that obstacle |
| Collision.PassPushesBack | sprites.py:123-135 | with non-negative sizes, a whole pass never moves the hitbox further in its direction of motion |
| Collision.PassPushesBackStrictly | sprites.py:123-135 | with non-negative sizes and a non-zero direction component, if any obstacle overlaps the starting hitbox the pass ends strictly behind the start |
| Collision.PassMayEndOverlapping | sprites.py:123-135 | a concrete pass in which a later obstacle pushes the hitbox into an earlier one it had not touched: one pass does not guarantee separation from all obstacles |
| Enemies.NewEnemy | sprites.py:80-98 | an empty frame list gives no enemy (construction raises); otherwise the enemy keeps the given frames, has a zero direction, is alive, shows frame 0 with index 0, its rectangle has the first frame's size centred on `pos`, and its hitbox shares that centre and is 20 narrower and 40 shorter |
| Enemies.Trunc | sprites.py:102 | `int()` of a float truncates toward zero: the result is the integer within distance 1 of the argument on the zero side |
| Enemies.FrameSlot | sprites.py:102 | the selected frame index is always within `[0, len(frames))` |
| Enemies.FrameSlotFirstCycle | sprites.py:100-102 | while the frame index is in `[0, len(frames))` the frame shown is its whole part, so frames play in order |
| Enemies.FrameSlotPeriodic | sprites.py:100-102 | advancing a non-negative frame index by the number of frames shows the same frame again |
| Enemies.Animate | sprites.py:100-102 | the frame index advances by exactly `6 * dt`, the new image is a frame in range selected by the new frame index, the frame index never decreases for `dt >= 0`, and nothing else changes |
| Enemies.Chase | sprites.py:106-112 | the direction toward the player is the normalised offset supplied by the caller when the centres differ, keeps the signs of that offset, and is zero when the centres coincide |
| Enemies.Move | sprites.py:104-119 | `move` stores the chase direction; afterwards the image rectangle's centre equals the hitbox's centre, sizes are kept, animation and timer fields are untouched, an enemy already on the player's centre stays put, and with no obstacles the hitbox is translated by exactly `direction * 300 * dt` |
| Enemies.MoveSlidesOrSnaps | sprites.py:114-118 | each hitbox coordinate after `move` is the free slide along that axis or sits snapped against some obstacle, and the vertical pass never undoes the horizontal decision |
| Enemies.MoveNeverOvershoots | sprites.py:115-116 | with non-negative sizes, collisions never take the enemy past the point a free horizontal slide would reach |
| Enemies.MoveNeverOvershootsVertically | sprites.py:117-118 | with non-negative sizes, the vertical pass never takes the enemy past the free vertical slide from where the horizontal pass left it |
| Enemies.MoveResolvesHorizontalOverlap | sprites.py:115-116 | with non-negative sizes, when the x-slid hitbox overlaps an obstacle and the enemy heads right (left), the final hitbox ends strictly left (right) of the slide |
| Enemies.MoveResolvesVerticalOverlap | sprites.py:117-118 | with non-negative sizes, when the y-slid hitbox overlaps an obstacle and the enemy heads down (up), the final hitbox ends strictly above (below) the slide |
| Enemies.Destroy | sprites.py:137-143 | `destroy` records `now` as the death time and shows the silhouette, leaving position, frames, direction and animation state alone; for `now != 0` the enemy is no longer alive |
| Enemies.DeathTimer | sprites.py:145-147 | the death timer fires exactly when at least 400 ms have passed since the death time |
| Enemies.Update | sprites.py:150-155 | an alive enemy moves and then animates and is never removed, shows a frame in range and its frame index does not decrease for `dt >= 0`; a dying enemy is returned unchanged and removed iff `now - death_time >= 400`; the death time never changes and the enemy invariant is kept |
| Enemies.DyingEnemyLifecycle | sprites.py:137-155 | an enemy destroyed at `t != 0` stays frozen as a silhouette, is still present at `t + 399` and is removed at `t + 400` |
| Enemies.DestroyAtTimeZeroKeepsAlive | sprites.py:137-155 | `destroy` at clock reading 0 leaves `death_time` at the alive sentinel, so `update` never removes that enemy |
| Bullets.NewBullet | sprites.py:63-71 | a new bullet is centred on `pos` with the surface's size, the given direction and the current time as spawn time |
| Bullets.Update | sprites.py:73-76 | each update moves the centre by exactly `direction * 1200 * dt` keeping size, direction and spawn time, and removes the bullet iff `now - spawn_time >= 1000` |
| Bullets.UpdatesAccumulate | sprites.py:74 | two updates move the bullet as far as one update over the summed frame time |
| Bullets.BulletLifetime | sprites.py:67-76 | a bullet fired at `t` is present at every update before `t + 1000` (in particular at `t + 999`) and removed at `t + 1000` |

## Left out

- `Gun` (sprites.py:22-59): its aim uses `atan2`, `degrees`, square roots and pygame's image rotation and flipping, which are floating-point and image operations.
- Geometry.Heading: states only that the normalised vector keeps the component signs of the offset, not that it has unit length, because the length is a square root and the collision rules depend only on the signs.
- Enemies.Chase: returns the caller's unit vector for a non-zero offset, but, as for `Geometry.Heading`, only its component signs are constrained, not its unit length.
- Floating-point rounding: coordinates, `dt` and the frame index are exact reals, so the model does not reproduce float rounding in `FRect` arithmetic.
- `destroy`'s silhouette (sprites.py:141-143) is a mask-to-surface image operation; the model records only that the silhouette is shown.
- `Sprite` and `CollisionSprite` (sprites.py:7-19) only hold an image and a rectangle; the obstacles are their rectangles.
- Sprite groups: membership, `kill()` and the order in which groups update their sprites are represented only by the `removed` flag and by the obstacle sequence's order.
- `main.py`: map loading, window, event and clock setup, and the render loop are I/O and library wiring.
- `Player` and the `AllSprites` render group (camera offset and draw order) are not part of this model.

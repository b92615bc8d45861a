/** Axis-separated collision resolution of `Enemy.collisions`: one pass over
    the obstacle rectangles along one axis, snapping the moving hitbox's
    leading edge onto the trailing edge of every obstacle it overlaps. */
module Collision {
  import opened Geometry

  datatype Axis = Horizontal | Vertical

  /** The component of the moving direction along `axis`. */
  function Component(direction: Vec, axis: Axis): real
  {
    match axis
    case Horizontal => direction.x
    case Vertical => direction.y
  }

  /** The coordinate of the rectangle's corner along `axis`. */
  function Position(r: Rect, axis: Axis): real
  {
    match axis
    case Horizontal => r.x
    case Vertical => r.y
  }

  /** `r` and `s` agree on everything except the coordinate along `axis`. */
  predicate OnlyMovedAlong(r: Rect, s: Rect, axis: Axis)
  {
    match axis
    case Horizontal => r.y == s.y && r.w == s.w && r.h == s.h
    case Vertical => r.x == s.x && r.w == s.w && r.h == s.h
  }

  /** `r` sits with its leading edge (for the direction's sign on `axis`) on the
      trailing edge of `obstacle`. */
  predicate SnappedTo(r: Rect, obstacle: Rect, axis: Axis, direction: Vec)
  {
    match axis
    case Horizontal =>
      || (direction.x > 0.0 && r.Right() == obstacle.Left())
      || (direction.x < 0.0 && r.Left() == obstacle.Right())
    case Vertical =>
      || (direction.y > 0.0 && r.Bottom() == obstacle.Top())
      || (direction.y < 0.0 && r.Top() == obstacle.Bottom())
  }

  /** The body of the `for sprite in collision_sprites` loop, for one obstacle. */
  function Resolve(hitbox: Rect, obstacle: Rect, axis: Axis, direction: Vec): (r: Rect)
    ensures OnlyMovedAlong(r, hitbox, axis)
    ensures !Collides(obstacle, hitbox) ==> r == hitbox
    ensures Component(direction, axis) == 0.0 ==> r == hitbox
    ensures Collides(obstacle, hitbox) && Component(direction, axis) != 0.0 ==>
              SnappedTo(r, obstacle, axis, direction)
    ensures Collides(obstacle, hitbox) && axis == Horizontal && direction.x > 0.0 ==>
              r.Right() == obstacle.Left()
    ensures Collides(obstacle, hitbox) && axis == Horizontal && direction.x < 0.0 ==>
              r.Left() == obstacle.Right()
    ensures Collides(obstacle, hitbox) && axis == Vertical && direction.y > 0.0 ==>
              r.Bottom() == obstacle.Top()
    ensures Collides(obstacle, hitbox) && axis == Vertical && direction.y < 0.0 ==>
              r.Top() == obstacle.Bottom()
  {
    if !Collides(obstacle, hitbox) then
      hitbox
    else
      match axis
      case Horizontal =>
        var pushed := if direction.x > 0.0 then hitbox.WithRight(obstacle.Left()) else hitbox;
        if direction.x < 0.0 then pushed.WithLeft(obstacle.Right()) else pushed
      case Vertical =>
        var pushed := if direction.y > 0.0 then hitbox.WithBottom(obstacle.Top()) else hitbox;
        if direction.y < 0.0 then pushed.WithTop(obstacle.Bottom()) else pushed
  }

  /** `self.collisions(axis)`: the obstacles are visited in order, each one tested
      against the hitbox as the earlier obstacles left it. */
  function Pass(hitbox: Rect, obstacles: seq<Rect>, axis: Axis, direction: Vec): (r: Rect)
    ensures OnlyMovedAlong(r, hitbox, axis)
    ensures Component(direction, axis) == 0.0 ==> r == hitbox
    decreases |obstacles|
  {
    if |obstacles| == 0 then
      hitbox
    else
      Pass(Resolve(hitbox, obstacles[0], axis, direction), obstacles[1..], axis, direction)
  }

  /** Passing over two runs of obstacles one after the other is one pass over
      their concatenation. */
  lemma {:induction false} PassConcat(hitbox: Rect, a: seq<Rect>, b: seq<Rect>, axis: Axis, direction: Vec)
    ensures Pass(hitbox, a + b, axis, direction) == Pass(Pass(hitbox, a, axis, direction), b, axis, direction)
    decreases |a|
  {
    if |a| == 0 {
      assert a + b == b;
    } else {
      assert (a + b)[1..] == a[1..] + b;
      PassConcat(Resolve(hitbox, a[0], axis, direction), a[1..], b, axis, direction);
    }
  }

  /** An obstacle the hitbox does not overlap has no effect, so a pass over
      obstacles none of which overlaps the hitbox (in particular, over no
      obstacles at all) leaves it where it is. */
  lemma {:induction false} PassWithoutContact(hitbox: Rect, obstacles: seq<Rect>, axis: Axis, direction: Vec)
    requires forall i :: 0 <= i < |obstacles| ==> !Collides(obstacles[i], hitbox)
    ensures Pass(hitbox, obstacles, axis, direction) == hitbox
    decreases |obstacles|
  {
    if |obstacles| > 0 {
      assert Resolve(hitbox, obstacles[0], axis, direction) == hitbox;
      PassWithoutContact(hitbox, obstacles[1..], axis, direction);
    }
  }

  /** Adding an obstacle at the end that the hitbox, as the pass leaves it,
      does not overlap changes nothing. */
  lemma PassIgnoresFinalMiss(hitbox: Rect, obstacles: seq<Rect>, last: Rect, axis: Axis, direction: Vec)
    requires !Collides(last, Pass(hitbox, obstacles, axis, direction))
    ensures Pass(hitbox, obstacles + [last], axis, direction) == Pass(hitbox, obstacles, axis, direction)
  {
    var before := Pass(hitbox, obstacles, axis, direction);
    PassConcat(hitbox, obstacles, [last], axis, direction);
    assert Pass(before, [last], axis, direction) == Pass(Resolve(before, last, axis, direction), [], axis, direction);
  }

  /** After a pass the hitbox is either untouched or snapped against one of the
      obstacles. */
  lemma {:induction false} PassEndsSnapped(hitbox: Rect, obstacles: seq<Rect>, axis: Axis, direction: Vec)
    ensures var r := Pass(hitbox, obstacles, axis, direction);
            r == hitbox || exists i :: 0 <= i < |obstacles| && SnappedTo(r, obstacles[i], axis, direction)
    decreases |obstacles|
  {
    if |obstacles| > 0 {
      var next := Resolve(hitbox, obstacles[0], axis, direction);
      var r := Pass(next, obstacles[1..], axis, direction);
      PassEndsSnapped(next, obstacles[1..], axis, direction);
      if r == next {
        if next != hitbox {
          assert SnappedTo(r, obstacles[0], axis, direction);
        }
      } else {
        var j :| 0 <= j < |obstacles[1..]| && SnappedTo(r, obstacles[1..][j], axis, direction);
        assert SnappedTo(r, obstacles[j + 1], axis, direction);
      }
    }
  }

  /** With non-negative sizes, resolving against an overlapped obstacle moves the
      hitbox back against its motion and leaves the two no longer overlapping. */
  lemma ResolveSeparates(hitbox: Rect, obstacle: Rect, axis: Axis, direction: Vec)
    requires HasNonNegativeSize(hitbox) && HasNonNegativeSize(obstacle)
    requires Collides(obstacle, hitbox) && Component(direction, axis) != 0.0
    ensures !Collides(obstacle, Resolve(hitbox, obstacle, axis, direction))
    ensures Component(direction, axis) > 0.0 ==> Position(Resolve(hitbox, obstacle, axis, direction), axis) < Position(hitbox, axis)
    ensures Component(direction, axis) < 0.0 ==> Position(Resolve(hitbox, obstacle, axis, direction), axis) > Position(hitbox, axis)
  {
  }

  /** With non-negative sizes, a pass never carries the hitbox further in the
      direction of motion: collisions only push it back. */
  lemma {:induction false} PassPushesBack(hitbox: Rect, obstacles: seq<Rect>, axis: Axis, direction: Vec)
    requires HasNonNegativeSize(hitbox)
    requires forall i :: 0 <= i < |obstacles| ==> HasNonNegativeSize(obstacles[i])
    ensures Component(direction, axis) > 0.0 ==> Position(Pass(hitbox, obstacles, axis, direction), axis) <= Position(hitbox, axis)
    ensures Component(direction, axis) < 0.0 ==> Position(Pass(hitbox, obstacles, axis, direction), axis) >= Position(hitbox, axis)
    decreases |obstacles|
  {
    if |obstacles| > 0 {
      var next := Resolve(hitbox, obstacles[0], axis, direction);
      if Collides(obstacles[0], hitbox) && Component(direction, axis) != 0.0 {
        ResolveSeparates(hitbox, obstacles[0], axis, direction);
      }
      PassPushesBack(next, obstacles[1..], axis, direction);
    }
  }

  /** With non-negative sizes, if any obstacle overlaps the hitbox the pass
      starts from, the pass ends strictly behind that start: either an earlier
      obstacle already pushed it back, or this one does. */
  lemma {:induction false} PassPushesBackStrictly(hitbox: Rect, obstacles: seq<Rect>, axis: Axis, direction: Vec, i: int)
    requires HasNonNegativeSize(hitbox)
    requires forall j :: 0 <= j < |obstacles| ==> HasNonNegativeSize(obstacles[j])
    requires 0 <= i < |obstacles| && Collides(obstacles[i], hitbox)
    requires Component(direction, axis) != 0.0
    ensures Component(direction, axis) > 0.0 ==> Position(Pass(hitbox, obstacles, axis, direction), axis) < Position(hitbox, axis)
    ensures Component(direction, axis) < 0.0 ==> Position(Pass(hitbox, obstacles, axis, direction), axis) > Position(hitbox, axis)
    decreases |obstacles|
  {
    var next := Resolve(hitbox, obstacles[0], axis, direction);
    if Collides(obstacles[0], hitbox) {
      ResolveSeparates(hitbox, obstacles[0], axis, direction);
      PassPushesBack(next, obstacles[1..], axis, direction);
    } else {
      assert next == hitbox;
      assert obstacles[1..][i - 1] == obstacles[i];
      PassPushesBackStrictly(next, obstacles[1..], axis, direction, i - 1);
    }
  }

  /** One pass resolves the overlaps one obstacle at a time, so it does not
      promise that the hitbox ends up clear of every obstacle: a later obstacle
      can push it back into an earlier one it had not touched. */
  lemma PassMayEndOverlapping()
    ensures var earlier := Rect(-8.0, 0.0, 2.0, 10.0);
            var later := Rect(2.0, 0.0, 18.0, 10.0);
            var hitbox := Rect(0.0, 0.0, 10.0, 10.0);
            var r := Pass(hitbox, [earlier, later], Horizontal, Vec(1.0, 0.0));
            !Collides(earlier, hitbox) && r == Rect(-8.0, 0.0, 10.0, 10.0) && Collides(earlier, r)
  {
    var earlier := Rect(-8.0, 0.0, 2.0, 10.0);
    var later := Rect(2.0, 0.0, 18.0, 10.0);
    var hitbox := Rect(0.0, 0.0, 10.0, 10.0);
    var d := Vec(1.0, 0.0);
    assert Resolve(hitbox, earlier, Horizontal, d) == hitbox;
    assert Resolve(hitbox, later, Horizontal, d) == Rect(-8.0, 0.0, 10.0, 10.0);
    assert [earlier, later][1..] == [later];
    assert Pass(hitbox, [earlier, later], Horizontal, d) == Pass(hitbox, [later], Horizontal, d);
    assert Pass(hitbox, [later], Horizontal, d) == Pass(Rect(-8.0, 0.0, 10.0, 10.0), [], Horizontal, d);
  }
}

/** Plane geometry used by the sprites: 2-D vectors and pygame's float
    rectangle `FRect` (top-left corner plus size). Coordinates are `real`:
    the rules only add, multiply, halve and assign them. */
module Geometry {

  datatype Vec = Vec(x: real, y: real)
  {
    function Plus(o: Vec): Vec { Vec(x + o.x, y + o.y) }
    function Minus(o: Vec): Vec { Vec(x - o.x, y - o.y) }
    function Scale(k: real): Vec { Vec(x * k, y * k) }
  }

  const Zero: Vec := Vec(0.0, 0.0)

  function Min(a: real, b: real): real { if a <= b then a else b }
  function Max(a: real, b: real): real { if a <= b then b else a }

  /** -1, 0 or 1 according to the sign of `v`. */
  function Sign(v: real): int
  {
    if v > 0.0 then 1 else if v < 0.0 then -1 else 0
  }

  /** An `FRect`. Its size may be negative (`inflate` can make it so); every
      edge setter keeps the size and translates the rectangle on one axis. */
  datatype Rect = Rect(x: real, y: real, w: real, h: real)
  {
    function Left(): real { x }
    function Right(): real { x + w }
    function Top(): real { y }
    function Bottom(): real { y + h }
    function Center(): Vec { Vec(x + w / 2.0, y + h / 2.0) }

    /** Extent on each axis with a negative size folded over, as colliderect sees it. */
    function MinX(): real { Min(x, x + w) }
    function MaxX(): real { Max(x, x + w) }
    function MinY(): real { Min(y, y + h) }
    function MaxY(): real { Max(y, y + h) }

    /** `rect.left = v` */
    function WithLeft(v: real): (r: Rect)
      ensures r.Left() == v && r.Right() == v + w
      ensures r.y == y && r.w == w && r.h == h
    {
      this.(x := v)
    }

    /** `rect.right = v` */
    function WithRight(v: real): (r: Rect)
      ensures r.Right() == v && r.Left() == v - w
      ensures r.y == y && r.w == w && r.h == h
    {
      this.(x := v - w)
    }

    /** `rect.top = v` */
    function WithTop(v: real): (r: Rect)
      ensures r.Top() == v && r.Bottom() == v + h
      ensures r.x == x && r.w == w && r.h == h
    {
      this.(y := v)
    }

    /** `rect.bottom = v` */
    function WithBottom(v: real): (r: Rect)
      ensures r.Bottom() == v && r.Top() == v - h
      ensures r.x == x && r.w == w && r.h == h
    {
      this.(y := v - h)
    }

    /** `rect.center = c` */
    function WithCenter(c: Vec): (r: Rect)
      ensures r.Center() == c
      ensures r.w == w && r.h == h
    {
      this.(x := c.x - w / 2.0, y := c.y - h / 2.0)
    }

    /** `rect.inflate(dx, dy)`: grow (or, for negative amounts, shrink) about the centre. */
    function Inflate(dx: real, dy: real): (r: Rect)
      ensures r.Center() == Center()
      ensures r.w == w + dx && r.h == h + dy
      ensures r.Left() - Left() == Right() - r.Right()
      ensures r.Top() - Top() == Bottom() - r.Bottom()
    {
      Rect(x - dx / 2.0, y - dy / 2.0, w + dx, h + dy)
    }
  }

  /** The size of an image surface; the rules never look at its pixels. */
  datatype Size = Size(w: real, h: real)

  /** `surface.get_frect(center=c)` for a surface of the given size. */
  function RectAtCenter(c: Vec, size: Size): (r: Rect)
    ensures r.Center() == c && r.w == size.w && r.h == size.h
  {
    Rect(c.x - size.w / 2.0, c.y - size.h / 2.0, size.w, size.h)
  }

  predicate HasNonNegativeSize(r: Rect)
  {
    r.w >= 0.0 && r.h >= 0.0
  }

  /** `a.colliderect(b)`: rectangles of zero width or height never collide;
      otherwise their extents must overlap strictly on both axes, so
      rectangles that only share an edge do not collide. */
  predicate Collides(a: Rect, b: Rect)
  {
    && a.w != 0.0 && a.h != 0.0 && b.w != 0.0 && b.h != 0.0
    && a.MinX() < b.MaxX() && a.MinY() < b.MaxY()
    && a.MaxX() > b.MinX() && a.MaxY() > b.MinY()
  }

  /** Reference notion of overlap: `p` lies strictly inside `r`. */
  predicate Inside(p: Vec, r: Rect)
  {
    r.MinX() < p.x < r.MaxX() && r.MinY() < p.y < r.MaxY()
  }

  /** colliderect agrees with the textbook meaning of "the interiors of the two
      rectangles intersect", in both directions. */
  lemma CollidesIffCommonInteriorPoint(a: Rect, b: Rect)
    ensures Collides(a, b) <==> exists p :: Inside(p, a) && Inside(p, b)
  {
    if Collides(a, b) {
      var p := Vec((Max(a.MinX(), b.MinX()) + Min(a.MaxX(), b.MaxX())) / 2.0,
                   (Max(a.MinY(), b.MinY()) + Min(a.MaxY(), b.MaxY())) / 2.0);
      assert Inside(p, a) && Inside(p, b);
    }
    if p :| Inside(p, a) && Inside(p, b) {
      assert a.MinX() < a.MaxX() && a.MinY() < a.MaxY();
      assert b.MinX() < b.MaxX() && b.MinY() < b.MaxY();
    }
  }

  /** What the rules rely on from `Vector2.normalize()`: a non-zero vector is
      turned into one pointing the same way, so every component keeps its sign. */
  predicate SameSigns(u: Vec, v: Vec)
  {
    Sign(u.x) == Sign(v.x) && Sign(u.y) == Sign(v.y)
  }

  /** The guarded normalisation `v.normalize() if v.length() > 0 else Vector2(0, 0)`.
      A vector has positive length exactly when it is not the zero vector; the
      square root inside `normalize()` is supplied by the caller as `unit`. */
  function Heading(v: Vec, unit: Vec): (d: Vec)
    requires v != Zero ==> SameSigns(unit, v)
    ensures v == Zero ==> d == Zero
    ensures v != Zero ==> d == unit
    ensures SameSigns(d, v)
  {
    if v != Zero then unit else Zero
  }
}

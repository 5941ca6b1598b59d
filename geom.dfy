/**
 * The integer geometry the code relies on: Go's `image.Point` and
 * `image.Rectangle` (half-open `[min, max)` boxes) with the operations the
 * motion and image code call. These belong to Go's standard library; they are
 * written out here so that the model's rectangles behave as the source's do.
 */
module Geom {
  import opened Ints

  datatype Point = Point(x: int, y: int)

  datatype Rectangle = Rectangle(min: Point, max: Point) {
    function Dx(): int { max.x - min.x }
    function Dy(): int { max.y - min.y }

    /** Size() in Go: the extent as a point. */
    function Size(): Point { Point(Dx(), Dy()) }

    /** True when the box holds no point. */
    predicate Empty() { min.x >= max.x || min.y >= max.y }

    /** `p.In(r)` in Go. */
    predicate Has(p: Point) { min.x <= p.x < max.x && min.y <= p.y < max.y }

    /** Min <= Max on both axes, as `image.Rect` always produces. */
    predicate Canonical() { min.x <= max.x && min.y <= max.y }

    /** The box `r` lies inside this one (bound-wise). */
    predicate Encloses(r: Rectangle) {
      min.x <= r.min.x && r.max.x <= max.x && min.y <= r.min.y && r.max.y <= max.y
    }

    /**
     * `r.Inset(n)`: shrink by n on every side; an axis too short for that
     * collapses to its midpoint (Go's truncating division).
     */
    function Inset(n: int): (r: Rectangle)
      ensures Dx() >= 2 * n ==> r.min.x == min.x + n && r.max.x == max.x - n
      ensures Dy() >= 2 * n ==> r.min.y == min.y + n && r.max.y == max.y - n
    {
      var (x0, x1) := if Dx() < 2 * n then (Quo(min.x + max.x, 2), Quo(min.x + max.x, 2)) else (min.x + n, max.x - n);
      var (y0, y1) := if Dy() < 2 * n then (Quo(min.y + max.y, 2), Quo(min.y + max.y, 2)) else (min.y + n, max.y - n);
      Rectangle(Point(x0, y0), Point(x1, y1))
    }

    /** `r.Union(s)`: the smallest box holding both; an empty operand is ignored. */
    function Union(s: Rectangle): (u: Rectangle)
      ensures !Empty() && !s.Empty() ==> u.Encloses(this) && u.Encloses(s)
      ensures Empty() ==> u == s
      ensures !Empty() && s.Empty() ==> u == this
    {
      if Empty() then s
      else if s.Empty() then this
      else Rectangle(Point(if min.x < s.min.x then min.x else s.min.x,
                           if min.y < s.min.y then min.y else s.min.y),
                     Point(if max.x > s.max.x then max.x else s.max.x,
                           if max.y > s.max.y then max.y else s.max.y))
    }

    /** `r.Intersect(s)`: the common part, or ZR when there is none. */
    function Intersect(s: Rectangle): (r: Rectangle)
      ensures r.Empty() ==> r == ZR
      ensures forall p :: r.Has(p) <==> Has(p) && s.Has(p)
    {
      var c := Rectangle(Point(if min.x < s.min.x then s.min.x else min.x,
                               if min.y < s.min.y then s.min.y else min.y),
                         Point(if max.x > s.max.x then s.max.x else max.x,
                               if max.y > s.max.y then s.max.y else max.y));
      if c.Empty() then ZR else c
    }
  }

  /** `image.ZR`, the zero rectangle. */
  const ZR := Rectangle(Point(0, 0), Point(0, 0))

  /** `image.Rect(x0, y0, x1, y1)`: the coordinates are swapped if needed so that Min <= Max. */
  function Rect(x0: int, y0: int, x1: int, y1: int): (r: Rectangle)
    ensures r.Canonical()
    ensures x0 <= x1 && y0 <= y1 ==> r == Rectangle(Point(x0, y0), Point(x1, y1))
  {
    Rectangle(Point(if x0 <= x1 then x0 else x1, if y0 <= y1 then y0 else y1),
              Point(if x0 <= x1 then x1 else x0, if y0 <= y1 then y1 else y0))
  }

  /** Growing a non-empty box by one pixel and shrinking it back gives the box again. */
  lemma InsetRoundTrip(r: Rectangle)
    requires r.Canonical()
    ensures r.Inset(-1).Inset(1) == r
  {
  }
}

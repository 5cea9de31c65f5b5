// Points and rectangles, as crates/kael/src/geometry.rs defines them, over exact coordinates.
module Geometry {
  datatype Point = Point(x: real, y: real) {
    function Min(other: Point): Point {
      Point(if x <= other.x then x else other.x, if y <= other.y then y else other.y)
    }

    function Max(other: Point): Point {
      Point(if x > other.x then x else other.x, if y > other.y then y else other.y)
    }
  }

  datatype Size = Size(width: real, height: real)

  /** A rectangle. Nothing keeps the size from being zero or negative, and nothing below asks for that. */
  datatype Bounds = Bounds(origin: Point, size: Size) {
    function BottomRight(): Point {
      Point(origin.x + size.width, origin.y + size.height)
    }

    predicate Intersects(other: Bounds) {
      var mine := BottomRight();
      var theirs := other.BottomRight();
      && origin.x < theirs.x && mine.x > other.origin.x
      && origin.y < theirs.y && mine.y > other.origin.y
    }

    function Union(other: Bounds): Bounds {
      FromCorners(origin.Min(other.origin), BottomRight().Max(other.BottomRight()))
    }

    function HalfPerimeter(): real {
      size.width + size.height
    }
  }

  function FromCorners(topLeft: Point, bottomRight: Point): Bounds {
    Bounds(topLeft, Size(bottomRight.x - topLeft.x, bottomRight.y - topLeft.y))
  }

  /** `inner` reaches past `outer` on no side. */
  ghost predicate Within(inner: Bounds, outer: Bounds) {
    && outer.origin.x <= inner.origin.x && outer.origin.y <= inner.origin.y
    && inner.BottomRight().x <= outer.BottomRight().x
    && inner.BottomRight().y <= outer.BottomRight().y
  }

  /** Union is the least rectangle around both arguments. */
  lemma UnionIsLeast(a: Bounds, b: Bounds)
    ensures Within(a, a.Union(b)) && Within(b, a.Union(b))
    ensures forall c :: Within(a, c) && Within(b, c) ==> Within(a.Union(b), c)
  {
  }

  /** The pruning step of a search: whatever meets a rectangle meets every rectangle around it. */
  lemma IntersectsIsMonotone(a: Bounds, inner: Bounds, outer: Bounds)
    requires Within(inner, outer) && a.Intersects(inner)
    ensures a.Intersects(outer)
  {
  }

  ghost predicate IsProper(b: Bounds) {
    b.size.width > 0.0 && b.size.height > 0.0
  }

  /** Strictly inside, on no edge. */
  ghost predicate Inside(p: Point, b: Bounds) {
    && b.origin.x < p.x < b.origin.x + b.size.width
    && b.origin.y < p.y < b.origin.y + b.size.height
  }

  ghost predicate SharePoint(a: Bounds, b: Bounds) {
    exists p :: Inside(p, a) && Inside(p, b)
  }

  /** The middle of what two intervals have in common. */
  lemma MiddleOfOverlap(a: real, a': real, b: real, b': real) returns (m: real)
    requires a < a' && b < b' && a < b' && b < a'
    ensures a < m < a' && b < m < b'
  {
    var lo, hi := if a < b then b else a, if a' < b' then a' else b';
    m := (lo + hi) / 2.0;
  }

  /** Two rectangles share an interior point if and only if they have positive sizes and `intersects` says so. */
  lemma SharingIsIntersecting(a: Bounds, b: Bounds)
    ensures SharePoint(a, b) <==> a.Intersects(b) && IsProper(a) && IsProper(b)
  {
    if a.Intersects(b) && IsProper(a) && IsProper(b) {
      var x := MiddleOfOverlap(a.origin.x, a.BottomRight().x, b.origin.x, b.BottomRight().x);
      var y := MiddleOfOverlap(a.origin.y, a.BottomRight().y, b.origin.y, b.BottomRight().y);
      assert Inside(Point(x, y), a) && Inside(Point(x, y), b);
    }
  }

  /** `a` lies to the left of the vertical line at `x`, or on it, and `b` to its right, or on it. */
  ghost predicate UprightBetween(x: real, a: Bounds, b: Bounds) {
    a.origin.x + a.size.width <= x <= b.origin.x
  }

  ghost predicate LevelBetween(y: real, a: Bounds, b: Bounds) {
    a.origin.y + a.size.height <= y <= b.origin.y
  }

  /** For rectangles of any size, `intersects` fails if and only if an upright or level line runs between the two;
      rectangles that touch are not enough. */
  lemma IntersectsUnlessSeparated(a: Bounds, b: Bounds)
    ensures a.Intersects(b) <==>
              && (forall x :: !UprightBetween(x, a, b) && !UprightBetween(x, b, a))
              && (forall y :: !LevelBetween(y, a, b) && !LevelBetween(y, b, a))
  {
    assert UprightBetween(b.origin.x, a, b) || b.origin.x < a.BottomRight().x;
    assert UprightBetween(a.origin.x, b, a) || a.origin.x < b.BottomRight().x;
    assert LevelBetween(b.origin.y, a, b) || b.origin.y < a.BottomRight().y;
    assert LevelBetween(a.origin.y, b, a) || a.origin.y < b.BottomRight().y;
  }

  /** The least half perimeter of a rectangle around both. */
  ghost predicate IsCost(cost: real, a: Bounds, b: Bounds) {
    && (exists c :: Within(a, c) && Within(b, c) && c.HalfPerimeter() == cost)
    && forall c :: Within(a, c) && Within(b, c) ==> cost <= c.HalfPerimeter()
  }

  lemma UnionCosts(a: Bounds, b: Bounds)
    ensures forall cost :: IsCost(cost, a, b) <==> cost == a.Union(b).HalfPerimeter()
  {
    var u := a.Union(b);
    UnionIsLeast(a, b);
    forall c | Within(a, c) && Within(b, c) ensures u.HalfPerimeter() <= c.HalfPerimeter() {
      assert Within(u, c);
    }
    forall cost | IsCost(cost, a, b) ensures cost == u.HalfPerimeter() {
    }
    assert IsCost(u.HalfPerimeter(), a, b);
  }
}

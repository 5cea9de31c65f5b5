// Euclidean distance from a point to a curve, as the least over all points of the curve, and what it comes to
// for a line and a circle.
module Euclid {
  import opened Arithmetic
  import opened Geometry

  ghost predicate IsSquareRoot(sqrt: real -> real) {
    forall x :: x >= 0.0 ==> sqrt(x) >= 0.0 && sqrt(x) * sqrt(x) == x
  }

  ghost function Norm(a: real, b: real): real {
    Times(a, a) + Times(b, b)
  }

  ghost function SquaredDistance(p: Point, q: Point): real {
    Norm(p.x - q.x, p.y - q.y)
  }

  /** No point of the curve is nearer to `p` than `d`. */
  ghost predicate NoneNearer(d: real, p: Point, curve: Point -> bool) {
    forall q :: curve(q) ==> SquaredDistance(p, q) >= Times(d, d)
  }

  /** The distance from `p` to the curve: no point of the curve is nearer, and one is as near. */
  ghost predicate IsDistance(d: real, p: Point, curve: Point -> bool) {
    d >= 0.0 && NoneNearer(d, p, curve) && exists q :: curve(q) && SquaredDistance(p, q) == Times(d, d)
  }

  lemma SquaresCompare(a: real, b: real)
    requires a >= 0.0 && b >= 0.0
    ensures a * a <= b * b <==> a <= b
  {
    if a < b {
      assert b * b - a * a == (b - a) * (b + a);
      ProductIsPositive(b - a, b + a);
    } else if b < a {
      assert a * a - b * b == (a - b) * (a + b);
      ProductIsPositive(a - b, a + b);
    }
  }

  lemma DistanceIsUnique(d: real, e: real, p: Point, curve: Point -> bool)
    requires IsDistance(d, p, curve) && IsDistance(e, p, curve)
    ensures d == e
  {
    SquaresCompare(d, e);
    SquaresCompare(e, d);
  }

  lemma NormSign(a: real, b: real)
    ensures Norm(a, b) >= 0.0
    ensures Norm(a, b) == 0.0 <==> a == 0.0 && b == 0.0
  {
    hide Times;
    SquareSign(a);
    SquareSign(b);
    assert Times(0.0, 0.0) == 0.0 by { TimesBelow(0.0, 0.0); }
  }

  lemma SquareOfAbs(d: real)
    ensures Times(Abs(d), Abs(d)) == Times(d, d)
  {
  }

  /** The squared product of two lengths splits into inner and outer product. */
  lemma Lagrange(x: real, y: real, a: real, b: real)
    ensures Times(Norm(a, b), Norm(x, y)) == Times(a * x + b * y, a * x + b * y) + Times(a * y - b * x, a * y - b * x)
  {
  }

  // ----- A line -----

  /** The point reached from `a` after `t` times the way to `b`. */
  ghost function Toward(a: Point, b: Point, t: real): Point {
    Point(a.x + t * (b.x - a.x), a.y + t * (b.y - a.y))
  }

  ghost predicate OnLine(q: Point, a: Point, b: Point) {
    exists t :: q == Toward(a, b, t)
  }

  ghost function Line(a: Point, b: Point): Point -> bool {
    q => OnLine(q, a, b)
  }

  /** Walking along the line leaves the outer product with its direction as it is. */
  lemma AlongLine(a: Point, b: Point, p: Point, t: real) returns (inner: real, outer: real)
    ensures outer == (b.x - a.x) * (p.y - a.y) - (b.y - a.y) * (p.x - a.x)
    ensures inner == (b.x - a.x) * (p.x - a.x) + (b.y - a.y) * (p.y - a.y) - t * SquaredDistance(b, a)
    ensures SquaredDistance(b, a) * SquaredDistance(p, Toward(a, b, t)) == Times(inner, inner) + Times(outer, outer)
  {
    var ex, ey, vx, vy := b.x - a.x, b.y - a.y, p.x - a.x, p.y - a.y;
    var q := Toward(a, b, t);
    inner := ex * (p.x - q.x) + ey * (p.y - q.y);
    outer := ex * (p.y - q.y) - ey * (p.x - q.x);
    Lagrange(p.x - q.x, p.y - q.y, ex, ey);
    InnerFalls(ex, ey, vx, vy, t);
  }

  lemma InnerFalls(ex: real, ey: real, vx: real, vy: real, t: real)
    ensures ex * (vx - t * ex) + ey * (vy - t * ey) == ex * vx + ey * vy - t * (ex * ex + ey * ey)
    ensures ex * (vy - t * ey) - ey * (vx - t * ex) == ex * vy - ey * vx
  {
  }

  lemma CancelAtLeast(scale: real, x: real, y: real)
    requires scale > 0.0 && scale * x >= scale * y
    ensures x >= y
  {
    if x < y {
      ProductIsPositive(scale, y - x);
    }
  }

  lemma CancelEqual(scale: real, x: real, y: real)
    requires scale > 0.0 && scale * x == scale * y
    ensures x == y
  {
    CancelAtLeast(scale, x, y);
    CancelAtLeast(scale, y, x);
  }

  lemma SquareOfQuotient(outer: real, d: real, len: real)
    requires d * len == outer || d * len == -outer
    ensures Times(len, len) * Times(d, d) == Times(outer, outer)
  {
    assert (d * len) * (d * len) == Times(len, len) * Times(d, d);
  }

  lemma LineIsNoNearer(a: Point, b: Point, p: Point, d: real, t: real)
    requires a != b
    requires SquaredDistance(b, a) * Times(d, d)
          == Times((b.x - a.x) * (p.y - a.y) - (b.y - a.y) * (p.x - a.x), (b.x - a.x) * (p.y - a.y) - (b.y - a.y) * (p.x - a.x))
    ensures SquaredDistance(p, Toward(a, b, t)) >= Times(d, d)
  {
    hide Times, Norm, Toward;
    NormSign(b.x - a.x, b.y - a.y);
    var inner, outer := AlongLine(a, b, p, t);
    SquareSign(inner);
    CancelAtLeast(SquaredDistance(b, a), SquaredDistance(p, Toward(a, b, t)), Times(d, d));
  }

  lemma LineIsAsNear(a: Point, b: Point, p: Point, d: real) returns (t: real)
    requires a != b
    requires SquaredDistance(b, a) * Times(d, d)
          == Times((b.x - a.x) * (p.y - a.y) - (b.y - a.y) * (p.x - a.x), (b.x - a.x) * (p.y - a.y) - (b.y - a.y) * (p.x - a.x))
    ensures SquaredDistance(p, Toward(a, b, t)) == Times(d, d)
  {
    hide Times, Norm, Toward;
    NormSign(b.x - a.x, b.y - a.y);
    var dot := (b.x - a.x) * (p.x - a.x) + (b.y - a.y) * (p.y - a.y);
    t := dot / SquaredDistance(b, a);
    assert t * SquaredDistance(b, a) == dot;
    var inner, outer := AlongLine(a, b, p, t);
    assert Times(inner, inner) == 0.0 by { TimesBelow(0.0, 0.0); }
    CancelEqual(SquaredDistance(b, a), SquaredDistance(p, Toward(a, b, t)), Times(d, d));
  }

  /** The outer product with the direction of a line, divided by its length, is the distance to the line. */
  lemma DistanceToLine(a: Point, b: Point, p: Point, d: real, len: real)
    requires a != b && Times(len, len) == SquaredDistance(b, a)
    requires d * len == (b.x - a.x) * (p.y - a.y) - (b.y - a.y) * (p.x - a.x)
          || d * len == -((b.x - a.x) * (p.y - a.y) - (b.y - a.y) * (p.x - a.x))
    ensures IsDistance(Abs(d), p, Line(a, b))
  {
    hide Times, Norm, Toward;
    SquareOfQuotient((b.x - a.x) * (p.y - a.y) - (b.y - a.y) * (p.x - a.x), d, len);
    SquareOfAbs(d);
    forall q | OnLine(q, a, b) ensures SquaredDistance(p, q) >= Times(d, d) {
      var t :| q == Toward(a, b, t);
      LineIsNoNearer(a, b, p, d, t);
    }
    var t := LineIsAsNear(a, b, p, d);
    assert OnLine(Toward(a, b, t), a, b);
  }

  // ----- A circle -----

  ghost predicate OnCircle(q: Point, c: Point, r: real) {
    SquaredDistance(q, c) == Times(r, r)
  }

  ghost function CircleAt(c: Point, r: real): Point -> bool {
    q => OnCircle(q, c, r)
  }

  lemma ProductsCompare(a: real, a': real, b: real, b': real)
    requires 0.0 <= a <= a' && 0.0 <= b <= b'
    ensures Times(a, b) <= Times(a', b')
  {
    ProductIsNonnegative(a' - a, b);
    ProductIsNonnegative(a', b' - b);
    assert a' * b' - a * b == (a' - a) * b + a' * (b' - b);
  }

  /** The inner product is at most the product of the lengths. */
  lemma CauchySchwarz(x: real, y: real, s: real, a: real, b: real, r: real)
    requires s >= 0.0 && r >= 0.0 && Norm(x, y) <= Times(s, s) && Norm(a, b) <= Times(r, r)
    ensures a * x + b * y <= s * r
  {
    hide Times, Norm;
    var dot, outer := a * x + b * y, a * y - b * x;
    Lagrange(x, y, a, b);
    SquareSign(outer);
    NormSign(x, y);
    NormSign(a, b);
    SquareSign(s);
    SquareSign(r);
    ProductsCompare(Norm(a, b), Times(r, r), Norm(x, y), Times(s, s));
    SquareOfScaled(s, r);
    ProductIsNonnegative(s, r);
    if dot > 0.0 {
      TimesCompare(dot, s * r);
    }
  }

  lemma TimesCompare(a: real, b: real)
    requires a >= 0.0 && b >= 0.0
    ensures Times(a, a) <= Times(b, b) <==> a <= b
  {
    SquaresCompare(a, b);
  }

  lemma SquareOfScaled(k: real, s: real)
    ensures Times(Times(s, s), Times(k, k)) == Times(k * s, k * s)
    ensures Times(Times(k, k), Times(s, s)) == Times(k * s, k * s)
  {
  }

  lemma SquareOfDifference(x: real, y: real, a: real, b: real)
    ensures Norm(x - a, y - b) == Norm(x, y) + Norm(a, b) - 2.0 * (a * x + b * y)
  {
  }

  /** Two lengths differ by at most the length of the difference. */
  lemma LengthsDifferLess(x: real, y: real, s: real, a: real, b: real, r: real)
    requires s >= 0.0 && r >= 0.0 && Norm(x, y) == Times(s, s) && Norm(a, b) == Times(r, r)
    ensures Norm(x - a, y - b) >= Times(r - s, r - s)
  {
    CauchySchwarz(x, y, s, a, b, r);
    SquareOfDifference(x, y, a, b);
    assert Times(r - s, r - s) == Times(r, r) + Times(s, s) - 2.0 * (s * r);
  }

  lemma NormScales(k: real, x: real, y: real)
    ensures Norm(k * x, k * y) == Times(k, k) * Norm(x, y)
  {
  }

  lemma CircleIsAsNear(c: Point, r: real, p: Point, s: real) returns (q: Point)
    requires r >= 0.0 && s >= 0.0 && Times(s, s) == SquaredDistance(p, c)
    ensures OnCircle(q, c, r) && SquaredDistance(p, q) == Times(r - s, r - s)
  {
    hide Times, Norm;
    var x, y := p.x - c.x, p.y - c.y;
    if s == 0.0 {
      q := Point(c.x + r, c.y);
      CentreIsInTheMiddle(c, r, p);
      assert r - s == r;
    } else {
      var k := r / s;
      var rest := 1.0 - k;
      q := Point(c.x + k * x, c.y + k * y);
      assert k * s == r && rest * s == s - r;
      ScaledNorm(k, s, x, y, q.x - c.x, q.y - c.y, r);
      ScaledNorm(rest, s, x, y, p.x - q.x, p.y - q.y, s - r);
      SquareOfAbs(r - s);
      SquareOfAbs(s - r);
    }
  }

  lemma NormOfLeg(r: real)
    ensures Norm(r, 0.0) == Times(r, r) && Norm(-r, 0.0) == Times(r, r)
    ensures Norm(0.0, r) == Times(r, r) && Norm(0.0, -r) == Times(r, r)
  {
  }

  lemma CentreIsInTheMiddle(c: Point, r: real, p: Point)
    requires Times(0.0, 0.0) == SquaredDistance(p, c)
    ensures OnCircle(Point(c.x + r, c.y), c, r) && SquaredDistance(p, Point(c.x + r, c.y)) == Times(r, r)
  {
    hide Times, Norm;
    NormOfLeg(0.0);
    NormSign(0.0, 0.0);
    NormSign(p.x - c.x, p.y - c.y);
    NormOfLeg(r);
    assert p.x - (c.x + r) == -r && p.y - c.y == 0.0;
  }

  lemma ScaledNorm(k: real, s: real, x: real, y: real, dx: real, dy: real, ds: real)
    requires Norm(x, y) == Times(s, s)
    requires dx == k * x && dy == k * y && ds == k * s
    ensures Norm(dx, dy) == Times(ds, ds)
  {
    hide Norm;
    NormScales(k, x, y);
    SquareOfScaled(k, s);
  }

  /** The radius less the distance to the centre is, up to its sign, the distance to the circle. */
  lemma DistanceToCircle(c: Point, r: real, p: Point, s: real)
    requires r >= 0.0 && s >= 0.0 && Times(s, s) == SquaredDistance(p, c)
    ensures IsDistance(Abs(r - s), p, CircleAt(c, r))
  {
    hide Times, Norm;
    SquareOfAbs(r - s);
    forall q | OnCircle(q, c, r) ensures SquaredDistance(p, q) >= Times(r - s, r - s) {
      LengthsDifferLess(p.x - c.x, p.y - c.y, s, q.x - c.x, q.y - c.y, r);
      assert p.x - c.x - (q.x - c.x) == p.x - q.x && p.y - c.y - (q.y - c.y) == p.y - q.y;
    }
    var q := CircleIsAsNear(c, r, p, s);
  }

  // ----- An ellipse -----

  ghost predicate OnEllipse(q: Point, c: Point, radii: Size) {
    && radii.width > 0.0 && radii.height > 0.0
    && Norm((q.x - c.x) / radii.width, (q.y - c.y) / radii.height) == 1.0
  }

  ghost function EllipseAt(c: Point, radii: Size): Point -> bool {
    q => OnEllipse(q, c, radii)
  }

  lemma NormStretches(m: real, a: real, b: real, x: real, y: real)
    requires 0.0 <= m <= a && m <= b
    ensures Norm(a * x, b * y) >= Times(m, m) * Norm(x, y)
  {
    hide Times;
    SquareStretches(m, a, x);
    SquareStretches(m, b, y);
    assert Times(m, m) * Norm(x, y) == Times(m, m) * Times(x, x) + Times(m, m) * Times(y, y);
  }

  lemma SquareStretches(m: real, a: real, x: real)
    requires 0.0 <= m <= a
    ensures Times(a * x, a * x) >= Times(m, m) * Times(x, x)
  {
    SquaresCompare(m, a);
    SquareIsNonnegative(x);
    ProductIsNonnegative(a * a - m * m, x * x);
    assert (a * a - m * m) * (x * x) == Times(a * x, a * x) - Times(m, m) * Times(x, x);
  }

  /** With `n` the length of the offset from the centre measured in radii, no point of the ellipse is nearer than
      1 - n of the smaller radius. */
  lemma EllipseIsNoNearer(c: Point, radii: Size, p: Point, n: real, m: real, d: real)
    requires 0.0 < m <= radii.width && m <= radii.height && n >= 0.0
    requires Times(n, n) == Norm((p.x - c.x) / radii.width, (p.y - c.y) / radii.height)
    requires d == (1.0 - n) * m
    ensures NoneNearer(d, p, EllipseAt(c, radii))
  {
    hide Times, Norm;
    var w, h := radii.width, radii.height;
    var x, y, rest := (p.x - c.x) / w, (p.y - c.y) / h, 1.0 - n;
    forall q | OnEllipse(q, c, radii) ensures SquaredDistance(p, q) >= Times(d, d) {
      var a, b := (q.x - c.x) / w, (q.y - c.y) / h;
      SquareOfOne();
      LengthsDifferLess(x, y, n, a, b, 1.0);
      var u, v := x - a, y - b;
      OffsetsInRadii(p.x, q.x, c.x, w, u);
      OffsetsInRadii(p.y, q.y, c.y, h, v);
      NormStretches(m, w, h, u, v);
      SquareSign(m);
      ScaledSquare(m, rest, Norm(u, v), SquaredDistance(p, q), d);
    }
  }

  lemma ScaledSquare(m: real, rest: real, norm: real, distance: real, d: real)
    requires norm >= Times(rest, rest) && distance >= Times(m, m) * norm && d == rest * m
    ensures distance >= Times(d, d)
  {
    SquareIsNonnegative(m);
    ProductIsNonnegative(m * m, norm - rest * rest);
    assert Times(d, d) == m * m * (rest * rest);
  }

  lemma SquareOfOne()
    ensures Times(1.0, 1.0) == 1.0
  {
  }

  lemma OffsetsInRadii(p: real, q: real, c: real, w: real, u: real)
    requires w > 0.0 && u == (p - c) / w - (q - c) / w
    ensures w * u == p - q
  {
    var a, b := (p - c) / w, (q - c) / w;
    assert w * a == p - c && w * b == q - c;
  }

  /** The smaller radius is the distance from the centre to the ellipse. */
  lemma CentreOfEllipse(c: Point, radii: Size, m: real)
    requires 0.0 < m <= radii.width && m <= radii.height && (m == radii.width || m == radii.height)
    ensures IsDistance(m, c, EllipseAt(c, radii))
  {
    hide Times, Norm;
    NormSign(0.0, 0.0);
    NormOfLeg(0.0);
    EllipseIsNoNearer(c, radii, c, 0.0, m, m);
    NormOfLeg(1.0);
    NormOfLeg(m);
    SquareOfOne();
    var q := if m == radii.width then Point(c.x + m, c.y) else Point(c.x, c.y + m);
    assert 0.0 / radii.width == 0.0 && 0.0 / radii.height == 0.0;
    if m == radii.width {
      assert q.x - c.x == m && c.x - q.x == -m && m / radii.width == 1.0;
    } else {
      assert q.y - c.y == m && c.y - q.y == -m && m / radii.height == 1.0;
    }
    assert c.x - c.x == 0.0 && c.y - c.y == 0.0;
    assert OnEllipse(q, c, radii) && SquaredDistance(c, q) == Times(m, m);
  }

  /** On the ray from the centre through a point of the ellipse, the length measured in radii grows evenly. */
  lemma LengthAlongRay(c: Point, radii: Size, q: Point, k: real, n: real)
    requires OnEllipse(q, c, radii) && k >= 0.0 && n >= 0.0
    requires Times(n, n) == Norm((Toward(c, q, k).x - c.x) / radii.width, (Toward(c, q, k).y - c.y) / radii.height)
    ensures n == k
  {
    hide Norm;
    var a, b := (q.x - c.x) / radii.width, (q.y - c.y) / radii.height;
    QuotientScales(k, q.x - c.x, radii.width);
    QuotientScales(k, q.y - c.y, radii.height);
    NormScales(k, a, b);
    var at := Toward(c, q, k);
    assert at.x - c.x == k * (q.x - c.x) && at.y - c.y == k * (q.y - c.y);
    assert (at.x - c.x) / radii.width == k * a && (at.y - c.y) / radii.height == k * b;
    SquaresCompare(n, k);
    SquaresCompare(k, n);
  }

  lemma QuotientScales(k: real, x: real, w: real)
    requires w > 0.0
    ensures k * x / w == k * (x / w)
  {
    assert x == (x / w) * w;
  }
}

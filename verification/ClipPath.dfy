// Clip shapes of crates/kael/src/clip_path.rs, in exact arithmetic. Square roots are given by a
// function that is known only to return the nonnegative root.
module ClipPath {
  import opened Arithmetic
  import opened Euclid
  import opened Geometry

  datatype ClipShape =
    | Circle(center: Point, radius: real)
    | Ellipse(center: Point, radii: Size)
    | ConvexPolygon(vertices: seq<Point>)

  /** A distance, or one of the infinities the source uses for "no edge" and "no shape". */
  datatype Distance = NegInfinity | Finite(value: real) | PosInfinity {
    predicate AtLeastZero() {
      PosInfinity? || (Finite? && value >= 0.0)
    }

    function Min(other: Distance): Distance {
      if NegInfinity? || other.PosInfinity? then this
      else if other.NegInfinity? || PosInfinity? then other
      else if value <= other.value then this else other
    }
  }

  ghost predicate AtMost(a: Distance, b: Distance) {
    a.NegInfinity? || b.PosInfinity? || (a.Finite? && b.Finite? && a.value <= b.value)
  }

  // ----- Edges of a polygon -----

  /** Twice the signed area of the triangle a, b, p; its sign says on which side of a-b lies p. */
  function Cross(a: Point, b: Point, p: Point): real {
    (b.x - a.x) * (p.y - a.y) - (b.y - a.y) * (p.x - a.x)
  }

  function Next(vertices: seq<Point>, i: nat): Point
    requires i < |vertices|
  {
    vertices[(i + 1) % |vertices|]
  }

  function EdgeCross(vertices: seq<Point>, i: nat, p: Point): real
    requires i < |vertices|
  {
    Cross(vertices[i], Next(vertices, i), p)
  }

  ghost predicate AllAtLeastZero(vertices: seq<Point>, p: Point) {
    forall i :: 0 <= i < |vertices| ==> EdgeCross(vertices, i, p) >= 0.0
  }

  ghost predicate AllAtMostZero(vertices: seq<Point>, p: Point) {
    forall i :: 0 <= i < |vertices| ==> EdgeCross(vertices, i, p) <= 0.0
  }

  /** The points that no two edges see on opposite sides. */
  ghost predicate InPolygon(vertices: seq<Point>, p: Point) {
    |vertices| >= 3 && (AllAtLeastZero(vertices, p) || AllAtMostZero(vertices, p))
  }

  /** `point_in_convex_polygon`: one pass that remembers the first nonzero sign. */
  method PointInConvexPolygon(vertices: seq<Point>, p: Point) returns (inside: bool)
    ensures inside == InPolygon(vertices, p)
  {
    if |vertices| < 3 {
      return false;
    }
    var sign := 0;
    ghost var seen := 0;
    for i := 0 to |vertices|
      invariant sign == 0 || sign == 1 || sign == -1
      invariant sign == 0 ==> forall k :: 0 <= k < i ==> EdgeCross(vertices, k, p) == 0.0
      invariant sign == 1 ==> forall k :: 0 <= k < i ==> EdgeCross(vertices, k, p) >= 0.0
      invariant sign == -1 ==> forall k :: 0 <= k < i ==> EdgeCross(vertices, k, p) <= 0.0
      invariant sign != 0 ==> 0 <= seen < i
      invariant sign == 1 ==> EdgeCross(vertices, seen, p) > 0.0
      invariant sign == -1 ==> EdgeCross(vertices, seen, p) < 0.0
    {
      var cross := Cross(vertices[i], vertices[(i + 1) % |vertices|], p);
      assert cross == EdgeCross(vertices, i, p);
      var s := if cross > 0.0 then 1 else if cross < 0.0 then -1 else 0;
      if s != 0 {
        if sign == 0 {
          sign := s;
          seen := i;
        } else if sign != s {
          return false;
        }
      }
    }
    return true;
  }

  // ----- The signed area -----

  ghost function Determinant(a: Point, b: Point): real {
    a.x * b.y - b.x * a.y
  }

  /** Twice the signed area, summed over the first `n` edges. */
  ghost function Shoelace(vertices: seq<Point>, n: nat): real
    requires n <= |vertices|
  {
    if n == 0 then 0.0
    else Shoelace(vertices, n - 1) + Determinant(vertices[n - 1], Next(vertices, n - 1))
  }

  ghost function CrossSum(vertices: seq<Point>, p: Point, n: nat): real
    requires n <= |vertices|
  {
    if n == 0 then 0.0 else CrossSum(vertices, p, n - 1) + EdgeCross(vertices, n - 1, p)
  }

  /** The vertex after the first `n` edges. */
  ghost function EndOfEdges(vertices: seq<Point>, n: nat): Point
    requires n <= |vertices| && |vertices| > 0
  {
    if n == |vertices| then vertices[0] else vertices[n]
  }

  /** What the first edges contribute to the sum besides their area, from `first` to `end`. */
  ghost function Moment(p: Point, first: Point, end: Point): real {
    (p.y * end.x - p.y * first.x) - (p.x * end.y - p.x * first.y)
  }

  lemma MomentGrows(p: Point, first: Point, a: Point, b: Point)
    ensures Moment(p, first, a) + Cross(a, b, p) == Determinant(a, b) + Moment(p, first, b)
  {
  }

  lemma NextEndsEdge(vertices: seq<Point>, n: nat)
    requires 0 < n <= |vertices|
    ensures Next(vertices, n - 1) == EndOfEdges(vertices, n)
  {
    if n < |vertices| {
      assert n % |vertices| == n;
    }
  }

  /** Seen from `p`, all but the area telescopes away. */
  lemma {:induction false} CrossSumTelescopes(vertices: seq<Point>, p: Point, n: nat)
    requires |vertices| > 0 && n <= |vertices|
    ensures CrossSum(vertices, p, n) == Shoelace(vertices, n) + Moment(p, vertices[0], EndOfEdges(vertices, n))
  {
    hide Cross, Next, Determinant;
    if n > 0 {
      CrossSumTelescopes(vertices, p, n - 1);
      NextEndsEdge(vertices, n);
      MomentGrows(p, vertices[0], vertices[n - 1], Next(vertices, n - 1));
    }
  }

  /** The edge crosses at any point at all sum to the signed area. */
  lemma CrossesSumToArea(vertices: seq<Point>, p: Point)
    requires |vertices| > 0
    ensures CrossSum(vertices, p, |vertices|) == Shoelace(vertices, |vertices|)
  {
    CrossSumTelescopes(vertices, p, |vertices|);
  }

  lemma {:induction false} SumOfNonnegatives(vertices: seq<Point>, p: Point, n: nat)
    requires n <= |vertices| && AllAtLeastZero(vertices, p)
    ensures CrossSum(vertices, p, n) >= 0.0
    ensures CrossSum(vertices, p, n) == 0.0 ==> forall i :: 0 <= i < n ==> EdgeCross(vertices, i, p) == 0.0
  {
    if n > 0 {
      SumOfNonnegatives(vertices, p, n - 1);
    }
  }

  lemma {:induction false} SumOfNonpositives(vertices: seq<Point>, p: Point, n: nat)
    requires n <= |vertices| && AllAtMostZero(vertices, p)
    ensures CrossSum(vertices, p, n) <= 0.0
    ensures CrossSum(vertices, p, n) == 0.0 ==> forall i :: 0 <= i < n ==> EdgeCross(vertices, i, p) == 0.0
  {
    if n > 0 {
      SumOfNonpositives(vertices, p, n - 1);
    }
  }

  ghost function Winding(vertices: seq<Point>): real {
    if Shoelace(vertices, |vertices|) >= 0.0 then 1.0 else -1.0
  }

  /** The sign test and the winding-normalised half-plane test accept the same points: the area decides
      which of the two signs a point inside can see. */
  lemma InsideMatchesWinding(vertices: seq<Point>, p: Point)
    requires |vertices| >= 3
    ensures InPolygon(vertices, p)
       <==> forall i :: 0 <= i < |vertices| ==> Winding(vertices) * EdgeCross(vertices, i, p) >= 0.0
  {
    CrossesSumToArea(vertices, p);
    if AllAtLeastZero(vertices, p) {
      SumOfNonnegatives(vertices, p, |vertices|);
    } else if AllAtMostZero(vertices, p) {
      SumOfNonpositives(vertices, p, |vertices|);
    } else if Winding(vertices) == 1.0 {
      var i :| 0 <= i < |vertices| && EdgeCross(vertices, i, p) < 0.0;
      assert Winding(vertices) * EdgeCross(vertices, i, p) < 0.0;
    } else {
      var i :| 0 <= i < |vertices| && EdgeCross(vertices, i, p) > 0.0;
      assert Winding(vertices) * EdgeCross(vertices, i, p) < 0.0;
    }
  }

  lemma CrossIsAffine(a: Point, b: Point, p: Point, q: Point, t: real)
    ensures Cross(a, b, Toward(p, q, t)) == (1.0 - t) * Cross(a, b, p) + t * Cross(a, b, q)
  {
    var r := Toward(p, q, t);
    AffineOffset(a.x, p.x, q.x, t, r.x);
    AffineOffset(a.y, p.y, q.y, t, r.y);
    AffineProduct(b.x - a.x, p.y - a.y, q.y - a.y, t, r.y - a.y);
    AffineProduct(b.y - a.y, p.x - a.x, q.x - a.x, t, r.x - a.x);
  }

  lemma AffineOffset(a: real, p: real, q: real, t: real, r: real)
    requires r == p + t * (q - p)
    ensures r - a == (1.0 - t) * (p - a) + t * (q - a)
  {
  }

  lemma AffineProduct(e: real, p: real, q: real, t: real, r: real)
    requires r == (1.0 - t) * p + t * q
    ensures e * r == (1.0 - t) * (e * p) + t * (e * q)
  {
  }

  lemma WeightedSign(winding: real, t: real, x: real, y: real, z: real)
    requires 0.0 <= t <= 1.0 && winding * x >= 0.0 && winding * y >= 0.0 && z == (1.0 - t) * x + t * y
    ensures winding * z >= 0.0
  {
    ProductIsNonnegative(1.0 - t, winding * x);
    ProductIsNonnegative(t, winding * y);
    assert winding * z == (1.0 - t) * (winding * x) + t * (winding * y);
  }

  /** With two points every point between them is accepted, for every vertex list. So a list that accepts its own
      vertices, which is one in convex position, accepts all of their convex hull. */
  lemma AcceptedPointsAreConvex(vertices: seq<Point>, p: Point, q: Point, t: real)
    requires InPolygon(vertices, p) && InPolygon(vertices, q) && 0.0 <= t <= 1.0
    ensures InPolygon(vertices, Toward(p, q, t))
  {
    hide Cross, Winding, Toward;
    InsideMatchesWinding(vertices, p);
    InsideMatchesWinding(vertices, q);
    InsideMatchesWinding(vertices, Toward(p, q, t));
    forall i | 0 <= i < |vertices| ensures Winding(vertices) * EdgeCross(vertices, i, Toward(p, q, t)) >= 0.0 {
      CrossIsAffine(vertices[i], Next(vertices, i), p, q, t);
      WeightedSign(Winding(vertices), t, EdgeCross(vertices, i, p), EdgeCross(vertices, i, q),
                   EdgeCross(vertices, i, Toward(p, q, t)));
    }
  }

  // ----- Signed distance -----

  function Hypotenuse(x: real, y: real, sqrt: real -> real): real {
    sqrt(x * x + y * y)
  }

  lemma HypotenuseSquared(x: real, y: real, sqrt: real -> real)
    requires IsSquareRoot(sqrt)
    ensures Hypotenuse(x, y, sqrt) >= 0.0 && Times(Hypotenuse(x, y, sqrt), Hypotenuse(x, y, sqrt)) == Norm(x, y)
  {
    NormSign(x, y);
  }

  function Length(a: Point, b: Point, sqrt: real -> real): real {
    Hypotenuse(b.x - a.x, b.y - a.y, sqrt)
  }

  function HalfPlaneDistance(winding: real, cross: real, len: real): real
    requires len != 0.0
  {
    winding * cross / len
  }

  /** The distance to one edge's line, on the inner side positive; an edge of no length has no line. */
  ghost function EdgeDistance(vertices: seq<Point>, i: nat, p: Point, sqrt: real -> real): Distance
    requires i < |vertices|
  {
    var len := Length(vertices[i], Next(vertices, i), sqrt);
    if len == 0.0 then PosInfinity
    else Finite(HalfPlaneDistance(Winding(vertices), EdgeCross(vertices, i, p), len))
  }

  ghost function LeastDistance(vertices: seq<Point>, p: Point, sqrt: real -> real, n: nat): Distance
    requires n <= |vertices|
  {
    if n == 0 then PosInfinity
    else LeastDistance(vertices, p, sqrt, n - 1).Min(EdgeDistance(vertices, n - 1, p, sqrt))
  }

  ghost function PolygonDistance(vertices: seq<Point>, p: Point, sqrt: real -> real): Distance {
    if |vertices| < 3 then NegInfinity else LeastDistance(vertices, p, sqrt, |vertices|)
  }

  lemma {:induction false} LeastDistanceIsLeast(vertices: seq<Point>, p: Point, sqrt: real -> real, n: nat)
    requires n <= |vertices|
    ensures forall i :: 0 <= i < n ==> AtMost(LeastDistance(vertices, p, sqrt, n), EdgeDistance(vertices, i, p, sqrt))
    ensures n > 0 ==> exists i :: 0 <= i < n && LeastDistance(vertices, p, sqrt, n) == EdgeDistance(vertices, i, p, sqrt)
  {
    if n > 0 {
      var rest, last := LeastDistance(vertices, p, sqrt, n - 1), EdgeDistance(vertices, n - 1, p, sqrt);
      LeastDistanceIsLeast(vertices, p, sqrt, n - 1);
      MinIsLeast(rest, last);
    }
  }

  /** At most the distance to every edge, and the distance to one of them. */
  ghost predicate IsLeastEdgeDistance(d: Distance, vertices: seq<Point>, p: Point, sqrt: real -> real) {
    && (forall i :: 0 <= i < |vertices| ==> AtMost(d, EdgeDistance(vertices, i, p, sqrt)))
    && exists i :: 0 <= i < |vertices| && d == EdgeDistance(vertices, i, p, sqrt)
  }

  lemma PolygonDistanceIsLeast(vertices: seq<Point>, p: Point, sqrt: real -> real)
    ensures |vertices| >= 3 ==> IsLeastEdgeDistance(PolygonDistance(vertices, p, sqrt), vertices, p, sqrt)
  {
    LeastDistanceIsLeast(vertices, p, sqrt, |vertices|);
  }

  lemma MinIsLeast(a: Distance, b: Distance)
    ensures AtMost(a.Min(b), a) && AtMost(a.Min(b), b) && (a.Min(b) == a || a.Min(b) == b)
    ensures a.PosInfinity? ==> a.Min(b) == b
    ensures forall c :: AtMost(a, c) ==> AtMost(a.Min(b), c)
  {
  }

  /** `d` measures how far `p` is from the line through edge `i`, with the sign of the side the winding calls inner. */
  ghost predicate IsLineDistance(d: real, vertices: seq<Point>, i: nat, p: Point)
    requires i < |vertices|
  {
    && vertices[i] != Next(vertices, i)
    && IsDistance(Abs(d), p, Line(vertices[i], Next(vertices, i)))
    && (d >= 0.0 <==> Winding(vertices) * EdgeCross(vertices, i, p) >= 0.0)
  }

  /** The least of the signed Euclidean distances to the lines through the edges; infinite if all vertices coincide. */
  ghost predicate IsLeastLineDistance(d: Distance, vertices: seq<Point>, p: Point) {
    match d
    case NegInfinity => false
    case PosInfinity => forall i :: 0 <= i < |vertices| ==> vertices[i] == Next(vertices, i)
    case Finite(least) =>
      && (exists i :: 0 <= i < |vertices| && IsLineDistance(least, vertices, i, p))
      && forall i, e :: 0 <= i < |vertices| && IsLineDistance(e, vertices, i, p) ==> least <= e
  }

  lemma LineDistanceIsUnique(d: real, e: real, vertices: seq<Point>, i: nat, p: Point)
    requires i < |vertices| && IsLineDistance(d, vertices, i, p) && IsLineDistance(e, vertices, i, p)
    ensures d == e
  {
    hide IsDistance;
    DistanceIsUnique(Abs(d), Abs(e), p, Line(vertices[i], Next(vertices, i)));
  }

  lemma LengthIsDistance(a: Point, b: Point, sqrt: real -> real) returns (len: real)
    requires IsSquareRoot(sqrt)
    ensures len == Length(a, b, sqrt) && len >= 0.0 && Times(len, len) == SquaredDistance(b, a)
    ensures len == 0.0 <==> a == b
  {
    len := Length(a, b, sqrt);
    NormSign(b.x - a.x, b.y - a.y);
    SquareSign(len);
  }

  /** The product with the winding over the length of the edge is the Euclidean distance to the edge's line. */
  lemma EdgeDistanceIsEuclidean(vertices: seq<Point>, i: nat, p: Point, sqrt: real -> real)
    requires i < |vertices| && IsSquareRoot(sqrt)
    ensures var d := EdgeDistance(vertices, i, p, sqrt);
            if vertices[i] == Next(vertices, i) then d == PosInfinity else d.Finite? && IsLineDistance(d.value, vertices, i, p)
  {
    hide IsSquareRoot, IsDistance, Winding, Cross;
    var a, b := vertices[i], Next(vertices, i);
    var len := LengthIsDistance(a, b, sqrt);
    if a != b {
      var signed := Winding(vertices) * Cross(a, b, p);
      WindingIsSign(vertices, Cross(a, b, p));
      CrossOverLength(a, b, p, signed, len);
    }
  }

  lemma CrossOverLength(a: Point, b: Point, p: Point, signed: real, len: real)
    requires a != b && len > 0.0 && Times(len, len) == SquaredDistance(b, a)
    requires signed == Cross(a, b, p) || signed == -Cross(a, b, p)
    ensures IsDistance(Abs(signed / len), p, Line(a, b))
    ensures signed / len >= 0.0 <==> signed >= 0.0
  {
    hide IsDistance, Times;
    QuotientSign(signed, len);
    var d := signed / len;
    assert d * len == signed;
    DistanceToLine(a, b, p, d, len);
  }

  lemma WindingIsSign(vertices: seq<Point>, x: real)
    ensures Winding(vertices) * x == x || Winding(vertices) * x == -x
  {
  }

  lemma OnlyEdgeDistance(vertices: seq<Point>, i: nat, p: Point, sqrt: real -> real)
    requires i < |vertices| && IsSquareRoot(sqrt)
    ensures EdgeDistance(vertices, i, p, sqrt) == PosInfinity <==> vertices[i] == Next(vertices, i)
    ensures EdgeDistance(vertices, i, p, sqrt) != NegInfinity
    ensures forall e :: IsLineDistance(e, vertices, i, p) <==> EdgeDistance(vertices, i, p, sqrt) == Finite(e)
  {
    hide IsSquareRoot, IsDistance, EdgeDistance;
    EdgeDistanceIsEuclidean(vertices, i, p, sqrt);
    forall e | IsLineDistance(e, vertices, i, p) ensures EdgeDistance(vertices, i, p, sqrt) == Finite(e) {
      LineDistanceIsUnique(e, EdgeDistance(vertices, i, p, sqrt).value, vertices, i, p);
    }
  }

  lemma PolygonDistanceIsEuclidean(vertices: seq<Point>, p: Point, sqrt: real -> real)
    requires |vertices| >= 3 && IsSquareRoot(sqrt)
    ensures IsLeastLineDistance(PolygonDistance(vertices, p, sqrt), vertices, p)
  {
    hide IsSquareRoot, IsLineDistance, EdgeDistance, PolygonDistance, Next;
    PolygonDistanceIsLeast(vertices, p, sqrt);
    var d := PolygonDistance(vertices, p, sqrt);
    var j :| 0 <= j < |vertices| && d == EdgeDistance(vertices, j, p, sqrt);
    OnlyEdgeDistance(vertices, j, p, sqrt);
    forall i | 0 <= i < |vertices| ensures d.PosInfinity? ==> vertices[i] == Next(vertices, i) {
      OnlyEdgeDistance(vertices, i, p, sqrt);
    }
    forall i, e | 0 <= i < |vertices| && IsLineDistance(e, vertices, i, p) ensures AtMost(d, Finite(e)) {
      OnlyEdgeDistance(vertices, i, p, sqrt);
    }
  }

  /** `convex_signed_distance`: one pass for the area, one for the minimum. */
  method ConvexSignedDistance(vertices: seq<Point>, p: Point, sqrt: real -> real) returns (d: Distance)
    ensures d == PolygonDistance(vertices, p, sqrt)
    ensures if |vertices| < 3 then d == NegInfinity else IsLeastEdgeDistance(d, vertices, p, sqrt)
    ensures IsSquareRoot(sqrt) && |vertices| >= 3 ==> IsLeastLineDistance(d, vertices, p)
  {
    hide IsLeastEdgeDistance, IsLeastLineDistance, Length, HalfPlaneDistance, Cross;
    PolygonDistanceIsLeast(vertices, p, sqrt);
    if IsSquareRoot(sqrt) && |vertices| >= 3 {
      PolygonDistanceIsEuclidean(vertices, p, sqrt);
    }
    var n := |vertices|;
    if n < 3 {
      return NegInfinity;
    }
    var area2 := 0.0;
    for i := 0 to n
      invariant area2 == Shoelace(vertices, i)
    {
      var a, b := vertices[i], vertices[(i + 1) % n];
      area2 := area2 + (a.x * b.y - b.x * a.y);
    }
    var winding := if area2 >= 0.0 then 1.0 else -1.0;
    d := PosInfinity;
    for i := 0 to n
      invariant d == LeastDistance(vertices, p, sqrt, i)
    {
      var a, b := vertices[i], vertices[(i + 1) % n];
      var len := Length(a, b, sqrt);
      if len == 0.0 {
        continue;
      }
      d := d.Min(Finite(HalfPlaneDistance(winding, Cross(a, b, p), len)));
    }
  }

  lemma QuotientSign(x: real, y: real)
    requires y > 0.0
    ensures x / y >= 0.0 <==> x >= 0.0
  {
    assert x == (x / y) * y;
  }

  lemma EdgeDistanceSign(vertices: seq<Point>, i: nat, p: Point, sqrt: real -> real)
    requires i < |vertices| && IsSquareRoot(sqrt)
    ensures EdgeDistance(vertices, i, p, sqrt).AtLeastZero() <==> Winding(vertices) * EdgeCross(vertices, i, p) >= 0.0
  {
    var a, b := vertices[i], Next(vertices, i);
    var ex, ey := b.x - a.x, b.y - a.y;
    SquareIsNonnegative(ex);
    SquareIsNonnegative(ey);
    var len := Length(a, b, sqrt);
    assert len >= 0.0 && len * len == ex * ex + ey * ey;
    if len == 0.0 {
      assert len * len == 0.0;
      SquareSign(ex);
      SquareSign(ey);
    } else {
      QuotientSign(Winding(vertices) * EdgeCross(vertices, i, p), len);
    }
  }

  lemma {:induction false} LeastDistanceSign(vertices: seq<Point>, p: Point, sqrt: real -> real, n: nat)
    requires n <= |vertices| && IsSquareRoot(sqrt)
    ensures LeastDistance(vertices, p, sqrt, n) != NegInfinity
    ensures LeastDistance(vertices, p, sqrt, n).AtLeastZero()
       <==> forall i :: 0 <= i < n ==> Winding(vertices) * EdgeCross(vertices, i, p) >= 0.0
  {
    if n > 0 {
      LeastDistanceSign(vertices, p, sqrt, n - 1);
      EdgeDistanceSign(vertices, n - 1, p, sqrt);
    }
  }

  /** For every vertex list - convex or not, of either winding, degenerate or not - the two polygon
      algorithms agree on every point. */
  lemma PolygonTestsAgree(vertices: seq<Point>, p: Point, sqrt: real -> real)
    requires IsSquareRoot(sqrt)
    ensures InPolygon(vertices, p) <==> PolygonDistance(vertices, p, sqrt).AtLeastZero()
  {
    if |vertices| >= 3 {
      LeastDistanceSign(vertices, p, sqrt, |vertices|);
      InsideMatchesWinding(vertices, p);
    }
  }

  // Inside, the distance is also the room there is: the radius of the largest accepted disc around the point.

  ghost predicate WithinReach(p: Point, q: Point, r: real) {
    SquaredDistance(p, q) <= Times(r, r)
  }

  lemma CrossMoves(a: Point, b: Point, p: Point, q: Point)
    ensures Cross(a, b, p) - Cross(a, b, q) == (b.x - a.x) * (p.y - q.y) + (a.y - b.y) * (p.x - q.x)
  {
  }

  /** A step of length `r` changes the cross with an edge by at most `r` times the length of the edge. */
  lemma CrossMovesSlowly(a: Point, b: Point, p: Point, q: Point, len: real, r: real)
    requires len >= 0.0 && Times(len, len) == SquaredDistance(b, a) && r >= 0.0 && WithinReach(p, q, r)
    ensures -(len * r) <= Cross(a, b, p) - Cross(a, b, q) <= len * r
  {
    hide Times, Norm, Cross;
    var ex, ey, x, y := b.x - a.x, b.y - a.y, p.x - q.x, p.y - q.y;
    TurnKeepsNorm(ex, ey);
    TurnKeepsNorm(-ex, ey);
    CrossMoves(a, b, p, q);
    CauchySchwarz(-ey, ex, len, x, y, r);
    CauchySchwarz(ey, -ex, len, x, y, r);
    assert y * -ex + x * ey == -(ex * y + -ey * x);
  }

  lemma TurnKeepsNorm(x: real, y: real)
    ensures Norm(-y, x) == Norm(x, y) && Norm(y, -x) == Norm(x, y)
  {
  }

  /** The step of length `r` straight away from an edge takes off `r` times the length of the edge. */
  lemma StepOff(a: Point, b: Point, p: Point, winding: real, len: real, r: real) returns (q: Point)
    requires (winding == 1.0 || winding == -1.0) && len > 0.0 && Times(len, len) == SquaredDistance(b, a)
    ensures SquaredDistance(p, q) == Times(r, r)
    ensures winding * Cross(a, b, q) == winding * Cross(a, b, p) - r * len
  {
    hide Times, Norm, Cross;
    var ex, ey, k := b.x - a.x, b.y - a.y, r * winding / len;
    var dx, dy, ds := k * -ey, k * ex, k * len;
    q := Point(p.x - dx, p.y - dy);
    assert ds == r * winding;
    TurnKeepsNorm(ex, ey);
    ScaledNorm(k, len, -ey, ex, dx, dy, ds);
    assert p.x - q.x == dx && p.y - q.y == dy;
    SquareOfSigned(r, winding);
    CrossMoves(a, b, p, q);
    StepIsNormal(ex, ey, p.x - q.x, p.y - q.y, k, len);
    WindingCancels(winding, r, len, k, Cross(a, b, p), Cross(a, b, q));
  }

  lemma SquareOfSigned(r: real, winding: real)
    requires winding == 1.0 || winding == -1.0
    ensures Times(r * winding, r * winding) == Times(r, r)
  {
  }

  lemma StepIsNormal(ex: real, ey: real, dx: real, dy: real, k: real, len: real)
    requires Times(len, len) == Norm(ex, ey) && dx == k * -ey && dy == k * ex
    ensures ex * dy + -ey * dx == k * len * len
  {
    assert ex * (k * ex) + -ey * (k * -ey) == k * Norm(ex, ey);
    assert k * Times(len, len) == k * len * len;
  }

  lemma WindingCancels(winding: real, r: real, len: real, k: real, here: real, there: real)
    requires winding == 1.0 || winding == -1.0
    requires k * len == r * winding && here - there == k * len * len
    ensures winding * there == winding * here - r * len
  {
    assert k * len * len == r * winding * len;
  }

  lemma EdgeDistanceTimesLength(vertices: seq<Point>, i: nat, p: Point, sqrt: real -> real) returns (len: real)
    requires i < |vertices| && IsSquareRoot(sqrt)
    ensures len >= 0.0 && Times(len, len) == SquaredDistance(Next(vertices, i), vertices[i])
    ensures EdgeDistance(vertices, i, p, sqrt).PosInfinity? <==> vertices[i] == Next(vertices, i)
    ensures EdgeDistance(vertices, i, p, sqrt).Finite? ==>
              && len > 0.0
              && EdgeDistance(vertices, i, p, sqrt).value * len == Winding(vertices) * EdgeCross(vertices, i, p)
  {
    hide IsSquareRoot, Cross, Winding, Length, SquaredDistance, Times;
    len := LengthIsDistance(vertices[i], Next(vertices, i), sqrt);
    if len > 0.0 {
      QuotientTimes(Winding(vertices) * EdgeCross(vertices, i, p), len);
    }
  }

  lemma QuotientTimes(x: real, len: real)
    requires len > 0.0
    ensures x / len * len == x
  {
  }

  lemma WindingKeepsSize(vertices: seq<Point>, here: real, there: real, bound: real)
    requires -bound <= here - there <= bound
    ensures Winding(vertices) * there >= Winding(vertices) * here - bound
  {
  }

  /** Every point within reach lies on the inner side of every edge. */
  lemma EdgeLeavesRoom(vertices: seq<Point>, i: nat, p: Point, q: Point, sqrt: real -> real, d: real)
    requires i < |vertices| && IsSquareRoot(sqrt) && d >= 0.0 && WithinReach(p, q, d)
    requires AtMost(Finite(d), EdgeDistance(vertices, i, p, sqrt))
    ensures Winding(vertices) * EdgeCross(vertices, i, q) >= 0.0
  {
    hide IsSquareRoot, Cross, WithinReach, Winding, EdgeDistance, SquaredDistance;
    var len := EdgeDistanceTimesLength(vertices, i, p, sqrt);
    var a, b := vertices[i], Next(vertices, i);
    if a == b {
      NoEdgeNoCross(a, q);
    } else {
      var e := EdgeDistance(vertices, i, p, sqrt).value;
      CrossMovesSlowly(a, b, p, q, len, d);
      WindingKeepsSize(vertices, Cross(a, b, p), Cross(a, b, q), len * d);
      ProductIsNonnegative(e - d, len);
      assert (e - d) * len == e * len - len * d;
    }
  }

  lemma NoEdgeNoCross(a: Point, p: Point)
    ensures Cross(a, a, p) == 0.0
  {
  }

  /** A step longer than the distance to an edge, straight towards it, ends behind it. */
  lemma EdgeIsInReach(vertices: seq<Point>, i: nat, p: Point, sqrt: real -> real, d: real, r: real) returns (q: Point)
    requires i < |vertices| && IsSquareRoot(sqrt) && r > d && EdgeDistance(vertices, i, p, sqrt) == Finite(d)
    ensures WithinReach(p, q, r) && Winding(vertices) * EdgeCross(vertices, i, q) < 0.0
  {
    hide IsSquareRoot, Cross, EdgeDistance, SquaredDistance;
    var len := EdgeDistanceTimesLength(vertices, i, p, sqrt);
    q := StepOff(vertices[i], Next(vertices, i), p, Winding(vertices), len, r);
    EndsBehind(d, r, len, Winding(vertices) * EdgeCross(vertices, i, p), Winding(vertices) * EdgeCross(vertices, i, q));
  }

  lemma EndsBehind(d: real, r: real, len: real, here: real, there: real)
    requires r > d && len > 0.0 && here == d * len && there == here - r * len
    ensures there < 0.0
  {
    ProductIsPositive(r - d, len);
    assert (r - d) * len == r * len - d * len;
  }

  /** The polygon accepts the whole disc of radius `r` around `p`. */
  ghost predicate HasRoom(vertices: seq<Point>, p: Point, r: real) {
    forall q :: WithinReach(p, q, r) ==> InPolygon(vertices, q)
  }

  /** For an accepted point of a polygon that has an edge, the signed distance is the radius of the largest disc
      around the point that the polygon accepts whole. */
  lemma DistanceIsRoom(vertices: seq<Point>, p: Point, sqrt: real -> real)
    requires IsSquareRoot(sqrt) && InPolygon(vertices, p) && PolygonDistance(vertices, p, sqrt).Finite?
    ensures var d := PolygonDistance(vertices, p, sqrt).value;
            d >= 0.0 && forall r :: r >= 0.0 ==> (HasRoom(vertices, p, r) <==> r <= d)
  {
    hide IsSquareRoot, EdgeDistance, PolygonDistance, InPolygon, EdgeCross, WithinReach, SquaredDistance;
    ThreeVertices(vertices, p);
    PolygonTestsAgree(vertices, p, sqrt);
    PolygonDistanceIsLeast(vertices, p, sqrt);
    var d := PolygonDistance(vertices, p, sqrt).value;
    var i :| 0 <= i < |vertices| && EdgeDistance(vertices, i, p, sqrt) == Finite(d);
    forall r | r >= 0.0 ensures HasRoom(vertices, p, r) <==> r <= d {
      if r <= d {
        DiscIsAccepted(vertices, p, sqrt, d, r);
      } else {
        var q := EdgeIsInReach(vertices, i, p, sqrt, d, r);
        InsideMatchesWinding(vertices, q);
      }
    }
  }

  lemma DiscIsAccepted(vertices: seq<Point>, p: Point, sqrt: real -> real, d: real, r: real)
    requires IsSquareRoot(sqrt) && |vertices| >= 3 && 0.0 <= r <= d
    requires forall i :: 0 <= i < |vertices| ==> AtMost(Finite(d), EdgeDistance(vertices, i, p, sqrt))
    ensures HasRoom(vertices, p, r)
  {
    hide IsSquareRoot, EdgeDistance, InPolygon, EdgeCross, WithinReach;
    forall q | WithinReach(p, q, r) ensures InPolygon(vertices, q) {
      forall i | 0 <= i < |vertices| ensures Winding(vertices) * EdgeCross(vertices, i, q) >= 0.0 {
        EdgeLeavesRoom(vertices, i, p, q, sqrt, r);
      }
      InsideMatchesWinding(vertices, q);
    }
  }

  lemma ThreeVertices(vertices: seq<Point>, p: Point)
    requires InPolygon(vertices, p)
    ensures |vertices| >= 3
  {
  }

  // ----- The bounding box -----

  ghost predicate IsLeast(m: real, values: seq<real>) {
    m in values && forall k :: 0 <= k < |values| ==> m <= values[k]
  }

  ghost predicate IsGreatest(m: real, values: seq<real>) {
    m in values && forall k :: 0 <= k < |values| ==> values[k] <= m
  }

  ghost function Xs(vertices: seq<Point>): (xs: seq<real>)
    ensures |xs| == |vertices| && forall i :: 0 <= i < |xs| ==> xs[i] == vertices[i].x
  {
    seq(|vertices|, i requires 0 <= i < |vertices| => vertices[i].x)
  }

  ghost function Ys(vertices: seq<Point>): (ys: seq<real>)
    ensures |ys| == |vertices| && forall i :: 0 <= i < |ys| ==> ys[i] == vertices[i].y
  {
    seq(|vertices|, i requires 0 <= i < |vertices| => vertices[i].y)
  }

  ghost predicate Covers(box: Bounds, p: Point) {
    && box.origin.x <= p.x <= box.BottomRight().x
    && box.origin.y <= p.y <= box.BottomRight().y
  }

  /** The box around the vertices: tight on all four sides, and the zero box if there are none. */
  ghost predicate IsBoxOf(box: Bounds, vertices: seq<Point>) {
    if vertices == [] then box == Bounds(Point(0.0, 0.0), Size(0.0, 0.0))
    else
      && IsLeast(box.origin.x, Xs(vertices)) && IsGreatest(box.BottomRight().x, Xs(vertices))
      && IsLeast(box.origin.y, Ys(vertices)) && IsGreatest(box.BottomRight().y, Ys(vertices))
  }

  /** The polygon case of `bounding_box`. The source starts from infinities; with at least one vertex the
      first round replaces them all. */
  method PolygonBox(vertices: seq<Point>) returns (box: Bounds)
    ensures IsBoxOf(box, vertices)
  {
    if vertices == [] {
      return Bounds(Point(0.0, 0.0), Size(0.0, 0.0));
    }
    var lo, hi := vertices[0], vertices[0];
    for i := 1 to |vertices|
      invariant lo.x in Xs(vertices) && lo.y in Ys(vertices) && hi.x in Xs(vertices) && hi.y in Ys(vertices)
      invariant forall k :: 0 <= k < i ==> lo.x <= vertices[k].x <= hi.x && lo.y <= vertices[k].y <= hi.y
    {
      assert Xs(vertices)[i] == vertices[i].x && Ys(vertices)[i] == vertices[i].y;
      lo := lo.Min(vertices[i]);
      hi := hi.Max(vertices[i]);
    }
    box := FromCorners(lo, hi);
  }

  /** All vertices lie on one line (or in one point). */
  ghost predicate Collinear(vertices: seq<Point>) {
    forall i, j :: 0 <= i < |vertices| && 0 <= j < |vertices| ==> Cross(vertices[0], vertices[i], vertices[j]) == 0.0
  }

  // A point outside the box on one axis sees every vertex on one side of it. Along the edges, which it
  // must see all turning the same way, the slope of the vertices as seen from the point can then only
  // grow (or only fall), and since the edges come back to where they started it is constant.

  ghost predicate OneSided(u: seq<real>) {
    (forall i :: 0 <= i < |u| ==> u[i] > 0.0) || (forall i :: 0 <= i < |u| ==> u[i] < 0.0)
  }

  ghost function Turn(u: seq<real>, w: seq<real>, i: nat): real
    requires i < |u| == |w|
  {
    var j := (i + 1) % |u|;
    u[i] * w[j] - u[j] * w[i]
  }

  lemma SlopeGrows(ua: real, wa: real, ub: real, wb: real)
    requires (ua > 0.0 && ub > 0.0) || (ua < 0.0 && ub < 0.0)
    requires ua * wb - ub * wa >= 0.0
    ensures wa / ua <= wb / ub
  {
    var sa, sb := wa / ua, wb / ub;
    assert wa == sa * ua && wb == sb * ub;
    assert ua * wb - ub * wa == (ua * ub) * (sb - sa);
    assert ua * ub > 0.0 by {
      if ua < 0.0 { assert ua * ub == (-ua) * (-ub); }
    }
    if sb < sa {
      ProductIsPositive(ua * ub, sa - sb);
    }
  }

  lemma {:induction false} SlopesGrow(u: seq<real>, w: seq<real>, i: nat, j: nat)
    requires |u| == |w| && OneSided(u) && i <= j < |u|
    requires forall k :: 0 <= k < |u| ==> Turn(u, w, k) >= 0.0
    ensures w[i] / u[i] <= w[j] / u[j]
  {
    if i < j {
      SlopesGrow(u, w, i, j - 1);
      assert Turn(u, w, j - 1) >= 0.0 && (j - 1 + 1) % |u| == j;
      SlopeGrows(u[j - 1], w[j - 1], u[j], w[j]);
    }
  }

  lemma SlopeIsConstant(u: seq<real>, w: seq<real>) returns (slope: real)
    requires |u| == |w| > 0 && OneSided(u)
    requires forall k :: 0 <= k < |u| ==> Turn(u, w, k) >= 0.0
    ensures forall i :: 0 <= i < |u| ==> w[i] == slope * u[i]
  {
    var n := |u|;
    slope := w[0] / u[0];
    assert Turn(u, w, n - 1) >= 0.0 && (n - 1 + 1) % n == 0;
    SlopeGrows(u[n - 1], w[n - 1], u[0], w[0]);
    forall i | 0 <= i < n ensures w[i] == slope * u[i] {
      SlopesGrow(u, w, 0, i);
      SlopesGrow(u, w, i, n - 1);
      assert w[i] / u[i] == slope;
    }
  }

  /** On the line through `p` that rises by `slope`. */
  ghost predicate OnSlope(a: Point, p: Point, slope: real) {
    a.y - p.y == slope * (a.x - p.x)
  }

  /** On the line through `p` that advances by `slope`. */
  ghost predicate OnSteepSlope(a: Point, p: Point, slope: real) {
    a.x - p.x == slope * (a.y - p.y)
  }

  /** A line through `p`: a vertex list all of whose offsets from `p` are proportional lies on it. */
  lemma LineIsCollinear(vertices: seq<Point>, p: Point, slope: real)
    requires (forall i :: 0 <= i < |vertices| ==> OnSlope(vertices[i], p, slope))
          || (forall i :: 0 <= i < |vertices| ==> OnSteepSlope(vertices[i], p, slope))
    ensures Collinear(vertices)
  {
    hide Cross, OnSlope, OnSteepSlope;
    forall i, j | 0 <= i < |vertices| && 0 <= j < |vertices|
      ensures Cross(vertices[0], vertices[i], vertices[j]) == 0.0
    {
      var a, b, c := vertices[0], vertices[i], vertices[j];
      if forall k :: 0 <= k < |vertices| ==> OnSlope(vertices[k], p, slope) {
        CrossOnSlope(a, b, c, p, slope);
      } else {
        CrossOnSteepSlope(a, b, c, p, slope);
      }
    }
  }

  lemma CrossOnSlope(a: Point, b: Point, c: Point, p: Point, slope: real)
    requires OnSlope(a, p, slope) && OnSlope(b, p, slope) && OnSlope(c, p, slope)
    ensures Cross(a, b, c) == 0.0
  {
    ProportionalCross(a.x - p.x, b.x - p.x, c.x - p.x, slope);
  }

  lemma CrossOnSteepSlope(a: Point, b: Point, c: Point, p: Point, slope: real)
    requires OnSteepSlope(a, p, slope) && OnSteepSlope(b, p, slope) && OnSteepSlope(c, p, slope)
    ensures Cross(a, b, c) == 0.0
  {
    ProportionalCross(a.y - p.y, b.y - p.y, c.y - p.y, slope);
  }

  lemma ProportionalCross(a: real, b: real, c: real, slope: real)
    ensures (b - a) * (slope * c - slope * a) - (slope * b - slope * a) * (c - a) == 0.0
  {
  }

  lemma TurnIsCross(a: Point, b: Point, p: Point)
    ensures Cross(a, b, p) == (a.x - p.x) * (b.y - p.y) - (b.x - p.x) * (a.y - p.y)
  {
  }

  /** The same when all turns go the other way. */
  lemma SlopeIsConstantEitherWay(u: seq<real>, w: seq<real>) returns (slope: real)
    requires |u| == |w| > 0 && OneSided(u)
    requires (forall k :: 0 <= k < |u| ==> Turn(u, w, k) >= 0.0) || (forall k :: 0 <= k < |u| ==> Turn(u, w, k) <= 0.0)
    ensures forall i :: 0 <= i < |u| ==> w[i] == slope * u[i]
  {
    if forall k :: 0 <= k < |u| ==> Turn(u, w, k) >= 0.0 {
      slope := SlopeIsConstant(u, w);
    } else {
      var w' := seq(|w|, i requires 0 <= i < |w| => -w[i]);
      forall i | 0 <= i < |u| ensures Turn(u, w', i) >= 0.0 {
        var j := (i + 1) % |u|;
        NegatedTurn(u[i], w[i], u[j], w[j]);
        assert Turn(u, w, i) <= 0.0 && w'[i] == -w[i] && w'[j] == -w[j];
      }
      var slope' := SlopeIsConstant(u, w');
      slope := -slope';
      forall i | 0 <= i < |u| ensures w[i] == slope * u[i] {
        assert w[i] == -w'[i] == -(slope' * u[i]);
      }
    }
  }

  lemma NegatedTurn(ua: real, wa: real, ub: real, wb: real)
    ensures ua * (-wb) - ub * (-wa) == -(ua * wb - ub * wa)
  {
  }

  /** How far `v` lies from `p` in the direction (a, b), and across it. */
  ghost function Along(v: Point, p: Point, a: real, b: real): real {
    a * (v.x - p.x) + b * (v.y - p.y)
  }

  ghost function Across(v: Point, p: Point, a: real, b: real): real {
    a * (v.y - p.y) - b * (v.x - p.x)
  }

  /** A line through `p` has all vertices strictly on one side. */
  ghost predicate Separates(vertices: seq<Point>, p: Point, a: real, b: real) {
    forall i :: 0 <= i < |vertices| ==> Along(vertices[i], p, a, b) > 0.0
  }

  lemma TurnInDirection(v: Point, next: Point, p: Point, a: real, b: real)
    ensures Along(v, p, a, b) * Across(next, p, a, b) - Along(next, p, a, b) * Across(v, p, a, b)
         == Norm(a, b) * Cross(v, next, p)
  {
    TurnIsCross(v, next, p);
    RotationKeepsTurns(v.x - p.x, v.y - p.y, next.x - p.x, next.y - p.y, a, b);
  }

  lemma RotationKeepsTurns(x: real, y: real, x': real, y': real, a: real, b: real)
    ensures (a * x + b * y) * (a * y' - b * x') - (a * x' + b * y') * (a * y - b * x) == (a * a + b * b) * (x * y' - x' * y)
  {
  }

  lemma SignIsScaled(scale: real, x: real)
    requires scale > 0.0
    ensures scale * x >= 0.0 <==> x >= 0.0
    ensures scale * x <= 0.0 <==> x <= 0.0
  {
    if x > 0.0 {
      ProductIsPositive(scale, x);
    } else if x < 0.0 {
      ProductIsPositive(scale, -x);
    }
  }

  lemma DirectionIsProper(v: Point, p: Point, a: real, b: real)
    requires Along(v, p, a, b) > 0.0
    ensures Norm(a, b) > 0.0
  {
    hide Times;
    SquareSign(a);
    SquareSign(b);
    if a == 0.0 {
      assert b != 0.0;
    }
  }

  /** All vertices in a constant ratio of across to along lie on one line through `p`. */
  lemma ConstantRatioIsCollinear(vertices: seq<Point>, p: Point, a: real, b: real, slope: real)
    requires Norm(a, b) > 0.0
    requires forall i :: 0 <= i < |vertices| ==> Across(vertices[i], p, a, b) == slope * Along(vertices[i], p, a, b)
    ensures Collinear(vertices)
  {
    var c, d := a - slope * b, b + slope * a;
    hide Along, Across, OnSlope, OnSteepSlope, Norm;
    if c != 0.0 {
      forall i | 0 <= i < |vertices| ensures OnSlope(vertices[i], p, d / c) {
        RatioGivesSlope(vertices[i], p, a, b, slope);
      }
      LineIsCollinear(vertices, p, d / c);
    } else {
      DirectionsDiffer(a, b, slope);
      forall i | 0 <= i < |vertices| ensures OnSteepSlope(vertices[i], p, 0.0) {
        RatioGivesUpright(vertices[i], p, a, b, slope);
      }
      LineIsCollinear(vertices, p, 0.0);
    }
  }

  lemma RatioIsLinear(x: real, y: real, a: real, b: real, slope: real)
    requires a * y - b * x == slope * (a * x + b * y)
    ensures (a - slope * b) * y == (b + slope * a) * x
  {
  }

  lemma RatioGivesSlope(v: Point, p: Point, a: real, b: real, slope: real)
    requires Across(v, p, a, b) == slope * Along(v, p, a, b) && a - slope * b != 0.0
    ensures OnSlope(v, p, (b + slope * a) / (a - slope * b))
  {
    var x, y, c, d := v.x - p.x, v.y - p.y, a - slope * b, b + slope * a;
    RatioIsLinear(x, y, a, b, slope);
    SlopeOfLine(c, d, x, y);
  }

  lemma RatioGivesUpright(v: Point, p: Point, a: real, b: real, slope: real)
    requires Across(v, p, a, b) == slope * Along(v, p, a, b) && a - slope * b == 0.0 && b + slope * a != 0.0
    ensures OnSteepSlope(v, p, 0.0)
  {
    RatioIsLinear(v.x - p.x, v.y - p.y, a, b, slope);
    assert (a - slope * b) * (v.y - p.y) == 0.0;
  }

  lemma DirectionsDiffer(a: real, b: real, slope: real)
    requires Norm(a, b) > 0.0 && a - slope * b == 0.0
    ensures b + slope * a != 0.0
  {
  }

  /** An accepted point that a line separates from the vertices: consistent turns make the ratio of across to along
      monotone around a cycle, hence constant, so that all vertices lie on one line. */
  lemma SeparatedMeansCollinear(vertices: seq<Point>, p: Point, a: real, b: real)
    requires |vertices| >= 3 && InPolygon(vertices, p) && Separates(vertices, p, a, b)
    ensures Collinear(vertices)
  {
    hide Along, Across, Cross, Norm;
    var n := |vertices|;
    var u := seq(n, i requires 0 <= i < n => Along(vertices[i], p, a, b));
    var w := seq(n, i requires 0 <= i < n => Across(vertices[i], p, a, b));
    DirectionIsProper(vertices[0], p, a, b);
    forall i | 0 <= i < n
      ensures Turn(u, w, i) >= 0.0 <==> EdgeCross(vertices, i, p) >= 0.0
      ensures Turn(u, w, i) <= 0.0 <==> EdgeCross(vertices, i, p) <= 0.0
    {
      TurnInDirection(vertices[i], Next(vertices, i), p, a, b);
      SignIsScaled(Norm(a, b), EdgeCross(vertices, i, p));
    }
    var slope := SlopeIsConstantEitherWay(u, w);
    forall i | 0 <= i < n ensures Across(vertices[i], p, a, b) == slope * Along(vertices[i], p, a, b) {
      assert w[i] == slope * u[i];
    }
    ConstantRatioIsCollinear(vertices, p, a, b, slope);
  }

  lemma OutsideMeansCollinear(vertices: seq<Point>, box: Bounds, p: Point)
    requires |vertices| >= 3 && IsBoxOf(box, vertices) && InPolygon(vertices, p) && !Covers(box, p)
    ensures Collinear(vertices)
  {
    assert forall i :: 0 <= i < |vertices| ==> Xs(vertices)[i] == vertices[i].x && Ys(vertices)[i] == vertices[i].y;
    if p.x < box.origin.x {
      SeparatedMeansCollinear(vertices, p, 1.0, 0.0);
    } else if p.x > box.BottomRight().x {
      SeparatedMeansCollinear(vertices, p, -1.0, 0.0);
    } else if p.y < box.origin.y {
      SeparatedMeansCollinear(vertices, p, 0.0, 1.0);
    } else {
      SeparatedMeansCollinear(vertices, p, 0.0, -1.0);
    }
  }

  /** Every point of the line through the vertices is accepted. */
  lemma LineIsAccepted(vertices: seq<Point>, o: Point, slope: real, p: Point)
    requires |vertices| >= 3
    requires (OnSlope(p, o, slope) && forall k :: 0 <= k < |vertices| ==> OnSlope(vertices[k], o, slope))
          || (OnSteepSlope(p, o, slope) && forall k :: 0 <= k < |vertices| ==> OnSteepSlope(vertices[k], o, slope))
    ensures InPolygon(vertices, p)
  {
    hide OnSlope, OnSteepSlope, Cross;
    forall k | 0 <= k < |vertices| ensures EdgeCross(vertices, k, p) == 0.0 {
      if OnSlope(p, o, slope) && OnSlope(vertices[k], o, slope) && OnSlope(Next(vertices, k), o, slope) {
        CrossOnSlope(vertices[k], Next(vertices, k), p, o, slope);
      } else {
        CrossOnSteepSlope(vertices[k], Next(vertices, k), p, o, slope);
      }
    }
  }

  lemma SlantedLine(vertices: seq<Point>, i: nat) returns (slope: real)
    requires Collinear(vertices) && i < |vertices| && vertices[i].x != vertices[0].x
    ensures forall k :: 0 <= k < |vertices| ==> vertices[k].y - vertices[0].y == slope * (vertices[k].x - vertices[0].x)
  {
    var o := vertices[0];
    slope := (vertices[i].y - o.y) / (vertices[i].x - o.x);
    forall k | 0 <= k < |vertices| ensures vertices[k].y - o.y == slope * (vertices[k].x - o.x) {
      assert Cross(o, vertices[i], vertices[k]) == 0.0;
      SlopeOfLine(vertices[i].x - o.x, vertices[i].y - o.y, vertices[k].x - o.x, vertices[k].y - o.y);
    }
  }

  lemma UprightLine(vertices: seq<Point>, p: Point)
    requires |vertices| >= 3 && p.x == vertices[0].x
    requires forall k :: 0 <= k < |vertices| ==> vertices[k].x == vertices[0].x
    ensures InPolygon(vertices, p)
  {
    var o := vertices[0];
    forall k | 0 <= k < |vertices| ensures vertices[k].x - o.x == 0.0 * (vertices[k].y - o.y) {
    }
    LineIsAccepted(vertices, o, 0.0, p);
  }

  /** Conversely a degenerate polygon accepts its whole line, which no box holds. */
  lemma CollinearReachesOutside(vertices: seq<Point>, box: Bounds) returns (p: Point)
    requires |vertices| >= 3 && Collinear(vertices)
    ensures InPolygon(vertices, p) && (p.x > box.BottomRight().x || p.y > box.BottomRight().y)
  {
    var o, beyond := vertices[0], box.BottomRight();
    if i :| 0 <= i < |vertices| && vertices[i].x != o.x {
      var slope := SlantedLine(vertices, i);
      p := Point(beyond.x + 1.0, o.y + slope * (beyond.x + 1.0 - o.x));
      LineIsAccepted(vertices, o, slope, p);
    } else {
      p := Point(o.x, beyond.y + 1.0);
      UprightLine(vertices, p);
    }
  }

  lemma SlopeOfLine(dx: real, dy: real, ex: real, ey: real)
    requires dx != 0.0 && dx * ey - dy * ex == 0.0
    ensures ey == dy / dx * ex
  {
    var m := dy / dx;
    assert dy == m * dx;
    assert dx * ey - m * dx * ex == dx * (ey - m * ex);
  }

  /** Exactly when the bounding box holds everything the polygon accepts: always, except for three or
      more vertices on one line. */
  lemma BoxCoversExactly(vertices: seq<Point>, box: Bounds)
    requires IsBoxOf(box, vertices)
    ensures (forall p :: InPolygon(vertices, p) ==> Covers(box, p)) <==> (|vertices| < 3 || !Collinear(vertices))
  {
    if |vertices| >= 3 {
      forall p | InPolygon(vertices, p) && !Covers(box, p) ensures Collinear(vertices) {
        OutsideMeansCollinear(vertices, box, p);
      }
      if Collinear(vertices) {
        var p := CollinearReachesOutside(vertices, box);
        assert InPolygon(vertices, p) && !Covers(box, p);
      }
    }
  }

  lemma {:induction false} CoordinatesAreBounded(vertices: seq<Point>) returns (corner: Point)
    ensures forall i :: 0 <= i < |vertices| ==> vertices[i].x <= corner.x && vertices[i].y <= corner.y
  {
    corner := Point(0.0, 0.0);
    if vertices != [] {
      var rest := CoordinatesAreBounded(vertices[1..]);
      corner := rest.Max(vertices[0]);
      assert forall i :: 1 <= i < |vertices| ==> vertices[i] == vertices[1..][i - 1];
    }
  }

  /** No line strictly separates an accepted point from the vertices - the point lies in their convex hull - if and
      only if there are fewer than three vertices or they are not on one line. */
  lemma AcceptedPointsAreEnclosedExactly(vertices: seq<Point>)
    ensures (forall p, a, b :: InPolygon(vertices, p) ==> !Separates(vertices, p, a, b))
       <==> (|vertices| < 3 || !Collinear(vertices))
  {
    if |vertices| >= 3 {
      forall p, a, b | InPolygon(vertices, p) && Separates(vertices, p, a, b) ensures Collinear(vertices) {
        SeparatedMeansCollinear(vertices, p, a, b);
      }
      if Collinear(vertices) {
        var corner := CoordinatesAreBounded(vertices);
        var p := CollinearReachesOutside(vertices, FromCorners(corner, corner));
        assert Separates(vertices, p, -1.0, 0.0) || Separates(vertices, p, 0.0, -1.0);
      }
    }
  }

  /** A polygon with area is not degenerate, so its box holds everything it accepts. */
  lemma AreaMeansBoxed(vertices: seq<Point>, box: Bounds, p: Point)
    requires IsBoxOf(box, vertices) && Shoelace(vertices, |vertices|) != 0.0 && InPolygon(vertices, p)
    ensures Covers(box, p)
  {
    if Collinear(vertices) {
      var o := vertices[0];
      forall i | 0 <= i < |vertices| ensures EdgeCross(vertices, i, o) == 0.0 {
        assert Cross(o, vertices[i], Next(vertices, i)) == 0.0;
        TurnIsCross(vertices[i], Next(vertices, i), o);
      }
      SumOfNonnegatives(vertices, o, |vertices|);
      SumOfNonpositives(vertices, o, |vertices|);
      CrossesSumToArea(vertices, o);
      assert false;
    }
    BoxCoversExactly(vertices, box);
  }

  // ----- Shapes -----

  predicate InCircle(c: Point, r: real, p: Point) {
    var dx, dy := p.x - c.x, p.y - c.y;
    r > 0.0 && dx * dx + dy * dy <= r * r
  }

  predicate InEllipse(c: Point, radii: Size, p: Point) {
    if radii.width <= 0.0 || radii.height <= 0.0 then false
    else
      var nx, ny := (p.x - c.x) / radii.width, (p.y - c.y) / radii.height;
      nx * nx + ny * ny <= 1.0
  }

  function CircleDistance(c: Point, r: real, p: Point, sqrt: real -> real): Distance {
    Finite(r - Hypotenuse(p.x - c.x, p.y - c.y, sqrt))
  }

  function EllipseDistance(c: Point, radii: Size, p: Point, sqrt: real -> real): Distance {
    if radii.width <= 0.0 || radii.height <= 0.0 then NegInfinity
    else
      var nx, ny := (p.x - c.x) / radii.width, (p.y - c.y) / radii.height;
      var scale := if radii.width <= radii.height then radii.width else radii.height;
      Finite((1.0 - Hypotenuse(nx, ny, sqrt)) * scale)
  }

  /** Hit-testing: the points a shape accepts. */
  ghost predicate Contains(shape: ClipShape, p: Point) {
    match shape
    case Circle(c, r) => InCircle(c, r, p)
    case Ellipse(c, radii) => InEllipse(c, radii, p)
    case ConvexPolygon(vertices) => InPolygon(vertices, p)
  }

  method HitTest(shape: ClipShape, p: Point) returns (inside: bool)
    ensures inside == Contains(shape, p)
  {
    match shape
    case Circle(c, r) => inside := InCircle(c, r, p);
    case Ellipse(c, radii) => inside := InEllipse(c, radii, p);
    case ConvexPolygon(vertices) => inside := PointInConvexPolygon(vertices, p);
  }

  ghost function SignedDistance(shape: ClipShape, p: Point, sqrt: real -> real): Distance {
    match shape
    case Circle(c, r) => CircleDistance(c, r, p, sqrt)
    case Ellipse(c, radii) => EllipseDistance(c, radii, p, sqrt)
    case ConvexPolygon(vertices) => PolygonDistance(vertices, p, sqrt)
  }

  /** The radius less the distance to the centre; for a circle that exists, the distance to it, outside negative. */
  ghost predicate IsCircleDistance(d: real, c: Point, r: real, p: Point) {
    && d <= r && SquaredDistance(p, c) == Times(r - d, r - d)
    && (r >= 0.0 ==> IsDistance(Abs(d), p, CircleAt(c, r)))
  }

  /** No point of the ellipse is nearer than `d` says; at the centre `d` is the distance to the ellipse, and from
      there it falls evenly along every ray, through 0 on the ellipse. */
  ghost predicate IsEllipseDistance(d: real, c: Point, radii: Size, p: Point) {
    && NoneNearer(d, p, EllipseAt(c, radii))
    && exists centre :: IsDistance(centre, c, EllipseAt(c, radii)) &&
         forall q, k :: OnEllipse(q, c, radii) && k >= 0.0 && p == Toward(c, q, k) ==> d == (1.0 - k) * centre
  }

  /** What the signed distance to a shape measures. */
  ghost predicate Measures(d: Distance, shape: ClipShape, p: Point) {
    match shape
    case Circle(c, r) => d.Finite? && IsCircleDistance(d.value, c, r, p)
    case Ellipse(c, radii) =>
      if radii.width <= 0.0 || radii.height <= 0.0 then d == NegInfinity
      else d.Finite? && IsEllipseDistance(d.value, c, radii, p)
    case ConvexPolygon(vertices) => if |vertices| < 3 then d == NegInfinity else IsLeastLineDistance(d, vertices, p)
  }

  lemma CircleDistanceMeasures(c: Point, r: real, p: Point, sqrt: real -> real)
    requires IsSquareRoot(sqrt)
    ensures CircleDistance(c, r, p, sqrt).Finite? && IsCircleDistance(CircleDistance(c, r, p, sqrt).value, c, r, p)
  {
    hide IsDistance, IsSquareRoot, Times, Norm, Hypotenuse;
    var s := Hypotenuse(p.x - c.x, p.y - c.y, sqrt);
    HypotenuseSquared(p.x - c.x, p.y - c.y, sqrt);
    if r >= 0.0 {
      DistanceToCircle(c, r, p, s);
    }
  }

  lemma EllipseDistanceMeasures(c: Point, radii: Size, p: Point, sqrt: real -> real)
    requires IsSquareRoot(sqrt) && radii.width > 0.0 && radii.height > 0.0
    ensures EllipseDistance(c, radii, p, sqrt).Finite?
    ensures IsEllipseDistance(EllipseDistance(c, radii, p, sqrt).value, c, radii, p)
  {
    hide IsDistance, NoneNearer, IsSquareRoot, OnEllipse, Toward, Norm, Times, Hypotenuse;
    var n := Hypotenuse((p.x - c.x) / radii.width, (p.y - c.y) / radii.height, sqrt);
    HypotenuseSquared((p.x - c.x) / radii.width, (p.y - c.y) / radii.height, sqrt);
    var m := if radii.width <= radii.height then radii.width else radii.height;
    var d := EllipseDistance(c, radii, p, sqrt).value;
    assert d == (1.0 - n) * m;
    EllipseIsNoNearer(c, radii, p, n, m, d);
    CentreOfEllipse(c, radii, m);
    forall q, k | OnEllipse(q, c, radii) && k >= 0.0 && p == Toward(c, q, k) ensures d == (1.0 - k) * m {
      LengthAlongRay(c, radii, q, k, n);
    }
  }

  method SignedDistanceTo(shape: ClipShape, p: Point, sqrt: real -> real) returns (d: Distance)
    ensures d == SignedDistance(shape, p, sqrt)
    ensures IsSquareRoot(sqrt) ==> Measures(d, shape, p)
  {
    hide IsSquareRoot, IsCircleDistance, IsEllipseDistance, IsLeastLineDistance;
    match shape
    case Circle(c, r) =>
      d := CircleDistance(c, r, p, sqrt);
      if IsSquareRoot(sqrt) {
        CircleDistanceMeasures(c, r, p, sqrt);
      }
    case Ellipse(c, radii) =>
      d := EllipseDistance(c, radii, p, sqrt);
      if IsSquareRoot(sqrt) && radii.width > 0.0 && radii.height > 0.0 {
        EllipseDistanceMeasures(c, radii, p, sqrt);
      }
    case ConvexPolygon(vertices) =>
      d := ConvexSignedDistance(vertices, p, sqrt);
  }

  /** Where the sign of the distance and the hit test part ways: only at the centre of a circle of
      radius zero. */
  ghost predicate IsDot(shape: ClipShape, p: Point) {
    shape.Circle? && shape.radius == 0.0 && p == shape.center
  }

  lemma CircleTestsAgree(c: Point, r: real, p: Point, sqrt: real -> real)
    requires IsSquareRoot(sqrt)
    ensures (Contains(Circle(c, r), p) <==> SignedDistance(Circle(c, r), p, sqrt).AtLeastZero())
       <==> !IsDot(Circle(c, r), p)
  {
    var dx, dy := p.x - c.x, p.y - c.y;
    SquareIsNonnegative(dx);
    SquareIsNonnegative(dy);
    var q := dx * dx + dy * dy;
    var s := sqrt(q);
    assert s >= 0.0 && s * s == q;
    if r > 0.0 {
      SquaresCompare(s, r);
    } else if r == 0.0 {
      RootIsZero(dx, dy, s);
    }
  }

  lemma LegsAreShorter(dx: real, dy: real, s: real)
    requires s >= 0.0 && s * s == dx * dx + dy * dy
    ensures -s <= dx <= s
  {
    var leg := if dx < 0.0 then -dx else dx;
    assert leg * leg == dx * dx;
    SquareIsNonnegative(dy);
    SquaresCompare(leg, s);
  }

  lemma RootIsZero(dx: real, dy: real, s: real)
    requires s >= 0.0 && s * s == dx * dx + dy * dy
    ensures s == 0.0 <==> dx == 0.0 && dy == 0.0
  {
    if dx == 0.0 && dy == 0.0 {
      SquaresCompare(s, dx);
    } else {
      LegsAreShorter(dx, dy, s);
      LegsAreShorter(dy, dx, s);
    }
  }

  lemma EllipseTestsAgree(c: Point, radii: Size, p: Point, sqrt: real -> real)
    requires IsSquareRoot(sqrt)
    ensures Contains(Ellipse(c, radii), p) <==> SignedDistance(Ellipse(c, radii), p, sqrt).AtLeastZero()
  {
    if radii.width > 0.0 && radii.height > 0.0 {
      var nx, ny := (p.x - c.x) / radii.width, (p.y - c.y) / radii.height;
      SquareIsNonnegative(nx);
      SquareIsNonnegative(ny);
      var s := sqrt(nx * nx + ny * ny);
      var scale := if radii.width <= radii.height then radii.width else radii.height;
      SquaresCompare(s, 1.0);
      if s > 1.0 {
        ProductIsPositive(s - 1.0, scale);
        assert (1.0 - s) * scale == -((s - 1.0) * scale);
      } else if s < 1.0 {
        ProductIsPositive(1.0 - s, scale);
      }
    }
  }

  /** Hit-testing accepts exactly the points of nonnegative signed distance, for every shape and point
      but the one dot. */
  lemma TestsAgree(shape: ClipShape, p: Point, sqrt: real -> real)
    requires IsSquareRoot(sqrt)
    ensures (Contains(shape, p) <==> SignedDistance(shape, p, sqrt).AtLeastZero()) <==> !IsDot(shape, p)
  {
    match shape
    case Circle(c, r) => CircleTestsAgree(c, r, p, sqrt);
    case Ellipse(c, radii) => EllipseTestsAgree(c, radii, p, sqrt);
    case ConvexPolygon(vertices) => PolygonTestsAgree(vertices, p, sqrt);
  }

  method BoundingBox(shape: ClipShape) returns (box: Bounds)
    ensures shape.Circle? ==> box == Bounds(Point(shape.center.x - shape.radius, shape.center.y - shape.radius),
                                            Size(shape.radius * 2.0, shape.radius * 2.0))
    ensures shape.Ellipse? ==> box == Bounds(Point(shape.center.x - shape.radii.width, shape.center.y - shape.radii.height),
                                             Size(shape.radii.width * 2.0, shape.radii.height * 2.0))
    ensures shape.ConvexPolygon? ==> IsBoxOf(box, shape.vertices)
    ensures (forall p :: Contains(shape, p) ==> Covers(box, p))
       <==> !(shape.ConvexPolygon? && |shape.vertices| >= 3 && Collinear(shape.vertices))
  {
    match shape
    case Circle(c, r) =>
      box := Bounds(Point(c.x - r, c.y - r), Size(r * 2.0, r * 2.0));
      forall p | Contains(shape, p) ensures Covers(box, p) {
        RadiusBounds(p.x - c.x, p.y - c.y, r);
      }
    case Ellipse(c, radii) =>
      box := Bounds(Point(c.x - radii.width, c.y - radii.height), Size(radii.width * 2.0, radii.height * 2.0));
      forall p | Contains(shape, p) ensures Covers(box, p) {
        var nx, ny := (p.x - c.x) / radii.width, (p.y - c.y) / radii.height;
        RadiusBounds(nx, ny, 1.0);
        QuotientBounds(p.x - c.x, radii.width);
        QuotientBounds(p.y - c.y, radii.height);
      }
    case ConvexPolygon(vertices) =>
      box := PolygonBox(vertices);
      BoxCoversExactly(vertices, box);
  }

  lemma RadiusBounds(dx: real, dy: real, r: real)
    requires r > 0.0 && dx * dx + dy * dy <= r * r
    ensures -r <= dx <= r && -r <= dy <= r
  {
    SquareIsNonnegative(dx);
    SquareIsNonnegative(dy);
    AbsoluteCompare(dx, r);
    AbsoluteCompare(dy, r);
  }

  lemma AbsoluteCompare(d: real, r: real)
    requires r > 0.0 && d * d <= r * r
    ensures -r <= d <= r
  {
    if d < 0.0 {
      assert (-d) * (-d) == d * d;
      SquaresCompare(-d, r);
    } else {
      SquaresCompare(d, r);
    }
  }

  lemma QuotientBounds(d: real, r: real)
    requires r > 0.0 && -1.0 <= d / r <= 1.0
    ensures -r <= d <= r
  {
    var n := d / r;
    assert r - d == (1.0 - n) * r;
    assert r + d == (1.0 + n) * r;
    ProductIsNonnegative(1.0 - n, r);
    ProductIsNonnegative(1.0 + n, r);
  }

  // ----- Masks -----

  function CoverageOf(signed: Distance, aaWidth: real): real {
    var aa := if aaWidth >= EPSILON then aaWidth else EPSILON;
    match signed
    case NegInfinity => 0.0
    case PosInfinity => 1.0
    case Finite(d) => Clamp01(d / aa + 0.5)
  }

  /** Whatever the width of the soft edge, half coverage marks the boundary. */
  lemma HalfCoverage(signed: Distance, aaWidth: real)
    ensures 0.0 <= CoverageOf(signed, aaWidth) <= 1.0
    ensures CoverageOf(signed, aaWidth) >= 0.5 <==> signed.AtLeastZero()
  {
    if signed.Finite? {
      QuotientSign(signed.value, if aaWidth >= EPSILON then aaWidth else EPSILON);
    }
  }

  /** The coverage rises in proportion to the distance across a band of width `aa` around the boundary, from 0 at its
      outer to 1 at its inner edge; a band narrower than epsilon is one of width epsilon. */
  lemma CoverageIsRamp(d: real, aaWidth: real, aa: real)
    requires aa >= aaWidth && aa >= EPSILON && (aa == aaWidth || aa == EPSILON)
    ensures var coverage := CoverageOf(Finite(d), aaWidth);
            if 2.0 * d <= -aa then coverage == 0.0
            else if 2.0 * d >= aa then coverage == 1.0
            else Times(coverage, aa) == d + aa / 2.0
  {
    hide Times;
    var q := d / aa;
    var shifted := q + 0.5;
    RampTimes(d, aa, shifted);
    RampSign(d, aa, shifted);
  }

  lemma RampTimes(d: real, aa: real, shifted: real)
    requires aa > 0.0 && shifted == d / aa + 0.5
    ensures Times(shifted, aa) == d + aa / 2.0
  {
    assert d == d / aa * aa;
  }

  lemma RampSign(d: real, aa: real, shifted: real)
    requires aa > 0.0 && Times(shifted, aa) == d + aa / 2.0
    ensures shifted <= 0.0 <==> 2.0 * d <= -aa
    ensures shifted >= 1.0 <==> 2.0 * d >= aa
  {
    if shifted > 0.0 {
      ProductIsPositive(shifted, aa);
    } else {
      ProductIsNonnegative(-shifted, aa);
    }
    if shifted < 1.0 {
      ProductIsPositive(1.0 - shifted, aa);
    } else {
      ProductIsNonnegative(shifted - 1.0, aa);
    }
  }

  function Texel(origin: Point, x: nat, y: nat): Point {
    Point(origin.x + x as real + 0.5, origin.y + y as real + 0.5)
  }

  /** Where row `y` starts. */
  ghost function Row(width: nat, y: nat): nat {
    if y == 0 then 0 else Row(width, y - 1) + width
  }

  lemma {:induction false} RowIsProduct(width: nat, y: nat)
    ensures Row(width, y) == y * width
  {
    if y > 0 {
      RowIsProduct(width, y - 1);
    }
  }

  lemma {:induction false} RowsAreApart(width: nat, y: nat)
    ensures forall y' :: 0 <= y' < y ==> Row(width, y') + width <= Row(width, y)
  {
    if y > 0 {
      RowsAreApart(width, y - 1);
    }
  }

  ghost function TexelCoverage(shape: ClipShape, origin: Point, x: nat, y: nat, aaWidth: real, sqrt: real -> real): real {
    CoverageOf(SignedDistance(shape, Texel(origin, x, y), sqrt), aaWidth)
  }

  /** `rasterize_mask`: the coverage at every texel centre, row by row. */
  method RasterizeMask(shape: ClipShape, origin: Point, width: nat, height: nat, aaWidth: real, sqrt: real -> real)
    returns (mask: array<real>)
    ensures fresh(mask) && mask.Length == Row(width, height)
    ensures forall x, y :: 0 <= x < width && 0 <= y < height ==>
              Row(width, y) + x < mask.Length &&
              mask[Row(width, y) + x] == TexelCoverage(shape, origin, x, y, aaWidth, sqrt)
  {
    hide CoverageOf, SignedDistance, Texel;
    RowIsProduct(width, height);
    RowsAreApart(width, height);
    mask := new real[height * width](_ => 0.0);
    for y := 0 to height
      invariant mask.Length == Row(width, height)
      invariant forall x', y' :: 0 <= x' < width && 0 <= y' < y ==>
                  mask[Row(width, y') + x'] == TexelCoverage(shape, origin, x', y', aaWidth, sqrt)
    {
      RowIsProduct(width, y);
      RowsAreApart(width, y);
      ghost var start := Row(width, y);
      for x := 0 to width
        invariant forall x', y' :: 0 <= x' < width && 0 <= y' < y ==>
                    mask[Row(width, y') + x'] == TexelCoverage(shape, origin, x', y', aaWidth, sqrt)
        invariant forall x' :: 0 <= x' < x ==> mask[start + x'] == TexelCoverage(shape, origin, x', y, aaWidth, sqrt)
      {
        var signed := SignedDistanceTo(shape, Texel(origin, x, y), sqrt);
        mask[y * width + x] := CoverageOf(signed, aaWidth);
      }
    }
  }

  function RoundHalfUp(x: real): int {
    (x + 0.5).Floor
  }

  lemma RoundingIsMild(exact: real, a: int)
    requires 0.0 <= exact <= a as real
    ensures 0 <= RoundHalfUp(exact) <= a
    ensures exact - 0.5 < RoundHalfUp(exact) as real <= exact + 0.5
    ensures exact == 0.0 ==> RoundHalfUp(exact) == 0
    ensures exact == a as real ==> RoundHalfUp(exact) == a
    ensures 2.0 * exact >= a as real ==> 2 * RoundHalfUp(exact) >= a
    ensures 2.0 * exact <= a as real ==> 2 * RoundHalfUp(exact) <= a + 1
  {
    var rounded := RoundHalfUp(exact);
    assert rounded as real <= exact + 0.5 < rounded as real + 1.0;
    assert (2 * rounded) as real == 2.0 * rounded as real;
  }

  function ScaledExactly(alpha: real, coverage: real): (exact: real)
    requires alpha >= 0.0
    ensures 0.0 <= exact <= alpha
    ensures 0.0 <= coverage <= 1.0 ==> exact == alpha * coverage
    ensures coverage <= 0.0 ==> exact <= 0.0
    ensures coverage >= 1.0 ==> exact >= alpha
    ensures coverage >= 0.5 ==> 2.0 * exact >= alpha
    ensures coverage <= 0.5 ==> 2.0 * exact <= alpha
  {
    var c := Clamp01(coverage);
    var exact := alpha * c;
    ScaleBounds(alpha, c, exact);
    exact
  }

  /** An alpha value scaled by a coverage and rounded half up. */
  function ScaledAlpha(alpha: byte, coverage: real): (scaled: byte)
    ensures scaled <= alpha
    ensures 0.0 <= coverage <= 1.0 ==> alpha as real * coverage - 0.5 < scaled as real <= alpha as real * coverage + 0.5
    ensures coverage <= 0.0 ==> scaled == 0
    ensures coverage >= 1.0 ==> scaled == alpha
    ensures coverage >= 0.5 ==> 2 * scaled >= alpha
    ensures coverage <= 0.5 ==> 2 * scaled <= alpha + 1
  {
    var exact := ScaledExactly(alpha as real, coverage);
    RoundingIsMild(exact, alpha);
    RoundHalfUp(exact)
  }

  lemma ScaleBounds(a: real, c: real, e: real)
    requires a >= 0.0 && 0.0 <= c <= 1.0 && e == a * c
    ensures 0.0 <= e <= a
    ensures c <= 0.0 ==> e <= 0.0
    ensures c >= 1.0 ==> e >= a
    ensures c >= 0.5 ==> 2.0 * e >= a
    ensures c <= 0.5 ==> 2.0 * e <= a
  {
    ProductIsNonnegative(a, c);
    ProductIsNonnegative(a, 1.0 - c);
    assert a - e == a * (1.0 - c);
    if c >= 0.5 {
      ProductIsNonnegative(a, c - 0.5);
      assert e - 0.5 * a == a * (c - 0.5);
    }
    if c <= 0.5 {
      ProductIsNonnegative(a, 0.5 - c);
      assert 0.5 * a - e == a * (0.5 - c);
    }
  }

  /** `apply_clip_mask_bgra` scales one byte of every masked pixel and touches nothing else. */
  method ApplyClipMask(pixels: array<byte>, mask: seq<real>)
    modifies pixels
    ensures forall j :: 0 <= j < pixels.Length ==>
              pixels[j] == if j % 4 == 3 && j / 4 < |mask| then ScaledAlpha(old(pixels[j]), mask[j / 4]) else old(pixels[j])
  {
    var index := 0;
    while index < |mask|
      invariant 0 <= index <= |mask|
      invariant forall j :: 0 <= j < pixels.Length ==>
                  pixels[j] == if j % 4 == 3 && j / 4 < index then ScaledAlpha(old(pixels[j]), mask[j / 4]) else old(pixels[j])
    {
      var alphaByte := index * 4 + 3;
      if alphaByte >= pixels.Length {
        break;
      }
      pixels[alphaByte] := ScaledAlpha(pixels[alphaByte], mask[index]);
      index := index + 1;
    }
  }

  /** Clipping through a mask and hit-testing agree at every texel centre: a pixel keeps at least half of
      its alpha if its centre would be hit, and (up to rounding) at most half if not. */
  lemma ClippingMatchesHitTest(shape: ClipShape, centre: Point, aaWidth: real, sqrt: real -> real, alpha: byte)
    requires IsSquareRoot(sqrt) && !IsDot(shape, centre)
    ensures var scaled := ScaledAlpha(alpha, CoverageOf(SignedDistance(shape, centre, sqrt), aaWidth));
            if Contains(shape, centre) then 2 * scaled >= alpha else 2 * scaled <= alpha + 1
  {
    var coverage := CoverageOf(SignedDistance(shape, centre, sqrt), aaWidth);
    TestsAgree(shape, centre, sqrt);
    HalfCoverage(SignedDistance(shape, centre, sqrt), aaWidth);
  }

  function Translate(shape: ClipShape, offset: Point): ClipShape {
    match shape
    case Circle(c, r) => Circle(Shift(c, offset), r)
    case Ellipse(c, radii) => Ellipse(Shift(c, offset), radii)
    case ConvexPolygon(vertices) =>
      ConvexPolygon(seq(|vertices|, i requires 0 <= i < |vertices| => Shift(vertices[i], offset)))
  }

  function Shift(p: Point, offset: Point): Point {
    Point(p.x + offset.x, p.y + offset.y)
  }

  lemma MovedEdge(vertices: seq<Point>, offset: Point, i: nat, p: Point)
    requires i < |vertices|
    ensures var moved := Translate(ConvexPolygon(vertices), offset).vertices;
            && moved[i] == Shift(vertices[i], offset) && Next(moved, i) == Shift(Next(vertices, i), offset)
            && EdgeCross(moved, i, Shift(p, offset)) == EdgeCross(vertices, i, p)
  {
    var moved := Translate(ConvexPolygon(vertices), offset).vertices;
    var a, b, a', b', p' := vertices[i], Next(vertices, i), moved[i], Next(moved, i), Shift(p, offset);
    assert b'.x - a'.x == b.x - a.x && p'.y - a'.y == p.y - a.y;
    assert b'.y - a'.y == b.y - a.y && p'.x - a'.x == p.x - a.x;
  }

  /** A moved shape accepts exactly the moved points. */
  lemma TranslateMovesContents(shape: ClipShape, offset: Point, p: Point)
    ensures Contains(Translate(shape, offset), Shift(p, offset)) <==> Contains(shape, p)
  {
    match shape
    case Circle(c, r) =>
      assert Shift(p, offset).x - Shift(c, offset).x == p.x - c.x;
      assert Shift(p, offset).y - Shift(c, offset).y == p.y - c.y;
    case Ellipse(c, radii) =>
      assert Shift(p, offset).x - Shift(c, offset).x == p.x - c.x;
      assert Shift(p, offset).y - Shift(c, offset).y == p.y - c.y;
    case ConvexPolygon(vertices) =>
      forall i | 0 <= i < |vertices|
        ensures EdgeCross(Translate(shape, offset).vertices, i, Shift(p, offset)) == EdgeCross(vertices, i, p)
      {
        MovedEdge(vertices, offset, i, p);
      }
  }

  lemma MovedLength(a: Point, b: Point, offset: Point, sqrt: real -> real)
    ensures Length(Shift(a, offset), Shift(b, offset), sqrt) == Length(a, b, sqrt)
  {
    hide Hypotenuse;
    var a', b' := Shift(a, offset), Shift(b, offset);
    assert b'.x - a'.x == b.x - a.x && b'.y - a'.y == b.y - a.y;
  }

  lemma {:induction false} MovedCrossSum(vertices: seq<Point>, offset: Point, p: Point, n: nat)
    requires n <= |vertices|
    ensures CrossSum(Translate(ConvexPolygon(vertices), offset).vertices, Shift(p, offset), n) == CrossSum(vertices, p, n)
  {
    hide EdgeCross, Shift;
    if n > 0 {
      MovedCrossSum(vertices, offset, p, n - 1);
      MovedEdge(vertices, offset, n - 1, p);
    }
  }

  /** The signed area of a polygon does not change when it moves. */
  lemma MovedArea(vertices: seq<Point>, offset: Point, p: Point)
    requires |vertices| > 0
    ensures Winding(Translate(ConvexPolygon(vertices), offset).vertices) == Winding(vertices)
  {
    hide Shoelace, CrossSum, Shift;
    MovedCrossSum(vertices, offset, p, |vertices|);
    CrossesSumToArea(vertices, p);
    CrossesSumToArea(Translate(ConvexPolygon(vertices), offset).vertices, Shift(p, offset));
  }

  lemma {:induction false} MovedLeastDistance(vertices: seq<Point>, offset: Point, p: Point, sqrt: real -> real, n: nat)
    requires n <= |vertices| && |vertices| > 0
    ensures LeastDistance(Translate(ConvexPolygon(vertices), offset).vertices, Shift(p, offset), sqrt, n)
         == LeastDistance(vertices, p, sqrt, n)
  {
    hide EdgeCross, Shift, Length, Winding;
    if n > 0 {
      MovedLeastDistance(vertices, offset, p, sqrt, n - 1);
      MovedEdge(vertices, offset, n - 1, p);
      MovedLength(vertices[n - 1], Next(vertices, n - 1), offset, sqrt);
      MovedArea(vertices, offset, p);
    }
  }

  /** The signed distance does not change when shape and point move together. */
  lemma TranslateKeepsDistance(shape: ClipShape, offset: Point, p: Point, sqrt: real -> real)
    ensures SignedDistance(Translate(shape, offset), Shift(p, offset), sqrt) == SignedDistance(shape, p, sqrt)
  {
    hide LeastDistance, Hypotenuse;
    match shape
    case Circle(c, r) =>
      assert Shift(p, offset).x - Shift(c, offset).x == p.x - c.x;
      assert Shift(p, offset).y - Shift(c, offset).y == p.y - c.y;
    case Ellipse(c, radii) =>
      assert Shift(p, offset).x - Shift(c, offset).x == p.x - c.x;
      assert Shift(p, offset).y - Shift(c, offset).y == p.y - c.y;
    case ConvexPolygon(vertices) =>
      if vertices != [] {
        MovedLeastDistance(vertices, offset, p, sqrt, |vertices|);
      }
  }

  /** A mask shows the shape where its origin puts it: counting texels from another origin is the same as moving the
      origin by whole pixels, and a shape moved together with the origin leaves the same mask. */
  lemma MasksMoveWithTheirOrigin(shape: ClipShape, origin: Point, offset: Point, x: nat, y: nat, dx: nat, dy: nat,
                                 aaWidth: real, sqrt: real -> real)
    ensures TexelCoverage(shape, origin, x + dx, y + dy, aaWidth, sqrt)
         == TexelCoverage(shape, Shift(origin, Point(dx as real, dy as real)), x, y, aaWidth, sqrt)
    ensures TexelCoverage(Translate(shape, offset), Shift(origin, offset), x, y, aaWidth, sqrt)
         == TexelCoverage(shape, origin, x, y, aaWidth, sqrt)
    ensures TexelCoverage(shape, origin, 0, 0, aaWidth, sqrt)
         == CoverageOf(SignedDistance(shape, Shift(origin, Point(0.5, 0.5)), sqrt), aaWidth)
  {
    hide SignedDistance, CoverageOf, Translate;
    TranslateKeepsDistance(shape, offset, Texel(origin, x, y), sqrt);
    assert Shift(Texel(origin, x, y), offset) == Texel(Shift(origin, offset), x, y);
    assert Texel(origin, x + dx, y + dy) == Texel(Shift(origin, Point(dx as real, dy as real)), x, y);
  }
}

// Cubic easing curves of crates/kael/src/animation.rs, in exact arithmetic: the curve's parameter for a
// given time is found by twelve steps of bisection.
module Bezier {
  import opened Arithmetic

  /** One coordinate of the curve from 0 to 1 with inner control values `p1` and `p2`. */
  function Axis(p1: real, p2: real, t: real): real {
    var u := 1.0 - t;
    3.0 * u * u * t * p1 + 3.0 * u * t * t * p2 + t * t * t
  }

  /** The point that divides the way from `a` to `b` at `t`. */
  ghost function Mix(a: real, b: real, t: real): real {
    (1.0 - t) * a + t * b
  }

  /** The polynomial is the cubic Bezier curve of the control values 0, `p1`, `p2` and 1: three rounds of dividing the
      ways between neighbours at `t` leave its value. */
  lemma AxisIsBezierCurve(p1: real, p2: real, t: real)
    ensures var a, b, c := Mix(0.0, p1, t), Mix(p1, p2, t), Mix(p2, 1.0, t);
            Axis(p1, p2, t) == Mix(Mix(a, b, t), Mix(b, c, t), t)
  {
    hide Mix, Quadratic, Axis;
    TwoRounds(0.0, p1, p2, t);
    TwoRounds(p1, p2, 1.0, t);
    LastRound(p1, p2, t);
  }

  /** The quadratic curve of three control values. */
  ghost function Quadratic(u: real, t: real, p: real, q: real, r: real): real {
    u * u * p + 2.0 * (u * t * q) + t * t * r
  }

  lemma TwoRounds(p: real, q: real, r: real, t: real)
    ensures Mix(Mix(p, q, t), Mix(q, r, t), t) == Quadratic(1.0 - t, t, p, q, r)
  {
    Distributed(1.0 - t, t, p, q, r);
  }

  lemma Distributed(u: real, t: real, p: real, q: real, r: real)
    ensures u * (u * p + t * q) + t * (u * q + t * r) == Quadratic(u, t, p, q, r)
  {
  }

  lemma LastRound(p1: real, p2: real, t: real)
    ensures Mix(Quadratic(1.0 - t, t, 0.0, p1, p2), Quadratic(1.0 - t, t, p1, p2, 1.0), t) == Axis(p1, p2, t)
  {
    hide Quadratic;
    DistributedAgain(1.0 - t, t, p1, p2);
  }

  lemma DistributedAgain(u: real, t: real, p1: real, p2: real)
    ensures u * Quadratic(u, t, 0.0, p1, p2) + t * Quadratic(u, t, p1, p2, 1.0)
         == 3.0 * u * u * t * p1 + 3.0 * u * t * t * p2 + t * t * t
  {
  }

  /** 2^-n. */
  ghost function HalfTo(n: nat): (h: real)
    ensures h > 0.0
  {
    if n == 0 then 1.0 else HalfTo(n - 1) / 2.0
  }

  /** A bracket of the parameters at which the curve has reached `delta`. */
  ghost predicate IsBracket(x1: real, x2: real, delta: real, low: real, high: real) {
    && 0.0 <= low <= high <= 1.0
    && (low == 0.0 || Axis(x1, x2, low) < delta)
    && (high == 1.0 || Axis(x1, x2, high) >= delta)
  }

  /** The bracket after `n` steps. The first probe is at `delta` itself, every later one in the middle. */
  ghost function Bracket(x1: real, x2: real, delta: real, n: nat): (real, real) {
    if n == 0 then (0.0, 1.0)
    else
      var (low, high) := Bracket(x1, x2, delta, n - 1);
      var t := if n == 1 then delta else (low + high) / 2.0;
      if Axis(x1, x2, t) < delta then (t, high) else (low, t)
  }

  /** The parameter at which the other coordinate is read off. */
  ghost function FoundParameter(x1: real, x2: real, delta: real): real {
    var (low, high) := Bracket(x1, x2, delta, 12);
    (low + high) / 2.0
  }

  /** The other coordinate there, limited to [0, 1]. */
  ghost function Eased(x1: real, y1: real, x2: real, y2: real, delta: real): real {
    Clamp01(Axis(y1, y2, FoundParameter(x1, x2, delta)))
  }

  /** `cubic_bezier`. */
  method CubicBezier(x1: real, y1: real, x2: real, y2: real, delta: real) returns (eased: real)
    ensures eased == Eased(x1, y1, x2, y2, delta)
  {
    var low, high, t := 0.0, 1.0, delta;
    for i := 0 to 12
      invariant (low, high) == Bracket(x1, x2, delta, i)
      invariant t == if i == 0 then delta else (low + high) / 2.0
    {
      var x := Axis(x1, x2, t);
      if x < delta {
        low := t;
      } else {
        high := t;
      }
      t := (low + high) / 2.0;
    }
    eased := Clamp01(Axis(y1, y2, t));
  }

  /** For any control points the bracket closes in on the times around `delta`, to a width of 2^-11. */
  lemma {:induction false} BracketCloses(x1: real, x2: real, delta: real, n: nat)
    requires 0.0 <= delta <= 1.0
    ensures var (low, high) := Bracket(x1, x2, delta, n);
            IsBracket(x1, x2, delta, low, high) && high - low <= HalfTo(if n == 0 then 0 else n - 1)
  {
    if n > 0 {
      BracketCloses(x1, x2, delta, n - 1);
    }
  }

  // ----- Monotonicity -----

  // For fixed parameters the rise of the curve is affine in each control value, so it suffices to look at
  // the four curves whose control values are 0 or 1.

  ghost function Rise(p1: real, p2: real, s: real, t: real): real {
    Axis(p1, p2, t) - Axis(p1, p2, s)
  }

  /** The rise of each corner curve is `t - s` times a factor between 0 and 3. */
  ghost function CornerFactor(p1: bool, p2: bool, s: real, t: real): real {
    var sum, squares := s + t, s * s + s * t + t * t;
    if !p1 && !p2 then squares
    else if p1 && p2 then 3.0 - 3.0 * sum + squares
    else if p2 then 3.0 * sum - 2.0 * squares
    else 3.0 - 6.0 * sum + 4.0 * squares
  }

  /** What is needed about the products of two numbers in [0, 1], as linear facts. */
  ghost predicate ProductFacts(s: real, t: real, ss: real, st: real, tt: real) {
    && 0.0 <= s < t <= 1.0
    && 0.0 <= ss <= s && 0.0 < tt <= t && 0.0 <= st <= s && st < t
    && s - ss <= 0.25 && t - tt <= 0.25
    && 1.0 - s - t + st >= 0.0
    && 1.0 - 2.0 * s - 2.0 * t + ss + 2.0 * st + tt >= 0.0
    && ss - 2.0 * st + tt > 0.0
  }

  lemma Products(s: real, t: real)
    requires 0.0 <= s < t <= 1.0
    ensures ProductFacts(s, t, s * s, s * t, t * t)
  {
    ProductBelow(s, s);
    ProductBelow(t, t);
    ProductBelow(t, s);
    ProductIsPositive(t, t);
    ProductIsPositive(t, 1.0 - s);
    assert t * (1.0 - s) == t - s * t;
    QuarterBound(s);
    QuarterBound(t);
    ProductIsNonnegative(1.0 - s, 1.0 - t);
    assert (1.0 - s) * (1.0 - t) == 1.0 - s - t + s * t;
    SquareIsNonnegative(1.0 - s - t);
    assert (1.0 - s - t) * (1.0 - s - t) == 1.0 - 2.0 * s - 2.0 * t + s * s + 2.0 * (s * t) + t * t;
    TimesIsPositive(t - s, t - s);
    assert Times(t - s, t - s) == s * s - 2.0 * (s * t) + t * t;
  }

  lemma ProductBelow(a: real, b: real)
    requires 0.0 <= a <= 1.0 && b >= 0.0
    ensures 0.0 <= a * b <= b
  {
    ProductIsNonnegative(a, b);
    ProductIsNonnegative(1.0 - a, b);
    assert (1.0 - a) * b == b - a * b;
  }

  lemma QuarterBound(x: real)
    ensures x - x * x <= 0.25
  {
    SquareIsNonnegative(x - 0.5);
    assert (x - 0.5) * (x - 0.5) == 0.25 - x + x * x;
  }

  lemma FactorsFromProducts(s: real, t: real, ss: real, st: real, tt: real)
    requires ProductFacts(s, t, ss, st, tt)
    ensures 0.0 < ss + st + tt <= 3.0
    ensures 0.0 < 3.0 * (s + t) - 2.0 * (ss + st + tt) <= 3.0
    ensures 0.0 < 3.0 - 6.0 * (s + t) + 4.0 * (ss + st + tt) <= 3.0
  {
  }

  lemma LowerCorners(s: real, t: real)
    requires 0.0 <= s < t <= 1.0
    ensures 0.0 < CornerFactor(false, false, s, t) <= 3.0
    ensures 0.0 < CornerFactor(false, true, s, t) <= 3.0
    ensures 0.0 < CornerFactor(true, false, s, t) <= 3.0
  {
    Products(s, t);
    FactorsFromProducts(s, t, s * s, s * t, t * t);
  }

  /** The curve with both control values 1 is the one with both 0 upside down. */
  lemma UpperCorner(s: real, t: real)
    requires 0.0 <= s < t <= 1.0
    ensures 0.0 < CornerFactor(true, true, s, t) <= 3.0
  {
    LowerCorners(1.0 - t, 1.0 - s);
    assert CornerFactor(true, true, s, t) == CornerFactor(false, false, 1.0 - t, 1.0 - s);
  }

  /** The factor for any control values, between those of the corners. */
  ghost function Factor(p1: real, p2: real, s: real, t: real): real {
    var f := CornerFactor(false, false, s, t);
    f + Times(p1, CornerFactor(true, false, s, t) - f) + Times(p2, CornerFactor(false, true, s, t) - f)
  }

  lemma RiseFactors(p1: real, p2: real, s: real, t: real)
    ensures Rise(p1, p2, s, t) == (t - s) * Factor(p1, p2, s, t)
  {
  }

  lemma BetweenStays(a: real, b: real, p: real)
    requires 0.0 < a <= 3.0 && 0.0 < b <= 3.0 && 0.0 <= p <= 1.0
    ensures 0.0 < a + Times(p, b - a) <= 3.0
  {
    if a <= b {
      TimesBelow(p, b - a);
    } else {
      TimesBelow(p, a - b);
      TimesNegated(p, a - b);
      assert -(a - b) == b - a;
    }
  }

  lemma FactorBounds(p1: real, p2: real, s: real, t: real)
    requires 0.0 <= p1 <= 1.0 && 0.0 <= p2 <= 1.0 && 0.0 <= s < t <= 1.0
    ensures 0.0 < Factor(p1, p2, s, t) <= 3.0
  {
    LowerCorners(s, t);
    UpperCorner(s, t);
    var f, f10, f01, f11 := CornerFactor(false, false, s, t), CornerFactor(true, false, s, t),
                            CornerFactor(false, true, s, t), CornerFactor(true, true, s, t);
    assert f11 - f01 == f10 - f;
    BetweenStays(f, f10, p1);
    BetweenStays(f01, f11, p1);
    var g0, g1 := f + Times(p1, f10 - f), f01 + Times(p1, f11 - f01);
    assert g1 - g0 == f01 - f;
    BetweenStays(g0, g1, p2);
  }

  /** With control values in [0, 1] a coordinate strictly increases, at most three times as fast as the
      parameter. */
  lemma AxisIncreases(p1: real, p2: real, s: real, t: real)
    requires 0.0 <= p1 <= 1.0 && 0.0 <= p2 <= 1.0 && 0.0 <= s < t <= 1.0
    ensures Axis(p1, p2, s) < Axis(p1, p2, t) <= Axis(p1, p2, s) + 3.0 * (t - s)
  {
    RiseFactors(p1, p2, s, t);
    FactorBounds(p1, p2, s, t);
    ScaledRise(Axis(p1, p2, s), Axis(p1, p2, t), t - s, Factor(p1, p2, s, t));
  }

  lemma ScaledRise(a: real, b: real, d: real, f: real)
    requires b - a == d * f && d > 0.0 && 0.0 < f <= 3.0
    ensures a < b <= a + 3.0 * d
  {
    ProductIsPositive(d, f);
    ProductIsNonnegative(d, 3.0 - f);
    assert d * (3.0 - f) == 3.0 * d - d * f;
  }

  // ----- What the easing computes -----

  /** The twelve steps land within 2^-12 of the parameter at which the curve is at time `delta`. */
  lemma ParameterIsClose(x1: real, x2: real, delta: real, exact: real)
    requires 0.0 <= x1 <= 1.0 && 0.0 <= x2 <= 1.0 && 0.0 <= delta <= 1.0
    requires 0.0 <= exact <= 1.0 && Axis(x1, x2, exact) == delta
    ensures 0.0 <= FoundParameter(x1, x2, delta) <= 1.0
    ensures -HalfTo(12) <= FoundParameter(x1, x2, delta) - exact <= HalfTo(12)
  {
    BracketCloses(x1, x2, delta, 12);
    var (low, high) := Bracket(x1, x2, delta, 12);
    if exact < low {
      AxisIncreases(x1, x2, exact, low);
    }
    if high < exact {
      AxisIncreases(x1, x2, high, exact);
    }
    assert HalfTo(12) == HalfTo(11) / 2.0;
  }

  // How steep a coordinate can get with control values outside [0, 1]

  ghost function Steepness(p1: real, p2: real): real {
    3.0 * (1.0 + Abs(p1) + Abs(p2))
  }

  lemma FactorIsBounded(p1: real, p2: real, s: real, t: real)
    requires 0.0 <= s < t <= 1.0
    ensures Abs(Factor(p1, p2, s, t)) <= Steepness(p1, p2)
  {
    hide CornerFactor, Times;
    LowerCorners(s, t);
    var f, f10, f01 := CornerFactor(false, false, s, t), CornerFactor(true, false, s, t), CornerFactor(false, true, s, t);
    TimesMagnitude(p1, f10 - f, 3.0);
    TimesMagnitude(p2, f01 - f, 3.0);
    TimesThree(Abs(p1));
    TimesThree(Abs(p2));
  }

  lemma TimesThree(x: real)
    ensures Times(x, 3.0) == 3.0 * x
  {
  }

  lemma AxisMovesLittle(p1: real, p2: real, s: real, t: real, gap: real)
    requires 0.0 <= s <= 1.0 && 0.0 <= t <= 1.0 && Abs(t - s) <= gap
    ensures Abs(Axis(p1, p2, t) - Axis(p1, p2, s)) <= Times(Steepness(p1, p2), gap)
  {
    hide Axis, Factor, Steepness;
    assert Steepness(p1, p2) >= 0.0 by {
      SteepnessIsPositive(p1, p2);
    }
    if s == t {
      ProductIsNonnegative(Steepness(p1, p2), gap);
    } else {
      var lo, hi := if s < t then s else t, if s < t then t else s;
      FactorIsBounded(p1, p2, lo, hi);
      RiseFactors(p1, p2, lo, hi);
      TimesMagnitude(hi - lo, Factor(p1, p2, lo, hi), Steepness(p1, p2));
      ProductIsNonnegative(Steepness(p1, p2), gap - (hi - lo));
      assert Steepness(p1, p2) * (gap - (hi - lo))
          == Times(Steepness(p1, p2), gap) - Times(hi - lo, Steepness(p1, p2));
    }
  }

  lemma SteepnessIsPositive(p1: real, p2: real)
    ensures Steepness(p1, p2) > 0.0
  {
  }

  lemma ClampBringsCloser(a: real, b: real)
    ensures Abs(Clamp01(a) - Clamp01(b)) <= Abs(a - b)
  {
  }

  /** So the eased value is within 3 (1 + |y1| + |y2|) / 4096 of the exact one, whatever the y control values; and
      within 3/4096 if they lie in [0, 1]. */
  lemma EasingIsAccurate(x1: real, y1: real, x2: real, y2: real, delta: real, exact: real)
    requires 0.0 <= x1 <= 1.0 && 0.0 <= x2 <= 1.0 && 0.0 <= delta <= 1.0
    requires 0.0 <= exact <= 1.0 && Axis(x1, x2, exact) == delta
    ensures var error := Eased(x1, y1, x2, y2, delta) - Clamp01(Axis(y1, y2, exact));
            && Abs(error) <= 3.0 * (1.0 + Abs(y1) + Abs(y2)) / 4096.0
            && (0.0 <= y1 <= 1.0 && 0.0 <= y2 <= 1.0 ==> Abs(error) <= 3.0 / 4096.0)
  {
    hide Axis;
    var t := FoundParameter(x1, x2, delta);
    ParameterIsClose(x1, x2, delta, exact);
    TwelveHalvings();
    AxisMovesLittle(y1, y2, exact, t, 1.0 / 4096.0);
    assert Times(Steepness(y1, y2), 1.0 / 4096.0) == 3.0 * (1.0 + Abs(y1) + Abs(y2)) / 4096.0;
    ClampBringsCloser(Axis(y1, y2, t), Axis(y1, y2, exact));
    if 0.0 <= y1 <= 1.0 && 0.0 <= y2 <= 1.0 {
      if t < exact {
        AxisIncreases(y1, y2, t, exact);
      } else if exact < t {
        AxisIncreases(y1, y2, exact, t);
      }
    }
  }

  /** With x control values 1/3 and 2/3 the curve is its own parameter, which the bisection approaches from below. */
  lemma {:induction false} BracketAtHalf(x1: real, x2: real, n: nat)
    requires x1 == 1.0 / 3.0 && x2 == 2.0 / 3.0 && n > 0
    ensures Bracket(x1, x2, 0.5, n) == (0.5 - HalfTo(n), 0.5)
  {
    if n > 1 {
      BracketAtHalf(x1, x2, n - 1);
      AxisIsParameter(x1, x2, 0.5 - HalfTo(n - 1) / 2.0);
    } else {
      AxisIsParameter(x1, x2, 0.5);
      assert HalfTo(1) == 0.5;
    }
  }

  lemma AxisIsParameter(x1: real, x2: real, t: real)
    requires x1 == 1.0 / 3.0 && x2 == 2.0 / 3.0
    ensures Axis(x1, x2, t) == t
  {
  }

  /** The 3/4096 does not hold for all y control values: here the eased value is more than 70/4096 off. */
  lemma SteepCurvesAreLessAccurate(x1: real, x2: real)
    requires x1 == 1.0 / 3.0 && x2 == 2.0 / 3.0
    ensures Axis(x1, x2, 0.5) == 0.5
    ensures Eased(x1, 100.0, x2, -100.0, 0.5) - Clamp01(Axis(100.0, -100.0, 0.5)) > 70.0 / 4096.0
  {
    AxisIsParameter(x1, x2, 0.5);
    BracketAtHalf(x1, x2, 12);
    TwelveHalvings();
    assert FoundParameter(x1, x2, 0.5) == 0.5 - 1.0 / 8192.0;
    assert Axis(100.0, -100.0, 0.5) == 0.125;
  }

  lemma TwelveHalvings()
    ensures HalfTo(12) == 1.0 / 4096.0
  {
    assert HalfTo(4) == 1.0 / 16.0;
    assert HalfTo(8) == 1.0 / 256.0;
  }

  lemma AxisStaysInside(p1: real, p2: real, t: real)
    requires 0.0 <= p1 <= 1.0 && 0.0 <= p2 <= 1.0 && 0.0 <= t <= 1.0
    ensures 0.0 <= Axis(p1, p2, t) <= 1.0 && (t < 1.0 ==> Axis(p1, p2, t) < 1.0)
    ensures Axis(p1, p2, 0.0) == 0.0 && Axis(p1, p2, 1.0) == 1.0
  {
    if 0.0 < t {
      AxisIncreases(p1, p2, 0.0, t);
    }
    if t < 1.0 {
      AxisIncreases(p1, p2, t, 1.0);
    }
  }

  /** A curve starts exactly at 0. */
  lemma {:induction false} StartIsExact(x1: real, x2: real, n: nat)
    requires n > 0
    ensures Bracket(x1, x2, 0.0, n) == (0.0, 0.0)
  {
    if n > 1 {
      StartIsExact(x1, x2, n - 1);
    }
  }

  /** But it does not end exactly at 1: at `delta` 1 the probe at 1 moves the upper end, which is there
      already, and the bisection then creeps up from below. */
  lemma {:induction false} EndIsMissed(x1: real, x2: real, n: nat)
    requires 0.0 <= x1 <= 1.0 && 0.0 <= x2 <= 1.0 && n > 0
    ensures Bracket(x1, x2, 1.0, n) == (1.0 - HalfTo(n - 1), 1.0) && HalfTo(n - 1) <= 1.0
  {
    if n == 1 {
      AxisStaysInside(x1, x2, 1.0);
    } else {
      EndIsMissed(x1, x2, n - 1);
      AxisStaysInside(x1, x2, 1.0 - HalfTo(n - 2) / 2.0);
    }
  }

  /** Every curve starts at exactly 0, whatever its control points. */
  lemma EasedStart(x1: real, y1: real, x2: real, y2: real)
    ensures Eased(x1, y1, x2, y2, 0.0) == 0.0
  {
    StartIsExact(x1, x2, 12);
    assert FoundParameter(x1, x2, 0.0) == 0.0;
    assert Axis(y1, y2, 0.0) == 0.0;
  }

  /** At `delta` 1, after the first probe the bracket halves with every step, for any control points. */
  lemma {:induction false} EndBracketHalves(x1: real, x2: real, n: nat)
    requires n > 0
    ensures var (low, high) := Bracket(x1, x2, 1.0, n); 0.0 <= low && high <= 1.0 && high - low == HalfTo(n - 1)
  {
    if n > 1 {
      EndBracketHalves(x1, x2, n - 1);
    } else {
      assert Axis(x1, x2, 1.0) == 1.0;
    }
  }

  /** So no curve, whatever its control points, is ever read off at its end; and with control values in [0, 1] none
      ends at 1. */
  lemma EndIsNeverReached(x1: real, y1: real, x2: real, y2: real)
    ensures 0.0 <= FoundParameter(x1, x2, 1.0) <= 1.0 - 1.0 / 4096.0
    ensures 0.0 <= y1 <= 1.0 && 0.0 <= y2 <= 1.0 ==> Eased(x1, y1, x2, y2, 1.0) < 1.0
  {
    EndBracketHalves(x1, x2, 12);
    TwelveHalvings();
    assert HalfTo(12) == HalfTo(11) / 2.0;
    if 0.0 <= y1 <= 1.0 && 0.0 <= y2 <= 1.0 {
      AxisStaysInside(y1, y2, FoundParameter(x1, x2, 1.0));
    }
  }

  /** At `delta` 1 the curve is read off at 1 - 2^-12. So it ends at exactly 1 if and only if the control values
      `y1` and `y2` lift the curve to 1 or above there, where the clamp cuts it off. */
  lemma EasedEnd(x1: real, y1: real, x2: real, y2: real)
    requires 0.0 <= x1 <= 1.0 && 0.0 <= x2 <= 1.0
    ensures FoundParameter(x1, x2, 1.0) == 1.0 - 1.0 / 4096.0
    ensures Eased(x1, y1, x2, y2, 1.0) == 1.0
       <==> 3.0 * 4095.0 * y1 + 3.0 * 4095.0 * 4095.0 * y2 >= 3.0 * 4096.0 * 4096.0 - 3.0 * 4096.0 + 1.0
  {
    EndIsMissed(x1, x2, 12);
    TwelveHalvings();
    assert HalfTo(12) == HalfTo(11) / 2.0;
    var t := FoundParameter(x1, x2, 1.0);
    assert t == 4095.0 / 4096.0;
    AxisAtLastParameter(y1, y2, t);
  }

  lemma AxisAtLastParameter(y1: real, y2: real, t: real)
    requires t == 4095.0 / 4096.0
    ensures Axis(y1, y2, t) * (4096.0 * 4096.0 * 4096.0)
         == 3.0 * 4095.0 * y1 + 3.0 * 4095.0 * 4095.0 * y2 + 4095.0 * 4095.0 * 4095.0
  {
  }
}

// Bytes, and facts about products and quotients that several models need.
module Arithmetic {
  type byte = b: int | 0 <= b < 256

  const EPSILON := 1.0 / 8388608.0  // the 32-bit float epsilon, 2^-23

  function Min(a: nat, b: nat): nat {
    if a < b then a else b
  }

  function Clamp01(x: real): real {
    if x < 0.0 then 0.0 else if x > 1.0 then 1.0 else x
  }

  function Abs(x: real): real {
    if x < 0.0 then -x else x
  }

  // ----- Products of reals -----

  lemma ProductIsPositive(a: real, b: real)
    requires a > 0.0 && b > 0.0
    ensures a * b > 0.0
  {
  }

  lemma ProductIsNonnegative(a: real, b: real)
    requires a >= 0.0 && b >= 0.0
    ensures a * b >= 0.0
  {
  }

  /** A product under a name, for proofs in which the solver should not multiply out. */
  function Times(a: real, b: real): real {
    a * b
  }

  lemma TimesIsPositive(a: real, b: real)
    requires a > 0.0 && b > 0.0
    ensures Times(a, b) > 0.0
  {
  }

  lemma TimesBelow(p: real, x: real)
    requires 0.0 <= p <= 1.0 && 0.0 <= x
    ensures 0.0 <= Times(p, x) <= x
  {
    ProductIsNonnegative(p, x);
    ProductIsNonnegative(1.0 - p, x);
    assert (1.0 - p) * x == x - p * x;
  }

  lemma TimesNegated(p: real, x: real)
    ensures Times(p, -x) == -Times(p, x) && Times(-p, x) == -Times(p, x)
  {
  }

  lemma SquareSign(x: real)
    ensures Times(x, x) >= 0.0 && (x != 0.0 ==> Times(x, x) > 0.0)
  {
    if x > 0.0 {
      TimesIsPositive(x, x);
    } else if x < 0.0 {
      TimesIsPositive(-x, -x);
      assert Times(-x, -x) == Times(x, x);
    }
  }

  lemma SquareIsNonnegative(x: real)
    ensures x * x >= 0.0
  {
    SquareSign(x);
  }

  lemma TimesMagnitude(p: real, x: real, bound: real)
    requires Abs(x) <= bound
    ensures Abs(Times(p, x)) <= Times(Abs(p), bound)
  {
    ProductIsNonnegative(Abs(p), bound - x);
    ProductIsNonnegative(Abs(p), bound + x);
    assert Abs(p) * (bound - x) == Times(Abs(p), bound) - Abs(p) * x;
    assert Abs(p) * (bound + x) == Times(Abs(p), bound) + Abs(p) * x;
    assert Times(p, x) == Abs(p) * x || Times(p, x) == -(Abs(p) * x);
  }

  // ----- Quotients of integers -----

  lemma ProductsGrow(a: int, b: int, d: nat)
    requires a <= b
    ensures a * d <= b * d
  {
    assert (b - a) * d >= 0;
  }

  lemma QuotientUnique(x: int, d: nat, q: int, r: nat)
    requires x == q * d + r && r < d
    ensures x / d == q && x % d == r
  {
    var p := x / d;
    assert x == p * d + x % d;
    if p < q {
      ProductsGrow(p + 1, q, d);
    } else if q < p {
      ProductsGrow(q + 1, p, d);
    }
  }

  lemma MultipleModulo(q: int, d: nat)
    requires d > 0
    ensures (q * d) % d == 0 && (q * d) / d == q
  {
    QuotientUnique(q * d, d, q, 0);
  }
}

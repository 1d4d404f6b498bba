/**
 * Exact decimal arithmetic as BigDecimal does it, on Dafny's exact `real`s,
 * and the one inexact step of the estimate: a division carried out under a
 * MathContext of precision 2 (ESTIMATE_FRACTIONAL_PART, used as a count of
 * significant digits) with RoundingMode.UP (ESTIMATE_ROUNDING_MODE, rounding
 * away from zero).
 */
module Rounding {

  /** 10 raised to an integer power. */
  function Pow10(e: int): (r: real)
    ensures r > 0.0
    decreases if e < 0 then -e else e
  {
    if e == 0 then 1.0
    else if e > 0 then 10.0 * Pow10(e - 1)
    else Pow10(e + 1) / 10.0
  }

  lemma Pow10Step(e: int)
    ensures Pow10(e + 1) == 10.0 * Pow10(e)
  {
  }

  lemma {:induction false} Pow10Monotone(d: int, e: int)
    requires d <= e
    ensures Pow10(d) <= Pow10(e)
    decreases e - d
  {
    if d < e {
      Pow10Monotone(d, e - 1);
      Pow10Step(e - 1);
    }
  }

  /** Whether `x` is a whole number. */
  predicate IsInteger(x: real)
  {
    x.Floor as real == x
  }

  /** The least integer at or above `x`. */
  function Ceil(x: real): (c: int)
    ensures x <= c as real < x + 1.0
  {
    if x.Floor as real == x then x.Floor else x.Floor + 1
  }

  lemma FloorShrinks(x: real)
    requires x >= 10.0
    ensures 1 <= (x / 10.0).Floor < x.Floor
  {
    var a := (x / 10.0).Floor;
    assert a as real <= x / 10.0;
    assert (a + 1) as real <= x;
  }

  /** The exponent of the leading decimal digit of a number that is at least 1. */
  function ExponentFromOne(q: real): (e: nat)
    requires q >= 1.0
    ensures Pow10(e) <= q < Pow10(e + 1)
    decreases q.Floor
  {
    if q < 10.0 then
      Pow10Step(0);
      0
    else
      FloorShrinks(q);
      var e := ExponentFromOne(q / 10.0);
      Pow10Step(e);
      Pow10Step(e + 1);
      e + 1
  }

  /** The exponent of the leading decimal digit of a number strictly between 0 and 1. */
  function ExponentBelowOne(q: real): (e: int)
    requires 0.0 < q < 1.0
    ensures e < 0 && Pow10(e) <= q < Pow10(e + 1)
    decreases (1.0 / q).Floor
  {
    if q >= 0.1 then
      Pow10Step(-1);
      -1
    else
      assert 1.0 / (q * 10.0) == (1.0 / q) / 10.0;
      FloorShrinks(1.0 / q);
      var e := ExponentBelowOne(q * 10.0);
      Pow10Step(e - 1);
      Pow10Step(e);
      e - 1
  }

  /** The exponent `e` of the leading digit of a positive number: 10^e <= q < 10^(e+1). */
  function LeadingExponent(q: real): (e: int)
    requires q > 0.0
    ensures Pow10(e) <= q < Pow10(e + 1)
  {
    if q >= 1.0 then ExponentFromOne(q) else ExponentBelowOne(q)
  }

  /**
   * One unit in the second significant place of a positive number: the
   * power of ten `u` with 10u <= q < 100u.
   */
  function Unit(q: real): (u: real)
    requires q > 0.0
    ensures u > 0.0
    ensures 10.0 * u <= q < 100.0 * u
  {
    var e := LeadingExponent(q);
    Pow10Step(e - 1);
    Pow10Step(e);
    Pow10(e - 1)
  }

  /** Any power of ten that puts `q` in [10u, 100u) is its unit. */
  lemma UnitIsUnique(q: real, d: int)
    requires q > 0.0
    requires 10.0 * Pow10(d) <= q < 100.0 * Pow10(d)
    ensures Pow10(d) == Unit(q)
  {
    var d' := LeadingExponent(q) - 1;
    assert Unit(q) == Pow10(d');
    Pow10Step(d); Pow10Step(d + 1); Pow10Step(d'); Pow10Step(d' + 1);
    if d < d' {
      Pow10Monotone(d + 2, d' + 1);
      assert false;
    } else if d' < d {
      Pow10Monotone(d' + 2, d + 1);
      assert false;
    }
  }

  lemma DivThenMul(q: real, u: real)
    requires u > 0.0
    ensures (q / u) * u == q
  {
  }

  lemma MulLe(a: real, b: real, u: real)
    requires u > 0.0 && a <= b
    ensures a * u <= b * u
  {
  }

  lemma MulLt(a: real, b: real, u: real)
    requires u > 0.0 && a < b
    ensures a * u < b * u
  {
  }

  lemma DivLt(q: real, b: real, u: real)
    requires u > 0.0 && q < b * u
    ensures q / u < b
  {
  }

  /** If c is at least q/u then c units reach q. */
  lemma MultipleAbove(q: real, u: real, c: int)
    requires u > 0.0 && q / u <= c as real
    ensures q <= c as real * u
  {
    DivThenMul(q, u);
    MulLe(q / u, c as real, u);
  }

  /** If c is less than q/u + 1 then c units stay below q + u. */
  lemma MultipleBelow(q: real, u: real, c: int)
    requires u > 0.0 && (c as real) < q / u + 1.0
    ensures c as real * u < q + u
  {
    var t := q / u;
    DivThenMul(q, u);
    MulLt(c as real, t + 1.0, u);
    assert (t + 1.0) * u == t * u + u;
  }

  /** A whole number of units divided by the unit is whole. */
  lemma MultipleIsWhole(x: real, u: real, c: int)
    requires u > 0.0 && x == c as real * u
    ensures IsInteger(x / u)
  {
    assert x / u == c as real;
  }

  /** A value whose quotient by the unit is whole is that many units. */
  lemma WholeQuotient(x: real, u: real)
    requires u > 0.0 && IsInteger(x / u)
    ensures x == (x / u).Floor as real * u
  {
    DivThenMul(x, u);
  }

  lemma DivGe(q: real, b: real, u: real)
    requires u > 0.0 && b * u <= q
    ensures b <= q / u
  {
  }

  /**
   * Multipliers of u whose multiples land at or above q1 and below q2 + u,
   * for q1 <= q2, are less than 1 apart.
   */
  lemma CloseMultiples(q1: real, q2: real, u: real, r1: real, r2: real)
    requires u > 0.0 && q1 <= q2
    requires q1 <= r1 * u < q1 + u
    requires q2 <= r2 * u < q2 + u
    ensures r1 - r2 < 1.0
  {
    assert (r1 - r2) * u == r1 * u - r2 * u;
    DivLt((r1 - r2) * u, 1.0, u);
    assert (r1 - r2) * u / u == r1 - r2;
  }

  /** Two whole numbers of units that both land in [q, q + u) are the same number. */
  lemma MultipleIsUnique(q: real, u: real, k1: int, k2: int)
    requires u > 0.0
    requires q <= k1 as real * u < q + u
    requires q <= k2 as real * u < q + u
    ensures k1 == k2
  {
    CloseMultiples(q, q, u, k1 as real, k2 as real);
    CloseMultiples(q, q, u, k2 as real, k1 as real);
  }

  /** Of two quotients with the same unit, the larger needs at least as many units. */
  lemma MultipleIsMonotone(q1: real, q2: real, u: real, k1: int, k2: int)
    requires u > 0.0 && q1 <= q2
    requires q1 <= k1 as real * u < q1 + u
    requires q2 <= k2 as real * u < q2 + u
    ensures k1 <= k2
  {
    CloseMultiples(q1, q2, u, k1 as real, k2 as real);
  }

  /** For a quotient in [10u, 100u), the ceiling of q/u is from 10 to 100 and its units reach q by less than one unit. */
  lemma CeilingUnits(q: real, u: real)
    requires u > 0.0 && 10.0 * u <= q < 100.0 * u
    ensures 10 <= Ceil(q / u) <= 100
    ensures q <= Ceil(q / u) as real * u < q + u
  {
    var c := Ceil(q / u);
    MultipleAbove(q, u, c);
    MultipleBelow(q, u, c);
    DivLt(q, 100.0, u);
    DivGe(q, 10.0, u);
  }

  /** The ceiling count of units, multiplied out, is a whole number of units from q to below q + u and at most 100 units. */
  lemma CeilingMultiple(q: real, u: real, c: int, r: real)
    requires u > 0.0 && 10.0 * u <= q < 100.0 * u
    requires c == Ceil(q / u) && r == c as real * u
    ensures q <= r < q + u
    ensures IsInteger(r / u)
    ensures r <= 100.0 * u
  {
    CeilingUnits(q, u);
    MultipleIsWhole(r, u, c);
    MulLe(c as real, 100.0, u);
  }

  /**
   * Rounding up to a whole number of units `u`, for a quotient in [10u, 100u):
   * the least multiple of `u` at or above `q`.
   */
  function RoundToUnit(q: real, u: real): (r: real)
    requires u > 0.0 && 10.0 * u <= q < 100.0 * u
    ensures q <= r < q + u
    ensures IsInteger(r / u)
    ensures r <= 100.0 * u
  {
    var c := Ceil(q / u);
    CeilingMultiple(q, u, c, c as real * u);
    c as real * u
  }

  /**
   * `x.divide(divisor, new MathContext(2, RoundingMode.UP))` applied to the
   * exact quotient `q`: zero stays zero; otherwise the result is the multiple
   * of the quotient's second-significant-place unit reached by moving away
   * from zero, never by more than one unit.
   */
  function RoundUp(q: real): (r: real)
    ensures q == 0.0 ==> r == 0.0
    ensures q > 0.0 ==> q <= r < q + Unit(q) && IsInteger(r / Unit(q))
    ensures q < 0.0 ==> q - Unit(-q) < r <= q && IsInteger(-r / Unit(-q))
  {
    if q == 0.0 then 0.0
    else if q > 0.0 then RoundToUnit(q, Unit(q))
    else -RoundToUnit(-q, Unit(-q))
  }

  /** The least multiple is the only whole number of units in [q, q + u). */
  lemma RoundToUnitIsUnique(q: real, u: real, x: real)
    requires u > 0.0 && 10.0 * u <= q < 100.0 * u
    requires q <= x < q + u && IsInteger(x / u)
    ensures x == RoundToUnit(q, u)
  {
    var r := RoundToUnit(q, u);
    WholeQuotient(x, u);
    WholeQuotient(r, u);
    MultipleIsUnique(q, u, (x / u).Floor, (r / u).Floor);
  }

  /**
   * The contract pins the result down: the rounded value is the only whole
   * number of units in [q, q + unit).
   */
  lemma RoundUpIsUnique(q: real, x: real)
    requires q > 0.0
    requires q <= x < q + Unit(q)
    requires IsInteger(x / Unit(q))
    ensures x == RoundUp(q)
  {
    RoundToUnitIsUnique(q, Unit(q), x);
  }

  /** A quotient that already has at most two significant digits is returned unchanged. */
  lemma RoundUpKeepsTwoDigitValues(q: real)
    requires q > 0.0
    requires IsInteger(q / Unit(q))
    ensures RoundUp(q) == q
  {
    RoundUpIsUnique(q, q);
  }

  /** With one unit, a larger quotient rounds to at least as many units. */
  lemma RoundToUnitMonotone(q1: real, q2: real, u: real)
    requires u > 0.0 && 10.0 * u <= q1 <= q2 < 100.0 * u
    ensures RoundToUnit(q1, u) <= RoundToUnit(q2, u)
  {
    var r1, r2 := RoundToUnit(q1, u), RoundToUnit(q2, u);
    WholeQuotient(r1, u);
    WholeQuotient(r2, u);
    MultipleIsMonotone(q1, q2, u, (r1 / u).Floor, (r2 / u).Floor);
    MulLe((r1 / u).Floor as real, (r2 / u).Floor as real, u);
  }

  /** Two powers of ten that place q1 <= q2 each in its [10u, 100u) are equal, or the first is a decade below q2. */
  lemma PowersCompare(q1: real, q2: real, d1: int, d2: int)
    requires q1 <= q2
    requires 10.0 * Pow10(d1) <= q1 < 100.0 * Pow10(d1)
    requires 10.0 * Pow10(d2) <= q2 < 100.0 * Pow10(d2)
    ensures d1 == d2 || 100.0 * Pow10(d1) <= q2
  {
    Pow10Step(d1); Pow10Step(d1 + 1); Pow10Step(d2); Pow10Step(d2 + 1);
    if d2 < d1 {
      Pow10Monotone(d2 + 2, d1 + 1);
      assert false;
    } else if d1 < d2 {
      Pow10Monotone(d1 + 2, d2 + 1);
    }
  }

  /** The unit of a larger quotient is the same, or a hundred units of the smaller one stay at or below it. */
  lemma UnitsCompare(q1: real, q2: real)
    requires 0.0 < q1 <= q2
    ensures Unit(q1) == Unit(q2) || 100.0 * Unit(q1) <= q2
  {
    PowersCompare(q1, q2, LeadingExponent(q1) - 1, LeadingExponent(q2) - 1);
  }

  lemma RoundUpPositiveMonotone(q1: real, q2: real)
    requires 0.0 < q1 <= q2
    ensures RoundUp(q1) <= RoundUp(q2)
  {
    UnitsCompare(q1, q2);
    if Unit(q1) == Unit(q2) {
      RoundToUnitMonotone(q1, q2, Unit(q1));
    }
  }

  /** Rounding up is monotone: a larger exact quotient never rounds to a smaller value. */
  lemma RoundUpMonotone(q1: real, q2: real)
    requires q1 <= q2
    ensures RoundUp(q1) <= RoundUp(q2)
  {
    if 0.0 < q1 {
      RoundUpPositiveMonotone(q1, q2);
    } else if q2 < 0.0 {
      RoundUpPositiveMonotone(-q2, -q1);
    }
  }
}

/**
 * The derived estimate of a feature (Feature.getEstimateInDays): the
 * three-point figure (a + 4m + b) / 6 from the best, most likely and worst
 * case estimates in days, divided under a MathContext of two significant
 * digits rounding away from zero. It is computed from the three raw
 * estimates whenever it is asked for; a feature does not store it.
 */
module Estimates {
  import opened Rounding
  import opened Validators

  /** The unrounded three-point figure. */
  function ExactEstimate(a: real, m: real, b: real): real
  {
    (a + 4.0 * m + b) / 6.0
  }

  /**
   * The estimate as the code computes it. Its contract is the rounding's
   * contract for the exact figure q: never below q, less than one unit of q's
   * second significant place above it, and a whole number of those units.
   */
  function EstimateInDays(a: real, m: real, b: real): (e: real)
    ensures ExactEstimate(a, m, b) == 0.0 ==> e == 0.0
    ensures ExactEstimate(a, m, b) > 0.0 ==>
      ExactEstimate(a, m, b) <= e < ExactEstimate(a, m, b) + Unit(ExactEstimate(a, m, b)) &&
      IsInteger(e / Unit(ExactEstimate(a, m, b)))
  {
    RoundUp(ExactEstimate(a, m, b))
  }

  /**
   * For an accepted triple the exact figure lies between the best and worst
   * cases, and the rounded estimate is at least the best case and never
   * negative.
   */
  lemma AcceptedEstimateIsBracketed(a: real, m: real, b: real)
    requires FeatureEstimatesValid(a, m, b)
    ensures a <= ExactEstimate(a, m, b) <= b
    ensures 0.0 <= a <= EstimateInDays(a, m, b)
  {
  }

  /** Raising any single raw estimate never lowers the derived estimate. */
  lemma EstimateIsMonotone(a: real, m: real, b: real, a': real, m': real, b': real)
    requires a <= a' && m <= m' && b <= b'
    ensures EstimateInDays(a, m, b) <= EstimateInDays(a', m', b')
  {
    RoundUpMonotone(ExactEstimate(a, m, b), ExactEstimate(a', m', b'));
  }

  /** Exact figures from 1 up to 10 are rounded to tenths. */
  lemma UnitOfOnesIsATenth(q: real)
    requires 1.0 <= q < 10.0
    ensures Unit(q) == 0.1
  {
    UnitIsUnique(q, -1);
  }

  /** (2, 4, 8): 26/6 = 4.333... rounds up to 4.4, not to 4.33. */
  lemma EstimateOfTwoFourEight()
    ensures EstimateInDays(2.0, 4.0, 8.0) == 4.4
  {
    var q := ExactEstimate(2.0, 4.0, 8.0);
    UnitOfOnesIsATenth(q);
    RoundUpIsUnique(q, 4.4);
  }

  /** (5, 7, 8): 41/6 = 6.833... rounds up to 6.9. */
  lemma EstimateOfFiveSevenEight()
    ensures EstimateInDays(5.0, 7.0, 8.0) == 6.9
  {
    var q := ExactEstimate(5.0, 7.0, 8.0);
    UnitOfOnesIsATenth(q);
    RoundUpIsUnique(q, 6.9);
  }

  /** (1, 2, 3): the exact figure 2 already has two significant digits and is kept. */
  lemma EstimateOfOneTwoThree()
    ensures EstimateInDays(1.0, 2.0, 3.0) == 2.0
  {
    var q := ExactEstimate(1.0, 2.0, 3.0);
    UnitOfOnesIsATenth(q);
    RoundUpKeepsTwoDigitValues(q);
  }

  /** (0, 0, 0) gives 0. */
  lemma EstimateOfZeros()
    ensures EstimateInDays(0.0, 0.0, 0.0) == 0.0
  {
  }

  /**
   * Three equal estimates of 1.23 give the exact figure 1.23, which rounds
   * to 1.3: the derived estimate can exceed the worst case.
   */
  lemma EstimateCanExceedWorstCase()
    ensures FeatureEstimatesValid(1.23, 1.23, 1.23)
    ensures EstimateInDays(1.23, 1.23, 1.23) == 1.3 > 1.23
  {
    var q := ExactEstimate(1.23, 1.23, 1.23);
    UnitOfOnesIsATenth(q);
    RoundUpIsUnique(q, 1.3);
  }

  /** Past 100 days only the tens survive: (100, 101, 103) gives 607/6 = 101.17, rounded up to 110. */
  lemma EstimateOfLargeFigureRoundsToTens()
    ensures EstimateInDays(100.0, 101.0, 103.0) == 110.0
  {
    var q := ExactEstimate(100.0, 101.0, 103.0);
    UnitIsUnique(q, 1);
    RoundUpIsUnique(q, 110.0);
  }
}

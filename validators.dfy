/**
 * The two request validators: the three-point estimate check run on feature
 * requests and the date check run on milestone requests. Timestamps are
 * integers on one clock; `now` is the validator's clock reading.
 */
module Validators {
  import opened Wrappers

  /**
   * FeatureEstimatesValidator.isValid: the best case must not be negative,
   * then best <= most likely <= worst.
   */
  function FeatureEstimatesValid(a: real, m: real, b: real): (ok: bool)
    ensures ok <==> 0.0 <= a && a <= m && m <= b
  {
    if !(a >= 0.0) then false
    else a <= m && m <= b
  }

  /** An accepted triple has all three estimates non-negative. */
  lemma AcceptedEstimatesAreNonNegative(a: real, m: real, b: real)
    requires FeatureEstimatesValid(a, m, b)
    ensures 0.0 <= a && 0.0 <= m && 0.0 <= b
  {
  }

  /**
   * Zero and equal estimates pass, although the constraint's message asks
   * for estimates above zero; a negative best case or a most likely case
   * below the best case fails.
   */
  lemma FeatureEstimateExamples()
    ensures FeatureEstimatesValid(0.0, 0.0, 0.0)
    ensures FeatureEstimatesValid(3.0, 3.0, 3.0)
    ensures !FeatureEstimatesValid(-5.0, 5.0, 10.0)
    ensures !FeatureEstimatesValid(2.0, 1.0, 5.0)
  {
  }

  /**
   * MilestoneDatesValidator.isValid: a start before now fails, then an end
   * before now fails, then an end before the start fails; anything else,
   * including absent dates and start == end, passes.
   */
  function MilestoneDatesValid(start: Option<int>, end: Option<int>, now: int): (ok: bool)
    ensures ok <==>
      (start.Some? ==> now <= start.value) &&
      (end.Some? ==> now <= end.value) &&
      (start.Some? && end.Some? ==> start.value <= end.value)
  {
    if start.Some? && start.value < now then false
    else if end.Some? && end.value < now then false
    else if start.Some? && end.Some? && end.value < start.value then false
    else true
  }

  /** Boundary cases of the date rule. */
  lemma MilestoneDatesExamples(now: int, later: int)
    requires now < later
    ensures MilestoneDatesValid(None, None, now)
    ensures MilestoneDatesValid(Some(now), None, now)
    ensures !MilestoneDatesValid(Some(now - 1), None, now)
    ensures !MilestoneDatesValid(None, Some(now - 1), now)
    ensures MilestoneDatesValid(Some(later), Some(later), now)
    ensures !MilestoneDatesValid(Some(later), Some(now), now)
    ensures !MilestoneDatesValid(Some(later), Some(now - 1), now)
  {
  }

  /**
   * The order check is end >= start: a milestone ending after it starts is
   * accepted and one ending before it starts is rejected, whatever now is.
   */
  lemma MilestoneEndMustNotPrecedeStart(now: int, start: int, end: int)
    requires now <= start && now <= end
    ensures MilestoneDatesValid(Some(start), Some(end), now) <==> start <= end
  {
  }
}

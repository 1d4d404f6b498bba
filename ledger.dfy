/**
 * The sums the running totals of projects and milestones must equal: the
 * derived estimates of the features of a project, or of the features
 * assigned to a milestone, over the feature repository (a map from id to
 * feature). Ids are handed out from a counter, so every id is below the
 * counter and the sum runs over the ids 0 .. n-1. The lemmas say how the sum
 * moves when one feature is added, replaced or removed, which is what the
 * services' add and subtract steps rely on.
 */
module Ledger {
  import opened Wrappers
  import opened Validators
  import opened Estimates
  import opened Entities

  /** The subject of a running total: a project, or a milestone. */
  datatype Scope = InProject(projectId: int) | InMilestone(milestoneId: int)

  /** A feature belongs to a scope when it is in that project or assigned to that milestone. */
  predicate InScope(f: Feature, s: Scope)
  {
    match s
    case InProject(pid) => f.projectId == pid
    case InMilestone(mid) => f.milestoneId == Some(mid)
  }

  /** What one feature adds to the total of a scope. */
  function Contribution(f: Feature, s: Scope): real
  {
    if InScope(f, s) then f.Estimate() else 0.0
  }

  /** What the id k adds to the total: its feature's contribution, or nothing for a free id. */
  function ContributionAt(fs: map<int, Feature>, k: int, s: Scope): real
  {
    if k in fs then Contribution(fs[k], s) else 0.0
  }

  /** The sum of the derived estimates of the features in scope whose ids are below n. */
  function Total(fs: map<int, Feature>, s: Scope, n: int): real
    decreases n
  {
    if n <= 0 then 0.0 else Total(fs, s, n - 1) + ContributionAt(fs, n - 1, s)
  }

  /** The total depends only on what each id below n contributes. */
  lemma {:induction false} TotalIsPointwise(fs: map<int, Feature>, fs': map<int, Feature>, s: Scope, n: int)
    requires forall k :: 0 <= k < n ==> ContributionAt(fs, k, s) == ContributionAt(fs', k, s)
    ensures Total(fs, s, n) == Total(fs', s, n)
    decreases n
  {
    if n > 0 {
      TotalIsPointwise(fs, fs', s, n - 1);
    }
  }

  /** Changing what one id below n contributes changes the total by the difference. */
  lemma {:induction false} TotalAtOneId(fs: map<int, Feature>, fs': map<int, Feature>, k: int, s: Scope, n: int)
    requires 0 <= k < n
    requires forall j :: 0 <= j < n && j != k ==> ContributionAt(fs, j, s) == ContributionAt(fs', j, s)
    ensures Total(fs', s, n) == Total(fs, s, n) - ContributionAt(fs, k, s) + ContributionAt(fs', k, s)
    decreases n
  {
    if k == n - 1 {
      TotalIsPointwise(fs, fs', s, n - 1);
    } else {
      TotalAtOneId(fs, fs', k, s, n - 1);
    }
  }

  /** Adding a feature under a fresh id below n adds its contribution. */
  lemma TotalInsert(fs: map<int, Feature>, k: int, f: Feature, s: Scope, n: int)
    requires k !in fs && 0 <= k < n
    ensures Total(fs[k := f], s, n) == Total(fs, s, n) + Contribution(f, s)
  {
    TotalAtOneId(fs, fs[k := f], k, s, n);
  }

  /** Replacing a feature trades its old contribution for its new one. */
  lemma TotalReplace(fs: map<int, Feature>, k: int, f: Feature, s: Scope, n: int)
    requires k in fs && 0 <= k < n
    ensures Total(fs[k := f], s, n) == Total(fs, s, n) - Contribution(fs[k], s) + Contribution(f, s)
  {
    TotalAtOneId(fs, fs[k := f], k, s, n);
  }

  /** Removing a feature takes its contribution away. */
  lemma TotalRemove(fs: map<int, Feature>, k: int, s: Scope, n: int)
    requires k in fs && 0 <= k < n
    ensures Total(fs - {k}, s, n) == Total(fs, s, n) - Contribution(fs[k], s)
  {
    TotalAtOneId(fs, fs - {k}, k, s, n);
  }

  /** Raising the bound over ids no feature holds changes nothing. */
  lemma {:induction false} TotalOverFreeIds(fs: map<int, Feature>, s: Scope, n: int, m: int)
    requires n <= m
    requires forall k :: n <= k < m ==> k !in fs
    ensures Total(fs, s, m) == Total(fs, s, n)
    decreases m - n
  {
    if m > n {
      TotalOverFreeIds(fs, s, n, m - 1);
    }
  }

  /** With no feature in scope the total is 0: a new project or milestone starts at 0. */
  lemma {:induction false} TotalOfNothingInScope(fs: map<int, Feature>, s: Scope, n: int)
    requires forall k :: k in fs ==> !InScope(fs[k], s)
    ensures Total(fs, s, n) == 0.0
    decreases n
  {
    if n > 0 {
      TotalOfNothingInScope(fs, s, n - 1);
    }
  }

  /** Features with accepted estimates have non-negative totals. */
  lemma {:induction false} TotalIsNonNegative(fs: map<int, Feature>, s: Scope, n: int)
    requires forall k :: k in fs ==>
      FeatureEstimatesValid(fs[k].bestCaseEstimateInDays, fs[k].mostLikelyEstimateInDays, fs[k].worstCaseEstimateInDays)
    ensures Total(fs, s, n) >= 0.0
    decreases n
  {
    if n > 0 {
      TotalIsNonNegative(fs, s, n - 1);
      if n - 1 in fs {
        var f := fs[n - 1];
        AcceptedEstimateIsBracketed(f.bestCaseEstimateInDays, f.mostLikelyEstimateInDays, f.worstCaseEstimateInDays);
      }
    }
  }

  /**
   * When every feature in scope s1 is also in scope s2, and all estimates
   * are accepted ones, the total of s1 is at most the total of s2: a
   * milestone whose features all belong to one project never exceeds that
   * project.
   */
  lemma {:induction false} TotalIsMonotone(fs: map<int, Feature>, s1: Scope, s2: Scope, n: int)
    requires forall k :: k in fs ==>
      FeatureEstimatesValid(fs[k].bestCaseEstimateInDays, fs[k].mostLikelyEstimateInDays, fs[k].worstCaseEstimateInDays)
    requires forall k :: k in fs && InScope(fs[k], s1) ==> InScope(fs[k], s2)
    ensures Total(fs, s1, n) <= Total(fs, s2, n)
    decreases n
  {
    if n > 0 {
      TotalIsMonotone(fs, s1, s2, n - 1);
      if n - 1 in fs {
        var f := fs[n - 1];
        AcceptedEstimateIsBracketed(f.bestCaseEstimateInDays, f.mostLikelyEstimateInDays, f.worstCaseEstimateInDays);
      }
    }
  }

  /**
   * Dropping features that contribute nothing to a scope leaves its total
   * as it was: deleting a project's features keeps every other project's and
   * milestone's total.
   */
  lemma TotalOfRestriction(fs: map<int, Feature>, kept: map<int, Feature>, s: Scope, n: int)
    requires forall k :: k in kept ==> k in fs && kept[k] == fs[k]
    requires forall k :: k in fs && k !in kept ==> !InScope(fs[k], s)
    ensures Total(kept, s, n) == Total(fs, s, n)
  {
    TotalIsPointwise(fs, kept, s, n);
  }
}

/**
 * PriceService: the price in rubles of an estimate for a project, from the
 * project's rate and team member rows. For every position of `values()`, in
 * declaration order, the hourly rate times the degree of involvement; the
 * sum of those, times the estimate in days, times 8 hours a day. BigDecimal
 * arithmetic is exact, so the price is exact as well.
 */
module Pricing {
  import opened Wrappers
  import opened Positions
  import opened Errors
  import opened Entities

  /** Some rate row is for position p. */
  predicate HasRate(rates: seq<Rate>, p: Position)
  {
    exists i :: 0 <= i < |rates| && rates[i].position == p
  }

  /** Some team member row is for position p. */
  predicate HasMember(members: seq<TeamMember>, p: Position)
  {
    exists i :: 0 <= i < |members| && members[i].position == p
  }

  /** No two rate rows are for the same position. */
  predicate RatePositionsUnique(rates: seq<Rate>)
  {
    forall i, j :: 0 <= i < j < |rates| ==> rates[i].position != rates[j].position
  }

  /** No two team member rows are for the same position. */
  predicate MemberPositionsUnique(members: seq<TeamMember>)
  {
    forall i, j :: 0 <= i < j < |members| ==> members[i].position != members[j].position
  }

  /**
   * getRateInRublesPerHour: the rate of a row for p (`findAny`; this model
   * takes the first); no row for p is the AssertionError case, None here.
   */
  function RateInRublesPerHour(rates: seq<Rate>, p: Position): (r: Option<real>)
    ensures r.Some? <==> HasRate(rates, p)
  {
    if rates == [] then None
    else if rates[0].position == p then Some(rates[0].rublesPerHour)
    else
      assert HasRate(rates, p) ==> HasRate(rates[1..], p) by {
        if HasRate(rates, p) {
          var i :| 0 <= i < |rates| && rates[i].position == p;
          assert rates[1..][i - 1].position == p;
        }
      }
      RateInRublesPerHour(rates[1..], p)
  }

  /** The rate found is the rate of a row for p. */
  lemma {:induction false} RateComesFromARow(rates: seq<Rate>, p: Position)
    requires HasRate(rates, p)
    ensures
      exists i :: 0 <= i < |rates| && rates[i].position == p &&
                  rates[i].rublesPerHour == RateInRublesPerHour(rates, p).value
  {
    if rates[0].position != p {
      RateComesFromARow(rates[1..], p);
      var i :| 0 <= i < |rates[1..]| && rates[1..][i].position == p &&
        rates[1..][i].rublesPerHour == RateInRublesPerHour(rates[1..], p).value;
      assert rates[i + 1] == rates[1..][i];
    }
  }

  /**
   * getDegreeOfInvolvement: the head count of a team member row for p
   * (`findAny`; this model takes the first), and 0 when the team has no one
   * in that position.
   */
  function DegreeOfInvolvement(members: seq<TeamMember>, p: Position): (d: real)
    ensures !HasMember(members, p) ==> d == 0.0
  {
    if members == [] then 0.0
    else if members[0].position == p then members[0].numberOfTeamMembers
    else
      assert !HasMember(members, p) ==> !HasMember(members[1..], p) by {
        if HasMember(members[1..], p) {
          var i :| 0 <= i < |members[1..]| && members[1..][i].position == p;
          assert members[i + 1].position == p;
        }
      }
      DegreeOfInvolvement(members[1..], p)
  }

  /** The involvement found for a staffed position is the head count of a row for it. */
  lemma {:induction false} DegreeComesFromARow(members: seq<TeamMember>, p: Position)
    requires HasMember(members, p)
    ensures
      exists i :: 0 <= i < |members| && members[i].position == p &&
                  members[i].numberOfTeamMembers == DegreeOfInvolvement(members, p)
  {
    if members[0].position != p {
      var k :| 0 <= k < |members| && members[k].position == p;
      assert members[1..][k - 1].position == p;
      DegreeComesFromARow(members[1..], p);
      var i :| 0 <= i < |members[1..]| && members[1..][i].position == p &&
        members[1..][i].numberOfTeamMembers == DegreeOfInvolvement(members[1..], p);
      assert members[i + 1] == members[1..][i];
    }
  }

  /** getPositionPrice: rate times involvement, or the missing-rate failure. */
  function PositionPrice(rates: seq<Rate>, members: seq<TeamMember>, p: Position): (r: Result<real, Failure>)
    ensures r.Err? <==> !HasRate(rates, p)
    ensures r.Err? ==> r.error == RateMissing(p)
    ensures r.Ok? ==> r.value == PositionCost(rates, members, p)
  {
    match RateInRublesPerHour(rates, p)
    case None => Err(RateMissing(p))
    case Some(rate) => Ok(rate * DegreeOfInvolvement(members, p))
  }

  /**
   * The stream over `ps` mapped to position prices and summed from zero;
   * the first position without a rate aborts the sum.
   */
  function TeamPrice(rates: seq<Rate>, members: seq<TeamMember>, ps: seq<Position>): (r: Result<real, Failure>)
    ensures r.Ok? <==> forall p :: p in ps ==> HasRate(rates, p)
    ensures r.Err? ==> r.error.RateMissing? && r.error.position in ps && !HasRate(rates, r.error.position)
  {
    if ps == [] then Ok(0.0)
    else
      assert forall p :: p in ps <==> p == ps[0] || p in ps[1..] by {
        assert ps == [ps[0]] + ps[1..];
      }
      match PositionPrice(rates, members, ps[0])
      case Err(e) => Err(e)
      case Ok(x) =>
        match TeamPrice(rates, members, ps[1..])
        case Err(e) => Err(e)
        case Ok(y) => Ok(x + y)
  }

  /**
   * computePriceInRubles: estimate times the team's hourly price over all
   * six positions times 8. It fails, blaming a position without a rate,
   * exactly when some position has no rate.
   */
  function ComputePriceInRubles(rates: seq<Rate>, members: seq<TeamMember>, estimateInDays: real): (r: Result<real, Failure>)
    ensures r.Ok? <==> forall p: Position :: HasRate(rates, p)
    ensures r.Err? ==> r.error.RateMissing? && !HasRate(rates, r.error.position)
  {
    AllPositionsListsEachOnce();
    match TeamPrice(rates, members, AllPositions)
    case Err(e) => Err(e)
    case Ok(hourly) => Ok(estimateInDays * hourly * 8.0)
  }

  /** The stream stops at the first position of `ps` that has no rate. */
  lemma {:induction false} TeamPriceStopsAtFirstMissing(rates: seq<Rate>, members: seq<TeamMember>, ps: seq<Position>)
    requires TeamPrice(rates, members, ps).Err?
    ensures exists i :: 0 <= i < |ps| && ps[i] == TeamPrice(rates, members, ps).error.position &&
                        forall j :: 0 <= j < i ==> HasRate(rates, ps[j])
  {
    var e := TeamPrice(rates, members, ps).error;
    if PositionPrice(rates, members, ps[0]).Err? {
      assert ps[0] == e.position;
    } else {
      assert TeamPrice(rates, members, ps[1..]).Err?;
      TeamPriceStopsAtFirstMissing(rates, members, ps[1..]);
      var i :| 0 <= i < |ps[1..]| && ps[1..][i] == e.position && forall j :: 0 <= j < i ==> HasRate(rates, ps[1..][j]);
      assert ps[i + 1] == e.position;
      forall j | 0 <= j < i + 1 ensures HasRate(rates, ps[j]) {
        if j > 0 {
          assert ps[j] == ps[1..][j - 1];
        }
      }
    }
  }

  /**
   * The AssertionError names the first position of `values()` without a
   * rate: every position declared before it has one.
   */
  lemma PriceFailsAtFirstUnratedPosition(rates: seq<Rate>, members: seq<TeamMember>, estimateInDays: real)
    requires ComputePriceInRubles(rates, members, estimateInDays).Err?
    ensures forall p: Position :: Ordinal(p) < Ordinal(ComputePriceInRubles(rates, members, estimateInDays).error.position) ==>
      HasRate(rates, p)
  {
    AllPositionsListsEachOnce();
    TeamPriceStopsAtFirstMissing(rates, members, AllPositions);
    var e := ComputePriceInRubles(rates, members, estimateInDays).error;
    var i :| 0 <= i < |AllPositions| && AllPositions[i] == e.position && forall j :: 0 <= j < i ==> HasRate(rates, AllPositions[j]);
    forall p: Position | Ordinal(p) < Ordinal(e.position) ensures HasRate(rates, p) {
      assert Ordinal(e.position) == i;
      assert AllPositions[Ordinal(p)] == p;
    }
  }

  /** The rate of p, or 0 when no row holds p. */
  function RateOrZero(rates: seq<Rate>, p: Position): real
  {
    match RateInRublesPerHour(rates, p)
    case Some(rate) => rate
    case None => 0.0
  }

  /** The hourly price of one position, 0 for a position without a rate. */
  function PositionCost(rates: seq<Rate>, members: seq<TeamMember>, p: Position): real
  {
    RateOrZero(rates, p) * DegreeOfInvolvement(members, p)
  }

  /** The hourly price summed position by position over `ps`. */
  function PositionSum(rates: seq<Rate>, members: seq<TeamMember>, ps: seq<Position>): real
  {
    if ps == [] then 0.0
    else PositionCost(rates, members, ps[0]) + PositionSum(rates, members, ps[1..])
  }

  /**
   * The reference definition of a team's hourly price: summed row by row
   * over the team members, the rate of each member's position times its
   * head count.
   */
  function MemberSum(rates: seq<Rate>, members: seq<TeamMember>): real
  {
    if members == [] then 0.0
    else RateOrZero(rates, members[0].position) * members[0].numberOfTeamMembers + MemberSum(rates, members[1..])
  }

  predicate Distinct(ps: seq<Position>)
  {
    forall i, j :: 0 <= i < j < |ps| ==> ps[i] != ps[j]
  }

  /** With every position of `ps` rated, the stream's sum is the position sum. */
  lemma {:induction false} TeamPriceIsPositionSum(rates: seq<Rate>, members: seq<TeamMember>, ps: seq<Position>)
    requires forall p :: p in ps ==> HasRate(rates, p)
    ensures TeamPrice(rates, members, ps).Ok?
    ensures TeamPrice(rates, members, ps).value == PositionSum(rates, members, ps)
  {
    if ps != [] {
      assert HasRate(rates, ps[0]);
      assert forall p :: p in ps[1..] ==> p in ps;
      TeamPriceIsPositionSum(rates, members, ps[1..]);
    }
  }

  /**
   * Putting a member in front of a team that has nobody in that position
   * adds that member's rate times head count to the position sum, once, if
   * its position is listed.
   */
  lemma {:induction false} PositionSumAddsMember(rates: seq<Rate>, members: seq<TeamMember>, ps: seq<Position>)
    requires members != [] && !HasMember(members[1..], members[0].position)
    requires Distinct(ps)
    ensures PositionSum(rates, members, ps) ==
      PositionSum(rates, members[1..], ps) + MemberShare(rates, members[0], ps)
  {
    if ps != [] {
      HeadPositionCost(rates, members, ps);
      PositionSumAddsMember(rates, members, ps[1..]);
    }
  }

  /** One step of the lemma above: the first listed position's cost, and the rest of the list still distinct. */
  lemma HeadPositionCost(rates: seq<Rate>, members: seq<TeamMember>, ps: seq<Position>)
    requires members != [] && !HasMember(members[1..], members[0].position)
    requires ps != [] && Distinct(ps)
    ensures Distinct(ps[1..])
    ensures PositionCost(rates, members, ps[0]) ==
      PositionCost(rates, members[1..], ps[0]) + MemberShare(rates, members[0], ps) - MemberShare(rates, members[0], ps[1..])
  {
    var m, p := members[0], ps[0];
    assert Distinct(ps[1..]) by {
      forall i, j | 0 <= i < j < |ps[1..]| ensures ps[1..][i] != ps[1..][j] {
        assert ps[1..][i] == ps[i + 1] && ps[1..][j] == ps[j + 1];
      }
    }
    if p == m.position {
      assert m.position !in ps[1..] by {
        forall i | 0 <= i < |ps[1..]| ensures ps[1..][i] != m.position {
          assert ps[1..][i] == ps[i + 1];
        }
      }
      assert DegreeOfInvolvement(members[1..], p) == 0.0;
      assert DegreeOfInvolvement(members, p) == m.numberOfTeamMembers;
    } else {
      assert m.position in ps <==> m.position in ps[1..] by {
        assert ps == [p] + ps[1..];
      }
      assert DegreeOfInvolvement(members, p) == DegreeOfInvolvement(members[1..], p);
    }
  }

  /** What one member adds to a position sum over `ps`: its rate times head count if its position is listed. */
  function MemberShare(rates: seq<Rate>, m: TeamMember, ps: seq<Position>): real
  {
    if m.position in ps then RateOrZero(rates, m.position) * m.numberOfTeamMembers else 0.0
  }

  /**
   * When no two team members share a position and every member's position
   * is listed once in `ps`, the position sum equals the row-by-row sum.
   */
  lemma {:induction false} PositionSumIsMemberSum(rates: seq<Rate>, members: seq<TeamMember>, ps: seq<Position>)
    requires MemberPositionsUnique(members)
    requires Distinct(ps)
    requires forall i :: 0 <= i < |members| ==> members[i].position in ps
    ensures PositionSum(rates, members, ps) == MemberSum(rates, members)
  {
    if members == [] {
      PositionSumOfNobody(rates, members, ps);
    } else {
      assert !HasMember(members[1..], members[0].position) by {
        forall i | 0 <= i < |members[1..]| ensures members[1..][i].position != members[0].position {
          assert members[1..][i] == members[i + 1];
        }
      }
      assert MemberPositionsUnique(members[1..]) by {
        forall i, j | 0 <= i < j < |members[1..]| ensures members[1..][i].position != members[1..][j].position {
          assert members[1..][i] == members[i + 1] && members[1..][j] == members[j + 1];
        }
      }
      assert forall i :: 0 <= i < |members[1..]| ==> members[1..][i].position in ps by {
        forall i | 0 <= i < |members[1..]| ensures members[1..][i].position in ps {
          assert members[1..][i] == members[i + 1];
        }
      }
      assert members[0].position in ps;
      PositionSumAddsMember(rates, members, ps);
      PositionSumIsMemberSum(rates, members[1..], ps);
    }
  }

  /** With nobody on the team every position contributes 0. */
  lemma {:induction false} PositionSumOfNobody(rates: seq<Rate>, members: seq<TeamMember>, ps: seq<Position>)
    requires members == []
    ensures PositionSum(rates, members, ps) == 0.0
  {
    if ps != [] {
      PositionSumOfNobody(rates, members, ps[1..]);
    }
  }

  /**
   * The price agrees with the reference definition: when every position has
   * a rate and no two team members share a position, it is the estimate
   * times the team's row-by-row hourly price times 8.
   */
  lemma PriceIsSumOverTeam(rates: seq<Rate>, members: seq<TeamMember>, estimateInDays: real)
    requires forall p: Position :: HasRate(rates, p)
    requires MemberPositionsUnique(members)
    ensures ComputePriceInRubles(rates, members, estimateInDays).Ok?
    ensures ComputePriceInRubles(rates, members, estimateInDays).value == estimateInDays * MemberSum(rates, members) * 8.0
  {
    AllPositionsListsEachOnce();
    TeamPriceIsPositionSum(rates, members, AllPositions);
    PositionSumIsMemberSum(rates, members, AllPositions);
  }

  /** A rate that is present is one of the rows' rates, so it is non-negative when they all are. */
  lemma {:induction false} PositionSumIsNonNegative(rates: seq<Rate>, members: seq<TeamMember>, ps: seq<Position>)
    requires forall i :: 0 <= i < |rates| ==> rates[i].rublesPerHour >= 0.0
    requires forall i :: 0 <= i < |members| ==> members[i].numberOfTeamMembers >= 0.0
    ensures PositionSum(rates, members, ps) >= 0.0
  {
    if ps != [] {
      var rate, degree := RateOrZero(rates, ps[0]), DegreeOfInvolvement(members, ps[0]);
      if HasRate(rates, ps[0]) {
        RateComesFromARow(rates, ps[0]);
      }
      if HasMember(members, ps[0]) {
        DegreeComesFromARow(members, ps[0]);
      }
      assert rate >= 0.0 && degree >= 0.0;
      assert PositionCost(rates, members, ps[0]) == rate * degree >= 0.0;
      PositionSumIsNonNegative(rates, members, ps[1..]);
    }
  }

  /** With a non-negative estimate, rates and head counts, the price is non-negative. */
  lemma PriceIsNonNegative(rates: seq<Rate>, members: seq<TeamMember>, estimateInDays: real)
    requires estimateInDays >= 0.0
    requires forall i :: 0 <= i < |rates| ==> rates[i].rublesPerHour >= 0.0
    requires forall i :: 0 <= i < |members| ==> members[i].numberOfTeamMembers >= 0.0
    ensures ComputePriceInRubles(rates, members, estimateInDays).Ok? ==>
      ComputePriceInRubles(rates, members, estimateInDays).value >= 0.0
  {
    if ComputePriceInRubles(rates, members, estimateInDays).Ok? {
      TeamPriceIsPositionSum(rates, members, AllPositions);
      PositionSumIsNonNegative(rates, members, AllPositions);
      var hourly := PositionSum(rates, members, AllPositions);
      assert estimateInDays * hourly >= 0.0;
    }
  }

  /** The price is linear in the estimate, and a zero estimate costs nothing. */
  lemma PriceIsLinear(rates: seq<Rate>, members: seq<TeamMember>, k: real, x: real)
    ensures ComputePriceInRubles(rates, members, k * x).Ok? == ComputePriceInRubles(rates, members, x).Ok?
    ensures ComputePriceInRubles(rates, members, x).Ok? ==>
      ComputePriceInRubles(rates, members, k * x).value == k * ComputePriceInRubles(rates, members, x).value
    ensures ComputePriceInRubles(rates, members, 0.0).Ok? ==> ComputePriceInRubles(rates, members, 0.0).value == 0.0
  {
  }

  /** Under unique positions the first matching row is the only one. */
  lemma RateOfUniqueRow(rates: seq<Rate>, i: int)
    requires RatePositionsUnique(rates) && 0 <= i < |rates|
    ensures RateInRublesPerHour(rates, rates[i].position) == Some(rates[i].rublesPerHour)
  {
    RateComesFromARow(rates, rates[i].position);
  }

  lemma DegreeOfUniqueRow(members: seq<TeamMember>, i: int)
    requires MemberPositionsUnique(members) && 0 <= i < |members|
    ensures DegreeOfInvolvement(members, members[i].position) == members[i].numberOfTeamMembers
  {
    DegreeComesFromARow(members, members[i].position);
  }

  /** A row of one list is a row of any reordering of it. */
  lemma RowOfReordering<T>(xs: seq<T>, ys: seq<T>, i: int)
    requires multiset(xs) == multiset(ys) && 0 <= i < |xs|
    ensures exists j :: 0 <= j < |ys| && ys[j] == xs[i]
  {
    assert xs[i] in multiset(ys);
  }

  /** Reordering rate rows with unique positions leaves every rate lookup as it was. */
  lemma RateLookupIgnoresOrder(rates1: seq<Rate>, rates2: seq<Rate>, p: Position)
    requires multiset(rates1) == multiset(rates2)
    requires RatePositionsUnique(rates1) && RatePositionsUnique(rates2)
    ensures RateInRublesPerHour(rates1, p) == RateInRublesPerHour(rates2, p)
  {
    if HasRate(rates1, p) {
      var i :| 0 <= i < |rates1| && rates1[i].position == p;
      RowOfReordering(rates1, rates2, i);
      var j :| 0 <= j < |rates2| && rates2[j] == rates1[i];
      RateOfUniqueRow(rates1, i);
      RateOfUniqueRow(rates2, j);
    }
    if HasRate(rates2, p) {
      var j :| 0 <= j < |rates2| && rates2[j].position == p;
      RowOfReordering(rates2, rates1, j);
    }
  }

  /** Reordering team member rows with unique positions leaves every involvement as it was. */
  lemma DegreeLookupIgnoresOrder(members1: seq<TeamMember>, members2: seq<TeamMember>, p: Position)
    requires multiset(members1) == multiset(members2)
    requires MemberPositionsUnique(members1) && MemberPositionsUnique(members2)
    ensures DegreeOfInvolvement(members1, p) == DegreeOfInvolvement(members2, p)
  {
    if HasMember(members1, p) {
      var i :| 0 <= i < |members1| && members1[i].position == p;
      RowOfReordering(members1, members2, i);
      var j :| 0 <= j < |members2| && members2[j] == members1[i];
      DegreeOfUniqueRow(members1, i);
      DegreeOfUniqueRow(members2, j);
    }
    if HasMember(members2, p) {
      var j :| 0 <= j < |members2| && members2[j].position == p;
      RowOfReordering(members2, members1, j);
    }
  }

  /** The stream's sum depends on the rows only through the two lookups. */
  lemma {:induction false} TeamPriceDependsOnLookupsOnly(
    rates1: seq<Rate>, members1: seq<TeamMember>, rates2: seq<Rate>, members2: seq<TeamMember>, ps: seq<Position>)
    requires forall p: Position :: RateInRublesPerHour(rates1, p) == RateInRublesPerHour(rates2, p)
    requires forall p: Position :: DegreeOfInvolvement(members1, p) == DegreeOfInvolvement(members2, p)
    ensures TeamPrice(rates1, members1, ps) == TeamPrice(rates2, members2, ps)
  {
    if ps != [] {
      TeamPriceDependsOnLookupsOnly(rates1, members1, rates2, members2, ps[1..]);
      assert RateInRublesPerHour(rates1, ps[0]) == RateInRublesPerHour(rates2, ps[0]);
      assert DegreeOfInvolvement(members1, ps[0]) == DegreeOfInvolvement(members2, ps[0]);
      assert PositionCost(rates1, members1, ps[0]) == PositionCost(rates2, members2, ps[0]);
    }
  }

  /**
   * When each position appears at most once among the rates and among the
   * team members, the price does not depend on the order of either list.
   */
  lemma PriceIgnoresRowOrder(
    rates1: seq<Rate>, members1: seq<TeamMember>, rates2: seq<Rate>, members2: seq<TeamMember>, estimateInDays: real)
    requires multiset(rates1) == multiset(rates2) && multiset(members1) == multiset(members2)
    requires RatePositionsUnique(rates1) && RatePositionsUnique(rates2)
    requires MemberPositionsUnique(members1) && MemberPositionsUnique(members2)
    ensures ComputePriceInRubles(rates1, members1, estimateInDays) == ComputePriceInRubles(rates2, members2, estimateInDays)
  {
    forall p: Position ensures RateInRublesPerHour(rates1, p) == RateInRublesPerHour(rates2, p) {
      RateLookupIgnoresOrder(rates1, rates2, p);
    }
    forall p: Position ensures DegreeOfInvolvement(members1, p) == DegreeOfInvolvement(members2, p) {
      DegreeLookupIgnoresOrder(members1, members2, p);
    }
    TeamPriceDependsOnLookupsOnly(rates1, members1, rates2, members2, AllPositions);
    var r1, r2 := TeamPrice(rates1, members1, AllPositions), TeamPrice(rates2, members2, AllPositions);
    assert r1 == r2;
    var c1, c2 := ComputePriceInRubles(rates1, members1, estimateInDays), ComputePriceInRubles(rates2, members2, estimateInDays);
    if r1.Ok? {
      assert c1.Ok? && c2.Ok?;
      assert c1.value == estimateInDays * r1.value * 8.0 == c2.value;
    } else {
      assert c1.Err? && c2.Err?;
      assert c1.error == r1.error == c2.error;
    }
  }
}

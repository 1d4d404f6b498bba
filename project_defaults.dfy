/**
 * The rows a new project is seeded with: one rate per position at the
 * position's default rate, built by mapping over `Position.values()`, and a
 * team of one regular developer, a quarter of a QA engineer and a quarter of
 * a project manager. Row ids are handed out consecutively from `firstId`.
 */
module ProjectDefaults {
  import opened Wrappers
  import opened Positions
  import opened Entities
  import opened Pricing

  /** One rate row per listed position, at its default rate, ids counting up from firstId. */
  function RatesAtDefault(ps: seq<Position>, projectId: int, firstId: int): (rates: seq<Rate>)
    ensures |rates| == |ps|
    ensures forall i :: 0 <= i < |ps| ==>
      rates[i] == Rate(firstId + i, ps[i], DefaultRateInRublesPerHour(ps[i]), projectId)
  {
    if ps == [] then []
    else [Rate(firstId, ps[0], DefaultRateInRublesPerHour(ps[0]), projectId)] + RatesAtDefault(ps[1..], projectId, firstId + 1)
  }

  /** The seeded rates of a new project. */
  function DefaultRates(projectId: int, firstId: int): seq<Rate>
  {
    RatesAtDefault(AllPositions, projectId, firstId)
  }

  /** The seeded team of a new project. */
  function DefaultTeam(projectId: int, firstId: int): seq<TeamMember>
  {
    [TeamMember(firstId, RegularDeveloper, 1.0, projectId),
     TeamMember(firstId + 1, QaEngineer, 0.25, projectId),
     TeamMember(firstId + 2, ProjectManager, 0.25, projectId)]
  }

  /** The head count the seeded team puts on each position. */
  function DefaultInvolvement(p: Position): real
  {
    match p
    case RegularDeveloper => 1.0
    case QaEngineer => 0.25
    case ProjectManager => 0.25
    case _ => 0.0
  }

  /**
   * The seeded rates cover every position exactly once, each at its default
   * rate, which is positive, and all of them belong to the new project.
   */
  lemma DefaultRatesCoverEachPositionOnce(projectId: int, firstId: int)
    ensures |DefaultRates(projectId, firstId)| == 6
    ensures RatePositionsUnique(DefaultRates(projectId, firstId))
    ensures forall p: Position :: HasRate(DefaultRates(projectId, firstId), p)
    ensures forall p: Position ::
      RateInRublesPerHour(DefaultRates(projectId, firstId), p) == Some(DefaultRateInRublesPerHour(p))
    ensures forall i :: 0 <= i < |DefaultRates(projectId, firstId)| ==>
      DefaultRates(projectId, firstId)[i].rublesPerHour > 0.0 &&
      DefaultRates(projectId, firstId)[i].projectId == projectId
  {
    AllPositionsListsEachOnce();
    var rates := DefaultRates(projectId, firstId);
    forall p: Position ensures HasRate(rates, p) && RateInRublesPerHour(rates, p) == Some(DefaultRateInRublesPerHour(p)) {
      assert rates[Ordinal(p)].position == p;
      RateOfUniqueRow(rates, Ordinal(p));
    }
  }

  /**
   * The seeded team holds regular developer, QA engineer and project manager
   * once each, with involvements 1, 0.25 and 0.25, and nobody else.
   */
  lemma DefaultTeamStaffsThreePositions(projectId: int, firstId: int)
    ensures MemberPositionsUnique(DefaultTeam(projectId, firstId))
    ensures forall p: Position ::
      HasMember(DefaultTeam(projectId, firstId), p) <==> p in {RegularDeveloper, QaEngineer, ProjectManager}
    ensures forall p: Position :: DegreeOfInvolvement(DefaultTeam(projectId, firstId), p) == DefaultInvolvement(p)
    ensures forall i :: 0 <= i < |DefaultTeam(projectId, firstId)| ==>
      DefaultTeam(projectId, firstId)[i].numberOfTeamMembers > 0.0 &&
      DefaultTeam(projectId, firstId)[i].projectId == projectId
  {
    var team := DefaultTeam(projectId, firstId);
    forall p: Position
      ensures (HasMember(team, p) <==> p in {RegularDeveloper, QaEngineer, ProjectManager})
      ensures DegreeOfInvolvement(team, p) == DefaultInvolvement(p)
    {
      if p == RegularDeveloper {
        DegreeOfUniqueRow(team, 0);
      } else if p == QaEngineer {
        DegreeOfUniqueRow(team, 1);
      } else if p == ProjectManager {
        DegreeOfUniqueRow(team, 2);
      }
    }
  }

  /**
   * The seeded team costs 1600 * 1 + 2000 * 0.25 + 1760 * 0.25 = 2540 rubles
   * an hour, so a new project prices an estimate of x days at 20320 x rubles.
   */
  lemma FreshProjectPrice(projectId: int, firstRateId: int, firstMemberId: int, x: real)
    ensures ComputePriceInRubles(DefaultRates(projectId, firstRateId), DefaultTeam(projectId, firstMemberId), x).Ok?
    ensures ComputePriceInRubles(DefaultRates(projectId, firstRateId), DefaultTeam(projectId, firstMemberId), x).value == 20320.0 * x
  {
    var rates, team := DefaultRates(projectId, firstRateId), DefaultTeam(projectId, firstMemberId);
    DefaultRatesCoverEachPositionOnce(projectId, firstRateId);
    DefaultTeamStaffsThreePositions(projectId, firstMemberId);
    PriceIsSumOverTeam(rates, team, x);
    assert RateOrZero(rates, RegularDeveloper) == 1600.0;
    assert RateOrZero(rates, QaEngineer) == 2000.0;
    assert RateOrZero(rates, ProjectManager) == 1760.0;
    var last := team[1..][1..];
    assert last[1..] == [];
    assert MemberSum(rates, last) == 1760.0 * 0.25;
    assert MemberSum(rates, team[1..]) == 2000.0 * 0.25 + MemberSum(rates, last);
    assert MemberSum(rates, team) == 1600.0 * 1.0 + MemberSum(rates, team[1..]) == 2540.0;
  }

  /**
   * With the seeded rates and a team of one regular developer, an estimate
   * of x days costs x * 1600 * 8 rubles: the positions nobody holds add
   * nothing.
   */
  lemma RegularDeveloperAlone(projectId: int, firstRateId: int, memberId: int, x: real)
    ensures ComputePriceInRubles(DefaultRates(projectId, firstRateId), [TeamMember(memberId, RegularDeveloper, 1.0, projectId)], x).Ok?
    ensures ComputePriceInRubles(DefaultRates(projectId, firstRateId), [TeamMember(memberId, RegularDeveloper, 1.0, projectId)], x).value == 12800.0 * x
  {
    var rates, team := DefaultRates(projectId, firstRateId), [TeamMember(memberId, RegularDeveloper, 1.0, projectId)];
    DefaultRatesCoverEachPositionOnce(projectId, firstRateId);
    PriceIsSumOverTeam(rates, team, x);
    assert RateOrZero(rates, RegularDeveloper) == 1600.0;
    assert team[1..] == [];
    assert MemberSum(rates, team) == 1600.0;
  }

  /** The derived estimate 4.4 of the features (2, 4, 8) costs 56320 rubles with one regular developer. */
  lemma RegularDeveloperAlonePrice(projectId: int, firstRateId: int, memberId: int)
    ensures ComputePriceInRubles(DefaultRates(projectId, firstRateId), [TeamMember(memberId, RegularDeveloper, 1.0, projectId)], 4.4).Ok?
    ensures ComputePriceInRubles(DefaultRates(projectId, firstRateId), [TeamMember(memberId, RegularDeveloper, 1.0, projectId)], 4.4).value == 56320.0
  {
    RegularDeveloperAlone(projectId, firstRateId, memberId, 4.4);
  }
}

/**
 * The repositories the services read and write, as one value: projects,
 * milestones and features by id, the rate and team member rows of each
 * project (what `findAllByProjectId` returns, and what `project.getRates()`
 * and `project.getTeamMembers()` hold), and the counter ids are drawn from.
 *
 * `Consistent` is the invariant every service operation keeps: ids are keys
 * and lie below the counter, every row belongs to an existing project, every
 * feature's estimates passed the validator, each project has exactly one
 * rate per position and at most one team member row per position, and the
 * running totals equal the sums the ledger defines. The functions named after
 * an operation's outcome (`FeatureSaved`, `FeatureUpdated`, ...) give the
 * state after the operation succeeds; the lemmas beside them prove that it is
 * consistent again and what it did to the running totals.
 */
module StoreState {
  import opened Wrappers
  import opened Positions
  import opened Errors
  import opened Validators
  import opened Estimates
  import opened Entities
  import opened Pricing
  import opened ProjectDefaults
  import opened Ledger
  import opened TeamMemberChecks

  datatype Tables = Tables(
    projects: map<int, Project>,
    milestones: map<int, Milestone>,
    features: map<int, Feature>,
    rates: map<int, seq<Rate>>,
    teamMembers: map<int, seq<TeamMember>>,
    nextId: int)

  /** A store with nothing in it. */
  function EmptyTables(): Tables
  {
    Tables(map[], map[], map[], map[], map[], 0)
  }

  // ---------------------------------------------------------------------
  // The invariant
  // ---------------------------------------------------------------------

  predicate ProjectsKeyed(t: Tables)
  {
    forall k :: k in t.projects ==> t.projects[k].id == k && 0 <= k < t.nextId
  }

  predicate MilestonesKeyed(t: Tables)
  {
    forall k :: k in t.milestones ==>
      t.milestones[k].id == k && 0 <= k < t.nextId && t.milestones[k].projectId in t.projects
  }

  /**
   * A feature's estimates passed the validator, and its milestone, while
   * that milestone exists, belongs to the feature's project. A milestone id
   * was handed out before the feature referred to it.
   */
  predicate FeatureFits(f: Feature, ms: map<int, Milestone>, n: int)
  {
    FeatureEstimatesValid(f.bestCaseEstimateInDays, f.mostLikelyEstimateInDays, f.worstCaseEstimateInDays) &&
    (f.milestoneId.Some? ==>
       f.milestoneId.value < n &&
       (f.milestoneId.value in ms ==> ms[f.milestoneId.value].projectId == f.projectId))
  }

  predicate FeaturesKeyed(t: Tables)
  {
    forall k :: k in t.features ==>
      t.features[k].id == k && 0 <= k < t.nextId && t.features[k].projectId in t.projects &&
      FeatureFits(t.features[k], t.milestones, t.nextId)
  }

  /** The ledger: each running total is the sum of the derived estimates in its scope. */
  predicate TotalsBalance(t: Tables)
  {
    (forall k :: k in t.projects ==>
       t.projects[k].estimateInDays == Total(t.features, InProject(k), t.nextId)) &&
    (forall k :: k in t.milestones ==>
       t.milestones[k].estimateInDays == Total(t.features, InMilestone(k), t.nextId))
  }

  /** One project's rates: every position once, each rate positive, ids distinct. */
  predicate RateTable(rs: seq<Rate>, projectId: int, n: int)
  {
    (forall p: Position :: HasRate(rs, p)) && RatePositionsUnique(rs) &&
    (forall i :: 0 <= i < |rs| ==> rs[i].projectId == projectId && rs[i].rublesPerHour > 0.0 && 0 <= rs[i].id < n) &&
    (forall i, j :: 0 <= i < j < |rs| ==> rs[i].id != rs[j].id)
  }

  /** One project's team: each position at most once, each head count positive, ids distinct. */
  predicate TeamTable(tm: seq<TeamMember>, projectId: int, n: int)
  {
    MemberPositionsUnique(tm) &&
    (forall i :: 0 <= i < |tm| ==> tm[i].projectId == projectId && tm[i].numberOfTeamMembers > 0.0 && 0 <= tm[i].id < n) &&
    (forall i, j :: 0 <= i < j < |tm| ==> tm[i].id != tm[j].id)
  }

  predicate RowsKeyed(t: Tables)
  {
    t.rates.Keys == t.projects.Keys && t.teamMembers.Keys == t.projects.Keys &&
    (forall k :: k in t.rates ==> RateTable(t.rates[k], k, t.nextId)) &&
    (forall k :: k in t.teamMembers ==> TeamTable(t.teamMembers[k], k, t.nextId))
  }

  predicate Consistent(t: Tables)
  {
    0 <= t.nextId && ProjectsKeyed(t) && MilestonesKeyed(t) && FeaturesKeyed(t) && TotalsBalance(t) && RowsKeyed(t)
  }

  /** The empty store is consistent. */
  lemma EmptyIsConsistent()
    ensures Consistent(EmptyTables())
  {
  }

  // ---------------------------------------------------------------------
  // Lookups (the services' get* helpers and the repositories' finders)
  // ---------------------------------------------------------------------

  /** The rates of a project, empty for an unknown id. */
  function RatesOf(t: Tables, projectId: int): seq<Rate>
  {
    if projectId in t.rates then t.rates[projectId] else []
  }

  /** The team member rows of a project, empty for an unknown id. */
  function MembersOf(t: Tables, projectId: int): seq<TeamMember>
  {
    if projectId in t.teamMembers then t.teamMembers[projectId] else []
  }

  /** ProjectService.getProject. */
  function GetProject(t: Tables, projectId: int): (r: Result<Project, Failure>)
    ensures r.Ok? <==> projectId in t.projects
    ensures r.Ok? ==> r.value == t.projects[projectId]
    ensures r.Err? ==> r.error == Rejected(ProjectIsNotFoundById, "projectId")
  {
    if projectId in t.projects then Ok(t.projects[projectId])
    else Err(Rejected(ProjectIsNotFoundById, "projectId"))
  }

  /**
   * getProject followed by checkIfUserOwnsProject: the project, when it
   * exists and the user created it; PROJECT_IS_NOT_FOUND_BY_ID otherwise.
   */
  function OwnedProject(t: Tables, user: int, projectId: int): (r: Result<Project, Failure>)
    ensures r.Ok? <==> projectId in t.projects && t.projects[projectId].creatorId == user
    ensures r.Ok? ==> r.value == t.projects[projectId]
    ensures r.Err? ==> r.error == Rejected(ProjectIsNotFoundById, "projectId")
  {
    match GetProject(t, projectId)
    case Err(e) => Err(e)
    case Ok(project) =>
      if project.creatorId != user then Err(Rejected(ProjectIsNotFoundById, "projectId")) else Ok(project)
  }

  /** A project someone else created is reported exactly as a project that does not exist. */
  lemma ForeignProjectLooksMissing(t: Tables, user: int, projectId: int, missingId: int)
    requires projectId in t.projects && t.projects[projectId].creatorId != user
    requires missingId !in t.projects
    ensures OwnedProject(t, user, projectId) == OwnedProject(t, user, missingId)
    ensures OwnedProject(t, user, projectId).Err?
  {
  }

  /** The ownership check as a pass/fail outcome, for the checks that take one. */
  function Ownership(t: Tables, user: int, projectId: int): (o: Outcome<Failure>)
    ensures o.Pass? <==> OwnedProject(t, user, projectId).Ok?
    ensures o.Fail? ==> o.error == OwnedProject(t, user, projectId).error
  {
    match OwnedProject(t, user, projectId)
    case Ok(_) => Pass
    case Err(e) => Fail(e)
  }

  /** MilestoneService.getMilestone: found only by id and project together. */
  function GetMilestone(t: Tables, projectId: int, milestoneId: int): (r: Result<Milestone, Failure>)
    ensures r.Ok? <==> milestoneId in t.milestones && t.milestones[milestoneId].projectId == projectId
    ensures r.Ok? ==> r.value == t.milestones[milestoneId]
    ensures r.Err? ==> r.error == Rejected(MilestoneIsNotFoundById, "milestoneId")
  {
    if milestoneId in t.milestones && t.milestones[milestoneId].projectId == projectId then Ok(t.milestones[milestoneId])
    else Err(Rejected(MilestoneIsNotFoundById, "milestoneId"))
  }

  /** The optional milestone of a feature request: none, or one looked up in the project. */
  function MilestoneOfRequest(t: Tables, projectId: int, milestoneId: Option<int>): (r: Outcome<Failure>)
    ensures r.Pass? <==> milestoneId.None? || GetMilestone(t, projectId, milestoneId.value).Ok?
    ensures r.Fail? ==> r.error == Rejected(MilestoneIsNotFoundById, "milestoneId")
  {
    match milestoneId
    case None => Pass
    case Some(m) => match GetMilestone(t, projectId, m) case Ok(_) => Pass case Err(e) => Fail(e)
  }

  /** FeatureService.getFeature: found only by id and project together. */
  function GetFeature(t: Tables, projectId: int, featureId: int): (r: Result<Feature, Failure>)
    ensures r.Ok? <==> featureId in t.features && t.features[featureId].projectId == projectId
    ensures r.Ok? ==> r.value == t.features[featureId]
    ensures r.Err? ==> r.error == Rejected(FeatureIsNotFoundById, "featureId")
  {
    if featureId in t.features && t.features[featureId].projectId == projectId then Ok(t.features[featureId])
    else Err(Rejected(FeatureIsNotFoundById, "featureId"))
  }

  /**
   * The first row whose id, as `idOf` reads it, is the given one: the
   * services' `stream().filter(...).findAny()` and the repositories'
   * finders by id, with `findAny` taken as the first match.
   */
  function FirstIndex<T>(rows: seq<T>, idOf: T -> int, id: int): (r: Option<int>)
    ensures r.Some? <==> exists i :: 0 <= i < |rows| && idOf(rows[i]) == id
    ensures r.Some? ==> 0 <= r.value < |rows| && idOf(rows[r.value]) == id &&
                        forall j :: 0 <= j < r.value ==> idOf(rows[j]) != id
  {
    if rows == [] then None
    else if idOf(rows[0]) == id then Some(0)
    else match FirstIndex(rows[1..], idOf, id)
      case None =>
        assert forall i :: 0 < i < |rows| ==> rows[i] == rows[1..][i - 1];
        None
      case Some(i) => Some(i + 1)
  }

  function RateId(r: Rate): int { r.id }

  function MemberId(m: TeamMember): int { m.id }

  /** RateService.getRate: a rate of the given project with the given id. */
  function GetRate(t: Tables, projectId: int, rateId: int): (r: Result<Rate, Failure>)
    ensures r.Ok? <==> exists i :: 0 <= i < |RatesOf(t, projectId)| && RatesOf(t, projectId)[i].id == rateId
    ensures r.Ok? ==> r.value in RatesOf(t, projectId) && r.value.id == rateId
    ensures r.Err? ==> r.error == Rejected(RateIsNotFoundById, "rateId")
  {
    match FirstIndex(RatesOf(t, projectId), RateId, rateId)
    case None => Err(Rejected(RateIsNotFoundById, "rateId"))
    case Some(i) => Ok(RatesOf(t, projectId)[i])
  }

  /** TeamMemberService.getTeamMember: a team member of the given project with the given id. */
  function GetTeamMember(t: Tables, projectId: int, teamMemberId: int): (r: Result<TeamMember, Failure>)
    ensures r.Ok? <==> exists i :: 0 <= i < |MembersOf(t, projectId)| && MembersOf(t, projectId)[i].id == teamMemberId
    ensures r.Ok? ==> r.value in MembersOf(t, projectId) && r.value.id == teamMemberId
    ensures r.Err? ==> r.error == Rejected(TeamMemberIsNotFoundById, "teamMemberId")
  {
    match FirstIndex(MembersOf(t, projectId), MemberId, teamMemberId)
    case None => Err(Rejected(TeamMemberIsNotFoundById, "teamMemberId"))
    case Some(i) => Ok(MembersOf(t, projectId)[i])
  }

  // ---------------------------------------------------------------------
  // Prices and the list endpoints
  // ---------------------------------------------------------------------

  /**
   * computePriceInRubles for a stored project: in a consistent store it
   * never fails, it is the estimate times the team's hourly cost summed row
   * by row times 8, and it is not negative for a non-negative estimate.
   */
  function Price(t: Tables, projectId: int, estimateInDays: real): (r: real)
    requires Consistent(t) && projectId in t.projects
    ensures ComputePriceInRubles(RatesOf(t, projectId), MembersOf(t, projectId), estimateInDays).Ok?
    ensures ComputePriceInRubles(RatesOf(t, projectId), MembersOf(t, projectId), estimateInDays).value == r
    ensures r == estimateInDays * MemberSum(RatesOf(t, projectId), MembersOf(t, projectId)) * 8.0
    ensures estimateInDays >= 0.0 ==> r >= 0.0
  {
    var rates, members := RatesOf(t, projectId), MembersOf(t, projectId);
    assert RateTable(rates, projectId, t.nextId);
    assert TeamTable(members, projectId, t.nextId);
    PriceIsSumOverTeam(rates, members, estimateInDays);
    assert estimateInDays >= 0.0 ==> ComputePriceInRubles(rates, members, estimateInDays).value >= 0.0 by {
      if estimateInDays >= 0.0 {
        PriceIsNonNegative(rates, members, estimateInDays);
      }
    }
    ComputePriceInRubles(rates, members, estimateInDays).value
  }

  /** ProjectService.getAllProjects: the caller's projects, each priced at its own running total. */
  function GetAllProjects(t: Tables, user: int): (r: map<int, Priced<Project>>)
    requires Consistent(t)
    ensures forall k :: k in r <==> k in t.projects && t.projects[k].creatorId == user
    ensures forall k :: k in r ==>
      r[k].item == t.projects[k] && r[k].priceInRubles == Price(t, k, t.projects[k].estimateInDays)
  {
    map k | k in t.projects && t.projects[k].creatorId == user :: Priced(t.projects[k], Price(t, k, t.projects[k].estimateInDays))
  }

  /** MilestoneService.getAllMilestones: the project's milestones, each priced at its running total. */
  function GetAllMilestones(t: Tables, user: int, projectId: int): (r: Result<map<int, Priced<Milestone>>, Failure>)
    requires Consistent(t)
    ensures r.Err? <==> OwnedProject(t, user, projectId).Err?
    ensures r.Err? ==> r.error == Rejected(ProjectIsNotFoundById, "projectId")
    ensures r.Ok? ==> forall k :: k in r.value <==> k in t.milestones && t.milestones[k].projectId == projectId
    ensures r.Ok? ==> forall k :: k in r.value ==>
      r.value[k].item == t.milestones[k] &&
      r.value[k].priceInRubles == Price(t, projectId, t.milestones[k].estimateInDays)
  {
    match OwnedProject(t, user, projectId)
    case Err(e) => Err(e)
    case Ok(_) =>
      Ok(map k | k in t.milestones && t.milestones[k].projectId == projectId ::
           Priced(t.milestones[k], Price(t, projectId, t.milestones[k].estimateInDays)))
  }

  /** A feature is listed for a project, restricted to one milestone when one is named. */
  predicate Listed(f: Feature, projectId: int, milestoneId: Option<int>)
  {
    f.projectId == projectId && (milestoneId.Some? ==> f.milestoneId == milestoneId)
  }

  /**
   * FeatureService.getAllFeatures: the project's features, or those of one
   * milestone, each priced at its derived estimate. The milestone id is a
   * filter only; a milestone that does not exist yields no features.
   */
  function GetAllFeatures(t: Tables, user: int, projectId: int, milestoneId: Option<int>): (r: Result<map<int, Priced<Feature>>, Failure>)
    requires Consistent(t)
    ensures r.Err? <==> OwnedProject(t, user, projectId).Err?
    ensures r.Err? ==> r.error == Rejected(ProjectIsNotFoundById, "projectId")
    ensures r.Ok? ==> forall k :: k in r.value <==> k in t.features && Listed(t.features[k], projectId, milestoneId)
    ensures r.Ok? ==> forall k :: k in r.value ==>
      r.value[k].item == t.features[k] &&
      r.value[k].priceInRubles == Price(t, projectId, t.features[k].Estimate())
  {
    match OwnedProject(t, user, projectId)
    case Err(e) => Err(e)
    case Ok(_) =>
      Ok(map k | k in t.features && Listed(t.features[k], projectId, milestoneId) ::
           Priced(t.features[k], Price(t, projectId, t.features[k].Estimate())))
  }

  /** RateService.getAllRates: exactly the project's rates, after the ownership check. */
  function GetAllRates(t: Tables, user: int, projectId: int): (r: Result<seq<Rate>, Failure>)
    requires Consistent(t)
    ensures r.Err? <==> OwnedProject(t, user, projectId).Err?
    ensures r.Err? ==> r.error == Rejected(ProjectIsNotFoundById, "projectId")
    ensures r.Ok? ==> r.value == RatesOf(t, projectId)
    ensures r.Ok? ==> (forall p: Position :: HasRate(r.value, p)) && RatePositionsUnique(r.value)
    ensures r.Ok? ==> forall i :: 0 <= i < |r.value| ==> r.value[i].projectId == projectId
  {
    match OwnedProject(t, user, projectId)
    case Err(e) => Err(e)
    case Ok(_) =>
      assert RateTable(RatesOf(t, projectId), projectId, t.nextId);
      Ok(RatesOf(t, projectId))
  }

  /** TeamMemberService.getAllTeamMembers: exactly the project's team, after the ownership check. */
  function GetAllTeamMembers(t: Tables, user: int, projectId: int): (r: Result<seq<TeamMember>, Failure>)
    requires Consistent(t)
    ensures r.Err? <==> OwnedProject(t, user, projectId).Err?
    ensures r.Err? ==> r.error == Rejected(ProjectIsNotFoundById, "projectId")
    ensures r.Ok? ==> r.value == MembersOf(t, projectId)
    ensures r.Ok? ==> MemberPositionsUnique(r.value)
    ensures r.Ok? ==> forall i :: 0 <= i < |r.value| ==> r.value[i].projectId == projectId && r.value[i].numberOfTeamMembers > 0.0
  {
    match OwnedProject(t, user, projectId)
    case Err(e) => Err(e)
    case Ok(_) =>
      assert TeamTable(MembersOf(t, projectId), projectId, t.nextId);
      Ok(MembersOf(t, projectId))
  }

  // ---------------------------------------------------------------------
  // Projects
  // ---------------------------------------------------------------------

  /** The project map with one project's lastUpdatedAt set to now. */
  function Stamped(ps: map<int, Project>, projectId: int, now: int): map<int, Project>
    requires projectId in ps
  {
    ps[projectId := ps[projectId].(lastUpdatedAt := now)]
  }

  /**
   * The state after saveProject: the project with a running total of 0, its
   * default rates and its default team; the project takes the next id, its
   * six rates the six after it, its three team members the three after those.
   */
  function ProjectSaved(t: Tables, user: int, request: ProjectRequest, now: int): Tables
  {
    var id := t.nextId;
    t.(projects := t.projects[id := Project(id, request.title, request.description, request.client, user, 0.0, now, now)],
       rates := t.rates[id := DefaultRates(id, id + 1)],
       teamMembers := t.teamMembers[id := DefaultTeam(id, id + 7)],
       nextId := id + 10)
  }

  /** Ids at or above the counter hold no feature, so the sums ignore a raised bound. */
  lemma TotalsIgnoreFreshIds(t: Tables, n: int)
    requires FeaturesKeyed(t) && t.nextId <= n
    ensures forall s: Scope :: Total(t.features, s, n) == Total(t.features, s, t.nextId)
  {
    forall s: Scope ensures Total(t.features, s, n) == Total(t.features, s, t.nextId) {
      TotalOverFreeIds(t.features, s, t.nextId, n);
    }
  }

  /** A rate table stays one when the id bound is raised. */
  lemma RateTableUnderHigherBound(rs: seq<Rate>, projectId: int, n: int, m: int)
    requires RateTable(rs, projectId, n) && n <= m
    ensures RateTable(rs, projectId, m)
  {
  }

  /** A team table stays one when the id bound is raised. */
  lemma TeamTableUnderHigherBound(tm: seq<TeamMember>, projectId: int, n: int, m: int)
    requires TeamTable(tm, projectId, n) && n <= m
    ensures TeamTable(tm, projectId, m)
  {
  }

  /** Raising the id bound keeps every project's rows valid. */
  lemma RowsUnderHigherBound(t: Tables, n: int)
    requires RowsKeyed(t) && t.nextId <= n
    ensures forall k :: k in t.rates ==> RateTable(t.rates[k], k, n)
    ensures forall k :: k in t.teamMembers ==> TeamTable(t.teamMembers[k], k, n)
  {
    forall k | k in t.rates ensures RateTable(t.rates[k], k, n) {
      RateTableUnderHigherBound(t.rates[k], k, t.nextId, n);
    }
    forall k | k in t.teamMembers ensures TeamTable(t.teamMembers[k], k, n) {
      TeamTableUnderHigherBound(t.teamMembers[k], k, t.nextId, n);
    }
  }

  /** Rows stay valid when neither they nor the set of projects change and the id bound does not fall. */
  lemma RowsCarryOver(t: Tables, t': Tables)
    requires RowsKeyed(t)
    requires t'.rates == t.rates && t'.teamMembers == t.teamMembers
    requires t'.projects.Keys == t.projects.Keys && t.nextId <= t'.nextId
    ensures RowsKeyed(t')
  {
    RowsUnderHigherBound(t, t'.nextId);
  }

  /** The seeded rows of a new project form a valid rate table and a valid team. */
  lemma SeededRowsAreValid(id: int)
    requires 0 <= id
    ensures RateTable(DefaultRates(id, id + 1), id, id + 10)
    ensures TeamTable(DefaultTeam(id, id + 7), id, id + 10)
  {
    DefaultRatesCoverEachPositionOnce(id, id + 1);
    DefaultTeamStaffsThreePositions(id, id + 7);
    var rs := DefaultRates(id, id + 1);
    assert forall i :: 0 <= i < |rs| ==> rs[i].id == id + 1 + i;
    assert forall i :: 0 <= i < |rs| ==> 0 <= rs[i].id < id + 10;
    assert forall i, j :: 0 <= i < j < |rs| ==> rs[i].id != rs[j].id;
  }

  /** saveProject keeps the store consistent. */
  lemma ProjectSavedKeepsConsistent(t: Tables, user: int, request: ProjectRequest, now: int)
    requires Consistent(t)
    ensures Consistent(ProjectSaved(t, user, request, now))
  {
    var t' := ProjectSaved(t, user, request, now);
    var id := t.nextId;
    assert ProjectsKeyed(t');
    assert MilestonesKeyed(t');
    assert FeaturesKeyed(t');
    ProjectSavedBalances(t, user, request, now);
    ProjectSavedSeedsRows(t, user, request, now);
  }

  /** The rows after saveProject: the old projects' rows, and the new project's seeded ones. */
  lemma ProjectSavedSeedsRows(t: Tables, user: int, request: ProjectRequest, now: int)
    requires Consistent(t)
    ensures RowsKeyed(ProjectSaved(t, user, request, now))
  {
    var t' := ProjectSaved(t, user, request, now);
    var id := t.nextId;
    SeededRowsAreValid(id);
    RowsWithOneProjectSeeded(t, t', DefaultRates(id, id + 1), DefaultTeam(id, id + 7));
  }

  /**
   * A new project under the next id, with a valid rate table and team under
   * a counter raised by ten, keeps every project's rows valid.
   */
  lemma RowsWithOneProjectSeeded(t: Tables, t': Tables, rs: seq<Rate>, tm: seq<TeamMember>)
    requires RowsKeyed(t)
    requires t'.nextId == t.nextId + 10 && t'.projects.Keys == t.projects.Keys + {t.nextId}
    requires t'.rates == t.rates[t.nextId := rs] && t'.teamMembers == t.teamMembers[t.nextId := tm]
    requires RateTable(rs, t.nextId, t'.nextId) && TeamTable(tm, t.nextId, t'.nextId)
    ensures RowsKeyed(t')
  {
    forall k | k in t'.rates ensures RateTable(t'.rates[k], k, t'.nextId) {
      if k != t.nextId {
        RateTableUnderHigherBound(t.rates[k], k, t.nextId, t'.nextId);
      }
    }
    forall k | k in t'.teamMembers ensures TeamTable(t'.teamMembers[k], k, t'.nextId) {
      if k != t.nextId {
        TeamTableUnderHigherBound(t.teamMembers[k], k, t.nextId, t'.nextId);
      }
    }
  }

  /** A new project's running total of 0 is the sum over its features, of which there are none. */
  lemma ProjectSavedBalances(t: Tables, user: int, request: ProjectRequest, now: int)
    requires Consistent(t)
    ensures TotalsBalance(ProjectSaved(t, user, request, now))
  {
    TotalsIgnoreFreshIds(t, t.nextId + 10);
    TotalOfNothingInScope(t.features, InProject(t.nextId), t.nextId + 10);
  }

  /**
   * A new project belongs to its creator, starts at a running total of 0,
   * and prices an estimate of x days at 20320 x rubles.
   */
  lemma NewProjectStartsAtDefaults(t: Tables, user: int, request: ProjectRequest, now: int, x: real)
    requires Consistent(t)
    ensures OwnedProject(ProjectSaved(t, user, request, now), user, t.nextId).Ok?
    ensures ProjectSaved(t, user, request, now).projects[t.nextId].estimateInDays == 0.0
    ensures Consistent(ProjectSaved(t, user, request, now))
    ensures Price(ProjectSaved(t, user, request, now), t.nextId, x) == 20320.0 * x
  {
    ProjectSavedKeepsConsistent(t, user, request, now);
    FreshProjectPrice(t.nextId, t.nextId + 1, t.nextId + 7, x);
  }

  /** The state after updateProject: new title, description and client, and the time stamp. */
  function ProjectUpdated(t: Tables, projectId: int, request: ProjectRequest, now: int): Tables
    requires projectId in t.projects
  {
    t.(projects := t.projects[projectId := t.projects[projectId].(
         title := request.title, description := request.description, client := request.client, lastUpdatedAt := now)])
  }

  /** updateProject keeps the store consistent. */
  lemma ProjectUpdatedKeepsConsistent(t: Tables, projectId: int, request: ProjectRequest, now: int)
    requires Consistent(t) && projectId in t.projects
    ensures Consistent(ProjectUpdated(t, projectId, request, now))
  {
  }

  /**
   * The state after deleteProject: the project together with its
   * milestones, features, rates and team members.
   */
  function ProjectDeleted(t: Tables, projectId: int): Tables
  {
    t.(projects := t.projects - {projectId},
       milestones := map k | k in t.milestones && t.milestones[k].projectId != projectId :: t.milestones[k],
       features := map k | k in t.features && t.features[k].projectId != projectId :: t.features[k],
       rates := t.rates - {projectId},
       teamMembers := t.teamMembers - {projectId})
  }

  /** deleteProject keeps the store consistent, and every other project's running total as it was. */
  lemma ProjectDeletedKeepsConsistent(t: Tables, projectId: int)
    requires Consistent(t)
    ensures Consistent(ProjectDeleted(t, projectId))
    ensures forall k :: k in ProjectDeleted(t, projectId).projects ==>
      ProjectDeleted(t, projectId).projects[k].estimateInDays == t.projects[k].estimateInDays
  {
    var t' := ProjectDeleted(t, projectId);
    forall k | k in t'.projects ensures t'.projects[k].estimateInDays == Total(t'.features, InProject(k), t'.nextId) {
      TotalOfRestriction(t.features, t'.features, InProject(k), t.nextId);
    }
    forall k | k in t'.milestones ensures t'.milestones[k].estimateInDays == Total(t'.features, InMilestone(k), t'.nextId) {
      forall j | j in t.features && j !in t'.features ensures !InScope(t.features[j], InMilestone(k)) {
        assert FeatureFits(t.features[j], t.milestones, t.nextId);
      }
      TotalOfRestriction(t.features, t'.features, InMilestone(k), t.nextId);
    }
  }

  // ---------------------------------------------------------------------
  // Milestones
  // ---------------------------------------------------------------------

  /** The state after saveMilestone: a milestone with a running total of 0 under the next id. */
  function MilestoneSaved(t: Tables, projectId: int, request: MilestoneRequest, now: int): Tables
    requires projectId in t.projects
  {
    var id := t.nextId;
    t.(milestones := t.milestones[id := Milestone(id, projectId, request.title, request.description,
                                                  request.startDateTime, request.endDateTime, 0.0, now, now)],
       projects := Stamped(t.projects, projectId, now),
       nextId := id + 1)
  }

  /** saveMilestone keeps the store consistent: no feature refers to the new milestone yet. */
  lemma MilestoneSavedKeepsConsistent(t: Tables, projectId: int, request: MilestoneRequest, now: int)
    requires Consistent(t) && projectId in t.projects
    ensures Consistent(MilestoneSaved(t, projectId, request, now))
  {
    var t' := MilestoneSaved(t, projectId, request, now);
    var id := t.nextId;
    assert ProjectsKeyed(t');
    assert MilestonesKeyed(t');
    MilestoneSavedFits(t, projectId, request, now);
    MilestoneSavedBalances(t, projectId, request, now);
    RowsCarryOver(t, t');
  }

  /** Every feature still fits once the new milestone exists. */
  lemma MilestoneSavedFits(t: Tables, projectId: int, request: MilestoneRequest, now: int)
    requires Consistent(t) && projectId in t.projects
    ensures FeaturesKeyed(MilestoneSaved(t, projectId, request, now))
  {
    var t' := MilestoneSaved(t, projectId, request, now);
    forall k | k in t.features ensures FeatureFits(t'.features[k], t'.milestones, t'.nextId) {
      assert FeatureFits(t.features[k], t.milestones, t.nextId);
    }
  }

  /** A new milestone's running total of 0 is the sum over its features, of which there are none. */
  lemma MilestoneSavedBalances(t: Tables, projectId: int, request: MilestoneRequest, now: int)
    requires Consistent(t) && projectId in t.projects
    ensures TotalsBalance(MilestoneSaved(t, projectId, request, now))
  {
    var id := t.nextId;
    TotalsIgnoreFreshIds(t, id + 1);
    forall k | k in t.features ensures !InScope(t.features[k], InMilestone(id)) {
      assert FeatureFits(t.features[k], t.milestones, t.nextId);
    }
    TotalOfNothingInScope(t.features, InMilestone(id), id + 1);
  }

  /** The state after updateMilestone: new title, description and dates, and the time stamps. */
  function MilestoneUpdated(t: Tables, projectId: int, milestoneId: int, request: MilestoneRequest, now: int): Tables
    requires projectId in t.projects && milestoneId in t.milestones
  {
    t.(milestones := t.milestones[milestoneId := t.milestones[milestoneId].(
         title := request.title, description := request.description,
         startDateTime := request.startDateTime, endDateTime := request.endDateTime, lastUpdatedAt := now)],
       projects := Stamped(t.projects, projectId, now))
  }

  /** updateMilestone keeps the store consistent. */
  lemma MilestoneUpdatedKeepsConsistent(t: Tables, projectId: int, milestoneId: int, request: MilestoneRequest, now: int)
    requires Consistent(t) && projectId in t.projects && milestoneId in t.milestones
    ensures Consistent(MilestoneUpdated(t, projectId, milestoneId, request, now))
  {
    var t' := MilestoneUpdated(t, projectId, milestoneId, request, now);
    forall k | k in t.features ensures FeatureFits(t'.features[k], t'.milestones, t'.nextId) {
      assert FeatureFits(t.features[k], t.milestones, t.nextId);
    }
  }

  /**
   * The state after deleteMilestone: the milestone is gone and the project
   * stamped. Features keep the id of the deleted milestone.
   */
  function MilestoneDeleted(t: Tables, projectId: int, milestoneId: int, now: int): Tables
    requires projectId in t.projects
  {
    t.(milestones := t.milestones - {milestoneId}, projects := Stamped(t.projects, projectId, now))
  }

  /** deleteMilestone keeps the store consistent and the project's running total as it was. */
  lemma MilestoneDeletedKeepsConsistent(t: Tables, projectId: int, milestoneId: int, now: int)
    requires Consistent(t) && projectId in t.projects
    ensures Consistent(MilestoneDeleted(t, projectId, milestoneId, now))
    ensures MilestoneDeleted(t, projectId, milestoneId, now).projects[projectId].estimateInDays == t.projects[projectId].estimateInDays
  {
    var t' := MilestoneDeleted(t, projectId, milestoneId, now);
    forall k | k in t.features ensures FeatureFits(t'.features[k], t'.milestones, t'.nextId) {
      assert FeatureFits(t.features[k], t.milestones, t.nextId);
    }
  }

  // ---------------------------------------------------------------------
  // Features: the ledger's add and subtract steps
  // ---------------------------------------------------------------------

  /** Adding e to the running total of the given milestone, if there is one and it exists. */
  function Credited(ms: map<int, Milestone>, milestoneId: Option<int>, e: real, now: int): map<int, Milestone>
  {
    if milestoneId.Some? && milestoneId.value in ms then
      ms[milestoneId.value := ms[milestoneId.value].(
           estimateInDays := ms[milestoneId.value].estimateInDays + e, lastUpdatedAt := now)]
    else ms
  }

  /** Subtracting e from the running total of the given milestone, if there is one and it exists. */
  function Debited(ms: map<int, Milestone>, milestoneId: Option<int>, e: real, now: int): map<int, Milestone>
  {
    if milestoneId.Some? && milestoneId.value in ms then
      ms[milestoneId.value := ms[milestoneId.value].(
           estimateInDays := ms[milestoneId.value].estimateInDays - e, lastUpdatedAt := now)]
    else ms
  }

  /** The feature saveFeature creates, under the next id. */
  function NewFeature(t: Tables, projectId: int, request: FeatureRequest, now: int): Feature
  {
    Feature(t.nextId, projectId, request.milestoneId, request.title, request.description,
            request.bestCaseEstimateInDays, request.mostLikelyEstimateInDays, request.worstCaseEstimateInDays, now, now)
  }

  /**
   * The state after saveFeature: the feature stored, its derived estimate
   * added to the project's running total and to its milestone's.
   */
  function FeatureSaved(t: Tables, projectId: int, request: FeatureRequest, now: int): Tables
    requires projectId in t.projects
  {
    var f := NewFeature(t, projectId, request, now);
    t.(features := t.features[f.id := f],
       projects := t.projects[projectId := t.projects[projectId].(
         estimateInDays := t.projects[projectId].estimateInDays + f.Estimate(), lastUpdatedAt := now)],
       milestones := Credited(t.milestones, request.milestoneId, f.Estimate(), now),
       nextId := t.nextId + 1)
  }

  /** Every total over a map with one more feature, under a fresh id, grows by that feature's share. */
  lemma TotalsWithNewFeature(t: Tables, f: Feature)
    requires FeaturesKeyed(t) && 0 <= t.nextId && f.id == t.nextId
    ensures forall s: Scope :: Total(t.features[f.id := f], s, t.nextId + 1) == Total(t.features, s, t.nextId) + Contribution(f, s)
  {
    forall s: Scope ensures Total(t.features[f.id := f], s, t.nextId + 1) == Total(t.features, s, t.nextId) + Contribution(f, s) {
      TotalOverFreeIds(t.features, s, t.nextId, t.nextId + 1);
      TotalInsert(t.features, f.id, f, s, t.nextId + 1);
    }
  }

  /** saveFeature keeps the store consistent: the ledger absorbs the new feature's estimate. */
  lemma FeatureSavedKeepsConsistent(t: Tables, projectId: int, request: FeatureRequest, now: int)
    requires Consistent(t) && projectId in t.projects
    requires FeatureEstimatesValid(request.bestCaseEstimateInDays, request.mostLikelyEstimateInDays, request.worstCaseEstimateInDays)
    requires MilestoneOfRequest(t, projectId, request.milestoneId).Pass?
    ensures Consistent(FeatureSaved(t, projectId, request, now))
  {
    var t' := FeatureSaved(t, projectId, request, now);
    var f := NewFeature(t, projectId, request, now);
    assert ProjectsKeyed(t');
    assert MilestonesKeyed(t');
    FeatureSavedFits(t, projectId, request, now);
    FeatureSavedBalances(t, projectId, request, now);
    RowsCarryOver(t, t');
  }

  /** The new feature fits: its milestone, if any, is one of its project's. */
  lemma FeatureSavedFits(t: Tables, projectId: int, request: FeatureRequest, now: int)
    requires Consistent(t) && projectId in t.projects
    requires FeatureEstimatesValid(request.bestCaseEstimateInDays, request.mostLikelyEstimateInDays, request.worstCaseEstimateInDays)
    requires MilestoneOfRequest(t, projectId, request.milestoneId).Pass?
    ensures FeaturesKeyed(FeatureSaved(t, projectId, request, now))
  {
    var t' := FeatureSaved(t, projectId, request, now);
    forall k | k in t'.features ensures FeatureFits(t'.features[k], t'.milestones, t'.nextId) {
      if k != t.nextId {
        assert FeatureFits(t.features[k], t.milestones, t.nextId);
      }
    }
  }

  /**
   * The ledger after saveFeature: the project's and the milestone's running
   * totals grew by exactly the share the new feature adds to their sums.
   */
  lemma FeatureSavedBalances(t: Tables, projectId: int, request: FeatureRequest, now: int)
    requires Consistent(t) && projectId in t.projects
    requires MilestoneOfRequest(t, projectId, request.milestoneId).Pass?
    ensures TotalsBalance(FeatureSaved(t, projectId, request, now))
  {
    TotalsWithNewFeature(t, NewFeature(t, projectId, request, now));
  }

  /** updateFeature's new field values: milestone, title, description, raw estimates, time stamp. */
  function Edited(f: Feature, request: FeatureRequest, now: int): Feature
  {
    f.(milestoneId := request.milestoneId, title := request.title, description := request.description,
       bestCaseEstimateInDays := request.bestCaseEstimateInDays,
       mostLikelyEstimateInDays := request.mostLikelyEstimateInDays,
       worstCaseEstimateInDays := request.worstCaseEstimateInDays,
       lastUpdatedAt := now)
  }

  /**
   * The state after updateFeature: the old derived estimate subtracted from
   * the project and the old milestone, the feature edited, the new derived
   * estimate added to the project and the new milestone.
   */
  function FeatureUpdated(t: Tables, projectId: int, featureId: int, request: FeatureRequest, now: int): Tables
    requires projectId in t.projects && featureId in t.features
  {
    var before := t.features[featureId];
    var after := Edited(before, request, now);
    t.(features := t.features[featureId := after],
       projects := t.projects[projectId := t.projects[projectId].(
         estimateInDays := t.projects[projectId].estimateInDays - before.Estimate() + after.Estimate(), lastUpdatedAt := now)],
       milestones := Credited(Debited(t.milestones, before.milestoneId, before.Estimate(), now),
                              request.milestoneId, after.Estimate(), now))
  }

  /** updateFeature keeps the store consistent: the ledger trades the old estimate for the new one. */
  lemma FeatureUpdatedKeepsConsistent(t: Tables, projectId: int, featureId: int, request: FeatureRequest, now: int)
    requires Consistent(t) && projectId in t.projects
    requires GetFeature(t, projectId, featureId).Ok?
    requires FeatureEstimatesValid(request.bestCaseEstimateInDays, request.mostLikelyEstimateInDays, request.worstCaseEstimateInDays)
    requires MilestoneOfRequest(t, projectId, request.milestoneId).Pass?
    ensures Consistent(FeatureUpdated(t, projectId, featureId, request, now))
  {
    FeatureUpdatedFits(t, projectId, featureId, request, now);
    FeatureUpdatedBalances(t, projectId, featureId, request, now);
  }

  /** The edited feature fits: its new milestone, if any, is one of its project's. */
  lemma FeatureUpdatedFits(t: Tables, projectId: int, featureId: int, request: FeatureRequest, now: int)
    requires Consistent(t) && projectId in t.projects
    requires GetFeature(t, projectId, featureId).Ok?
    requires FeatureEstimatesValid(request.bestCaseEstimateInDays, request.mostLikelyEstimateInDays, request.worstCaseEstimateInDays)
    requires MilestoneOfRequest(t, projectId, request.milestoneId).Pass?
    ensures FeaturesKeyed(FeatureUpdated(t, projectId, featureId, request, now))
  {
    var t' := FeatureUpdated(t, projectId, featureId, request, now);
    forall k | k in t'.features ensures FeatureFits(t'.features[k], t'.milestones, t'.nextId) {
      if k != featureId {
        assert FeatureFits(t.features[k], t.milestones, t.nextId);
      }
    }
  }

  /**
   * The ledger after updateFeature: each running total lost the old
   * feature's share of its sum and gained the edited feature's share.
   */
  lemma FeatureUpdatedBalances(t: Tables, projectId: int, featureId: int, request: FeatureRequest, now: int)
    requires Consistent(t) && projectId in t.projects
    requires GetFeature(t, projectId, featureId).Ok?
    requires MilestoneOfRequest(t, projectId, request.milestoneId).Pass?
    ensures TotalsBalance(FeatureUpdated(t, projectId, featureId, request, now))
  {
    var t' := FeatureUpdated(t, projectId, featureId, request, now);
    var before := t.features[featureId];
    var after := Edited(before, request, now);
    forall s: Scope ensures Total(t'.features, s, t.nextId) == Total(t.features, s, t.nextId) - Contribution(before, s) + Contribution(after, s) {
      TotalReplace(t.features, featureId, after, s, t.nextId);
    }
  }

  /**
   * The state after deleteFeature: its derived estimate subtracted from the
   * project and from its milestone, and the feature gone.
   */
  function FeatureDeleted(t: Tables, projectId: int, featureId: int, now: int): Tables
    requires projectId in t.projects && featureId in t.features
  {
    var f := t.features[featureId];
    t.(features := t.features - {featureId},
       projects := t.projects[projectId := t.projects[projectId].(
         estimateInDays := t.projects[projectId].estimateInDays - f.Estimate(), lastUpdatedAt := now)],
       milestones := Debited(t.milestones, f.milestoneId, f.Estimate(), now))
  }

  /** deleteFeature keeps the store consistent: the ledger gives the feature's estimate back. */
  lemma FeatureDeletedKeepsConsistent(t: Tables, projectId: int, featureId: int, now: int)
    requires Consistent(t) && projectId in t.projects
    requires GetFeature(t, projectId, featureId).Ok?
    ensures Consistent(FeatureDeleted(t, projectId, featureId, now))
  {
    var t' := FeatureDeleted(t, projectId, featureId, now);
    var f := t.features[featureId];
    forall s: Scope ensures Total(t'.features, s, t.nextId) == Total(t.features, s, t.nextId) - Contribution(f, s) {
      TotalRemove(t.features, featureId, s, t.nextId);
    }
    forall k | k in t'.features ensures FeatureFits(t'.features[k], t'.milestones, t'.nextId) {
      assert FeatureFits(t.features[k], t.milestones, t.nextId);
    }
  }

  // ---------------------------------------------------------------------
  // Rates and team members
  // ---------------------------------------------------------------------

  /**
   * Restamping projects and raising the counter, with the features and
   * milestones untouched, keeps the keys, the fits and the ledger.
   */
  lemma RestampedKeepsLedger(t: Tables, t': Tables)
    requires Consistent(t) && t.nextId <= t'.nextId
    requires t'.features == t.features && t'.milestones == t.milestones && t'.projects.Keys == t.projects.Keys
    requires forall k :: k in t.projects ==>
      t'.projects[k].id == t.projects[k].id && t'.projects[k].estimateInDays == t.projects[k].estimateInDays
    ensures ProjectsKeyed(t') && MilestonesKeyed(t') && FeaturesKeyed(t') && TotalsBalance(t')
  {
    forall k | k in t'.features ensures FeatureFits(t'.features[k], t'.milestones, t'.nextId) {
      assert FeatureFits(t.features[k], t.milestones, t.nextId);
    }
    TotalsIgnoreFreshIds(t, t'.nextId);
  }

  /** Replacing one project's rows by valid ones keeps every project's rows valid under a raised bound. */
  lemma RowsWithOneProjectReplaced(
    t: Tables, projectId: int, rates: map<int, seq<Rate>>, teamMembers: map<int, seq<TeamMember>>, n: int)
    requires RowsKeyed(t) && t.nextId <= n && projectId in t.rates && projectId in t.teamMembers
    requires rates.Keys == t.rates.Keys && teamMembers.Keys == t.teamMembers.Keys
    requires forall k :: k in t.rates && k != projectId ==> rates[k] == t.rates[k]
    requires forall k :: k in t.teamMembers && k != projectId ==> teamMembers[k] == t.teamMembers[k]
    requires RateTable(rates[projectId], projectId, n) && TeamTable(teamMembers[projectId], projectId, n)
    ensures forall k :: k in rates ==> RateTable(rates[k], k, n)
    ensures forall k :: k in teamMembers ==> TeamTable(teamMembers[k], k, n)
  {
    forall k | k in rates ensures RateTable(rates[k], k, n) {
      if k != projectId {
        RateTableUnderHigherBound(t.rates[k], k, t.nextId, n);
      }
    }
    forall k | k in teamMembers ensures TeamTable(teamMembers[k], k, n) {
      if k != projectId {
        TeamTableUnderHigherBound(t.teamMembers[k], k, t.nextId, n);
      }
    }
  }

  /**
   * A state that differs from t only in one project's rows, that project's
   * time stamp and a counter that did not fall is consistent when the new
   * rows are valid.
   */
  lemma RowsOfOneProjectReplaced(t: Tables, t': Tables, projectId: int, now: int, rs: seq<Rate>, tm: seq<TeamMember>)
    requires Consistent(t) && projectId in t.projects
    requires t' == t.(projects := Stamped(t.projects, projectId, now),
                      rates := t.rates[projectId := rs],
                      teamMembers := t.teamMembers[projectId := tm],
                      nextId := t'.nextId)
    requires t.nextId <= t'.nextId
    requires RateTable(rs, projectId, t'.nextId) && TeamTable(tm, projectId, t'.nextId)
    ensures Consistent(t')
  {
    RestampedKeepsLedger(t, t');
    RowsWithOneProjectReplaced(t, projectId, t'.rates, t'.teamMembers, t'.nextId);
  }

  /** A new row in a position nobody holds keeps the team valid. */
  lemma TeamTableAppend(tm: seq<TeamMember>, projectId: int, n: int, position: Position, count: real)
    requires TeamTable(tm, projectId, n) && 0 <= n && !HasMember(tm, position) && count > 0.0
    ensures TeamTable(tm + [TeamMember(n, position, count, projectId)], projectId, n + 1)
  {
  }

  /** Moving a row to a position nobody holds keeps the team valid. */
  lemma TeamTableReassign(tm: seq<TeamMember>, projectId: int, n: int, i: int, position: Position, count: real)
    requires TeamTable(tm, projectId, n) && 0 <= i < |tm| && !HasMember(tm, position) && count > 0.0
    ensures TeamTable(tm[i := tm[i].(position := position, numberOfTeamMembers := count)], projectId, n)
  {
  }

  /** Removing a row keeps the team valid. */
  lemma TeamTableRemove(tm: seq<TeamMember>, projectId: int, n: int, i: int)
    requires TeamTable(tm, projectId, n) && 0 <= i < |tm|
    ensures TeamTable(tm[..i] + tm[i + 1..], projectId, n)
  {
    var tm' := tm[..i] + tm[i + 1..];
    assert forall j :: 0 <= j < |tm'| ==> tm'[j] == tm[if j < i then j else j + 1];
  }

  /**
   * Repricing one rate neither adds nor removes a position: every position
   * still has a rate, the repriced position's lookup gives the new amount and
   * every other position's lookup is unchanged.
   */
  lemma RepricedRates(rs: seq<Rate>, projectId: int, n: int, i: int, rublesPerHour: real)
    requires RateTable(rs, projectId, n) && 0 <= i < |rs| && rublesPerHour > 0.0
    ensures RateTable(rs[i := rs[i].(rublesPerHour := rublesPerHour)], projectId, n)
    ensures RateInRublesPerHour(rs[i := rs[i].(rublesPerHour := rublesPerHour)], rs[i].position) == Some(rublesPerHour)
    ensures forall p: Position :: p != rs[i].position ==>
      RateInRublesPerHour(rs[i := rs[i].(rublesPerHour := rublesPerHour)], p) == RateInRublesPerHour(rs, p)
  {
    var rs' := rs[i := rs[i].(rublesPerHour := rublesPerHour)];
    forall p: Position ensures HasRate(rs', p) {
      assert HasRate(rs, p);
      var j :| 0 <= j < |rs| && rs[j].position == p;
      assert rs'[j].position == p;
    }
    RateOfUniqueRow(rs', i);
    forall p: Position | p != rs[i].position ensures RateInRublesPerHour(rs', p) == RateInRublesPerHour(rs, p) {
      assert HasRate(rs, p);
      var j :| 0 <= j < |rs| && rs[j].position == p;
      RateOfUniqueRow(rs, j);
      RateOfUniqueRow(rs', j);
    }
  }

  /** The state after createTeamMember: a row for the position under the next id, and the time stamp. */
  function TeamMemberCreated(t: Tables, projectId: int, position: Position, count: real, now: int): Tables
    requires projectId in t.projects
  {
    t.(teamMembers := t.teamMembers[projectId := MembersOf(t, projectId) + [TeamMember(t.nextId, position, count, projectId)]],
       projects := Stamped(t.projects, projectId, now),
       nextId := t.nextId + 1)
  }

  /** createTeamMember keeps at most one row per position, given that nobody held the position. */
  lemma TeamMemberCreatedKeepsConsistent(t: Tables, projectId: int, position: Position, count: real, now: int)
    requires Consistent(t) && projectId in t.projects && count > 0.0
    requires !HasMember(MembersOf(t, projectId), position)
    ensures Consistent(TeamMemberCreated(t, projectId, position, count, now))
  {
    var t' := TeamMemberCreated(t, projectId, position, count, now);
    TeamTableAppend(MembersOf(t, projectId), projectId, t.nextId, position, count);
    RateTableUnderHigherBound(RatesOf(t, projectId), projectId, t.nextId, t.nextId + 1);
    assert t.rates[projectId := RatesOf(t, projectId)] == t.rates;
    RowsOfOneProjectReplaced(t, t', projectId, now, RatesOf(t, projectId), t'.teamMembers[projectId]);
  }

  /**
   * As written, createTeamMember lets a held position through (with
   * Lombok's rendering neither check fires), and the second row it saves
   * breaks the one-row-per-position rule of a consistent store.
   */
  lemma AsWrittenDuplicateBreaksConsistency(t: Tables, projectId: int, p: Position, count: real, now: int)
    requires Consistent(t) && projectId in t.projects
    requires HasMember(MembersOf(t, projectId), p)
    ensures CreateOutcomeAsWritten(LombokToString, Name(p), Ownership(t, t.projects[projectId].creatorId, projectId),
                                   MembersOf(t, projectId)) == Ok(p)
    ensures !Consistent(TeamMemberCreated(t, projectId, p, count, now))
  {
    var tm := MembersOf(t, projectId);
    LombokRenderingAdmitsDuplicates(p, tm);
    var i :| 0 <= i < |tm| && tm[i].position == p;
    var tm' := TeamMemberCreated(t, projectId, p, count, now).teamMembers[projectId];
    assert tm'[i].position == tm'[|tm|].position;
  }

  /** The state after updateTeamMember: row i moves to the position with the new head count. */
  function TeamMemberUpdated(t: Tables, projectId: int, i: int, position: Position, count: real, now: int): Tables
    requires projectId in t.projects && 0 <= i < |MembersOf(t, projectId)|
  {
    var tm := MembersOf(t, projectId);
    t.(teamMembers := t.teamMembers[projectId := tm[i := tm[i].(position := position, numberOfTeamMembers := count)]],
       projects := Stamped(t.projects, projectId, now))
  }

  /** updateTeamMember keeps at most one row per position, given that nobody held the position. */
  lemma TeamMemberUpdatedKeepsConsistent(t: Tables, projectId: int, i: int, position: Position, count: real, now: int)
    requires Consistent(t) && projectId in t.projects && 0 <= i < |MembersOf(t, projectId)| && count > 0.0
    requires !HasMember(MembersOf(t, projectId), position)
    ensures Consistent(TeamMemberUpdated(t, projectId, i, position, count, now))
  {
    var t' := TeamMemberUpdated(t, projectId, i, position, count, now);
    TeamTableReassign(MembersOf(t, projectId), projectId, t.nextId, i, position, count);
    assert t.rates[projectId := RatesOf(t, projectId)] == t.rates;
    RowsOfOneProjectReplaced(t, t', projectId, now, RatesOf(t, projectId), t'.teamMembers[projectId]);
  }

  /**
   * As written, updateTeamMember lets row i move onto the position of
   * another row j, and the store then holds two rows for that position.
   */
  lemma AsWrittenMoveBreaksConsistency(t: Tables, projectId: int, i: int, j: int, count: real, now: int)
    requires Consistent(t) && projectId in t.projects
    requires 0 <= i < |MembersOf(t, projectId)| && 0 <= j < |MembersOf(t, projectId)| && i != j
    ensures CreateOutcomeAsWritten(LombokToString, Name(MembersOf(t, projectId)[j].position),
                                   Ownership(t, t.projects[projectId].creatorId, projectId),
                                   MembersOf(t, projectId)) == Ok(MembersOf(t, projectId)[j].position)
    ensures !Consistent(TeamMemberUpdated(t, projectId, i, MembersOf(t, projectId)[j].position, count, now))
  {
    var tm := MembersOf(t, projectId);
    LombokRenderingAdmitsDuplicates(tm[j].position, tm);
    var tm' := TeamMemberUpdated(t, projectId, i, tm[j].position, count, now).teamMembers[projectId];
    assert tm'[i].position == tm'[j].position;
  }

  /** The state after deleteTeamMember: row i gone, and the time stamp. */
  function TeamMemberDeleted(t: Tables, projectId: int, i: int, now: int): Tables
    requires projectId in t.projects && 0 <= i < |MembersOf(t, projectId)|
  {
    var tm := MembersOf(t, projectId);
    t.(teamMembers := t.teamMembers[projectId := tm[..i] + tm[i + 1..]],
       projects := Stamped(t.projects, projectId, now))
  }

  /** deleteTeamMember keeps the store consistent. */
  lemma TeamMemberDeletedKeepsConsistent(t: Tables, projectId: int, i: int, now: int)
    requires Consistent(t) && projectId in t.projects && 0 <= i < |MembersOf(t, projectId)|
    ensures Consistent(TeamMemberDeleted(t, projectId, i, now))
  {
    var t' := TeamMemberDeleted(t, projectId, i, now);
    TeamTableRemove(MembersOf(t, projectId), projectId, t.nextId, i);
    assert t.rates[projectId := RatesOf(t, projectId)] == t.rates;
    RowsOfOneProjectReplaced(t, t', projectId, now, RatesOf(t, projectId), t'.teamMembers[projectId]);
  }

  /** The state after updateRate: rate i at the new amount, and the time stamp. */
  function RateUpdated(t: Tables, projectId: int, i: int, rublesPerHour: real, now: int): Tables
    requires projectId in t.projects && 0 <= i < |RatesOf(t, projectId)|
  {
    var rs := RatesOf(t, projectId);
    t.(rates := t.rates[projectId := rs[i := rs[i].(rublesPerHour := rublesPerHour)]],
       projects := Stamped(t.projects, projectId, now))
  }

  /** updateRate keeps the store consistent, so pricing the project still finds every rate. */
  lemma RateUpdatedKeepsConsistent(t: Tables, projectId: int, i: int, rublesPerHour: real, now: int)
    requires Consistent(t) && projectId in t.projects && 0 <= i < |RatesOf(t, projectId)| && rublesPerHour > 0.0
    ensures Consistent(RateUpdated(t, projectId, i, rublesPerHour, now))
  {
    var t' := RateUpdated(t, projectId, i, rublesPerHour, now);
    RepricedRates(RatesOf(t, projectId), projectId, t.nextId, i, rublesPerHour);
    assert t.teamMembers[projectId := MembersOf(t, projectId)] == t.teamMembers;
    RowsOfOneProjectReplaced(t, t', projectId, now, t'.rates[projectId], MembersOf(t, projectId));
  }

  // ---------------------------------------------------------------------
  // What the invariant gives
  // ---------------------------------------------------------------------

  /**
   * In a consistent store every running total is non-negative and no
   * milestone's running total exceeds its project's.
   */
  lemma MilestoneTotalWithinProject(t: Tables, milestoneId: int)
    requires Consistent(t) && milestoneId in t.milestones
    ensures 0.0 <= t.milestones[milestoneId].estimateInDays
    ensures t.milestones[milestoneId].estimateInDays <= t.projects[t.milestones[milestoneId].projectId].estimateInDays
  {
    var m := t.milestones[milestoneId];
    forall k | k in t.features && InScope(t.features[k], InMilestone(milestoneId))
      ensures InScope(t.features[k], InProject(m.projectId))
    {
      assert FeatureFits(t.features[k], t.milestones, t.nextId);
    }
    TotalIsNonNegative(t.features, InMilestone(milestoneId), t.nextId);
    TotalIsMonotone(t.features, InMilestone(milestoneId), InProject(m.projectId), t.nextId);
  }

  /** In a consistent store every project's running total is non-negative, and so is its price. */
  lemma ProjectTotalIsNonNegative(t: Tables, projectId: int)
    requires Consistent(t) && projectId in t.projects
    ensures 0.0 <= t.projects[projectId].estimateInDays
    ensures 0.0 <= Price(t, projectId, t.projects[projectId].estimateInDays)
  {
    TotalIsNonNegative(t.features, InProject(projectId), t.nextId);
  }

  /**
   * Moving a feature from milestone a to milestone b without changing its
   * raw estimates leaves the project's running total as it was, takes the
   * feature's estimate off a and puts it on b.
   */
  lemma MovingAFeature(t: Tables, projectId: int, featureId: int, request: FeatureRequest, now: int, a: int, b: int)
    requires projectId in t.projects && featureId in t.features
    requires a in t.milestones && b in t.milestones && a != b
    requires t.features[featureId].milestoneId == Some(a) && request.milestoneId == Some(b)
    requires request.bestCaseEstimateInDays == t.features[featureId].bestCaseEstimateInDays
    requires request.mostLikelyEstimateInDays == t.features[featureId].mostLikelyEstimateInDays
    requires request.worstCaseEstimateInDays == t.features[featureId].worstCaseEstimateInDays
    ensures FeatureUpdated(t, projectId, featureId, request, now).projects[projectId].estimateInDays == t.projects[projectId].estimateInDays
    ensures FeatureUpdated(t, projectId, featureId, request, now).milestones[a].estimateInDays ==
      t.milestones[a].estimateInDays - t.features[featureId].Estimate()
    ensures FeatureUpdated(t, projectId, featureId, request, now).milestones[b].estimateInDays ==
      t.milestones[b].estimateInDays + t.features[featureId].Estimate()
  {
    assert Edited(t.features[featureId], request, now).Estimate() == t.features[featureId].Estimate();
  }

  /**
   * Editing a feature that stays in milestone a changes a's running total,
   * and the project's, by the new derived estimate minus the old one.
   */
  lemma EditingWithinAMilestone(t: Tables, projectId: int, featureId: int, request: FeatureRequest, now: int, a: int)
    requires projectId in t.projects && featureId in t.features && a in t.milestones
    requires t.features[featureId].milestoneId == Some(a) && request.milestoneId == Some(a)
    ensures FeatureUpdated(t, projectId, featureId, request, now).milestones[a].estimateInDays ==
      t.milestones[a].estimateInDays + (request.Estimate() - t.features[featureId].Estimate())
    ensures FeatureUpdated(t, projectId, featureId, request, now).projects[projectId].estimateInDays ==
      t.projects[projectId].estimateInDays + (request.Estimate() - t.features[featureId].Estimate())
  {
    assert Edited(t.features[featureId], request, now).Estimate() == request.Estimate();
  }

  /**
   * Deleting a feature takes its derived estimate off its project and off
   * its milestone exactly once, and leaves every other milestone as it was.
   */
  lemma DeletingAFeature(t: Tables, projectId: int, featureId: int, now: int)
    requires Consistent(t) && projectId in t.projects && GetFeature(t, projectId, featureId).Ok?
    ensures FeatureDeleted(t, projectId, featureId, now).projects[projectId].estimateInDays ==
      t.projects[projectId].estimateInDays - t.features[featureId].Estimate()
    ensures forall k :: k in t.milestones ==>
      k in FeatureDeleted(t, projectId, featureId, now).milestones &&
      FeatureDeleted(t, projectId, featureId, now).milestones[k].estimateInDays ==
        t.milestones[k].estimateInDays - (if t.features[featureId].milestoneId == Some(k) then t.features[featureId].Estimate() else 0.0)
    ensures Total(FeatureDeleted(t, projectId, featureId, now).features, InProject(projectId), t.nextId) ==
      Total(t.features, InProject(projectId), t.nextId) - t.features[featureId].Estimate()
  {
    TotalRemove(t.features, featureId, InProject(projectId), t.nextId);
  }
}

/**
 * The services' write endpoints over one store of mutable entities. The
 * class holds the repositories as fields (projects, milestones and
 * features by id, each project's rates and team members as rows) and each
 * method runs the service's checks in the service's order, then changes
 * the fields step by step as the service changes its entities. Every
 * method keeps `Valid()`: ids are keyed, each feature sits in its project,
 * every project has exactly one rate per position and at most one team
 * member row per position, and the running totals of projects and
 * milestones equal the sums of their features' derived estimates.
 *
 * The authenticated user and the clock are parameters (`user`, `now`).
 */
module Store {
  import opened Wrappers
  import opened Positions
  import opened Errors
  import opened Validators
  import opened Entities
  import opened Pricing
  import opened ProjectDefaults
  import opened TeamMemberChecks
  import opened StoreState

  class ProjectStore {
    var projects: map<int, Project>
    var milestones: map<int, Milestone>
    var features: map<int, Feature>
    var rates: map<int, seq<Rate>>
    var teamMembers: map<int, seq<TeamMember>>
    var nextId: int

    /** The repositories' contents as a value. */
    function Snapshot(): Tables
      reads this
    {
      Tables(projects, milestones, features, rates, teamMembers, nextId)
    }

    predicate Valid()
      reads this
    {
      Consistent(Snapshot())
    }

    /** An empty store. */
    constructor ()
      ensures Valid()
      ensures Snapshot() == EmptyTables()
    {
      projects, milestones, features := map[], map[], map[];
      rates, teamMembers := map[], map[];
      nextId := 0;
      EmptyIsConsistent();
    }

    // -------------------------------------------------------------------
    // ProjectService
    // -------------------------------------------------------------------

    /**
     * saveProject: the caller's project with a running total of 0, then a
     * rate at its default for every position, then the default team.
     */
    method SaveProject(user: int, request: ProjectRequest, now: int) returns (project: Project)
      requires Valid()
      modifies this
      ensures Valid()
      ensures Snapshot() == ProjectSaved(old(Snapshot()), user, request, now)
      ensures project == Snapshot().projects[old(nextId)]
      ensures project.creatorId == user && project.estimateInDays == 0.0
      ensures old(nextId) !in old(projects)
    {
      ghost var t := Snapshot();
      var id := nextId;
      project := Project(id, request.title, request.description, request.client, user, 0.0, now, now);
      projects := projects[id := project];
      rates := rates[id := DefaultRates(id, id + 1)];
      teamMembers := teamMembers[id := DefaultTeam(id, id + 7)];
      nextId := id + 10;
      assert Snapshot() == ProjectSaved(t, user, request, now);
      ProjectSavedKeepsConsistent(t, user, request, now);
    }

    /** updateProject: the lookup and ownership check, then title, description, client and time stamp. */
    method UpdateProject(user: int, projectId: int, request: ProjectRequest, now: int)
      returns (r: Result<Project, Failure>)
      requires Valid()
      modifies this
      ensures Valid()
      ensures r.Ok? <==> OwnedProject(old(Snapshot()), user, projectId).Ok?
      ensures r.Err? ==> r.error == Rejected(ProjectIsNotFoundById, "projectId") && unchanged(this)
      ensures r.Ok? ==> Snapshot() == ProjectUpdated(old(Snapshot()), projectId, request, now)
      ensures r.Ok? ==> r.value == projects[projectId]
    {
      var t := Snapshot();
      var owned := OwnedProject(t, user, projectId);
      if owned.Err? {
        return Err(owned.error);
      }
      var project := owned.value.(title := request.title, description := request.description,
                                  client := request.client, lastUpdatedAt := now);
      projects := projects[projectId := project];
      assert Snapshot() == ProjectUpdated(t, projectId, request, now);
      ProjectUpdatedKeepsConsistent(t, projectId, request, now);
      r := Ok(project);
    }

    /**
     * deleteProject: the lookup and ownership check, then the project with
     * everything that belongs to it.
     */
    method DeleteProject(user: int, projectId: int) returns (o: Outcome<Failure>)
      requires Valid()
      modifies this
      ensures Valid()
      ensures o.Pass? <==> OwnedProject(old(Snapshot()), user, projectId).Ok?
      ensures o.Fail? ==> o.error == Rejected(ProjectIsNotFoundById, "projectId") && unchanged(this)
      ensures o.Pass? ==> Snapshot() == ProjectDeleted(old(Snapshot()), projectId)
    {
      var t := Snapshot();
      var owned := OwnedProject(t, user, projectId);
      if owned.Err? {
        return Fail(owned.error);
      }
      projects := projects - {projectId};
      milestones := map k | k in milestones && milestones[k].projectId != projectId :: milestones[k];
      features := map k | k in features && features[k].projectId != projectId :: features[k];
      rates := rates - {projectId};
      teamMembers := teamMembers - {projectId};
      assert Snapshot() == ProjectDeleted(t, projectId);
      ProjectDeletedKeepsConsistent(t, projectId);
      o := Pass;
    }

    // -------------------------------------------------------------------
    // MilestoneService
    // -------------------------------------------------------------------

    /** saveMilestone: the lookup and ownership check, then a milestone at 0 and the project's time stamp. */
    method SaveMilestone(user: int, projectId: int, request: MilestoneRequest, now: int)
      returns (r: Result<Milestone, Failure>)
      requires Valid()
      requires MilestoneDatesValid(request.startDateTime, request.endDateTime, now)
      modifies this
      ensures Valid()
      ensures r.Ok? <==> OwnedProject(old(Snapshot()), user, projectId).Ok?
      ensures r.Err? ==> r.error == Rejected(ProjectIsNotFoundById, "projectId") && unchanged(this)
      ensures r.Ok? ==> Snapshot() == MilestoneSaved(old(Snapshot()), projectId, request, now)
      ensures r.Ok? ==> r.value == milestones[old(nextId)] && r.value.projectId == projectId && r.value.estimateInDays == 0.0
    {
      var t := Snapshot();
      var owned := OwnedProject(t, user, projectId);
      if owned.Err? {
        return Err(owned.error);
      }
      var id := nextId;
      var milestone := Milestone(id, projectId, request.title, request.description,
                                 request.startDateTime, request.endDateTime, 0.0, now, now);
      milestones := milestones[id := milestone];
      nextId := id + 1;
      projects := projects[projectId := owned.value.(lastUpdatedAt := now)];
      assert Snapshot() == MilestoneSaved(t, projectId, request, now);
      MilestoneSavedKeepsConsistent(t, projectId, request, now);
      r := Ok(milestone);
    }

    /**
     * updateMilestone: the lookup and ownership check, then the milestone
     * lookup within the project, then the new fields and both time stamps.
     */
    method UpdateMilestone(user: int, projectId: int, milestoneId: int, request: MilestoneRequest, now: int)
      returns (r: Result<Milestone, Failure>)
      requires Valid()
      requires MilestoneDatesValid(request.startDateTime, request.endDateTime, now)
      modifies this
      ensures Valid()
      ensures r.Ok? <==>
        OwnedProject(old(Snapshot()), user, projectId).Ok? && GetMilestone(old(Snapshot()), projectId, milestoneId).Ok?
      ensures OwnedProject(old(Snapshot()), user, projectId).Err? ==> r == Err(Rejected(ProjectIsNotFoundById, "projectId"))
      ensures OwnedProject(old(Snapshot()), user, projectId).Ok? && GetMilestone(old(Snapshot()), projectId, milestoneId).Err? ==>
        r == Err(Rejected(MilestoneIsNotFoundById, "milestoneId"))
      ensures r.Err? ==> unchanged(this)
      ensures r.Ok? ==> Snapshot() == MilestoneUpdated(old(Snapshot()), projectId, milestoneId, request, now)
      ensures r.Ok? ==> r.value == milestones[milestoneId]
    {
      var t := Snapshot();
      var owned := OwnedProject(t, user, projectId);
      if owned.Err? {
        return Err(owned.error);
      }
      var found := GetMilestone(t, projectId, milestoneId);
      if found.Err? {
        return Err(found.error);
      }
      var milestone := found.value.(title := request.title, description := request.description,
                                    startDateTime := request.startDateTime, endDateTime := request.endDateTime,
                                    lastUpdatedAt := now);
      milestones := milestones[milestoneId := milestone];
      projects := projects[projectId := owned.value.(lastUpdatedAt := now)];
      assert Snapshot() == MilestoneUpdated(t, projectId, milestoneId, request, now);
      MilestoneUpdatedKeepsConsistent(t, projectId, milestoneId, request, now);
      r := Ok(milestone);
    }

    /**
     * deleteMilestone: the lookup and ownership check, then the milestone
     * lookup within the project, then the project's time stamp and the
     * milestone's removal.
     */
    method DeleteMilestone(user: int, projectId: int, milestoneId: int, now: int) returns (o: Outcome<Failure>)
      requires Valid()
      modifies this
      ensures Valid()
      ensures o.Pass? <==>
        OwnedProject(old(Snapshot()), user, projectId).Ok? && GetMilestone(old(Snapshot()), projectId, milestoneId).Ok?
      ensures OwnedProject(old(Snapshot()), user, projectId).Err? ==> o == Fail(Rejected(ProjectIsNotFoundById, "projectId"))
      ensures OwnedProject(old(Snapshot()), user, projectId).Ok? && GetMilestone(old(Snapshot()), projectId, milestoneId).Err? ==>
        o == Fail(Rejected(MilestoneIsNotFoundById, "milestoneId"))
      ensures o.Fail? ==> unchanged(this)
      ensures o.Pass? ==> Snapshot() == MilestoneDeleted(old(Snapshot()), projectId, milestoneId, now)
    {
      var t := Snapshot();
      var owned := OwnedProject(t, user, projectId);
      if owned.Err? {
        return Fail(owned.error);
      }
      var found := GetMilestone(t, projectId, milestoneId);
      if found.Err? {
        return Fail(found.error);
      }
      projects := projects[projectId := owned.value.(lastUpdatedAt := now)];
      milestones := milestones - {milestoneId};
      assert Snapshot() == MilestoneDeleted(t, projectId, milestoneId, now);
      MilestoneDeletedKeepsConsistent(t, projectId, milestoneId, now);
      o := Pass;
    }

    // -------------------------------------------------------------------
    // FeatureService
    // -------------------------------------------------------------------

    /**
     * saveFeature: the lookup and ownership check, then the requested
     * milestone's lookup within the project, then the feature, with its
     * derived estimate added to the project and to the milestone.
     */
    method SaveFeature(user: int, projectId: int, request: FeatureRequest, now: int)
      returns (r: Result<Feature, Failure>)
      requires Valid()
      requires FeatureEstimatesValid(request.bestCaseEstimateInDays, request.mostLikelyEstimateInDays, request.worstCaseEstimateInDays)
      modifies this
      ensures Valid()
      ensures r.Ok? <==>
        OwnedProject(old(Snapshot()), user, projectId).Ok? && MilestoneOfRequest(old(Snapshot()), projectId, request.milestoneId).Pass?
      ensures OwnedProject(old(Snapshot()), user, projectId).Err? ==> r == Err(Rejected(ProjectIsNotFoundById, "projectId"))
      ensures OwnedProject(old(Snapshot()), user, projectId).Ok? && MilestoneOfRequest(old(Snapshot()), projectId, request.milestoneId).Fail? ==>
        r == Err(Rejected(MilestoneIsNotFoundById, "milestoneId"))
      ensures r.Err? ==> unchanged(this)
      ensures r.Ok? ==> Snapshot() == FeatureSaved(old(Snapshot()), projectId, request, now)
      ensures r.Ok? ==> r.value == features[old(nextId)] && r.value.projectId == projectId
      ensures r.Ok? ==> projects[projectId].estimateInDays == old(projects[projectId].estimateInDays) + r.value.Estimate()
    {
      var t := Snapshot();
      var owned := OwnedProject(t, user, projectId);
      if owned.Err? {
        return Err(owned.error);
      }
      var milestoneCheck := MilestoneOfRequest(t, projectId, request.milestoneId);
      if milestoneCheck.Fail? {
        return Err(milestoneCheck.error);
      }
      var feature := NewFeature(t, projectId, request, now);
      features := features[feature.id := feature];
      nextId := nextId + 1;
      var project := owned.value;
      projects := projects[projectId := project.(estimateInDays := project.estimateInDays + feature.Estimate(), lastUpdatedAt := now)];
      milestones := Credited(milestones, request.milestoneId, feature.Estimate(), now);
      ghost var t' := FeatureSaved(t, projectId, request, now);
      assert projects == t'.projects && milestones == t'.milestones && features == t'.features;
      assert Snapshot() == t';
      FeatureSavedKeepsConsistent(t, projectId, request, now);
      r := Ok(feature);
    }

    /**
     * updateFeature: the lookup and ownership check, the feature's lookup
     * within the project and the new milestone's lookup, then the old
     * derived estimate subtracted from the project and the old milestone,
     * the feature edited, and the new derived estimate added to the project
     * and the new milestone.
     */
    method UpdateFeature(user: int, projectId: int, featureId: int, request: FeatureRequest, now: int)
      returns (r: Result<Feature, Failure>)
      requires Valid()
      requires FeatureEstimatesValid(request.bestCaseEstimateInDays, request.mostLikelyEstimateInDays, request.worstCaseEstimateInDays)
      modifies this
      ensures Valid()
      ensures r.Ok? <==>
        OwnedProject(old(Snapshot()), user, projectId).Ok? && GetFeature(old(Snapshot()), projectId, featureId).Ok? &&
        MilestoneOfRequest(old(Snapshot()), projectId, request.milestoneId).Pass?
      ensures OwnedProject(old(Snapshot()), user, projectId).Err? ==> r == Err(Rejected(ProjectIsNotFoundById, "projectId"))
      ensures OwnedProject(old(Snapshot()), user, projectId).Ok? && GetFeature(old(Snapshot()), projectId, featureId).Err? ==>
        r == Err(Rejected(FeatureIsNotFoundById, "featureId"))
      ensures (OwnedProject(old(Snapshot()), user, projectId).Ok? && GetFeature(old(Snapshot()), projectId, featureId).Ok? &&
               MilestoneOfRequest(old(Snapshot()), projectId, request.milestoneId).Fail?) ==>
        r == Err(Rejected(MilestoneIsNotFoundById, "milestoneId"))
      ensures r.Err? ==> unchanged(this)
      ensures r.Ok? ==> Snapshot() == FeatureUpdated(old(Snapshot()), projectId, featureId, request, now)
      ensures r.Ok? ==> r.value == features[featureId]
    {
      var t := Snapshot();
      var owned := OwnedProject(t, user, projectId);
      if owned.Err? {
        return Err(owned.error);
      }
      var found := GetFeature(t, projectId, featureId);
      if found.Err? {
        return Err(found.error);
      }
      var milestoneCheck := MilestoneOfRequest(t, projectId, request.milestoneId);
      if milestoneCheck.Fail? {
        return Err(milestoneCheck.error);
      }
      var before := found.value;
      var project := owned.value;
      project := project.(estimateInDays := project.estimateInDays - before.Estimate(), lastUpdatedAt := now);
      milestones := Debited(milestones, before.milestoneId, before.Estimate(), now);
      var after := Edited(before, request, now);
      features := features[featureId := after];
      project := project.(estimateInDays := project.estimateInDays + after.Estimate());
      projects := projects[projectId := project];
      milestones := Credited(milestones, request.milestoneId, after.Estimate(), now);
      ghost var t' := FeatureUpdated(t, projectId, featureId, request, now);
      assert projects == t'.projects && milestones == t'.milestones && features == t'.features;
      assert Snapshot() == t';
      FeatureUpdatedKeepsConsistent(t, projectId, featureId, request, now);
      r := Ok(after);
    }

    /**
     * deleteFeature: the lookup and ownership check, the feature's lookup
     * within the project, then its derived estimate subtracted from the
     * project and its milestone, and the feature removed.
     */
    method DeleteFeature(user: int, projectId: int, featureId: int, now: int) returns (o: Outcome<Failure>)
      requires Valid()
      modifies this
      ensures Valid()
      ensures o.Pass? <==>
        OwnedProject(old(Snapshot()), user, projectId).Ok? && GetFeature(old(Snapshot()), projectId, featureId).Ok?
      ensures OwnedProject(old(Snapshot()), user, projectId).Err? ==> o == Fail(Rejected(ProjectIsNotFoundById, "projectId"))
      ensures OwnedProject(old(Snapshot()), user, projectId).Ok? && GetFeature(old(Snapshot()), projectId, featureId).Err? ==>
        o == Fail(Rejected(FeatureIsNotFoundById, "featureId"))
      ensures o.Fail? ==> unchanged(this)
      ensures o.Pass? ==> Snapshot() == FeatureDeleted(old(Snapshot()), projectId, featureId, now)
    {
      var t := Snapshot();
      var owned := OwnedProject(t, user, projectId);
      if owned.Err? {
        return Fail(owned.error);
      }
      var found := GetFeature(t, projectId, featureId);
      if found.Err? {
        return Fail(found.error);
      }
      var feature := found.value;
      var project := owned.value;
      projects := projects[projectId := project.(estimateInDays := project.estimateInDays - feature.Estimate(), lastUpdatedAt := now)];
      milestones := Debited(milestones, feature.milestoneId, feature.Estimate(), now);
      features := features - {featureId};
      ghost var t' := FeatureDeleted(t, projectId, featureId, now);
      assert projects == t'.projects && milestones == t'.milestones && features == t'.features;
      assert Snapshot() == t';
      FeatureDeletedKeepsConsistent(t, projectId, featureId, now);
      o := Pass;
    }

    // -------------------------------------------------------------------
    // TeamMemberService and RateService
    // -------------------------------------------------------------------

    /**
     * createTeamMember: the position check, the lookup and ownership check,
     * the duplicate check over the project's rows, then a new row under the
     * next id and the project's time stamp.
     */
    method CreateTeamMember(user: int, projectId: int, request: TeamMemberRequest, now: int)
      returns (r: Result<TeamMember, Failure>)
      requires Valid()
      requires request.numberOfTeamMembers > 0.0
      modifies this
      ensures Valid()
      ensures r.Ok? <==>
        ValueOf(request.position).Some? && OwnedProject(old(Snapshot()), user, projectId).Ok? &&
        !HasMember(MembersOf(old(Snapshot()), projectId), ValueOf(request.position).value)
      ensures ValueOf(request.position).None? ==> r == Err(Rejected(WrongPosition, "position"))
      ensures ValueOf(request.position).Some? && OwnedProject(old(Snapshot()), user, projectId).Err? ==>
        r == Err(Rejected(ProjectIsNotFoundById, "projectId"))
      ensures r.Err? ==> unchanged(this)
      ensures r.Ok? ==>
        Snapshot() == TeamMemberCreated(old(Snapshot()), projectId, r.value.position, request.numberOfTeamMembers, now)
      ensures r.Ok? ==>
        r.value == TeamMember(old(nextId), ValueOf(request.position).value, request.numberOfTeamMembers, projectId)
    {
      var t := Snapshot();
      var outcome := CreateOutcome(request.position, Ownership(t, user, projectId), MembersOf(t, projectId));
      if outcome.Err? {
        return Err(outcome.error);
      }
      var member := TeamMember(nextId, outcome.value, request.numberOfTeamMembers, projectId);
      teamMembers := teamMembers[projectId := MembersOf(t, projectId) + [member]];
      nextId := nextId + 1;
      projects := Stamped(projects, projectId, now);
      assert Snapshot() == TeamMemberCreated(t, projectId, outcome.value, request.numberOfTeamMembers, now);
      TeamMemberCreatedKeepsConsistent(t, projectId, outcome.value, request.numberOfTeamMembers, now);
      r := Ok(member);
    }

    /**
     * updateTeamMember: the checks of createTeamMember, over all the
     * project's rows, then the row's lookup by id among them, then the new
     * position and head count and the project's time stamp.
     */
    method UpdateTeamMember(user: int, projectId: int, teamMemberId: int, request: TeamMemberRequest, now: int)
      returns (r: Result<TeamMember, Failure>)
      requires Valid()
      requires request.numberOfTeamMembers > 0.0
      modifies this
      ensures Valid()
      ensures r.Ok? <==>
        ValueOf(request.position).Some? && OwnedProject(old(Snapshot()), user, projectId).Ok? &&
        !HasMember(MembersOf(old(Snapshot()), projectId), ValueOf(request.position).value) &&
        FirstIndex(MembersOf(old(Snapshot()), projectId), MemberId, teamMemberId).Some?
      ensures ValueOf(request.position).None? ==> r == Err(Rejected(WrongPosition, "position"))
      ensures ValueOf(request.position).Some? && OwnedProject(old(Snapshot()), user, projectId).Err? ==>
        r == Err(Rejected(ProjectIsNotFoundById, "projectId"))
      ensures (ValueOf(request.position).Some? && OwnedProject(old(Snapshot()), user, projectId).Ok? &&
               HasMember(MembersOf(old(Snapshot()), projectId), ValueOf(request.position).value)) ==>
        r == Err(Rejected(TeamMemberAlreadyExists, "position"))
      ensures (CreateOutcome(request.position, Ownership(old(Snapshot()), user, projectId), MembersOf(old(Snapshot()), projectId)).Ok? &&
               FirstIndex(MembersOf(old(Snapshot()), projectId), MemberId, teamMemberId).None?) ==>
        r == Err(Rejected(TeamMemberIsNotFoundById, "teamMemberId"))
      ensures r.Err? ==> unchanged(this)
      ensures r.Ok? ==>
        Snapshot() == TeamMemberUpdated(old(Snapshot()), projectId, FirstIndex(MembersOf(old(Snapshot()), projectId), MemberId, teamMemberId).value,
                                        r.value.position, request.numberOfTeamMembers, now)
      ensures r.Ok? ==>
        r.value == TeamMember(teamMemberId, ValueOf(request.position).value, request.numberOfTeamMembers, projectId)
    {
      var t := Snapshot();
      var tm := MembersOf(t, projectId);
      var outcome := CreateOutcome(request.position, Ownership(t, user, projectId), tm);
      if outcome.Err? {
        return Err(outcome.error);
      }
      var index := FirstIndex(tm, MemberId, teamMemberId);
      if index.None? {
        return Err(Rejected(TeamMemberIsNotFoundById, "teamMemberId"));
      }
      var i := index.value;
      var member := tm[i].(position := outcome.value, numberOfTeamMembers := request.numberOfTeamMembers);
      teamMembers := teamMembers[projectId := tm[i := member]];
      projects := Stamped(projects, projectId, now);
      assert Snapshot() == TeamMemberUpdated(t, projectId, i, outcome.value, request.numberOfTeamMembers, now);
      TeamMemberUpdatedKeepsConsistent(t, projectId, i, outcome.value, request.numberOfTeamMembers, now);
      r := Ok(member);
    }

    /**
     * deleteTeamMember: the row's lookup by id within the project, then the
     * project's time stamp and the row's removal. There is no ownership check.
     */
    method DeleteTeamMember(projectId: int, teamMemberId: int, now: int) returns (o: Outcome<Failure>)
      requires Valid()
      modifies this
      ensures Valid()
      ensures o.Pass? <==> GetTeamMember(old(Snapshot()), projectId, teamMemberId).Ok?
      ensures o.Fail? ==> o.error == Rejected(TeamMemberIsNotFoundById, "teamMemberId") && unchanged(this)
      ensures o.Pass? ==> projectId in old(projects)
      ensures o.Pass? ==>
        Snapshot() == TeamMemberDeleted(old(Snapshot()), projectId, FirstIndex(MembersOf(old(Snapshot()), projectId), MemberId, teamMemberId).value, now)
    {
      var t := Snapshot();
      var tm := MembersOf(t, projectId);
      var index := FirstIndex(tm, MemberId, teamMemberId);
      if index.None? {
        return Fail(Rejected(TeamMemberIsNotFoundById, "teamMemberId"));
      }
      var i := index.value;
      projects := Stamped(projects, projectId, now);
      teamMembers := teamMembers[projectId := tm[..i] + tm[i + 1..]];
      assert Snapshot() == TeamMemberDeleted(t, projectId, i, now);
      TeamMemberDeletedKeepsConsistent(t, projectId, i, now);
      o := Pass;
    }

    /**
     * updateRate: the rate's lookup by id within the project, then the
     * ownership check on its project, then the new amount and the project's
     * time stamp.
     */
    method UpdateRate(user: int, projectId: int, rateId: int, rublesPerHour: real, now: int)
      returns (r: Result<Rate, Failure>)
      requires Valid()
      requires rublesPerHour > 0.0
      modifies this
      ensures Valid()
      ensures r.Ok? <==>
        FirstIndex(RatesOf(old(Snapshot()), projectId), RateId, rateId).Some? && OwnedProject(old(Snapshot()), user, projectId).Ok?
      ensures FirstIndex(RatesOf(old(Snapshot()), projectId), RateId, rateId).None? ==> r == Err(Rejected(RateIsNotFoundById, "rateId"))
      ensures FirstIndex(RatesOf(old(Snapshot()), projectId), RateId, rateId).Some? && OwnedProject(old(Snapshot()), user, projectId).Err? ==>
        r == Err(Rejected(ProjectIsNotFoundById, "projectId"))
      ensures r.Err? ==> unchanged(this)
      ensures r.Ok? ==>
        Snapshot() == RateUpdated(old(Snapshot()), projectId, FirstIndex(RatesOf(old(Snapshot()), projectId), RateId, rateId).value, rublesPerHour, now)
      ensures r.Ok? ==> r.value.id == rateId && r.value.rublesPerHour == rublesPerHour && r.value.projectId == projectId
      ensures r.Ok? ==> RateInRublesPerHour(rates[projectId], r.value.position) == Some(rublesPerHour)
    {
      var t := Snapshot();
      var rs := RatesOf(t, projectId);
      var index := FirstIndex(rs, RateId, rateId);
      if index.None? {
        return Err(Rejected(RateIsNotFoundById, "rateId"));
      }
      var owned := OwnedProject(t, user, projectId);
      if owned.Err? {
        return Err(owned.error);
      }
      var i := index.value;
      var rate := rs[i].(rublesPerHour := rublesPerHour);
      rates := rates[projectId := rs[i := rate]];
      projects := Stamped(projects, projectId, now);
      assert Snapshot() == RateUpdated(t, projectId, i, rublesPerHour, now);
      RateUpdatedKeepsConsistent(t, projectId, i, rublesPerHour, now);
      RepricedRates(rs, projectId, t.nextId, i, rublesPerHour);
      r := Ok(rate);
    }
  }
}

/**
 * The persistent entities as values, each holding the ids of the entities it
 * refers to instead of object references, and the request records the
 * services receive. BigDecimal amounts are exact reals; LocalDateTime values
 * are integers on one clock; users are their ids.
 */
module Entities {
  import opened Wrappers
  import opened Positions
  import opened Estimates

  datatype Project = Project(
    id: int,
    title: string,
    description: string,
    client: string,
    creatorId: int,
    /** The running total of the estimates of the project's features. */
    estimateInDays: real,
    createdAt: int,
    lastUpdatedAt: int)

  datatype Milestone = Milestone(
    id: int,
    projectId: int,
    title: string,
    description: string,
    startDateTime: Option<int>,
    endDateTime: Option<int>,
    /** The running total of the estimates of the features assigned to the milestone. */
    estimateInDays: real,
    createdAt: int,
    lastUpdatedAt: int)

  datatype Feature = Feature(
    id: int,
    projectId: int,
    milestoneId: Option<int>,
    title: string,
    description: string,
    bestCaseEstimateInDays: real,
    mostLikelyEstimateInDays: real,
    worstCaseEstimateInDays: real,
    createdAt: int,
    lastUpdatedAt: int)
  {
    /** `getEstimateInDays()`: derived from the three raw estimates on every call. */
    function Estimate(): real
    {
      EstimateInDays(bestCaseEstimateInDays, mostLikelyEstimateInDays, worstCaseEstimateInDays)
    }
  }

  datatype Rate = Rate(id: int, position: Position, rublesPerHour: real, projectId: int)

  datatype TeamMember = TeamMember(id: int, position: Position, numberOfTeamMembers: real, projectId: int)

  /** The fields of a project request (create and update). */
  datatype ProjectRequest = ProjectRequest(title: string, description: string, client: string)

  /** The fields of a milestone request (create and update). */
  datatype MilestoneRequest = MilestoneRequest(
    title: string,
    description: string,
    startDateTime: Option<int>,
    endDateTime: Option<int>)

  /**
   * The fields of a feature request: `milestoneId` on create,
   * `newMilestoneId` on update.
   */
  datatype FeatureRequest = FeatureRequest(
    milestoneId: Option<int>,
    title: string,
    description: string,
    bestCaseEstimateInDays: real,
    mostLikelyEstimateInDays: real,
    worstCaseEstimateInDays: real)
  {
    function Estimate(): real
    {
      EstimateInDays(bestCaseEstimateInDays, mostLikelyEstimateInDays, worstCaseEstimateInDays)
    }
  }

  /** The fields of a team member request: the position as a string, and a head count. */
  datatype TeamMemberRequest = TeamMemberRequest(position: string, numberOfTeamMembers: real)

  /** An entity returned together with its computed price, as the list endpoints do. */
  datatype Priced<T> = Priced(item: T, priceInRubles: real)
}

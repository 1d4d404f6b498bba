# Project calculator: estimates, running totals and prices

A Dafny model of the estimate and pricing core of the project calculator
backend (a Spring service). In that system, a user's projects contain
milestones and features. Each feature carries a three-point estimate in days.
The feature's derived estimate rolls up into running totals on its project and
on its milestone. A project's rates and team members turn any estimate into a
price in rubles.

The model covers:

- **Positions** (`positions.dfy`): the six positions, their default rates and
  their names.
- **Validators** (`validators.dfy`): the request validators for feature
  estimates (`0 <= a <= m <= b`) and for milestone dates.
- **Rounding** (`rounding.dfy`): BigDecimal division under a MathContext of two
  significant digits with RoundingMode.UP, on exact `real`s.
- **Estimates** (`estimates.dfy`): the derived estimate `(a + 4m + b) / 6`
  under that rounding.
- **Pricing** (`pricing.dfy`): PriceService. For each position, the rate times
  the degree of involvement; those summed, then times the estimate and 8 hours
  a day. A position nobody holds counts as zero, and a missing rate is an
  error.
- **Seeded rows** (`project_defaults.dfy`): the rates and team every new
  project is given.
- **Team member checks** (`team_member_checks.dfy`): TeamMemberService's
  position checks, as written and corrected (see Findings).
- **Ledger** (`ledger.dfy`): the sums the running totals must equal, and how
  those sums move when a feature is added, replaced or removed.
- **Stored state** (`store_state.dfy`): the repositories as one value, checked
  by `Consistent`. Lookups follow each service's scoping and error fields. The
  state after each successful write has lemmas proving it keeps the invariant
  and how it moves the running totals.
- **The store** (`store.dfy`): class `ProjectStore`. Its fields are the
  repositories, and it has one method per write endpoint:
  - ProjectService: save, update and delete project;
  - MilestoneService: save, update and delete milestone;
  - FeatureService: save, update and delete feature;
  - TeamMemberService: create, update and delete team member;
  - RateService: update rate.

  Each method except CreateTeamMember and UpdateTeamMember:
  - runs the service's checks in the service's order;
  - fails with the service's error and field, leaving the store unchanged;
  - otherwise changes the fields as the service changes its entities, and
    ensures the new state is the matching transition of the old one.

  CreateTeamMember and UpdateTeamMember run the corrected position and
  duplicate checks of "## Findings" instead. "## Left out" lists where they
  differ from the code.

  Every method keeps `Valid()`.

Two inputs are parameters of the operations:

- `user` is the authenticated user, as a user id.
- `now` is the clock reading, as an integer.

A `ProjectCalculatorException` becomes `Rejected(error, field)`. Two Java
exceptions become their own failure cases:

| Java exception | source | failure |
|---|---|---|
| `AssertionError` from a missing rate | PriceService.java:63 | `RateMissing(position)` |
| `IllegalArgumentException` from `Position.valueOf` | TeamMemberService.java:132 | `NoSuchPosition(name)` |

### Where the code and its documentation disagree

This model follows the code in each case.

- **Rounding of the derived estimate.** The code divides under
  `MathContext(2, RoundingMode.UP)`, which keeps two *significant digits*.
  So `(2, 4, 8)` gives 4.4, not 4.33, and its price with one regular
  developer is 56320 rubles. `(100, 101, 103)` gives 110.
- **Milestone dates.** The saveMilestone documentation asks for the start
  to be at or after the end. The validator requires the end not to precede
  the start.
- **Feature estimates.** The validator's comment says "> 0.0". Its test is
  `a >= 0`, so all-zero estimates are accepted.
- **Listing features by milestone.** The getAllFeatures documentation says
  an unknown milestone id throws MILESTONE_IS_NOT_FOUND_BY_ID. The code only
  filters the project's features by that id and never looks the milestone
  up. An unknown id is therefore not an error: the list holds the project's
  features that carry that id, usually none (GetAllFeatures).

## Model

| member | source | states |
|---|---|---|
| Positions.DefaultRateInRublesPerHour | src/main/java/org/example/projectcalculator/model/Position.java:12-17 | each position's default hourly rate, all between 1600 and 2800 rubles |
| Positions.Ordinal | src/main/java/org/example/projectcalculator/model/Position.java:11-17 | every position sits in `values()` at its ordinal |
| Positions.AllPositionsListsEachOnce | src/main/java/org/example/projectcalculator/model/Position.java:11-17 | `values()` has six entries, lists every position, and lists none twice |
| Positions.Name | src/main/java/org/example/projectcalculator/model/Position.java:12-17 | `name()`: each constant's identifier (NameIsInjective, ValueOfName) |
| Positions.NameIsInjective | src/main/java/org/example/projectcalculator/model/Position.java:12-17 | two positions with the same `name()` are the same position |
| Positions.ValueOf | src/main/java/org/example/projectcalculator/service/TeamMemberService.java:132 | `Position.valueOf` returns the position with that name, or fails when no position has it |
| Positions.ValueOfName | src/main/java/org/example/projectcalculator/service/TeamMemberService.java:132 | `valueOf(name(p))` is `p` |
| Positions.AllPositionNames | src/main/java/org/example/projectcalculator/service/PositionService.java:18-20 | the position list endpoint returns the names of `values()`, in order |
| Positions.AllPositionNamesAreDistinctAndParse | src/main/java/org/example/projectcalculator/service/PositionService.java:18-31 | the listed names are six distinct strings, and each one parses back to its position |
| Validators.FeatureEstimatesValid | src/main/java/org/example/projectcalculator/dto/request/validation/validator/FeatureEstimatesValidator.java:13-29 | accepted exactly when `0 <= a <= m <= b` |
| Validators.AcceptedEstimatesAreNonNegative | src/main/java/org/example/projectcalculator/dto/request/validation/validator/FeatureEstimatesValidator.java:22-28 | in accepted estimates, all three figures are non-negative |
| Validators.FeatureEstimateExamples | src/main/java/org/example/projectcalculator/dto/request/validation/validator/FeatureEstimatesValidator.java:23-28 | zeros and equal figures are accepted; a negative best case and `m < a` are refused |
| Validators.MilestoneDatesValid | src/main/java/org/example/projectcalculator/dto/request/validation/validator/MilestoneDatesValidator.java:13-37 | each present date is at or after now, and when both are present the end is not before the start |
| Validators.MilestoneDatesExamples | src/main/java/org/example/projectcalculator/dto/request/validation/validator/MilestoneDatesValidator.java:20-36 | no dates and equal future dates are accepted; a date in the past and an end before the start are refused |
| Validators.MilestoneEndMustNotPrecedeStart | src/main/java/org/example/projectcalculator/dto/request/validation/validator/MilestoneDatesValidator.java:30-33 | for future dates, validity is exactly `start <= end` |
| Rounding.Unit | src/main/java/org/example/projectcalculator/configuration/ApplicationConfiguration.java:18 | the unit of the second significant digit of a positive q: `10u <= q < 100u` |
| Rounding.RoundToUnit | src/main/java/org/example/projectcalculator/configuration/ApplicationConfiguration.java:18-20 | the least multiple of the unit at or above q |
| Rounding.RoundUp | src/main/java/org/example/projectcalculator/model/Feature.java:34-35 | MathContext(2, UP): every non-zero value is rounded away from zero to the next multiple of its second significant digit's unit |
| Rounding.RoundToUnitIsUnique | src/main/java/org/example/projectcalculator/configuration/ApplicationConfiguration.java:18-20 | any multiple of the unit within one unit above q is the rounded value |
| Rounding.RoundUpIsUnique | src/main/java/org/example/projectcalculator/model/Feature.java:34-35 | the rounded value is the only multiple of the unit in `[q, q + u)` |
| Rounding.RoundUpKeepsTwoDigitValues | src/main/java/org/example/projectcalculator/model/Feature.java:34-35 | a value that already has two significant digits is unchanged |
| Rounding.RoundUpMonotone | src/main/java/org/example/projectcalculator/model/Feature.java:34-35 | rounding preserves order |
| Estimates.ExactEstimate | src/main/java/org/example/projectcalculator/model/Feature.java:75-80 | the unrounded `(a + 4m + b) / 6`; AcceptedEstimateIsBracketed and EstimateIsMonotone state its meaning |
| Estimates.EstimateInDays | src/main/java/org/example/projectcalculator/model/Feature.java:74-83 | the derived estimate is `(a + 4m + b) / 6` rounded up to two significant digits; zero stays zero |
| Estimates.AcceptedEstimateIsBracketed | src/main/java/org/example/projectcalculator/model/Feature.java:74-83 | for accepted estimates, the exact figure lies in `[a, b]`, and the derived estimate is at least `a >= 0` |
| Estimates.EstimateIsMonotone | src/main/java/org/example/projectcalculator/model/Feature.java:74-83 | raising any raw estimate never lowers the derived estimate |
| Estimates.UnitOfOnesIsATenth | src/main/java/org/example/projectcalculator/model/Feature.java:82 | for values in `[1, 10)`, rounding is to tenths |
| Estimates.EstimateOfTwoFourEight | src/main/java/org/example/projectcalculator/model/Feature.java:74-83 | `(2, 4, 8)` gives 4.4 |
| Estimates.EstimateOfFiveSevenEight | src/main/java/org/example/projectcalculator/model/Feature.java:74-83 | `(5, 7, 8)` gives 6.9 |
| Estimates.EstimateOfOneTwoThree | src/main/java/org/example/projectcalculator/model/Feature.java:74-83 | `(1, 2, 3)` gives 2 |
| Estimates.EstimateOfZeros | src/main/java/org/example/projectcalculator/model/Feature.java:74-83 | `(0, 0, 0)` gives 0 |
| Estimates.EstimateCanExceedWorstCase | src/main/java/org/example/projectcalculator/model/Feature.java:74-83 | the accepted `(1.23, 1.23, 1.23)` gives 1.3, above its worst case |
| Estimates.EstimateOfLargeFigureRoundsToTens | src/main/java/org/example/projectcalculator/model/Feature.java:74-83 | `(100, 101, 103)` gives 110: two significant digits, not two decimal places |
| Pricing.RateInRublesPerHour | src/main/java/org/example/projectcalculator/service/PriceService.java:58-64 | the lookup finds a rate exactly when some row is for the position |
| Pricing.RateComesFromARow | src/main/java/org/example/projectcalculator/service/PriceService.java:58-64 | a found rate is the amount of some row for that position |
| Pricing.DegreeOfInvolvement | src/main/java/org/example/projectcalculator/service/PriceService.java:66-73 | the head count is 0 when no team member row is for the position |
| Pricing.DegreeComesFromARow | src/main/java/org/example/projectcalculator/service/PriceService.java:66-73 | a non-default head count is the count of some row for that position |
| Pricing.PositionPrice | src/main/java/org/example/projectcalculator/service/PriceService.java:52-56 | fails exactly when the position has no rate; otherwise it is rate times involvement |
| Pricing.TeamPrice | src/main/java/org/example/projectcalculator/service/PriceService.java:34-36 | the sum over positions succeeds exactly when every listed position has a rate |
| Pricing.ComputePriceInRubles | src/main/java/org/example/projectcalculator/service/PriceService.java:30-41 | succeeds exactly when every position has a rate; otherwise it reports a position without one |
| Pricing.TeamPriceStopsAtFirstMissing | src/main/java/org/example/projectcalculator/service/PriceService.java:34-36 | the error names the first unrated position in `values()` order |
| Pricing.PriceFailsAtFirstUnratedPosition | src/main/java/org/example/projectcalculator/service/PriceService.java:30-41 | with an unrated position, the price fails naming the earliest unrated position |
| Pricing.TeamPriceIsPositionSum | src/main/java/org/example/projectcalculator/service/PriceService.java:34-36 | the stream reduction equals the sum over positions of rate times involvement |
| Pricing.PositionSumAddsMember | src/main/java/org/example/projectcalculator/service/PriceService.java:66-73 | a team member in a position nobody else holds adds its rate times its count |
| Pricing.PositionSum | src/main/java/org/example/projectcalculator/service/PriceService.java:34-36 | the team price summed position by position, as the stream over `values()` does (TeamPriceIsPositionSum) |
| Pricing.MemberSum | src/main/java/org/example/projectcalculator/service/PriceService.java:30-41 | the reference team price summed row by row, rate times head count (PositionSumIsMemberSum, PriceIsSumOverTeam) |
| Pricing.PositionSumIsMemberSum | src/main/java/org/example/projectcalculator/service/PriceService.java:34-36 | with one row per position, the sum over positions equals the sum over team member rows |
| Pricing.PositionSumOfNobody | src/main/java/org/example/projectcalculator/service/PriceService.java:66-73 | an empty team costs nothing |
| Pricing.PriceIsSumOverTeam | src/main/java/org/example/projectcalculator/service/PriceService.java:30-41 | price = estimate × Σ over team rows (rate × count) × 8 |
| Pricing.PositionSumIsNonNegative | src/main/java/org/example/projectcalculator/service/PriceService.java:34-36 | non-negative rates and counts give a non-negative team price |
| Pricing.PriceIsNonNegative | src/main/java/org/example/projectcalculator/service/PriceService.java:30-41 | a non-negative estimate with non-negative rates and counts has a non-negative price |
| Pricing.PriceIsLinear | src/main/java/org/example/projectcalculator/service/PriceService.java:40 | the price is linear in the estimate |
| Pricing.RateOfUniqueRow | src/main/java/org/example/projectcalculator/service/PriceService.java:58-64 | with one row per position, the lookup returns that row's amount |
| Pricing.DegreeOfUniqueRow | src/main/java/org/example/projectcalculator/service/PriceService.java:66-73 | with one row per position, the lookup returns that row's count |
| Pricing.RateLookupIgnoresOrder | src/main/java/org/example/projectcalculator/service/PriceService.java:58-64 | `findAny` over unique positions gives the same rate for any order of the rows |
| Pricing.DegreeLookupIgnoresOrder | src/main/java/org/example/projectcalculator/service/PriceService.java:66-73 | the same for head counts |
| Pricing.TeamPriceDependsOnLookupsOnly | src/main/java/org/example/projectcalculator/service/PriceService.java:34-36 | equal lookups give equal team prices |
| Pricing.PriceIgnoresRowOrder | src/main/java/org/example/projectcalculator/service/PriceService.java:30-41 | reordering rate and team rows (one per position) does not change the price |
| ProjectDefaults.RatesAtDefault | src/main/java/org/example/projectcalculator/service/ProjectService.java:64-66 | one rate per listed position, in order, at its default, with consecutive ids |
| ProjectDefaults.DefaultRates | src/main/java/org/example/projectcalculator/service/ProjectService.java:64-68 | the six seeded rates of a new project (DefaultRatesCoverEachPositionOnce) |
| ProjectDefaults.DefaultTeam | src/main/java/org/example/projectcalculator/service/ProjectService.java:74-79 | the three seeded team member rows of a new project (DefaultTeamStaffsThreePositions) |
| ProjectDefaults.DefaultRatesCoverEachPositionOnce | src/main/java/org/example/projectcalculator/service/ProjectService.java:64-68 | six seeded rates: each position once, at its positive default, all on the new project |
| ProjectDefaults.DefaultTeamStaffsThreePositions | src/main/java/org/example/projectcalculator/service/ProjectService.java:74-79 | the seeded team is one regular developer, a quarter of a QA engineer and a quarter of a project manager, nobody else |
| ProjectDefaults.FreshProjectPrice | src/main/java/org/example/projectcalculator/service/ProjectService.java:64-79 | with seeded rows, an estimate of x days costs 20320·x rubles |
| ProjectDefaults.RegularDeveloperAlone | src/main/java/org/example/projectcalculator/service/PriceService.java:30-41 | default rates with one regular developer price x days at 12800·x rubles; the unheld positions add nothing |
| ProjectDefaults.RegularDeveloperAlonePrice | src/main/java/org/example/projectcalculator/service/PriceService.java:30-41 | default rates with one regular developer price 4.4 days at 56320 rubles |
| TeamMemberChecks.AnyRendersAs | src/main/java/org/example/projectcalculator/service/TeamMemberService.java:186-187 | `anyMatch` over `values()` is true exactly when some listed position renders as the string |
| TeamMemberChecks.AnyMemberRendersAs | src/main/java/org/example/projectcalculator/service/TeamMemberService.java:194-195 | `anyMatch` over the rows is true exactly when some row's position renders as the string |
| TeamMemberChecks.CheckPositionAsWritten | src/main/java/org/example/projectcalculator/service/TeamMemberService.java:185-190 | as written: WRONG_POSITION on "position" exactly when some position's `toString()` equals the string |
| TeamMemberChecks.CheckDuplicateAsWritten | src/main/java/org/example/projectcalculator/service/TeamMemberService.java:192-199 | as written: TEAM_MEMBER_ALREADY_EXISTS exactly when some row's position's `toString()` equals the string |
| TeamMemberChecks.LombokToString | src/main/java/org/example/projectcalculator/model/Position.java:10 | the `toString()` Lombok generates for a constant: type name, constant name, field in parentheses (NameIsNeverALombokRendering) |
| TeamMemberChecks.NameIsNeverALombokRendering | src/main/java/org/example/projectcalculator/model/Position.java:10 | no position's name equals any position's Lombok `toString()` |
| TeamMemberChecks.CreateOutcomeAsWritten | src/main/java/org/example/projectcalculator/service/TeamMemberService.java:52-68 | as written: succeeds exactly when ownership holds, `valueOf` parses, and both as-written checks pass |
| TeamMemberChecks.NameRenderingRejectsEveryValidName | src/main/java/org/example/projectcalculator/service/TeamMemberService.java:185-190 | if `toString()` were the name, every valid position name would be refused with WRONG_POSITION |
| TeamMemberChecks.NameRenderingNeverCreates | src/main/java/org/example/projectcalculator/service/TeamMemberService.java:52-68 | if `toString()` were the name, no request could create a team member |
| TeamMemberChecks.LombokRenderingAdmitsDuplicates | src/main/java/org/example/projectcalculator/service/TeamMemberService.java:192-199 | with Lombok's rendering, a second row for a held position is created |
| TeamMemberChecks.LombokRenderingDefersUnknownNames | src/main/java/org/example/projectcalculator/service/TeamMemberService.java:185-190 | with Lombok's rendering, an unknown name passes both checks and fails in `valueOf` instead |
| TeamMemberChecks.CheckPosition | src/main/java/org/example/projectcalculator/service/TeamMemberService.java:185-190 | corrected: passes exactly when the string is the name of a position |
| TeamMemberChecks.CheckDuplicate | src/main/java/org/example/projectcalculator/service/TeamMemberService.java:192-199 | corrected: for a string that names a position, refuses exactly when some row holds that position; a refusal is TEAM_MEMBER_ALREADY_EXISTS on "position" |
| TeamMemberChecks.CheckPositionAgreesWithValueOf | src/main/java/org/example/projectcalculator/service/TeamMemberService.java:185-190 | the corrected check passes exactly the strings `valueOf` accepts |
| TeamMemberChecks.CheckDuplicateMeansSamePosition | src/main/java/org/example/projectcalculator/service/TeamMemberService.java:192-199 | the corrected duplicate check fails exactly when a row already holds the position |
| TeamMemberChecks.CreateOutcome | src/main/java/org/example/projectcalculator/service/TeamMemberService.java:52-68 | succeeds exactly when the name parses, the caller owns the project and nobody holds the position; the errors hold in the source's order |
| TeamMemberChecks.CorrectedAgreesOnUnheldPositions | src/main/java/org/example/projectcalculator/service/TeamMemberService.java:52-68 | on the name of a position that no row holds, the corrected checks and the code's checks give the same outcome |
| TeamMemberChecks.KeepingOwnPositionIsADuplicate | src/main/java/org/example/projectcalculator/service/TeamMemberService.java:113-122 | the checks cover the edited row too, so keeping a row's position is refused as a duplicate |
| Ledger.Total | src/main/java/org/example/projectcalculator/service/FeatureService.java:79-87 | a running total as the sum of the derived estimates of the features in a scope; TotalInsert, TotalReplace and TotalRemove state how saveFeature, updateFeature and deleteFeature change it |
| Ledger.TotalIsPointwise | src/main/java/org/example/projectcalculator/service/FeatureService.java:79-87 | the total depends only on what each id contributes |
| Ledger.TotalAtOneId | src/main/java/org/example/projectcalculator/service/FeatureService.java:172-202 | changing one id's contribution changes the total by the difference |
| Ledger.TotalInsert | src/main/java/org/example/projectcalculator/service/FeatureService.java:79-87 | a new feature adds its derived estimate to each scope it is in |
| Ledger.TotalReplace | src/main/java/org/example/projectcalculator/service/FeatureService.java:172-202 | a replaced feature trades its old contribution for its new one |
| Ledger.TotalRemove | src/main/java/org/example/projectcalculator/service/FeatureService.java:233-244 | a removed feature takes its contribution away |
| Ledger.TotalOverFreeIds | src/main/java/org/example/projectcalculator/model/Feature.java:37-41 | ids not yet handed out contribute nothing |
| Ledger.TotalOfNothingInScope | src/main/java/org/example/projectcalculator/service/MilestoneService.java:61-67 | a scope with no features totals 0, as a new milestone or project starts |
| Ledger.TotalIsNonNegative | src/main/java/org/example/projectcalculator/service/FeatureService.java:79-87 | features with accepted estimates have a non-negative total |
| Ledger.TotalIsMonotone | src/main/java/org/example/projectcalculator/service/FeatureService.java:79-87 | a scope contained in another never totals more |
| Ledger.TotalOfRestriction | src/main/java/org/example/projectcalculator/service/ProjectService.java:149 | dropping features outside a scope leaves its total unchanged |
| StoreState.TotalsBalance | src/main/java/org/example/projectcalculator/service/FeatureService.java:172-202 | every project's and milestone's running total equals the sum of the derived estimates of its features; kept by every transition (the KeepsConsistent lemmas) |
| StoreState.Consistent | src/main/java/org/example/projectcalculator/service/FeatureService.java:79-87 | the store invariant: ids below the counter, children on stored projects, features on stored milestones of their own project, balanced totals, rate and team tables valid; EmptyIsConsistent and the KeepsConsistent lemmas state that it holds |
| StoreState.GetProject | src/main/java/org/example/projectcalculator/service/ProjectService.java:162-169 | found exactly when stored; otherwise PROJECT_IS_NOT_FOUND_BY_ID on "projectId" |
| StoreState.OwnedProject | src/main/java/org/example/projectcalculator/service/ProjectService.java:162-176 | lookup then ownership: Ok exactly when stored and created by the user |
| StoreState.ForeignProjectLooksMissing | src/main/java/org/example/projectcalculator/service/ProjectService.java:171-176 | another user's project fails exactly as a missing one does |
| StoreState.Ownership | src/main/java/org/example/projectcalculator/service/ProjectService.java:171-176 | the same test as an outcome |
| StoreState.GetMilestone | src/main/java/org/example/projectcalculator/service/MilestoneService.java:180-187 | found exactly when stored in that project; otherwise MILESTONE_IS_NOT_FOUND_BY_ID on "milestoneId" |
| StoreState.MilestoneOfRequest | src/main/java/org/example/projectcalculator/service/FeatureService.java:70-72 | no milestone passes; otherwise it must be found in the project |
| StoreState.GetFeature | src/main/java/org/example/projectcalculator/service/FeatureService.java:259-266 | found exactly when stored in that project; otherwise FEATURE_IS_NOT_FOUND_BY_ID on "featureId" |
| StoreState.FirstIndex | src/main/java/org/example/projectcalculator/service/TeamMemberService.java:124-128 | the repositories' find-by-id over a project's rows, for team members here and for rates at RateService.java:101-105: some index exactly when a row has the id; it is the first such row |
| StoreState.GetRate | src/main/java/org/example/projectcalculator/service/RateService.java:101-108 | found exactly when a row of the project has the id; otherwise RATE_IS_NOT_FOUND_BY_ID on "rateId" |
| StoreState.GetTeamMember | src/main/java/org/example/projectcalculator/service/TeamMemberService.java:176-183 | found exactly when a row of the project has the id; otherwise TEAM_MEMBER_IS_NOT_FOUND_BY_ID on "teamMemberId" |
| StoreState.Price | src/main/java/org/example/projectcalculator/service/PriceService.java:30-41 | in a consistent store, pricing a project never fails; the price is estimate × Σ rate × count × 8, non-negative for non-negative estimates |
| StoreState.GetAllProjects | src/main/java/org/example/projectcalculator/service/ProjectService.java:92-102 | exactly the user's projects, each with the price of its running total |
| StoreState.GetAllMilestones | src/main/java/org/example/projectcalculator/service/MilestoneService.java:83-97 | ownership checked; exactly the project's milestones, each priced with the project's rows |
| StoreState.GetAllFeatures | src/main/java/org/example/projectcalculator/service/FeatureService.java:108-132 | ownership checked; exactly the project's features, narrowed to the milestone when one is given |
| StoreState.GetAllRates | src/main/java/org/example/projectcalculator/service/RateService.java:47-58 | ownership checked; exactly the project's stored rate rows, which cover every position once and belong to the project |
| StoreState.GetAllTeamMembers | src/main/java/org/example/projectcalculator/service/TeamMemberService.java:84-97 | ownership checked; exactly the project's stored team member rows, with at most one row per position, all positive, all on the project |
| StoreState.TotalsIgnoreFreshIds | src/main/java/org/example/projectcalculator/model/Feature.java:37-41 | raising the id counter leaves every total unchanged |
| StoreState.SeededRowsAreValid | src/main/java/org/example/projectcalculator/service/ProjectService.java:64-79 | the seeded rows are a valid rate table and a valid team |
| StoreState.ProjectSaved | src/main/java/org/example/projectcalculator/service/ProjectService.java:53-84 | the new project under the next id, at a total of 0, with six default rates and the three-row default team under the ids after it; its meaning is stated by ProjectSavedKeepsConsistent and NewProjectStartsAtDefaults |
| StoreState.ProjectSavedKeepsConsistent | src/main/java/org/example/projectcalculator/service/ProjectService.java:53-84 | saveProject keeps the store consistent |
| StoreState.ProjectSavedSeedsRows | src/main/java/org/example/projectcalculator/service/ProjectService.java:64-79 | after saveProject, every project still has valid rates and team |
| StoreState.ProjectSavedBalances | src/main/java/org/example/projectcalculator/service/ProjectService.java:57-58 | saveProject keeps every running total balanced; the new project's is 0 |
| StoreState.NewProjectStartsAtDefaults | src/main/java/org/example/projectcalculator/service/ProjectService.java:53-84 | the new project is the caller's, totals 0, and prices x days at 20320·x |
| StoreState.ProjectUpdated | src/main/java/org/example/projectcalculator/service/ProjectService.java:114-131 | new title, description and client and the time stamp; everything else as it was (ProjectUpdatedKeepsConsistent) |
| StoreState.ProjectUpdatedKeepsConsistent | src/main/java/org/example/projectcalculator/service/ProjectService.java:114-131 | updateProject keeps the store consistent |
| StoreState.ProjectDeleted | src/main/java/org/example/projectcalculator/service/ProjectService.java:141-152 | the project removed with its milestones, features, rates and team, as the database's cascade does (ProjectDeletedKeepsConsistent) |
| StoreState.ProjectDeletedKeepsConsistent | src/main/java/org/example/projectcalculator/service/ProjectService.java:141-152 | deleteProject keeps the store consistent and every other project's total |
| StoreState.MilestoneSaved | src/main/java/org/example/projectcalculator/service/MilestoneService.java:54-72 | a milestone at a total of 0 under the next id and the project stamped (MilestoneSavedKeepsConsistent, MilestoneSavedBalances) |
| StoreState.MilestoneSavedKeepsConsistent | src/main/java/org/example/projectcalculator/service/MilestoneService.java:54-72 | saveMilestone keeps the store consistent |
| StoreState.MilestoneSavedFits | src/main/java/org/example/projectcalculator/service/MilestoneService.java:61-67 | after saveMilestone, every feature still fits its project and milestone |
| StoreState.MilestoneSavedBalances | src/main/java/org/example/projectcalculator/service/MilestoneService.java:61-67 | a new milestone starts at 0, which balances |
| StoreState.MilestoneUpdated | src/main/java/org/example/projectcalculator/service/MilestoneService.java:113-136 | new title, description and dates and the time stamps; the total as it was (MilestoneUpdatedKeepsConsistent) |
| StoreState.MilestoneUpdatedKeepsConsistent | src/main/java/org/example/projectcalculator/service/MilestoneService.java:113-136 | updateMilestone keeps the store consistent |
| StoreState.MilestoneDeleted | src/main/java/org/example/projectcalculator/service/MilestoneService.java:149-167 | the milestone removed and the project stamped; features keep the old id, as the code does not touch them (MilestoneDeletedKeepsConsistent) |
| StoreState.MilestoneDeletedKeepsConsistent | src/main/java/org/example/projectcalculator/service/MilestoneService.java:149-167 | deleteMilestone keeps the store consistent and the project's total |
| StoreState.Credited | src/main/java/org/example/projectcalculator/service/FeatureService.java:84-87 | adds the estimate to the milestone's total when the feature has one; a milestone id that names no milestone, left by deleteMilestone, changes nothing, which is the model's choice (MovingAFeature, FeatureSavedBalances) |
| StoreState.Debited | src/main/java/org/example/projectcalculator/service/FeatureService.java:172-202 | subtracts the estimate from the old milestone's total when there is one; a dangling milestone id changes nothing, the model's choice (DeletingAFeature, FeatureUpdatedBalances) |
| StoreState.NewFeature | src/main/java/org/example/projectcalculator/service/FeatureService.java:75-77 | the feature the mapper builds from the request, under the next id, stamped twice with `now` (FeatureSavedFits) |
| StoreState.TotalsWithNewFeature | src/main/java/org/example/projectcalculator/service/FeatureService.java:75-87 | a feature under the next id adds its contribution to every scope |
| StoreState.FeatureSaved | src/main/java/org/example/projectcalculator/service/FeatureService.java:64-92 | the new feature stored and its derived estimate added to the project and to its milestone (FeatureSavedKeepsConsistent, FeatureSavedBalances) |
| StoreState.FeatureSavedKeepsConsistent | src/main/java/org/example/projectcalculator/service/FeatureService.java:64-92 | saveFeature keeps the store consistent |
| StoreState.FeatureSavedFits | src/main/java/org/example/projectcalculator/service/FeatureService.java:70-77 | the new feature fits its project and milestone |
| StoreState.FeatureSavedBalances | src/main/java/org/example/projectcalculator/service/FeatureService.java:79-87 | adding the derived estimate to project and milestone keeps the totals balanced |
| StoreState.Edited | src/main/java/org/example/projectcalculator/service/FeatureService.java:154-192 | the feature with the request's milestone, title, description and raw estimates and the time stamp (FeatureUpdatedFits) |
| StoreState.FeatureUpdated | src/main/java/org/example/projectcalculator/service/FeatureService.java:147-207 | the old derived estimate subtracted from the project and old milestone, the new one added to the project and new milestone (FeatureUpdatedKeepsConsistent, EditingWithinAMilestone, MovingAFeature) |
| StoreState.FeatureUpdatedKeepsConsistent | src/main/java/org/example/projectcalculator/service/FeatureService.java:147-207 | updateFeature keeps the store consistent |
| StoreState.FeatureUpdatedFits | src/main/java/org/example/projectcalculator/service/FeatureService.java:154-192 | the edited feature fits its project and new milestone |
| StoreState.FeatureUpdatedBalances | src/main/java/org/example/projectcalculator/service/FeatureService.java:172-202 | subtracting before and adding after keeps the totals balanced |
| StoreState.FeatureDeleted | src/main/java/org/example/projectcalculator/service/FeatureService.java:220-247 | the feature removed and its derived estimate subtracted from the project and its milestone (FeatureDeletedKeepsConsistent, DeletingAFeature) |
| StoreState.FeatureDeletedKeepsConsistent | src/main/java/org/example/projectcalculator/service/FeatureService.java:220-247 | deleteFeature keeps the store consistent |
| StoreState.TeamTableAppend | src/main/java/org/example/projectcalculator/service/TeamMemberService.java:62-66 | a row in an unheld position keeps the team valid |
| StoreState.TeamTableReassign | src/main/java/org/example/projectcalculator/service/TeamMemberService.java:132-133 | moving a row to an unheld position keeps the team valid |
| StoreState.TeamTableRemove | src/main/java/org/example/projectcalculator/service/TeamMemberService.java:159 | removing a row keeps the team valid |
| StoreState.RepricedRates | src/main/java/org/example/projectcalculator/service/RateService.java:84-85 | repricing keeps every position rated, gives the new amount for its position, and leaves the others unchanged |
| StoreState.TeamMemberCreated | src/main/java/org/example/projectcalculator/service/TeamMemberService.java:52-73 | a row for the position under the next id and the project stamped (TeamMemberCreatedKeepsConsistent, AsWrittenDuplicateBreaksConsistency) |
| StoreState.TeamMemberCreatedKeepsConsistent | src/main/java/org/example/projectcalculator/service/TeamMemberService.java:52-73 | a new row in a position no row holds keeps the store consistent; holds for the corrected checks only (see Left out) |
| StoreState.AsWrittenDuplicateBreaksConsistency | src/main/java/org/example/projectcalculator/service/TeamMemberService.java:52-73 | the code's checks let a held position through, and the second row breaks the one-row-per-position invariant |
| StoreState.TeamMemberUpdated | src/main/java/org/example/projectcalculator/service/TeamMemberService.java:111-140 | the row moved to the position with the new head count and the project stamped (TeamMemberUpdatedKeepsConsistent, AsWrittenMoveBreaksConsistency) |
| StoreState.TeamMemberUpdatedKeepsConsistent | src/main/java/org/example/projectcalculator/service/TeamMemberService.java:111-140 | moving a row to a position no row holds keeps the store consistent; holds for the corrected checks only (see Left out) |
| StoreState.AsWrittenMoveBreaksConsistency | src/main/java/org/example/projectcalculator/service/TeamMemberService.java:111-140 | the code's checks let a row move onto another row's position, which breaks the one-row-per-position invariant |
| StoreState.TeamMemberDeleted | src/main/java/org/example/projectcalculator/service/TeamMemberService.java:153-163 | the row removed and the project stamped (TeamMemberDeletedKeepsConsistent) |
| StoreState.TeamMemberDeletedKeepsConsistent | src/main/java/org/example/projectcalculator/service/TeamMemberService.java:153-163 | deleteTeamMember keeps the store consistent |
| StoreState.RateUpdated | src/main/java/org/example/projectcalculator/service/RateService.java:74-90 | the rate row at the new amount and the project stamped (RateUpdatedKeepsConsistent, RepricedRates) |
| StoreState.RateUpdatedKeepsConsistent | src/main/java/org/example/projectcalculator/service/RateService.java:74-90 | updateRate keeps the store consistent, so every project can still be priced |
| StoreState.MilestoneTotalWithinProject | src/main/java/org/example/projectcalculator/service/FeatureService.java:79-87 | every milestone's total is non-negative and at most its project's |
| StoreState.ProjectTotalIsNonNegative | src/main/java/org/example/projectcalculator/service/FeatureService.java:79-82 | every project's total and its price are non-negative |
| StoreState.MovingAFeature | src/main/java/org/example/projectcalculator/service/FeatureService.java:172-202 | moving a feature from milestone A to B unchanged keeps the project total, takes E off A and adds E to B |
| StoreState.EditingWithinAMilestone | src/main/java/org/example/projectcalculator/service/FeatureService.java:172-202 | editing within one milestone moves it and the project by new E − old E |
| StoreState.DeletingAFeature | src/main/java/org/example/projectcalculator/service/FeatureService.java:233-244 | deletion takes E off the project and its milestone exactly once, and leaves other milestones unchanged |
| Store.ProjectStore.SaveProject | src/main/java/org/example/projectcalculator/service/ProjectService.java:53-84 | the new state is the saved project with seeded rows; the project is the caller's with a total of 0 |
| Store.ProjectStore.UpdateProject | src/main/java/org/example/projectcalculator/service/ProjectService.java:114-131 | lookup and ownership, then the new fields; unchanged on failure |
| Store.ProjectStore.DeleteProject | src/main/java/org/example/projectcalculator/service/ProjectService.java:141-152 | lookup and ownership, then the project and all that belongs to it are removed |
| Store.ProjectStore.SaveMilestone | src/main/java/org/example/projectcalculator/service/MilestoneService.java:54-72 | lookup and ownership, then a milestone at 0 and the project stamped |
| Store.ProjectStore.UpdateMilestone | src/main/java/org/example/projectcalculator/service/MilestoneService.java:113-136 | lookup, ownership and milestone lookup in that order, then the new fields |
| Store.ProjectStore.DeleteMilestone | src/main/java/org/example/projectcalculator/service/MilestoneService.java:149-167 | lookup, ownership and milestone lookup, then the milestone removed |
| Store.ProjectStore.SaveFeature | src/main/java/org/example/projectcalculator/service/FeatureService.java:64-92 | ownership, then milestone lookup; the derived estimate is added to project and milestone |
| Store.ProjectStore.UpdateFeature | src/main/java/org/example/projectcalculator/service/FeatureService.java:147-207 | ownership, feature and milestone lookups; old estimate subtracted, new added |
| Store.ProjectStore.DeleteFeature | src/main/java/org/example/projectcalculator/service/FeatureService.java:220-247 | ownership and feature lookup; the estimate is given back, the feature removed |
| Store.ProjectStore.CreateTeamMember | src/main/java/org/example/projectcalculator/service/TeamMemberService.java:52-73 | position check, ownership, duplicate check; a new row and the project stamped |
| Store.ProjectStore.UpdateTeamMember | src/main/java/org/example/projectcalculator/service/TeamMemberService.java:111-140 | the creation checks, then the row lookup; new position and count |
| Store.ProjectStore.DeleteTeamMember | src/main/java/org/example/projectcalculator/service/TeamMemberService.java:153-163 | row lookup within the project (no ownership check), then the row removed |
| Store.ProjectStore.UpdateRate | src/main/java/org/example/projectcalculator/service/RateService.java:74-90 | rate lookup, then ownership; the new amount is what pricing finds for that position |

## Left out

- HTTP controllers, request mapping and DTO mappers are not modelled. The model takes the request fields directly.
- UserService, authentication and passwords are not modelled. The current user is the `user` parameter, and the clock is the `now` parameter as an integer.
- Logging is left out.
- Transactions, locking and concurrency are left out. Each method runs to completion.
- Repository queries become maps keyed by id and per-project row sequences. List endpoints return maps, so list order is not modelled.
- One counter hands out all ids. The database's per-table sequences only need to be increasing.
- Bean Validation on requests becomes `requires` clauses:
  - the feature estimate rule and the milestone date rule;
  - team member head counts `> 0`;
  - rates `> 0`.

  Blank-title and decimal-width checks and the 12-digit integer limits are left out. This is because numbers are unbounded exact reals.
- Cascading deletes belong to the database and JPA. ProjectDeleted removes the project's milestones, features, rates and team members with it. The code relies on the database for this.
- MilestoneDeleted: features keep the id of a deleted milestone, as the code does not touch them. Later ledger steps skip a milestone that no longer exists.
- `findAny` is modelled as the first match. Order-independence is proved separately for rows with unique positions.
- The check at FeatureService.java:163-166 is not a separate branch. It cannot fire, because `getMilestone` is already scoped to the project. A foreign milestone therefore fails with "milestoneId".
- The `equals` and `hashCode` of Feature are left out. So are `toString` renderings other than Position's.
- LombokToString assumes Lombok's `@ToString` on an enum renders as `Position.NAME(defaultRateInRublesPerHour=...)`. Lombok is not part of this model.
- CreateTeamMember: runs the corrected checks (TeamMemberChecks.CreateOutcome), not the code's. The code's outcome is TeamMemberChecks.CreateOutcomeAsWritten under LombokToString. The two agree on every name of a position that no row holds (CorrectedAgreesOnUnheldPositions). They differ in two cases:
  - On a position some row already holds, the code saves a second row, and TeamMemberServiceTest expects this (LombokRenderingAdmitsDuplicates). The model refuses it with TEAM_MEMBER_ALREADY_EXISTS.
  - On a string that names no position, the code passes the position check. It then fails on ownership (PROJECT_IS_NOT_FOUND_BY_ID) or with IllegalArgumentException from `valueOf` (LombokRenderingDefersUnknownNames). The model fails first, with WRONG_POSITION.
- UpdateTeamMember: runs the corrected checks with the same two differences as CreateTeamMember. In the code, `valueOf` runs after the row lookup, so a string naming no position on a missing row fails with TEAM_MEMBER_IS_NOT_FOUND_BY_ID. That as-written order is not modelled separately: CreateOutcomeAsWritten covers the position, ownership and duplicate checks, which the two services share. With the corrected checks, a request that keeps the row's own position is refused as a duplicate (KeepingOwnPositionIsADuplicate), because the duplicate check comes before the row lookup. As written, with Lombok's rendering, the check never fires.
- TeamMemberCreatedKeepsConsistent: proved only when no row holds the position, which the corrected checks ensure. Under the code's checks a duplicate gets through, and the state after it is not consistent, because two rows hold one position (AsWrittenDuplicateBreaksConsistency).
- TeamMemberUpdatedKeepsConsistent: proved only when no row holds the position, which the corrected checks ensure. Under the code's checks a row can move onto another row's position, and the state after it is not consistent (AsWrittenMoveBreaksConsistency).
- Credited, Debited: a feature whose milestone id names no milestone, left by deleteMilestone, changes no milestone total. In updateFeature and deleteFeature the code loads the old milestone entity through the feature, so what it does with a dangling reference belongs to JPA and the database. The skip is the model's own choice for the dangling id.

## Findings

| source | as written | input that shows it | evidently intended | confidence | as-written member | corrected member |
|---|---|---|---|---|---|---|
| src/main/java/org/example/projectcalculator/service/TeamMemberService.java:185-190 | throws WRONG_POSITION when some position's `toString()` equals the string, the reverse of the check's purpose | if `toString()` were the name, "REGULAR_DEVELOPER" is refused; with Lombok's rendering, "FOO" passes and fails later in `valueOf` | refuse exactly the strings that name no position | not executed | TeamMemberChecks.NameRenderingRejectsEveryValidName | TeamMemberChecks.CheckPositionAgreesWithValueOf |
| src/main/java/org/example/projectcalculator/service/TeamMemberService.java:192-199 | compares each row's position `toString()`, which Lombok renders with the type name and field, against the requested name | a project with a REGULAR_DEVELOPER row; a create request for "REGULAR_DEVELOPER" succeeds and adds a second row | refuse a position that some row already holds | not executed | TeamMemberChecks.LombokRenderingAdmitsDuplicates | TeamMemberChecks.CheckDuplicateMeansSamePosition |

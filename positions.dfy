/**
 * The Position enum: six staff positions, each with a default hourly rate in
 * rubles, and the strings by which requests name them.
 */
module Positions {
  import opened Wrappers

  datatype Position =
    | RegularDeveloper
    | SeniorDeveloper
    | ProjectManager
    | QaEngineer
    | Architect
    | DevopsEngineer

  /** `Position.values()`: the constants in declaration order. */
  const AllPositions: seq<Position> :=
    [RegularDeveloper, SeniorDeveloper, ProjectManager, QaEngineer, Architect, DevopsEngineer]

  /** `position.name()`: the constant's identifier. */
  function Name(p: Position): string
  {
    match p
    case RegularDeveloper => "REGULAR_DEVELOPER"
    case SeniorDeveloper => "SENIOR_DEVELOPER"
    case ProjectManager => "PROJECT_MANAGER"
    case QaEngineer => "QA_ENGINEER"
    case Architect => "ARCHITECT"
    case DevopsEngineer => "DEVOPS_ENGINEER"
  }

  /** `position.getDefaultRateInRublesPerHour()`. */
  function DefaultRateInRublesPerHour(p: Position): (rate: real)
    ensures 1600.0 <= rate <= 2800.0
  {
    match p
    case RegularDeveloper => 1600.0
    case SeniorDeveloper => 2400.0
    case ProjectManager => 1760.0
    case QaEngineer => 2000.0
    case Architect => 2800.0
    case DevopsEngineer => 1600.0
  }

  /** The decimal text of each default rate, as `BigDecimal.toString()` prints it. */
  function DefaultRateText(p: Position): string
  {
    match p
    case RegularDeveloper => "1600"
    case SeniorDeveloper => "2400"
    case ProjectManager => "1760"
    case QaEngineer => "2000"
    case Architect => "2800"
    case DevopsEngineer => "1600"
  }

  /** The index of a constant in `values()` (its ordinal). */
  function Ordinal(p: Position): (i: nat)
    ensures i < |AllPositions| && AllPositions[i] == p
  {
    match p
    case RegularDeveloper => 0
    case SeniorDeveloper => 1
    case ProjectManager => 2
    case QaEngineer => 3
    case Architect => 4
    case DevopsEngineer => 5
  }

  /** `values()` lists each of the six constants exactly once. */
  lemma AllPositionsListsEachOnce()
    ensures |AllPositions| == 6
    ensures forall p: Position :: p in AllPositions
    ensures forall i, j :: 0 <= i < j < |AllPositions| ==> AllPositions[i] != AllPositions[j]
  {
    forall p: Position ensures p in AllPositions {
      assert AllPositions[Ordinal(p)] == p;
    }
  }

  /** Distinct positions have distinct names, so a name identifies its position. */
  lemma NameIsInjective(p: Position, q: Position)
    requires Name(p) == Name(q)
    ensures p == q
  {
  }

  /** Every name is at most 17 characters long and written in capitals and underscores. */
  lemma NameShape(p: Position)
    ensures 9 <= |Name(p)| <= 17
    ensures forall k :: 0 <= k < |Name(p)| ==> 'A' <= Name(p)[k] <= 'Z' || Name(p)[k] == '_'
  {
  }

  /**
   * `Position.valueOf(s)`: the constant whose name is exactly `s`; any other
   * string makes Java throw IllegalArgumentException, modelled as None.
   */
  function ValueOf(s: string): (r: Option<Position>)
    ensures r.Some? ==> Name(r.value) == s
    ensures r.None? ==> forall p: Position :: Name(p) != s
  {
    if s == "REGULAR_DEVELOPER" then Some(RegularDeveloper)
    else if s == "SENIOR_DEVELOPER" then Some(SeniorDeveloper)
    else if s == "PROJECT_MANAGER" then Some(ProjectManager)
    else if s == "QA_ENGINEER" then Some(QaEngineer)
    else if s == "ARCHITECT" then Some(Architect)
    else if s == "DEVOPS_ENGINEER" then Some(DevopsEngineer)
    else None
  }

  /** `valueOf` inverts `name()`. */
  lemma ValueOfName(p: Position)
    ensures ValueOf(Name(p)) == Some(p)
  {
  }

  /**
   * The position list the position service hands out: the names of
   * `values()` in declaration order.
   */
  function AllPositionNames(): (names: seq<string>)
    ensures |names| == |AllPositions|
    ensures forall i :: 0 <= i < |names| ==> names[i] == Name(AllPositions[i])
  {
    NamesOf(AllPositions)
  }

  function NamesOf(ps: seq<Position>): (names: seq<string>)
    ensures |names| == |ps|
    ensures forall i :: 0 <= i < |ps| ==> names[i] == Name(ps[i])
  {
    if ps == [] then [] else [Name(ps[0])] + NamesOf(ps[1..])
  }

  /** The advertised names are pairwise distinct and each one parses back to its position. */
  lemma AllPositionNamesAreDistinctAndParse()
    ensures |AllPositionNames()| == 6
    ensures forall i, j :: 0 <= i < j < 6 ==> AllPositionNames()[i] != AllPositionNames()[j]
    ensures forall i :: 0 <= i < 6 ==> ValueOf(AllPositionNames()[i]) == Some(AllPositions[i])
  {
    AllPositionsListsEachOnce();
    forall i, j | 0 <= i < j < 6 ensures AllPositionNames()[i] != AllPositionNames()[j] {
      if AllPositionNames()[i] == AllPositionNames()[j] {
        NameIsInjective(AllPositions[i], AllPositions[j]);
      }
    }
    forall i | 0 <= i < 6 ensures ValueOf(AllPositionNames()[i]) == Some(AllPositions[i]) {
      ValueOfName(AllPositions[i]);
    }
  }
}

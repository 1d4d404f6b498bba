/**
 * The two checks TeamMemberService runs on the position string of a team
 * member request, and the order in which createTeamMember applies them.
 *
 * As written, both checks compare the request string with
 * `position.toString()`. The enum carries Lombok's `@ToString`, so that
 * string is not the constant's name; the checks are therefore stated for an
 * arbitrary rendering `render`, with lemmas for the plain name and for
 * Lombok's rendering. The validity check also fires on a match, the reverse
 * of what its documentation promises. The corrected checks, which compare
 * against `name()` and reject a string that names no position, are the ones
 * the store uses.
 */
module TeamMemberChecks {
  import opened Wrappers
  import opened Positions
  import opened Errors
  import opened Entities
  import opened Pricing

  /** `anyMatch` over positions: some listed position renders as s. */
  function AnyRendersAs(render: Position -> string, ps: seq<Position>, s: string): (b: bool)
    ensures b <==> exists i :: 0 <= i < |ps| && render(ps[i]) == s
  {
    if ps == [] then false
    else if render(ps[0]) == s then true
    else
      assert (exists i :: 0 <= i < |ps| && render(ps[i]) == s) ==>
        exists i :: 0 <= i < |ps[1..]| && render(ps[1..][i]) == s by {
        if exists i :: 0 <= i < |ps| && render(ps[i]) == s {
          var i :| 0 <= i < |ps| && render(ps[i]) == s;
          assert render(ps[1..][i - 1]) == s;
        }
      }
      AnyRendersAs(render, ps[1..], s)
  }

  /** `anyMatch` over team member rows: some row's position renders as s. */
  function AnyMemberRendersAs(render: Position -> string, members: seq<TeamMember>, s: string): (b: bool)
    ensures b <==> exists i :: 0 <= i < |members| && render(members[i].position) == s
  {
    if members == [] then false
    else if render(members[0].position) == s then true
    else
      assert (exists i :: 0 <= i < |members| && render(members[i].position) == s) ==>
        exists i :: 0 <= i < |members[1..]| && render(members[1..][i].position) == s by {
        if exists i :: 0 <= i < |members| && render(members[i].position) == s {
          var i :| 0 <= i < |members| && render(members[i].position) == s;
          assert render(members[1..][i - 1].position) == s;
        }
      }
      AnyMemberRendersAs(render, members[1..], s)
  }

  /** checkIfStringIsValidPosition as written: it fails when some constant renders as s. */
  function CheckPositionAsWritten(render: Position -> string, s: string): (o: Outcome<Failure>)
    ensures o.Fail? <==> exists p: Position :: render(p) == s
    ensures o.Fail? ==> o.error == Rejected(WrongPosition, "position")
  {
    AllPositionsListsEachOnce();
    assert (exists p: Position :: render(p) == s) ==> AnyRendersAs(render, AllPositions, s) by {
      if exists p: Position :: render(p) == s {
        var p: Position :| render(p) == s;
        assert AllPositions[Ordinal(p)] == p;
      }
    }
    if AnyRendersAs(render, AllPositions, s) then Fail(Rejected(WrongPosition, "position")) else Pass
  }

  /** checkIfTeamMemberAlreadyExists as written: it fails when some row's position renders as s. */
  function CheckDuplicateAsWritten(render: Position -> string, members: seq<TeamMember>, s: string): (o: Outcome<Failure>)
    ensures o.Fail? <==> exists i :: 0 <= i < |members| && render(members[i].position) == s
    ensures o.Fail? ==> o.error == Rejected(TeamMemberAlreadyExists, "position")
  {
    if AnyMemberRendersAs(render, members, s) then Fail(Rejected(TeamMemberAlreadyExists, "position")) else Pass
  }

  /**
   * Lombok's `toString()` of a constant of the enum: the type name, the
   * constant's name and its one field in parentheses.
   */
  function LombokToString(p: Position): string
  {
    "Position." + Name(p) + "(defaultRateInRublesPerHour=" + DefaultRateText(p) + ")"
  }

  /** No constant's name equals any constant's Lombok rendering, which is longer than any name. */
  lemma NameIsNeverALombokRendering(p: Position, q: Position)
    ensures Name(p) != LombokToString(q)
  {
    NameShape(p);
    NameShape(q);
    assert |LombokToString(q)| > 17;
  }

  /**
   * createTeamMember's checks in the source's order, as written:
   * position check, then the project lookup and ownership check (given as
   * `owned`), then the duplicate check over the project's rows, then
   * `Position.valueOf` in the mapper. Ok carries the position saved.
   */
  function CreateOutcomeAsWritten(
    render: Position -> string, s: string, owned: Outcome<Failure>, members: seq<TeamMember>): (r: Result<Position, Failure>)
    ensures r.Ok? ==> owned.Pass? && ValueOf(s) == Some(r.value)
    ensures r.Ok? <==>
      owned.Pass? && ValueOf(s).Some? && CheckPositionAsWritten(render, s).Pass? &&
      CheckDuplicateAsWritten(render, members, s).Pass?
  {
    match CheckPositionAsWritten(render, s)
    case Fail(e) => Err(e)
    case Pass =>
      match owned
      case Fail(e) => Err(e)
      case Pass =>
        match CheckDuplicateAsWritten(render, members, s)
        case Fail(e) => Err(e)
        case Pass =>
          match ValueOf(s)
          case None => Err(NoSuchPosition(s))
          case Some(p) => Ok(p)
  }

  /**
   * Were `toString()` the constant's name, every valid position name would
   * be refused with WRONG_POSITION before anything else is looked at.
   */
  lemma NameRenderingRejectsEveryValidName(s: string, owned: Outcome<Failure>, members: seq<TeamMember>)
    requires ValueOf(s).Some?
    ensures CreateOutcomeAsWritten(Name, s, owned, members) == Err(Rejected(WrongPosition, "position"))
  {
    assert Name(ValueOf(s).value) == s;
  }

  /**
   * Were `toString()` the constant's name, no request could create a team
   * member: a valid name is refused by the check, any other string by `valueOf`.
   */
  lemma NameRenderingNeverCreates(s: string, owned: Outcome<Failure>, members: seq<TeamMember>)
    ensures CreateOutcomeAsWritten(Name, s, owned, members).Err?
  {
    if ValueOf(s).Some? {
      NameRenderingRejectsEveryValidName(s, owned, members);
    }
  }

  /**
   * With Lombok's rendering neither check ever fires on a valid name, so a
   * project that already has a team member in position p gets a second one.
   */
  lemma LombokRenderingAdmitsDuplicates(p: Position, members: seq<TeamMember>)
    requires HasMember(members, p)
    ensures CreateOutcomeAsWritten(LombokToString, Name(p), Pass, members) == Ok(p)
  {
    forall q: Position ensures LombokToString(q) != Name(p) {
      NameIsNeverALombokRendering(p, q);
    }
    ValueOfName(p);
  }

  /**
   * With Lombok's rendering a string naming no position gets past the
   * validity check and the duplicate check and fails in `valueOf` instead,
   * with IllegalArgumentException rather than WRONG_POSITION.
   */
  lemma LombokRenderingDefersUnknownNames(s: string, members: seq<TeamMember>)
    requires ValueOf(s).None?
    requires forall q: Position :: LombokToString(q) != s
    ensures CreateOutcomeAsWritten(LombokToString, s, Pass, members) == Err(NoSuchPosition(s))
  {
  }

  /** The intended validity check: WRONG_POSITION exactly when s names no position. */
  function CheckPosition(s: string): (o: Outcome<Failure>)
    ensures o.Pass? <==> exists p: Position :: Name(p) == s
    ensures o.Fail? ==> o.error == Rejected(WrongPosition, "position")
  {
    match CheckPositionAsWritten(Name, s)
    case Fail(_) => Pass
    case Pass => Fail(Rejected(WrongPosition, "position"))
  }

  /**
   * The intended duplicate check compares names: for a string naming a
   * position it fails exactly when some row already holds that position.
   */
  function CheckDuplicate(members: seq<TeamMember>, s: string): (o: Outcome<Failure>)
    ensures ValueOf(s).Some? ==> (o.Fail? <==> HasMember(members, ValueOf(s).value))
    ensures o.Fail? ==> o.error == Rejected(TeamMemberAlreadyExists, "position")
  {
    assert ValueOf(s).Some? ==>
      (CheckDuplicateAsWritten(Name, members, s).Fail? <==> HasMember(members, ValueOf(s).value)) by {
      if ValueOf(s).Some? {
        var p := ValueOf(s).value;
        assert Name(p) == s;
        if HasMember(members, p) {
          var i :| 0 <= i < |members| && members[i].position == p;
          assert Name(members[i].position) == s;
        }
        if CheckDuplicateAsWritten(Name, members, s).Fail? {
          var i :| 0 <= i < |members| && Name(members[i].position) == s;
          NameIsInjective(members[i].position, p);
        }
      }
    }
    CheckDuplicateAsWritten(Name, members, s)
  }

  /** The intended validity check passes exactly the strings `valueOf` accepts. */
  lemma CheckPositionAgreesWithValueOf(s: string)
    ensures CheckPosition(s).Pass? <==> ValueOf(s).Some?
  {
    if ValueOf(s).Some? {
      assert Name(ValueOf(s).value) == s;
    }
  }

  /**
   * For a valid name the intended duplicate check fails exactly when the
   * project already has a team member in that position.
   */
  lemma CheckDuplicateMeansSamePosition(members: seq<TeamMember>, p: Position)
    ensures CheckDuplicate(members, Name(p)).Fail? <==> HasMember(members, p)
  {
    ValueOfName(p);
  }

  /**
   * createTeamMember with the intended checks, in the source's order. It
   * succeeds exactly when the string names a position, the caller owns the
   * project and nobody on the team holds that position yet; the position
   * check comes first and the duplicate check last.
   */
  function CreateOutcome(s: string, owned: Outcome<Failure>, members: seq<TeamMember>): (r: Result<Position, Failure>)
    ensures r.Ok? <==> ValueOf(s).Some? && owned.Pass? && !HasMember(members, ValueOf(s).value)
    ensures r.Ok? ==> ValueOf(s) == Some(r.value)
    ensures ValueOf(s).None? ==> r == Err(Rejected(WrongPosition, "position"))
    ensures ValueOf(s).Some? && owned.Fail? ==> r == Err(owned.error)
    ensures ValueOf(s).Some? && owned.Pass? && HasMember(members, ValueOf(s).value) ==>
      r == Err(Rejected(TeamMemberAlreadyExists, "position"))
  {
    CheckPositionAgreesWithValueOf(s);
    match CheckPosition(s)
    case Fail(e) => Err(e)
    case Pass =>
      var p := ValueOf(s).value;
      assert Name(p) == s;
      CheckDuplicateMeansSamePosition(members, p);
      match owned
      case Fail(e) => Err(e)
      case Pass =>
        match CheckDuplicate(members, s)
        case Fail(e) => Err(e)
        case Pass => Ok(p)
  }

  /**
   * Where the code as written and the intended checks agree: for a string
   * naming a position nobody on the team holds, the intended outcome is
   * exactly the as-written outcome under Lombok's rendering, whether or not
   * the caller owns the project. They differ only on a held position (the
   * code saves a second row) and on a string naming no position (the code
   * fails later, with IllegalArgumentException, or on the ownership check).
   */
  lemma CorrectedAgreesOnUnheldPositions(s: string, owned: Outcome<Failure>, members: seq<TeamMember>)
    requires ValueOf(s).Some? && !HasMember(members, ValueOf(s).value)
    ensures CreateOutcome(s, owned, members) == CreateOutcomeAsWritten(LombokToString, s, owned, members)
  {
    var p := ValueOf(s).value;
    assert Name(p) == s;
    forall q: Position ensures LombokToString(q) != s {
      NameIsNeverALombokRendering(p, q);
    }
  }

  /**
   * updateTeamMember runs the same checks as createTeamMember over all of
   * the project's rows, the edited row included: a request that keeps a
   * row's own position is refused as a duplicate once the caller owns the
   * project.
   */
  lemma KeepingOwnPositionIsADuplicate(members: seq<TeamMember>, i: int)
    requires 0 <= i < |members|
    ensures CreateOutcome(Name(members[i].position), Pass, members) == Err(Rejected(TeamMemberAlreadyExists, "position"))
  {
    ValueOfName(members[i].position);
  }
}

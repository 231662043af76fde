/** The request schemas that the routes check before a service runs. */
module Validation {
  import opened Domain

  // ---- space requests ----

  datatype SpaceRequest = SpaceRequest(
    name: Field<string>,
    description: Field<string>,
    approvalPercentage: Field<real>,
    participationPercentage: Field<real>)

  /** A percentage accepted by the schemas: greater than 50 and less than 101. */
  predicate InPercentRange(p: real)
  {
    50.0 < p < 101.0
  }

  /** A string that the schema library accepts without an explicit allowance for ''. */
  predicate NonEmptyString(f: Field<string>)
  {
    f.Given? && f.value != ""
  }

  /** A percentage key that may be left out or null, but is in range when it carries a number. */
  predicate OptionalPercent(f: Field<real>)
  {
    f.Given? ==> InPercentRange(f.value)
  }

  /** A percentage key that must be present and in range. */
  predicate RequiredPercent(f: Field<real>)
  {
    f.Given? && InPercentRange(f.value)
  }

  /** The body of a create-space request. The description accepts any string, null or nothing. */
  predicate SpaceInfoValid(req: SpaceRequest)
  {
    && NonEmptyString(req.name)
    && RequiredPercent(req.approvalPercentage)
    && RequiredPercent(req.participationPercentage)
  }

  /** The body of an update-space request: every key may be missing or null. */
  predicate UpdateSpaceInfoValid(req: SpaceRequest)
  {
    && (req.name.Given? ==> req.name.value != "")
    && OptionalPercent(req.approvalPercentage)
    && OptionalPercent(req.participationPercentage)
  }

  /** Every body accepted on creation is accepted as an update too. */
  lemma CreateBodyIsUpdateBody(req: SpaceRequest)
    requires SpaceInfoValid(req)
    ensures UpdateSpaceInfoValid(req)
  {
  }

  // ---- member requests ----

  /** One recipient of an invitation: both keys are optional, null and '' are allowed. */
  datatype Recipient = Recipient(phoneNumber: Field<string>, userId: Field<UserId>)

  /** The body of an invitation request: a list of at least one recipient. */
  predicate SendInvitationValid(users: seq<Recipient>)
  {
    |users| >= 1
  }

  /** The wire names of the space roles. */
  function RoleName(r: Role): string
  {
    match r
    case Admin => "ADMIN"
    case Worker => "WORKER"
  }

  /** Reads a role name; any string that is not a role name is refused. */
  function ParseRole(s: string): (r: Option<Role>)
    ensures r.Some? ==> RoleName(r.value) == s
    ensures r.None? ==> forall role: Role :: RoleName(role) != s
  {
    if s == "ADMIN" then Some(Admin) else if s == "WORKER" then Some(Worker) else None
  }

  /** Printing a role and reading it back gives the role again. */
  lemma ParseRoleName(r: Role)
    ensures ParseRole(RoleName(r)) == Some(r)
  {
  }

  datatype UpdateMemberRequest = UpdateMemberRequest(role: Field<string>, name: Field<string>)

  /** The body of an update-member request: a role, if given, must name a role and may not be null;
      the name may be missing, null or ''. */
  predicate UpdateMemberValid(req: UpdateMemberRequest)
  {
    && !req.role.Null?
    && (req.role.Given? ==> ParseRole(req.role.value).Some?)
  }

  /** The role key of a valid update body, read into the enumeration. */
  function RequestedRole(req: UpdateMemberRequest): (r: Field<Role>)
    requires UpdateMemberValid(req)
    ensures !r.Null?
    ensures r.Absent? <==> req.role.Absent?
    ensures r.Given? ==> RoleName(r.value) == req.role.value
  {
    if req.role.Given? then Given(ParseRole(req.role.value).value) else Absent
  }
}

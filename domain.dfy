/** Entities and enumerations shared by the member and space services. */
module Domain {

  type UserId = nat
  type SpaceId = nat
  type MemberId = nat

  datatype Option<+T> = None | Some(value: T)

  /** A key of a JSON request body: missing, explicitly null, or carrying a value. */
  datatype Field<+T> = Absent | Null | Given(value: T)

  /** The value a request field stores once written: null and absent both become None. */
  function FieldValue<T>(f: Field<T>): Option<T>
  {
    if f.Given? then Some(f.value) else None
  }

  datatype Role = Admin | Worker

  datatype InvitationStatus = Sended | Received | Accepted | Rejected | Canceled | Expired

  /** An invitation is still open while it is SENDED or RECEIVED. */
  predicate IsPending(s: InvitationStatus)
  {
    s == Sended || s == Received
  }

  /** The relation between a user and a space (the UserSpace row). */
  datatype Member = Member(
    memberId: MemberId,
    spaceId: SpaceId,
    userId: UserId,
    role: Role,
    invitationStatus: InvitationStatus,
    name: Option<string>,
    createdBy: UserId,
    expiredAt: int,
    deleted: bool)

  datatype Space = Space(
    spaceId: SpaceId,
    name: string,
    description: Option<string>,
    approvalPercentage: real,
    participationPercentage: real,
    ownerId: UserId,
    pictureKey: Option<string>)

  /** A user as returned to other users: the phone number is removed. */
  datatype PublicUser = PublicUser(userId: UserId)

  /** The events the services hand to the notification layer. */
  datatype Notification =
    | NewInvitation(spaceId: SpaceId, userId: UserId)
    | MemberUpdated(spaceId: SpaceId, memberId: MemberId)
    | MemberDeleted(spaceId: SpaceId, userId: UserId, memberId: MemberId)
    | InvitationCanceled(spaceId: SpaceId, userId: UserId, memberId: MemberId)
    | SpaceUpdated(spaceId: SpaceId, updatedBy: Option<UserId>)

  /** The failures a service call can end in. */
  datatype ApiError =
    | InvalidStatus       // "This invitation is not in a valid status."
    | InvitationExpired   // "Invitation expired."
    | NotAMember          // "This user is not a member of this space."
    | AlreadyAccepted     // "This member already accept the invitation"
    | RecordMissing       // a property read on a row the repository did not find
    | UnknownInvitee      // neither a user id nor a usable phone number
    | RepositoryFailure   // a repository call rejected

  datatype Result<+T> = Success(value: T) | Failure(error: ApiError)
}

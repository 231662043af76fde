/** The data store the services read and write: users, spaces and members, plus the log of
    notifications handed to the notification layer and the object-store removals requested. */
module Repository {
  import opened Domain

  /** The row filters of the member repository's list queries. */
  datatype Filter = AnyStatus | AcceptedOnly | PendingOnly

  /** Does a row belong to one of the spaces and pass the filter? Deleted rows never do. */
  predicate Matches(f: Filter, spaceIds: set<SpaceId>, m: Member)
  {
    && m.spaceId in spaceIds
    && !m.deleted
    && match f
       case AnyStatus => true
       case AcceptedOnly => m.invitationStatus == Accepted
       case PendingOnly => IsPending(m.invitationStatus)
  }

  /** The ids below n of the rows that pass the filter, oldest (lowest id) first. */
  function Roster(m: map<MemberId, Member>, spaceIds: set<SpaceId>, f: Filter, n: nat): (r: seq<MemberId>)
    ensures forall i :: 0 <= i < |r| ==> r[i] < n && r[i] in m && Matches(f, spaceIds, m[r[i]])
    ensures forall i, j :: 0 <= i < j < |r| ==> r[i] < r[j]
    ensures forall k :: k in m && k < n && Matches(f, spaceIds, m[k]) ==> k in r
  {
    if n == 0 then []
    else
      var rest := Roster(m, spaceIds, f, n - 1);
      if n - 1 in m && Matches(f, spaceIds, m[n - 1]) then rest + [n - 1] else rest
  }

  /** A list query comes back empty exactly when no row below n passes the filter. */
  lemma RosterEmpty(m: map<MemberId, Member>, spaceIds: set<SpaceId>, f: Filter, n: nat)
    ensures Roster(m, spaceIds, f, n) == [] <==> forall k: MemberId :: k in m && k < n ==> !Matches(f, spaceIds, m[k])
  {
    var r: seq<MemberId> := Roster(m, spaceIds, f, n);
    if r != [] {
      assert r[0] in m && r[0] < n && Matches(f, spaceIds, m[r[0]]);
    }
  }

  /** The rows named by a list of ids, in the same order. */
  function Rows(m: map<MemberId, Member>, ids: seq<MemberId>): seq<Member>
    requires forall i :: 0 <= i < |ids| ==> ids[i] in m
  {
    seq(|ids|, i requires 0 <= i < |ids| => m[ids[i]])
  }

  /** Two live rows for the same user in the same space. */
  predicate SamePair(a: Member, b: Member)
  {
    !a.deleted && !b.deleted && a.userId == b.userId && a.spaceId == b.spaceId
  }

  /** The live row of a user in a space. */
  predicate IsRowOf(m: Member, userId: UserId, spaceId: SpaceId)
  {
    !m.deleted && m.userId == userId && m.spaceId == spaceId
  }

  /** The user has a live row in the space. */
  ghost predicate HasLiveRow(m: map<MemberId, Member>, userId: UserId, spaceId: SpaceId)
  {
    exists k :: k in m && IsRowOf(m[k], userId, spaceId)
  }

  /** Some user holds the phone number. */
  ghost predicate HoldsPhone(users: map<UserId, Option<string>>, phone: string)
  {
    exists u :: u in users && users[u] == Some(phone)
  }

  class Store {
    var members: map<MemberId, Member>
    var users: map<UserId, Option<string>>    // user id to phone number
    var spaces: map<SpaceId, Space>
    var notifications: seq<Notification>
    var removedPictureKeys: seq<string>       // object-store removals requested
    var nextMemberId: nat
    var nextUserId: nat
    var nextSpaceId: nat

    /** The store's invariant: ids are issued by the counters, every row knows its own id and
        space, at most one live row exists per (user, space) pair and phone numbers are unique. */
    ghost predicate Valid()
      reads this`members, this`users, this`spaces, this`nextMemberId, this`nextUserId, this`nextSpaceId
    {
      && (forall k :: k in members ==>
            k < nextMemberId && members[k].memberId == k && members[k].spaceId in spaces)
      && (forall u :: u in users ==> u < nextUserId)
      && (forall s :: s in spaces ==> s < nextSpaceId && spaces[s].spaceId == s)
      && (forall a, b :: a in members && b in members && SamePair(members[a], members[b]) ==> a == b)
      && (forall a, b :: a in users && b in users && users[a].Some? && users[a] == users[b] ==> a == b)
    }

    constructor ()
      ensures Valid()
      ensures members == map[] && users == map[] && spaces == map[]
      ensures notifications == [] && removedPictureKeys == []
    {
      members, users, spaces := map[], map[], map[];
      notifications, removedPictureKeys := [], [];
      nextMemberId, nextUserId, nextSpaceId := 0, 0, 0;
    }

    /** The caller holds a live membership of the space, whatever its status. */
    ghost predicate IsMemberOf(memberId: MemberId, spaceId: SpaceId)
      reads this`members
    {
      memberId in members && !members[memberId].deleted && members[memberId].spaceId == spaceId
    }

    /** The user holds a live ADMIN membership of the space. */
    ghost predicate IsAdmin(userId: UserId, spaceId: SpaceId)
      reads this`members
    {
      exists k :: k in members && IsRowOf(members[k], userId, spaceId) && members[k].role == Admin
    }

    /** The live row of a user in a space, if there is one. */
    method FindByUserIdAndSpaceId(userId: UserId, spaceId: SpaceId) returns (r: Option<Member>)
      requires Valid()
      ensures r.Some? <==> HasLiveRow(members, userId, spaceId)
      ensures r.Some? ==> r.value.memberId in members && members[r.value.memberId] == r.value
      ensures r.Some? ==> IsRowOf(r.value, userId, spaceId)
    {
      if k :| k in members && IsRowOf(members[k], userId, spaceId) {
        r := Some(members[k]);
      } else {
        r := None;
      }
    }

    /** The user holding a phone number, if there is one. */
    method FindOneByPhoneNumber(phone: string) returns (r: Option<UserId>)
      requires Valid()
      ensures r.Some? <==> HoldsPhone(users, phone)
      ensures r.Some? ==> r.value in users && users[r.value] == Some(phone)
    {
      if u :| u in users && users[u] == Some(phone) {
        r := Some(u);
      } else {
        r := None;
      }
    }

    /** A live row by id; deleted rows are not found. */
    method FindById(memberId: MemberId) returns (r: Option<Member>)
      requires Valid()
      ensures r.Some? <==> memberId in members && !members[memberId].deleted
      ensures r.Some? ==> r.value == members[memberId] && r.value.memberId == memberId
    {
      if memberId in members && !members[memberId].deleted {
        r := Some(members[memberId]);
      } else {
        r := None;
      }
    }

    /** Inserts a user holding only a phone number. */
    method CreateUser(phone: string) returns (userId: UserId)
      requires Valid() && !HoldsPhone(users, phone)
      modifies this`users, this`nextUserId
      ensures Valid()
      ensures userId == old(nextUserId) && userId !in old(users)
      ensures users == old(users)[userId := Some(phone)] && nextUserId == old(nextUserId) + 1
    {
      userId := nextUserId;
      users := users[userId := Some(phone)];
      nextUserId := nextUserId + 1;
    }

    /** Inserts a member row for a pair that has no live row yet. */
    method CreateMember(spaceId: SpaceId, userId: UserId, status: InvitationStatus, role: Role,
                        createdBy: UserId, expiredAt: int) returns (m: Member)
      requires Valid() && spaceId in spaces && !HasLiveRow(members, userId, spaceId)
      modifies this`members, this`nextMemberId
      ensures Valid()
      ensures m == Member(old(nextMemberId), spaceId, userId, role, status, None, createdBy, expiredAt, false)
      ensures members == old(members)[m.memberId := m] && nextMemberId == old(nextMemberId) + 1
      ensures m.memberId !in old(members)
    {
      m := Member(nextMemberId, spaceId, userId, role, status, None, createdBy, expiredAt, false);
      members := members[m.memberId := m];
      nextMemberId := nextMemberId + 1;
    }

    method UpdateInvitationStatus(memberId: MemberId, status: InvitationStatus)
      requires Valid() && memberId in members
      modifies this`members
      ensures Valid()
      ensures members == old(members)[memberId := old(members)[memberId].(invitationStatus := status)]
    {
      members := members[memberId := members[memberId].(invitationStatus := status)];
    }

    /** Writes name and role: a key the request carries is written (null included), a missing one
        is left as it was. */
    method Update(memberId: MemberId, name: Field<string>, role: Field<Role>)
      requires Valid() && memberId in members && !role.Null?
      modifies this`members
      ensures Valid()
      ensures members == old(members)[memberId := Updated(old(members)[memberId], name, role)]
    {
      members := members[memberId := Updated(members[memberId], name, role)];
    }

    /** Soft delete: the row stays, marked deleted. */
    method Delete(memberId: MemberId)
      requires Valid() && memberId in members
      modifies this`members
      ensures Valid()
      ensures members == old(members)[memberId := old(members)[memberId].(deleted := true)]
    {
      members := members[memberId := members[memberId].(deleted := true)];
    }

    /** Inserts a space owned by its creator, with no picture yet. */
    method CreateSpace(name: string, description: Option<string>, approvalPercentage: real,
                       participationPercentage: real, ownerId: UserId) returns (s: Space)
      requires Valid()
      modifies this`spaces, this`nextSpaceId
      ensures Valid()
      ensures s == Space(old(nextSpaceId), name, description, approvalPercentage,
                         participationPercentage, ownerId, None)
      ensures spaces == old(spaces)[s.spaceId := s] && nextSpaceId == old(nextSpaceId) + 1
      ensures s.spaceId !in old(spaces)
      ensures forall k :: k in members ==> members[k].spaceId != s.spaceId
    {
      s := Space(nextSpaceId, name, description, approvalPercentage, participationPercentage, ownerId, None);
      spaces := spaces[s.spaceId := s];
      nextSpaceId := nextSpaceId + 1;
    }

    method UpdatePictureKey(spaceId: SpaceId, pictureKey: string)
      requires Valid() && spaceId in spaces
      modifies this`spaces
      ensures Valid()
      ensures spaces == old(spaces)[spaceId := old(spaces)[spaceId].(pictureKey := Some(pictureKey))]
    {
      spaces := spaces[spaceId := spaces[spaceId].(pictureKey := Some(pictureKey))];
    }

    /** Stores the row that the name, description and percentage update leaves behind. How the
        repository treats a null key is not visible, so the row written is given by the caller. */
    method UpdateNameAndDescriptionAndPercentages(stored: Space)
      requires Valid() && stored.spaceId in spaces
      modifies this`spaces
      ensures Valid()
      ensures spaces == old(spaces)[stored.spaceId := stored]
    {
      spaces := spaces[stored.spaceId := stored];
    }

    /** Requests removal of a stored object; the object store itself is outside the model. */
    method RemoveFile(key: string)
      modifies this`removedPictureKeys
      ensures removedPictureKeys == old(removedPictureKeys) + [key]
    {
      removedPictureKeys := removedPictureKeys + [key];
    }

    method Notify(n: Notification)
      modifies this`notifications
      ensures notifications == old(notifications) + [n]
    {
      notifications := notifications + [n];
    }
  }

  /** A row after an update of its name and role. */
  function Updated(m: Member, name: Field<string>, role: Field<Role>): (r: Member)
    ensures r.memberId == m.memberId && r.spaceId == m.spaceId && r.userId == m.userId
    ensures r.invitationStatus == m.invitationStatus && r.deleted == m.deleted
    ensures r.createdBy == m.createdBy && r.expiredAt == m.expiredAt
    ensures r.name == (if name.Absent? then m.name else FieldValue(name))
    ensures r.role == (if role.Given? then role.value else m.role)
  {
    m.(name := if name.Absent? then m.name else FieldValue(name),
       role := if role.Given? then role.value else m.role)
  }

  /** Repeating an update changes nothing more. */
  lemma UpdatedIdempotent(m: Member, name: Field<string>, role: Field<Role>)
    ensures Updated(Updated(m, name, role), name, role) == Updated(m, name, role)
  {
  }

  /** Passing a row's own name back and setting a role changes only the role. */
  lemma UpdatedKeepsName(m: Member, role: Role)
    ensures Updated(m, if m.name.Some? then Given(m.name.value) else Null, Given(role)) == m.(role := role)
  {
  }
}

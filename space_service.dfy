/** Space lifecycle: creation, the first view of an invitation, picture and info updates, and
    the id lists of the roster aggregation. */
module SpaceService {
  import opened Domain
  import opened Validation
  import opened Repository

  // ---- roster aggregation (getSpacesData): which ids each batch fetch is given ----

  /** The proposal statuses the aggregation tests for; the enumeration has others. */
  datatype ProposalStatus = Open | Closed | Other

  datatype Proposal = Proposal(proposalId: nat, manifestoId: nat, status: ProposalStatus)

  datatype ManifestoComment = ManifestoComment(manifestoCommentId: nat, manifestoId: nat)

  /** The user ids the user batch is fetched for: one per member row, in row order. */
  function MemberUserIds(members: seq<Member>): (r: seq<UserId>)
    ensures |r| == |members|
    ensures forall u :: u in r <==> exists m :: m in members && m.userId == u
  {
    if members == [] then []
    else [members[0].userId] + MemberUserIds(members[1..])
  }

  /** The proposals whose participations are fetched: those that are OPEN or CLOSED. */
  function OpenOrClosedIds(ps: seq<Proposal>): (r: seq<nat>)
    ensures |r| <= |ps|
    ensures forall x :: x in r <==>
      exists p :: p in ps && p.proposalId == x && (p.status == Open || p.status == Closed)
  {
    if ps == [] then []
    else
      (if ps[0].status == Open || ps[0].status == Closed then [ps[0].proposalId] else [])
      + OpenOrClosedIds(ps[1..])
  }

  /** The proposals whose votes are fetched: the CLOSED ones. */
  function ClosedIds(ps: seq<Proposal>): (r: seq<nat>)
    ensures |r| <= |ps|
    ensures forall x :: x in r <==> exists p :: p in ps && p.proposalId == x && p.status == Closed
  {
    if ps == [] then []
    else (if ps[0].status == Closed then [ps[0].proposalId] else []) + ClosedIds(ps[1..])
  }

  /** The manifestos fetched: one per proposal, in proposal order. */
  function ManifestoIds(ps: seq<Proposal>): (r: seq<nat>)
    ensures |r| == |ps|
    ensures forall x :: x in r <==> exists p :: p in ps && p.manifestoId == x
  {
    if ps == [] then [] else [ps[0].manifestoId] + ManifestoIds(ps[1..])
  }

  /** The comments whose votes are fetched: every fetched comment, in order. */
  function CommentIds(cs: seq<ManifestoComment>): (r: seq<nat>)
    ensures |r| == |cs|
    ensures forall x :: x in r <==> exists c :: c in cs && c.manifestoCommentId == x
  {
    if cs == [] then [] else [cs[0].manifestoCommentId] + CommentIds(cs[1..])
  }

  /** a can be obtained from b by dropping elements. */
  predicate IsSubsequence<T(==)>(a: seq<T>, b: seq<T>)
    decreases |b|
  {
    if b == [] then a == []
    else (a != [] && a[0] == b[0] && IsSubsequence(a[1..], b[1..])) || IsSubsequence(a, b[1..])
  }

  /** The vote fetch asks for a subsequence of what the participation fetch asks for. */
  lemma {:induction false} ClosedIdsWithinOpenOrClosed(ps: seq<Proposal>)
    ensures IsSubsequence(ClosedIds(ps), OpenOrClosedIds(ps))
  {
    if ps != [] {
      ClosedIdsWithinOpenOrClosed(ps[1..]);
      var c, o := ClosedIds(ps[1..]), OpenOrClosedIds(ps[1..]);
      if ps[0].status == Closed {
        assert ClosedIds(ps) == [ps[0].proposalId] + c;
        assert OpenOrClosedIds(ps) == [ps[0].proposalId] + o;
        assert ([ps[0].proposalId] + c)[1..] == c;
        assert ([ps[0].proposalId] + o)[1..] == o;
      } else if ps[0].status == Open {
        assert ClosedIds(ps) == c;
        assert OpenOrClosedIds(ps) == [ps[0].proposalId] + o;
        assert ([ps[0].proposalId] + o)[1..] == o;
      } else {
        assert ClosedIds(ps) == c;
        assert OpenOrClosedIds(ps) == o;
      }
    }
  }

  /** The ids each batch fetch of the aggregation is given. */
  datatype FetchPlan = FetchPlan(
    userIds: seq<UserId>,
    participationProposalIds: seq<nat>,
    voteProposalIds: seq<nat>,
    manifestoIds: seq<nat>,
    commentVoteIds: seq<nat>)

  /** The id lists of the aggregation over the members, proposals and comments already fetched. */
  function SpacesDataPlan(members: seq<Member>, proposals: seq<Proposal>,
                          comments: seq<ManifestoComment>): (p: FetchPlan)
    ensures forall u :: u in p.userIds <==> exists m :: m in members && m.userId == u
    ensures IsSubsequence(p.voteProposalIds, p.participationProposalIds)
    ensures forall x :: x in p.voteProposalIds ==> x in p.participationProposalIds
    ensures |p.manifestoIds| == |proposals|
    ensures forall x :: x in p.manifestoIds <==> exists q :: q in proposals && q.manifestoId == x
    ensures forall x :: x in p.commentVoteIds <==> exists c :: c in comments && c.manifestoCommentId == x
  {
    ClosedIdsWithinOpenOrClosed(proposals);
    FetchPlan(MemberUserIds(members), OpenOrClosedIds(proposals), ClosedIds(proposals),
              ManifestoIds(proposals), CommentIds(comments))
  }

  // ---- the operations on the store ----

  /** Creates a space and admits its creator as an ACCEPTED ADMIN. The expiry date is the one the
      member repository assigns. */
  method Create(st: Store, creator: UserId, req: SpaceRequest, expiresAt: int)
    returns (space: Space, member: Member)
    requires st.Valid() && SpaceInfoValid(req)
    modifies st`spaces, st`nextSpaceId, st`members, st`nextMemberId
    ensures st.Valid()
    ensures space.spaceId !in old(st.spaces) && st.spaces == old(st.spaces)[space.spaceId := space]
    ensures space.name == req.name.value && space.description == FieldValue(req.description)
    ensures space.approvalPercentage == req.approvalPercentage.value
    ensures space.participationPercentage == req.participationPercentage.value
    ensures InPercentRange(space.approvalPercentage) && InPercentRange(space.participationPercentage)
    ensures space.ownerId == creator && space.pictureKey == None
    ensures member.spaceId == space.spaceId && member.userId == creator && member.createdBy == creator
    ensures member.invitationStatus == Accepted && member.role == Admin && !member.deleted
    ensures st.members == old(st.members)[member.memberId := member] && member.memberId !in old(st.members)
    ensures st.IsAdmin(creator, space.spaceId)
    ensures Roster(st.members, {space.spaceId}, AnyStatus, st.nextMemberId) == [member.memberId]
  {
    space := st.CreateSpace(req.name.value, FieldValue(req.description), req.approvalPercentage.value,
                            req.participationPercentage.value, creator);
    member := st.CreateMember(space.spaceId, creator, Accepted, Admin, creator, expiresAt);
    assert st.members[member.memberId] == member;
    SoleRow(st.members, space.spaceId, member, st.nextMemberId);
  }

  /** When a single row matches, the roster of the space is that row alone. */
  lemma {:induction false} SoleRow(m: map<MemberId, Member>, spaceId: SpaceId, row: Member, n: nat)
    requires row.memberId in m && m[row.memberId] == row && row.memberId < n
    requires Matches(AnyStatus, {spaceId}, row)
    requires forall k :: k in m && k != row.memberId ==> m[k].spaceId != spaceId
    ensures Roster(m, {spaceId}, AnyStatus, n) == [row.memberId]
  {
    var below := Roster(m, {spaceId}, AnyStatus, n - 1);
    if n - 1 == row.memberId {
      NoRowBelow(m, spaceId, n - 1);
      assert Roster(m, {spaceId}, AnyStatus, n) == below + [n - 1];
    } else {
      assert !(n - 1 in m && Matches(AnyStatus, {spaceId}, m[n - 1]));
      assert Roster(m, {spaceId}, AnyStatus, n) == below;
      SoleRow(m, spaceId, row, n - 1);
    }
  }

  lemma {:induction false} NoRowBelow(m: map<MemberId, Member>, spaceId: SpaceId, n: nat)
    requires forall k :: k in m && k < n ==> m[k].spaceId != spaceId
    ensures Roster(m, {spaceId}, AnyStatus, n) == []
  {
    if n > 0 {
      NoRowBelow(m, spaceId, n - 1);
      assert !(n - 1 in m && Matches(AnyStatus, {spaceId}, m[n - 1]));
    }
  }

  datatype SpaceInfo = SpaceInfo(space: Space, member: Member, invitedBy: Option<PublicUser>)

  /** An invitee's first view of the space moves a SENDED invitation to RECEIVED and names the
      inviter; any other status is returned untouched with no inviter. */
  method GetSpaceInfo(st: Store, spaceId: SpaceId, memberId: MemberId) returns (r: Result<SpaceInfo>)
    requires st.Valid() && spaceId in st.spaces && st.IsMemberOf(memberId, spaceId)
    modifies st`members, st`notifications
    ensures st.Valid()
    ensures old(st.members[memberId]).invitationStatus == Sended ==>
      && st.members == old(st.members)[memberId := old(st.members[memberId]).(invitationStatus := Received)]
      && st.notifications == old(st.notifications) + [MemberUpdated(spaceId, memberId)]
      && (old(st.members[memberId]).createdBy in st.users ==>
            r == Success(SpaceInfo(st.spaces[spaceId], st.members[memberId],
                                   Some(PublicUser(old(st.members[memberId]).createdBy)))))
      && (old(st.members[memberId]).createdBy !in st.users ==> r == Failure(RecordMissing))
    ensures old(st.members[memberId]).invitationStatus != Sended ==>
      && unchanged(st)
      && r == Success(SpaceInfo(st.spaces[spaceId], st.members[memberId], None))
  {
    var member := st.members[memberId];
    if member.invitationStatus == Sended {
      st.UpdateInvitationStatus(memberId, Received);
      member := member.(invitationStatus := Received);
      st.Notify(MemberUpdated(spaceId, memberId));
      if member.createdBy !in st.users {
        // reading a property of the missing inviter throws after the write
        return Failure(RecordMissing);
      }
      return Success(SpaceInfo(st.spaces[spaceId], member, Some(PublicUser(member.createdBy))));
    }
    r := Success(SpaceInfo(st.spaces[spaceId], member, None));
  }

  /** Does a key count as present? A missing, null or empty key does not. */
  predicate HasKey(key: Option<string>)
  {
    key.Some? && key.value != ""
  }

  /** Replaces the picture key, requests removal of the old picture if there was one and announces
      the change. Only an ADMIN of the space may call it. */
  method UploadPicture(st: Store, ghost actor: UserId, spaceId: SpaceId, fileKey: string) returns (space: Space)
    requires st.Valid() && spaceId in st.spaces && st.IsAdmin(actor, spaceId)
    modifies st`spaces, st`removedPictureKeys, st`notifications
    ensures st.Valid()
    ensures space == old(st.spaces[spaceId]).(pictureKey := Some(fileKey))
    ensures st.spaces == old(st.spaces)[spaceId := space]
    ensures st.removedPictureKeys ==
      old(st.removedPictureKeys) + (if HasKey(old(st.spaces[spaceId]).pictureKey)
                                    then [old(st.spaces[spaceId]).pictureKey.value] else [])
    ensures st.notifications == old(st.notifications) + [SpaceUpdated(spaceId, None)]
    ensures st.members == old(st.members)
  {
    space := st.spaces[spaceId];
    var oldKey := space.pictureKey;
    space := space.(pictureKey := Some(fileKey));
    st.UpdatePictureKey(spaceId, fileKey);
    if HasKey(oldKey) {
      st.RemoveFile(oldKey.value);
    }
    st.Notify(SpaceUpdated(spaceId, None));
  }

  /** The row left behind by the update carries every key the request gives a value, and the
      columns the update does not write. */
  ghost predicate PatchWritten(old_: Space, patch: SpaceRequest, stored: Space)
  {
    && stored.spaceId == old_.spaceId
    && stored.ownerId == old_.ownerId && stored.pictureKey == old_.pictureKey
    && (patch.name.Given? ==> stored.name == patch.name.value)
    && (patch.description.Given? ==> stored.description == Some(patch.description.value))
    && (patch.approvalPercentage.Given? ==> stored.approvalPercentage == patch.approvalPercentage.value)
    && (patch.participationPercentage.Given? ==>
          stored.participationPercentage == patch.participationPercentage.value)
  }

  /** Writes name, description and percentages, returns the row read back and announces the
      change. Only an ADMIN of the space may call it. The row the repository leaves is `stored`. */
  method UpdateSpaceInfo(st: Store, spaceId: SpaceId, patch: SpaceRequest, actor: UserId, stored: Space)
    returns (updated: Space)
    requires st.Valid() && spaceId in st.spaces && st.IsAdmin(actor, spaceId)
    requires UpdateSpaceInfoValid(patch) && PatchWritten(st.spaces[spaceId], patch, stored)
    modifies st`spaces, st`notifications
    ensures st.Valid()
    ensures updated == stored && st.spaces == old(st.spaces)[spaceId := updated]
    ensures st.notifications == old(st.notifications) + [SpaceUpdated(spaceId, Some(actor))]
    ensures st.members == old(st.members)
    ensures patch.approvalPercentage.Given? ==> InPercentRange(updated.approvalPercentage)
    ensures patch.participationPercentage.Given? ==> InPercentRange(updated.participationPercentage)
  {
    st.UpdateNameAndDescriptionAndPercentages(stored);
    updated := st.spaces[spaceId];
    st.Notify(SpaceUpdated(spaceId, Some(actor)));
  }

  /** The spaces of a user: those where the user holds a live row, whatever its status. */
  function UserSpaceIds(st: Store, userId: UserId): (r: set<SpaceId>)
    reads st
    ensures forall s :: s in r <==> HasLiveRow(st.members, userId, s)
  {
    set k | k in st.members && !st.members[k].deleted && st.members[k].userId == userId
      :: st.members[k].spaceId
  }

  /** Every space a user holds a row of exists. */
  lemma UserSpacesExist(st: Store, userId: UserId)
    requires st.Valid()
    ensures UserSpaceIds(st, userId) <= st.spaces.Keys
  {
  }

  datatype UserSpaces = UserSpaces(spaceIds: set<SpaceId>, members: seq<Member>, userIds: seq<UserId>)

  /** Everything a client needs about the user's spaces: the spaces, every live row of those
      spaces and the users behind the rows. */
  method GetAllUserSpaces(st: Store, userId: UserId) returns (r: UserSpaces)
    requires st.Valid()
    ensures forall s :: s in r.spaceIds <==> HasLiveRow(st.members, userId, s)
    ensures forall i :: 0 <= i < |r.members| ==>
      && r.members[i].spaceId in r.spaceIds && !r.members[i].deleted
      && r.members[i].memberId in st.members && st.members[r.members[i].memberId] == r.members[i]
    ensures forall k :: (k in st.members && !st.members[k].deleted && st.members[k].spaceId in r.spaceIds
      ==> st.members[k] in r.members)
    ensures forall k :: (k in st.members && !st.members[k].deleted && st.members[k].userId == userId
      ==> st.members[k] in r.members)
    ensures forall u :: u in r.userIds <==> exists m :: m in r.members && m.userId == u
  {
    var spaceIds := UserSpaceIds(st, userId);
    var ids := Roster(st.members, spaceIds, AnyStatus, st.nextMemberId);
    var rows := Rows(st.members, ids);
    RowsOfRoster(st, spaceIds, ids, rows);
    forall k | k in st.members && !st.members[k].deleted && st.members[k].userId == userId
      ensures st.members[k].spaceId in spaceIds
    {
      assert IsRowOf(st.members[k], userId, st.members[k].spaceId);
    }
    r := UserSpaces(spaceIds, rows, MemberUserIds(rows));
  }

  /** The rows of a roster are exactly the live rows of its spaces. */
  lemma RowsOfRoster(st: Store, spaceIds: set<SpaceId>, ids: seq<MemberId>, rows: seq<Member>)
    requires st.Valid()
    requires ids == Roster(st.members, spaceIds, AnyStatus, st.nextMemberId)
    requires rows == Rows(st.members, ids)
    ensures forall i :: 0 <= i < |rows| ==>
      && rows[i].spaceId in spaceIds && !rows[i].deleted
      && rows[i].memberId in st.members && st.members[rows[i].memberId] == rows[i]
    ensures forall k :: (k in st.members && !st.members[k].deleted && st.members[k].spaceId in spaceIds
      ==> st.members[k] in rows)
  {
    forall k | k in st.members && !st.members[k].deleted && st.members[k].spaceId in spaceIds
      ensures st.members[k] in rows
    {
      assert Matches(AnyStatus, spaceIds, st.members[k]);
      var i :| 0 <= i < |ids| && ids[i] == k;
      assert rows[i] == st.members[k];
    }
  }
}

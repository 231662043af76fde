/** The invitation state machine: creating invitations, and the accept, reject, cancel, update,
    delete and leave transitions on member rows. */
module MemberService {
  import opened Domain
  import opened Validation
  import opened Repository
  import opened SpaceService

  // ---- invitations ----

  /** A recipient names a user directly, or by a phone number of at least ten characters. */
  predicate Resolvable(req: Recipient)
  {
    req.userId.Given? || (req.phoneNumber.Given? && |req.phoneNumber.value| >= 10)
  }

  /** The user an invitation went to is the one the recipient names: the given user id, or else
      the user holding the given phone number. */
  predicate ResolvesTo(req: Recipient, userId: UserId, users: map<UserId, Option<string>>)
  {
    if req.userId.Given? then userId == req.userId.value
    else req.phoneNumber.Given? && userId in users && users[userId] == Some(req.phoneNumber.value)
  }

  /** The user a resolvable recipient names: the given user id; else the user holding the phone
      number; else a user created with it. */
  method ResolveRecipient(st: Store, req: Recipient) returns (userId: UserId)
    requires st.Valid() && Resolvable(req)
    modifies st`users, st`nextUserId
    ensures st.Valid()
    ensures ResolvesTo(req, userId, st.users) && UsersKept(old(st.users), st.users)
    ensures req.userId.Given? || HoldsPhone(old(st.users), req.phoneNumber.value) ==>
      st.users == old(st.users) && st.nextUserId == old(st.nextUserId)
    ensures !req.userId.Given? && !HoldsPhone(old(st.users), req.phoneNumber.value) ==>
      && userId == old(st.nextUserId) && userId !in old(st.users)
      && st.users == old(st.users)[userId := Some(req.phoneNumber.value)]
      && st.nextUserId == old(st.nextUserId) + 1
  {
    if req.userId.Given? {
      return req.userId.value;
    }
    var found := st.FindOneByPhoneNumber(req.phoneNumber.value);
    if found.Some? {
      userId := found.value;
    } else {
      userId := st.CreateUser(req.phoneNumber.value);
    }
  }

  /** The user's live row in the space, or a new SENDED WORKER invitation announced by two events. */
  method FindOrInvite(st: Store, userId: UserId, spaceId: SpaceId, createdBy: UserId, expiresAt: int)
    returns (m: Member)
    requires st.Valid() && spaceId in st.spaces
    modifies st`members, st`nextMemberId, st`notifications
    ensures st.Valid()
    ensures IsRowOf(m, userId, spaceId) && m.memberId in st.members && st.members[m.memberId] == m
    ensures RowsKept(old(st.members), st.members)
    ensures AddedInvitations(old(st.members), st.members, spaceId, createdBy, expiresAt)
    ensures HasLiveRow(old(st.members), userId, spaceId) ==>
      && st.members == old(st.members) && st.nextMemberId == old(st.nextMemberId)
      && st.notifications == old(st.notifications)
    ensures !HasLiveRow(old(st.members), userId, spaceId) ==>
      && m == Member(old(st.nextMemberId), spaceId, userId, Worker, Sended, None, createdBy, expiresAt, false)
      && st.members == old(st.members)[m.memberId := m]
      && st.nextMemberId == old(st.nextMemberId) + 1
      && st.notifications == old(st.notifications)
           + [NewInvitation(spaceId, userId), MemberUpdated(spaceId, m.memberId)]
  {
    var existing := st.FindByUserIdAndSpaceId(userId, spaceId);
    if existing.Some? {
      return existing.value;
    }
    m := st.CreateMember(spaceId, userId, Sended, Worker, createdBy, expiresAt);
    st.Notify(NewInvitation(spaceId, userId));
    st.Notify(MemberUpdated(spaceId, m.memberId));
  }

  /** The recipient names nobody, or names a user who already holds a live row of the space. */
  ghost predicate AlreadyInvited(members: map<MemberId, Member>, users: map<UserId, Option<string>>,
                                 req: Recipient, spaceId: SpaceId)
  {
    || !Resolvable(req)
    || (req.userId.Given? && HasLiveRow(members, req.userId.value, spaceId))
    || (&& !req.userId.Given? && HoldsPhone(users, req.phoneNumber.value)
        && forall u :: u in users && users[u] == Some(req.phoneNumber.value) ==> HasLiveRow(members, u, spaceId))
  }

  /** The two events announcing each row with an id in [lo, hi), in creation order. */
  function InviteEvents(m: map<MemberId, Member>, spaceId: SpaceId, lo: nat, hi: nat): seq<Notification>
    requires forall k :: lo <= k < hi ==> k in m
    decreases hi
  {
    if hi <= lo then []
    else InviteEvents(m, spaceId, lo, hi - 1) + [NewInvitation(spaceId, m[hi - 1].userId), MemberUpdated(spaceId, hi - 1)]
  }

  /** The announcements depend only on the rows they announce. */
  lemma InviteEventsKept(m0: map<MemberId, Member>, m1: map<MemberId, Member>, spaceId: SpaceId, lo: nat, hi: nat)
    requires forall k :: lo <= k < hi ==> k in m0
    requires RowsKept(m0, m1)
    ensures InviteEvents(m1, spaceId, lo, hi) == InviteEvents(m0, spaceId, lo, hi)
    decreases hi
  {
    if hi > lo {
      InviteEventsKept(m0, m1, spaceId, lo, hi - 1);
    }
  }

  /** Invites one recipient to a space, or returns the row the recipient already has there.
      The repository's own failure for this recipient is the oracle `fails`, and it happens before
      any write; the expiry date is the one the repository assigns. */
  method CreateInvitation(st: Store, req: Recipient, spaceId: SpaceId, createdBy: UserId,
                          fails: bool, expiresAt: int) returns (r: Result<Member>)
    requires st.Valid() && spaceId in st.spaces
    modifies st`members, st`nextMemberId, st`users, st`nextUserId, st`notifications
    ensures st.Valid()
    ensures r.Failure? ==> unchanged(st)
    // fails exactly on a repository failure or a recipient naming nobody; rows and users are
    // only added; an added row is the SENDED WORKER row returned, with its two events; an added
    // user holds the recipient's phone number; a recipient already holding a row changes nothing
    ensures InviteStep(old(SnapshotOf(st)), SnapshotOf(st), r, req, fails, spaceId, createdBy, expiresAt)
    ensures AlreadyInvited(old(st.members), old(st.users), req, spaceId) ==>
      st.nextMemberId == old(st.nextMemberId) && st.nextUserId == old(st.nextUserId)
    // the user: given, found by phone, or created holding that phone
    ensures r.Success? && (req.userId.Given? || HoldsPhone(old(st.users), req.phoneNumber.value)) ==>
      st.users == old(st.users) && st.nextUserId == old(st.nextUserId)
    ensures r.Success? && !req.userId.Given? && !HoldsPhone(old(st.users), req.phoneNumber.value) ==>
      && r.value.userId == old(st.nextUserId) && r.value.userId !in old(st.users)
      && st.users == old(st.users)[r.value.userId := Some(req.phoneNumber.value)]
      && st.nextUserId == old(st.nextUserId) + 1
    // the member row: the existing one untouched, or one new SENDED WORKER row and two events
    ensures r.Success? && HasLiveRow(old(st.members), r.value.userId, spaceId) ==>
      && st.members == old(st.members) && st.nextMemberId == old(st.nextMemberId)
      && st.notifications == old(st.notifications)
    ensures r.Success? && !HasLiveRow(old(st.members), r.value.userId, spaceId) ==>
      && r.value == Member(old(st.nextMemberId), spaceId, r.value.userId, Worker, Sended, None,
                           createdBy, expiresAt, false)
      && st.members == old(st.members)[r.value.memberId := r.value]
      && st.nextMemberId == old(st.nextMemberId) + 1
      && st.notifications == old(st.notifications)
           + [NewInvitation(spaceId, r.value.userId), MemberUpdated(spaceId, r.value.memberId)]
  {
    if fails {
      return Failure(RepositoryFailure);
    }
    if !Resolvable(req) {
      return Failure(UnknownInvitee);
    }
    var userId := ResolveRecipient(st, req);
    ghost var afterUsers := st.users;
    var m := FindOrInvite(st, userId, spaceId, createdBy, expiresAt);
    assert st.users == afterUsers;
    r := Success(m);
    InviteStepHolds(old(SnapshotOf(st)), SnapshotOf(st), userId, m, req, spaceId, createdBy, expiresAt);
  }

  /** A resolution followed by a find-or-invite is one step of the batch. */
  lemma InviteStepHolds(s1: Snapshot, s2: Snapshot, userId: UserId, m: Member, req: Recipient,
                        spaceId: SpaceId, inviter: UserId, expiresAt: int)
    requires Resolvable(req)
    requires ResolvesTo(req, userId, s2.users) && UsersKept(s1.users, s2.users)
    requires req.userId.Given? || HoldsPhone(s1.users, req.phoneNumber.value) ==> s2.users == s1.users
    requires !req.userId.Given? && !HoldsPhone(s1.users, req.phoneNumber.value) ==>
      userId !in s1.users && s2.users == s1.users[userId := Some(req.phoneNumber.value)]
    requires forall a, b :: a in s2.users && b in s2.users && s2.users[a].Some? && s2.users[a] == s2.users[b] ==> a == b
    requires IsRowOf(m, userId, spaceId) && m.memberId in s2.members && s2.members[m.memberId] == m
    requires RowsKept(s1.members, s2.members) && AddedInvitations(s1.members, s2.members, spaceId, inviter, expiresAt)
    requires HasLiveRow(s1.members, userId, spaceId) ==>
      s2.members == s1.members && s2.nextMemberId == s1.nextMemberId && s2.notifications == s1.notifications
    requires !HasLiveRow(s1.members, userId, spaceId) ==>
      && m.memberId == s1.nextMemberId && s2.members == s1.members[s1.nextMemberId := m]
      && s2.nextMemberId == s1.nextMemberId + 1
      && s2.notifications == s1.notifications + [NewInvitation(spaceId, userId), MemberUpdated(spaceId, s1.nextMemberId)]
    ensures InviteStep(s1, s2, Success(m), req, false, spaceId, inviter, expiresAt)
  {
    if !HasLiveRow(s1.members, userId, spaceId) {
      assert InviteEvents(s2.members, spaceId, s1.nextMemberId, s2.nextMemberId)
          == [NewInvitation(spaceId, userId), MemberUpdated(spaceId, s1.nextMemberId)];
    }
  }

  /** The values of the successful results, in their order. */
  function Successful(rs: seq<Result<Member>>): (r: seq<Member>)
    ensures |r| <= |rs|
    ensures forall x :: x in r <==> Success(x) in rs
  {
    if rs == [] then []
    else (if rs[0].Success? then [rs[0].value] else []) + Successful(rs[1..])
  }

  /** Filtering commutes with concatenation, so the kept results stay in input order. */
  lemma {:induction false} SuccessfulConcat(a: seq<Result<Member>>, b: seq<Result<Member>>)
    ensures Successful(a + b) == Successful(a) + Successful(b)
  {
    if a == [] {
      assert a + b == b;
    } else {
      assert (a + b)[1..] == a[1..] + b;
      SuccessfulConcat(a[1..], b);
    }
  }

  /** Every row of the first map is in the second, unchanged. */
  predicate RowsKept(m0: map<MemberId, Member>, m1: map<MemberId, Member>)
  {
    forall k :: k in m0 ==> k in m1 && m1[k] == m0[k]
  }

  /** Every user of the first map is in the second, with the same phone number. */
  predicate UsersKept(u0: map<UserId, Option<string>>, u1: map<UserId, Option<string>>)
  {
    forall u :: u in u0 ==> u in u1 && u1[u] == u0[u]
  }

  /** Every row added between the two maps is a live SENDED WORKER invitation to the space by the
      inviter, under its own id, with no name and the given expiry. */
  predicate AddedInvitations(m0: map<MemberId, Member>, m1: map<MemberId, Member>, spaceId: SpaceId,
                             inviter: UserId, expiresAt: int)
  {
    forall k :: k in m1 && k !in m0 ==>
      m1[k] == Member(k, spaceId, m1[k].userId, Worker, Sended, None, inviter, expiresAt, false)
  }

  /** A result has been placed in the store: its row is live in the space and went to the
      recipient's user. */
  predicate Placed(members: map<MemberId, Member>, users: map<UserId, Option<string>>, m: Member,
                   req: Recipient, spaceId: SpaceId)
  {
    && m.memberId in members && members[m.memberId] == m
    && IsRowOf(m, m.userId, spaceId)
    && ResolvesTo(req, m.userId, users)
  }

  /** A placed result stays placed while rows and users are only added. */
  lemma PlacedKept(m0: map<MemberId, Member>, u0: map<UserId, Option<string>>,
                   m1: map<MemberId, Member>, u1: map<UserId, Option<string>>,
                   m: Member, req: Recipient, spaceId: SpaceId)
    requires Placed(m0, u0, m, req, spaceId) && RowsKept(m0, m1) && UsersKept(u0, u1)
    ensures Placed(m1, u1, m, req, spaceId)
  {
  }

  /** Each result so far failed exactly when its recipient's repository call failed or the
      recipient named nobody. */
  predicate FailuresMatch(results: seq<Result<Member>>, recipients: seq<Recipient>, fails: seq<bool>)
  {
    && |results| <= |recipients| && |fails| == |recipients|
    && forall j :: 0 <= j < |results| ==> (results[j].Failure? <==> fails[j] || !Resolvable(recipients[j]))
  }

  /** Each successful result so far is placed in the store for its recipient. */
  predicate AllPlaced(members: map<MemberId, Member>, users: map<UserId, Option<string>>,
                      results: seq<Result<Member>>, recipients: seq<Recipient>, spaceId: SpaceId)
  {
    && |results| <= |recipients|
    && forall j :: 0 <= j < |results| && results[j].Success? ==>
         Placed(members, users, results[j].value, recipients[j], spaceId)
  }

  lemma FailuresMatchSnoc(results: seq<Result<Member>>, result: Result<Member>,
                          recipients: seq<Recipient>, fails: seq<bool>)
    requires FailuresMatch(results, recipients, fails) && |results| < |recipients|
    requires result.Failure? <==> fails[|results|] || !Resolvable(recipients[|results|])
    ensures FailuresMatch(results + [result], recipients, fails)
  {
    var r := results + [result];
    forall j | 0 <= j < |r|
      ensures r[j].Failure? <==> fails[j] || !Resolvable(recipients[j])
    {
      if j < |results| {
        assert r[j] == results[j];
      }
    }
  }

  lemma AllPlacedSnoc(m0: map<MemberId, Member>, u0: map<UserId, Option<string>>,
                      m1: map<MemberId, Member>, u1: map<UserId, Option<string>>,
                      results: seq<Result<Member>>, result: Result<Member>,
                      recipients: seq<Recipient>, spaceId: SpaceId)
    requires AllPlaced(m0, u0, results, recipients, spaceId) && |results| < |recipients|
    requires RowsKept(m0, m1) && UsersKept(u0, u1)
    requires result.Success? ==> Placed(m1, u1, result.value, recipients[|results|], spaceId)
    ensures AllPlaced(m1, u1, results + [result], recipients, spaceId)
  {
    var r := results + [result];
    forall j | 0 <= j < |r| && r[j].Success?
      ensures Placed(m1, u1, r[j].value, recipients[j], spaceId)
    {
      if j < |results| {
        assert r[j] == results[j];
        PlacedKept(m0, u0, m1, u1, results[j].value, recipients[j], spaceId);
      }
    }
  }

  /** The phone numbers of the recipients named by a usable phone number alone. */
  function PhonesOf(recipients: seq<Recipient>): set<Option<string>>
  {
    set req | req in recipients && !req.userId.Given? && Resolvable(req) :: Some(req.phoneNumber.value)
  }

  /** Every row added between the two maps is one of the results. */
  predicate AddedReturned(m0: map<MemberId, Member>, m1: map<MemberId, Member>, results: seq<Result<Member>>)
  {
    forall k :: k in m1 && k !in m0 ==> Success(m1[k]) in results
  }

  /** The part of the store an invitation touches: rows, users, log, and the next member id. */
  datatype Snapshot = Snapshot(members: map<MemberId, Member>, users: map<UserId, Option<string>>,
                               notifications: seq<Notification>, nextMemberId: nat)

  ghost function SnapshotOf(st: Store): Snapshot
    reads st`members, st`users, st`notifications, st`nextMemberId
  {
    Snapshot(st.members, st.users, st.notifications, st.nextMemberId)
  }

  /** One call of createInvitation, from state s1 to state s2: the contract of `CreateInvitation`.
      It fails exactly on a repository failure or a recipient naming nobody; rows and users are
      only added; the rows added take the next ids, are the result, and are announced by their two
      events; a user added holds the recipient's usable phone number; and a recipient who already
      holds a row changes nothing. */
  ghost predicate InviteStep(s1: Snapshot, s2: Snapshot, result: Result<Member>, req: Recipient, fail: bool,
                             spaceId: SpaceId, inviter: UserId, expiresAt: int)
  {
    && (result.Failure? <==> fail || !Resolvable(req))
    && (result.Success? ==> Placed(s2.members, s2.users, result.value, req, spaceId))
    && RowsKept(s1.members, s2.members) && UsersKept(s1.users, s2.users)
    && AddedInvitations(s1.members, s2.members, spaceId, inviter, expiresAt)
    && s1.nextMemberId <= s2.nextMemberId
    && (forall k :: s1.nextMemberId <= k < s2.nextMemberId ==> k in s2.members)
    && s2.notifications == s1.notifications + InviteEvents(s2.members, spaceId, s1.nextMemberId, s2.nextMemberId)
    && (forall k :: k in s2.members && k !in s1.members ==> s1.nextMemberId <= k && result == Success(s2.members[k]))
    && (forall u :: u in s2.users && u !in s1.users ==>
          !req.userId.Given? && Resolvable(req) && s2.users[u] == Some(req.phoneNumber.value))
    && (AlreadyInvited(s1.members, s1.users, req, spaceId) ==>
          s2.members == s1.members && s2.users == s1.users && s2.notifications == s1.notifications)
  }

  /** What the calls for the first |results| recipients have done to the rows and users, from the
      state s0 before the batch to the state s. */
  ghost predicate BatchKept(s0: Snapshot, s: Snapshot, results: seq<Result<Member>>, recipients: seq<Recipient>,
                            fails: seq<bool>, spaceId: SpaceId, inviter: UserId, expiresAt: int)
  {
    && FailuresMatch(results, recipients, fails)
    && AllPlaced(s.members, s.users, results, recipients, spaceId)
    && RowsKept(s0.members, s.members) && UsersKept(s0.users, s.users)
    && AddedInvitations(s0.members, s.members, spaceId, inviter, expiresAt)
    && AddedReturned(s0.members, s.members, results)
  }

  /** What the calls so far have done to the ids and the log, from s0 to s: the new rows take the
      next ids, and each is announced by its two events. */
  ghost predicate BatchLogged(s0: Snapshot, s: Snapshot, spaceId: SpaceId)
  {
    && s0.nextMemberId <= s.nextMemberId
    && (forall k :: s0.nextMemberId <= k < s.nextMemberId ==> k in s.members)
    && s.notifications == s0.notifications + InviteEvents(s.members, spaceId, s0.nextMemberId, s.nextMemberId)
    && (forall k :: k in s.members && k !in s0.members ==> s0.nextMemberId <= k)
  }

  /** What the calls for the first i recipients have done to the users, from s0 to s: a new user
      holds the usable phone number of one of those recipients, and nothing changes while every
      recipient already holds a row. */
  ghost predicate BatchUsers(s0: Snapshot, s: Snapshot, i: nat, recipients: seq<Recipient>, spaceId: SpaceId)
    requires i <= |recipients|
  {
    && (forall x :: x in s.users && x !in s0.users ==> s.users[x] in PhonesOf(recipients[..i]))
    && ((forall j :: 0 <= j < |recipients| ==> AlreadyInvited(s0.members, s0.users, recipients[j], spaceId)) ==>
          s.members == s0.members && s.users == s0.users && s.notifications == s0.notifications)
  }

  /** One more call keeps the account of rows and users. */
  lemma BatchKeptSnoc(s0: Snapshot, s1: Snapshot, s2: Snapshot, results: seq<Result<Member>>, result: Result<Member>,
                      recipients: seq<Recipient>, fails: seq<bool>, spaceId: SpaceId, inviter: UserId, expiresAt: int)
    requires BatchKept(s0, s1, results, recipients, fails, spaceId, inviter, expiresAt)
    requires |results| < |recipients|
    requires InviteStep(s1, s2, result, recipients[|results|], fails[|results|], spaceId, inviter, expiresAt)
    ensures BatchKept(s0, s2, results + [result], recipients, fails, spaceId, inviter, expiresAt)
  {
    FailuresMatchSnoc(results, result, recipients, fails);
    AllPlacedSnoc(s1.members, s1.users, s2.members, s2.users, results, result, recipients, spaceId);
    KeptTrans(s0.members, s1.members, s2.members, s0.users, s1.users, s2.users, spaceId, inviter, expiresAt);
    AddedReturnedSnoc(s0.members, s1.members, s2.members, results, result);
  }

  /** One more call keeps the account of ids and events. */
  lemma BatchLoggedSnoc(s0: Snapshot, s1: Snapshot, s2: Snapshot, result: Result<Member>, req: Recipient,
                        fail: bool, spaceId: SpaceId, inviter: UserId, expiresAt: int)
    requires BatchLogged(s0, s1, spaceId)
    requires InviteStep(s1, s2, result, req, fail, spaceId, inviter, expiresAt)
    ensures BatchLogged(s0, s2, spaceId)
  {
    InviteEventsKept(s1.members, s2.members, spaceId, s0.nextMemberId, s1.nextMemberId);
    InviteEventsSplit(s2.members, spaceId, s0.nextMemberId, s1.nextMemberId, s2.nextMemberId);
  }

  /** One more call keeps the account of users. */
  lemma BatchUsersSnoc(s0: Snapshot, s1: Snapshot, s2: Snapshot, i: nat, result: Result<Member>,
                       recipients: seq<Recipient>, fails: seq<bool>, spaceId: SpaceId, inviter: UserId, expiresAt: int)
    requires i < |recipients| && |fails| == |recipients|
    requires BatchUsers(s0, s1, i, recipients, spaceId)
    requires InviteStep(s1, s2, result, recipients[i], fails[i], spaceId, inviter, expiresAt)
    ensures BatchUsers(s0, s2, i + 1, recipients, spaceId)
  {
    PhonesSnoc(recipients, i, s0.users, s1.users, s2.users);
  }

  lemma AddedReturnedSnoc(m0: map<MemberId, Member>, m1: map<MemberId, Member>, m2: map<MemberId, Member>,
                          results: seq<Result<Member>>, result: Result<Member>)
    requires AddedReturned(m0, m1, results) && RowsKept(m1, m2)
    requires forall k :: k in m2 && k !in m1 ==> result == Success(m2[k])
    ensures AddedReturned(m0, m2, results + [result])
  {
    forall k | k in m2 && k !in m0
      ensures Success(m2[k]) in results + [result]
    {
      if k in m1 {
        assert Success(m1[k]) in results;
      }
    }
  }

  /** The announcements of consecutive id ranges concatenate. */
  lemma InviteEventsSplit(m: map<MemberId, Member>, spaceId: SpaceId, lo: nat, mid: nat, hi: nat)
    requires lo <= mid <= hi && forall k :: lo <= k < hi ==> k in m
    ensures InviteEvents(m, spaceId, lo, mid) + InviteEvents(m, spaceId, mid, hi) == InviteEvents(m, spaceId, lo, hi)
    decreases hi
  {
    if mid < hi {
      InviteEventsSplit(m, spaceId, lo, mid, hi - 1);
    }
  }

  /** The users added so far hold phone numbers of the recipients handled so far. */
  lemma PhonesSnoc(recipients: seq<Recipient>, i: nat, u0: map<UserId, Option<string>>,
                   u1: map<UserId, Option<string>>, u2: map<UserId, Option<string>>)
    requires i < |recipients|
    requires forall u :: u in u1 && u !in u0 ==> u1[u] in PhonesOf(recipients[..i])
    requires UsersKept(u1, u2)
    requires forall u :: u in u2 && u !in u1 ==>
      !recipients[i].userId.Given? && Resolvable(recipients[i]) && u2[u] == Some(recipients[i].phoneNumber.value)
    ensures forall u :: u in u2 && u !in u0 ==> u2[u] in PhonesOf(recipients[..i + 1])
  {
    assert recipients[..i + 1] == recipients[..i] + [recipients[i]];
    forall u | u in u2 && u !in u0
      ensures u2[u] in PhonesOf(recipients[..i + 1])
    {
      if u in u1 {
        var req :| req in recipients[..i] && !req.userId.Given? && Resolvable(req)
                   && u1[u] == Some(req.phoneNumber.value);
        assert req in recipients[..i + 1];
      } else {
        assert recipients[i] in recipients[..i + 1];
      }
    }
  }

  /** Invites every recipient in turn. A recipient whose invitation fails is left out of the
      result and does not stop the others. Only an ADMIN of the space may call it. */
  method SendInvitations(st: Store, inviter: UserId, spaceId: SpaceId, recipients: seq<Recipient>,
                         fails: seq<bool>, expiresAt: int)
    returns (invitations: seq<Member>, ghost outcomes: seq<Result<Member>>)
    requires st.Valid() && spaceId in st.spaces && st.IsAdmin(inviter, spaceId)
    requires SendInvitationValid(recipients) && |fails| == |recipients|
    modifies st`members, st`nextMemberId, st`users, st`nextUserId, st`notifications
    ensures st.Valid()
    ensures |outcomes| == |recipients| && invitations == Successful(outcomes)
    ensures forall i :: 0 <= i < |recipients| ==>
      (outcomes[i].Failure? <==> fails[i] || !Resolvable(recipients[i]))
    ensures forall i :: 0 <= i < |recipients| && outcomes[i].Success? ==>
      Placed(st.members, st.users, outcomes[i].value, recipients[i], spaceId)
    // rows and users are only added, never changed
    ensures RowsKept(old(st.members), st.members) && UsersKept(old(st.users), st.users)
    // the rows added are SENDED WORKER invitations by the inviter with the batch's expiry, take
    // the next ids, and are returned
    ensures AddedInvitations(old(st.members), st.members, spaceId, inviter, expiresAt)
    ensures old(st.nextMemberId) <= st.nextMemberId
    ensures forall k :: k in st.members && k !in old(st.members) <==> old(st.nextMemberId) <= k < st.nextMemberId
    ensures forall k :: k in st.members && k !in old(st.members) ==> st.members[k] in invitations
    // the users added hold the usable phone number of a recipient named by phone
    ensures forall u :: u in st.users && u !in old(st.users) ==> st.users[u] in PhonesOf(recipients)
    // each added row is announced by its two events, in creation order, and nothing else is
    ensures st.notifications ==
      old(st.notifications) + InviteEvents(st.members, spaceId, old(st.nextMemberId), st.nextMemberId)
    // when every recipient already holds a row, nothing changes
    ensures (forall i :: 0 <= i < |recipients| ==> AlreadyInvited(old(st.members), old(st.users), recipients[i], spaceId)) ==>
      st.members == old(st.members) && st.users == old(st.users) && st.notifications == old(st.notifications)
  {
    ghost var s0 := SnapshotOf(st);
    var results: seq<Result<Member>> := [];
    var i := 0;
    while i < |recipients|
      invariant 0 <= i <= |recipients| && |results| == i
      invariant st.Valid() && spaceId in st.spaces
      invariant BatchKept(s0, SnapshotOf(st), results, recipients, fails, spaceId, inviter, expiresAt)
      invariant BatchLogged(s0, SnapshotOf(st), spaceId)
      invariant BatchUsers(s0, SnapshotOf(st), i, recipients, spaceId)
    {
      ghost var s1 := SnapshotOf(st);
      var result := CreateInvitation(st, recipients[i], spaceId, inviter, fails[i], expiresAt);
      ghost var s2 := SnapshotOf(st);
      BatchKeptSnoc(s0, s1, s2, results, result, recipients, fails, spaceId, inviter, expiresAt);
      BatchLoggedSnoc(s0, s1, s2, result, recipients[i], fails[i], spaceId, inviter, expiresAt);
      BatchUsersSnoc(s0, s1, s2, i, result, recipients, fails, spaceId, inviter, expiresAt);
      results := results + [result];
      i := i + 1;
    }
    assert recipients[..i] == recipients;
    invitations := Successful(results);
    outcomes := results;
  }

  lemma KeptTrans(m0: map<MemberId, Member>, m1: map<MemberId, Member>, m2: map<MemberId, Member>,
                  u0: map<UserId, Option<string>>, u1: map<UserId, Option<string>>, u2: map<UserId, Option<string>>,
                  spaceId: SpaceId, inviter: UserId, expiresAt: int)
    requires RowsKept(m0, m1) && RowsKept(m1, m2) && UsersKept(u0, u1) && UsersKept(u1, u2)
    requires AddedInvitations(m0, m1, spaceId, inviter, expiresAt) && AddedInvitations(m1, m2, spaceId, inviter, expiresAt)
    ensures RowsKept(m0, m2) && UsersKept(u0, u2) && AddedInvitations(m0, m2, spaceId, inviter, expiresAt)
  {
  }

  // ---- accepting and rejecting ----

  /** The rows of other users, in order. */
  function WithoutUser(rows: seq<Member>, userId: UserId): (r: seq<Member>)
    ensures |r| <= |rows|
    ensures forall m :: m in r <==> m in rows && m.userId != userId
  {
    if rows == [] then []
    else (if rows[0].userId != userId then [rows[0]] else []) + WithoutUser(rows[1..], userId)
  }

  /** The roster an invitee receives on accepting: every other user's row, then the invitee's
      own row last, so exactly one entry carries the invitee's user id. */
  function OthersThenSelf(rows: seq<Member>, current: Member): (r: seq<Member>)
    ensures |r| >= 1 && r[|r| - 1] == current
    ensures forall i :: 0 <= i < |r| - 1 ==> r[i].userId != current.userId && r[i] in rows
    ensures forall m :: m in rows && m.userId != current.userId ==> m in r
  {
    var others := WithoutUser(rows, current.userId);
    assert forall i :: 0 <= i < |others| ==> others[i] in others;
    others + [current]
  }

  /** An invitation is past its deadline once the current time is strictly later. */
  predicate IsInvitationExpired(m: Member, now: int)
  {
    now > m.expiredAt
  }

  datatype AcceptResult = AcceptResult(space: Space, members: seq<Member>, userIds: seq<UserId>)

  /** Accepts a SENDED or RECEIVED invitation at time `now`. Past the deadline the row is marked
      EXPIRED instead and the call fails. */
  method AcceptSpaceInvitation(st: Store, memberId: MemberId, spaceId: SpaceId, now: int)
    returns (r: Result<AcceptResult>)
    requires st.Valid() && spaceId in st.spaces && st.IsMemberOf(memberId, spaceId)
    modifies st`members, st`notifications
    ensures st.Valid()
    ensures !IsPending(old(st.members[memberId]).invitationStatus) ==>
      r == Failure(InvalidStatus) && unchanged(st)
    ensures IsPending(old(st.members[memberId]).invitationStatus)
            && IsInvitationExpired(old(st.members[memberId]), now) ==>
      && r == Failure(InvitationExpired)
      && st.members == old(st.members)[memberId := old(st.members[memberId]).(invitationStatus := Expired)]
      && st.notifications == old(st.notifications) + [MemberUpdated(spaceId, memberId)]
    ensures IsPending(old(st.members[memberId]).invitationStatus)
            && !IsInvitationExpired(old(st.members[memberId]), now) ==>
      var accepted := old(st.members[memberId]).(invitationStatus := Accepted);
      var roster := Rows(old(st.members), Roster(old(st.members), {spaceId}, AnyStatus, st.nextMemberId));
      && st.members == old(st.members)[memberId := accepted]
      && st.notifications == old(st.notifications) + [MemberUpdated(spaceId, memberId)]
      && r == Success(AcceptResult(st.spaces[spaceId], OthersThenSelf(roster, accepted), MemberUserIds(roster)))
    ensures r.Success? ==> forall i :: 0 <= i < |r.value.members| ==>
      (r.value.members[i].userId == st.members[memberId].userId <==> i == |r.value.members| - 1)
    ensures r.Success? ==> st.members[memberId].invitationStatus == Accepted
  {
    var current := st.members[memberId];
    if !IsPending(current.invitationStatus) {
      return Failure(InvalidStatus);
    }
    if IsInvitationExpired(current, now) {
      st.UpdateInvitationStatus(memberId, Expired);
      st.Notify(MemberUpdated(spaceId, memberId));
      return Failure(InvitationExpired);
    }
    var roster := Rows(st.members, Roster(st.members, {spaceId}, AnyStatus, st.nextMemberId));
    var users := MemberUserIds(roster);
    st.UpdateInvitationStatus(memberId, Accepted);
    current := current.(invitationStatus := Accepted);
    st.Notify(MemberUpdated(spaceId, memberId));
    r := Success(AcceptResult(st.spaces[spaceId], OthersThenSelf(roster, current), users));
  }

  /** Rejects a RECEIVED invitation; in any other status the call changes nothing. */
  method RejectSpaceInvitation(st: Store, memberId: MemberId, spaceId: SpaceId) returns (member: Member)
    requires st.Valid() && spaceId in st.spaces && st.IsMemberOf(memberId, spaceId)
    modifies st`members, st`notifications
    ensures st.Valid()
    ensures old(st.members[memberId]).invitationStatus == Received ==>
      && member == old(st.members[memberId]).(invitationStatus := Rejected)
      && st.members == old(st.members)[memberId := member]
      && st.notifications == old(st.notifications) + [MemberUpdated(spaceId, memberId)]
    ensures old(st.members[memberId]).invitationStatus != Received ==>
      member == old(st.members[memberId]) && unchanged(st)
  {
    member := st.members[memberId];
    if member.invitationStatus == Received {
      st.UpdateInvitationStatus(memberId, Rejected);
      member := member.(invitationStatus := Rejected);
      st.Notify(MemberUpdated(spaceId, memberId));
    }
  }

  // ---- admin operations on a member ----

  /** Writes name and role of a live row. Only an ADMIN of the space may call it. The row is
      looked up by id alone, in whichever space it lives. */
  method UpdateMember(st: Store, actor: UserId, spaceId: SpaceId, memberId: MemberId,
                      info: UpdateMemberRequest) returns (r: Result<()>)
    requires st.Valid() && spaceId in st.spaces && st.IsAdmin(actor, spaceId)
    requires UpdateMemberValid(info)
    modifies st`members, st`notifications
    ensures st.Valid()
    ensures memberId in old(st.members) && !old(st.members[memberId]).deleted ==>
      && r == Success(())
      && st.members == old(st.members)[memberId :=
           Updated(old(st.members[memberId]), info.name, RequestedRole(info))]
      && st.notifications == old(st.notifications) + [MemberUpdated(spaceId, memberId)]
    ensures !(memberId in old(st.members) && !old(st.members[memberId]).deleted) ==>
      r == Failure(NotAMember) && unchanged(st)
  {
    var member := st.FindById(memberId);
    if member.Some? {
      st.Update(memberId, info.name, RequestedRole(info));
      st.Notify(MemberUpdated(spaceId, memberId));
      r := Success(());
    } else {
      r := Failure(NotAMember);
    }
  }

  /** Removes an ACCEPTED member. Only an ADMIN of the space may call it. */
  method DeleteMember(st: Store, memberId: MemberId, actor: UserId, spaceId: SpaceId)
    returns (r: Result<Member>)
    requires st.Valid() && spaceId in st.spaces && st.IsAdmin(actor, spaceId)
    modifies st`members, st`notifications
    ensures st.Valid()
    ensures memberId in old(st.members) && !old(st.members[memberId]).deleted
            && old(st.members[memberId]).invitationStatus == Accepted ==>
      && r == Success(old(st.members[memberId]).(deleted := true))
      && st.members == old(st.members)[memberId := r.value]
      && st.notifications == old(st.notifications)
           + [MemberUpdated(spaceId, memberId), MemberDeleted(spaceId, r.value.userId, memberId)]
    ensures !(memberId in old(st.members) && !old(st.members[memberId]).deleted
              && old(st.members[memberId]).invitationStatus == Accepted) ==>
      r == Failure(NotAMember) && unchanged(st)
  {
    var member := st.FindById(memberId);
    if member.Some? && member.value.invitationStatus == Accepted {
      st.Delete(memberId);
      var removed := member.value.(deleted := true);
      st.Notify(MemberUpdated(spaceId, memberId));
      st.Notify(MemberDeleted(spaceId, removed.userId, memberId));
      r := Success(removed);
    } else {
      r := Failure(NotAMember);
    }
  }

  /** Cancels a SENDED or RECEIVED invitation. Only an ADMIN of the space may call it. An id the
      repository does not find makes the call fail before any write. */
  method CancelInvitation(st: Store, memberId: MemberId, actor: UserId, spaceId: SpaceId)
    returns (r: Result<Member>)
    requires st.Valid() && spaceId in st.spaces && st.IsAdmin(actor, spaceId)
    modifies st`members, st`notifications
    ensures st.Valid()
    ensures !(memberId in old(st.members) && !old(st.members[memberId]).deleted) ==>
      r == Failure(RecordMissing) && unchanged(st)
    ensures memberId in old(st.members) && !old(st.members[memberId]).deleted ==>
      if IsPending(old(st.members[memberId]).invitationStatus) then
        && r == Success(old(st.members[memberId]).(invitationStatus := Canceled))
        && st.members == old(st.members)[memberId := r.value]
        && st.notifications == old(st.notifications)
             + [MemberUpdated(spaceId, memberId), InvitationCanceled(spaceId, r.value.userId, memberId)]
      else
        r == Failure(AlreadyAccepted) && unchanged(st)
  {
    var member := st.FindById(memberId);
    if member.None? {
      return Failure(RecordMissing);
    }
    if IsPending(member.value.invitationStatus) {
      st.UpdateInvitationStatus(memberId, Canceled);
      var canceled := member.value.(invitationStatus := Canceled);
      st.Notify(MemberUpdated(spaceId, memberId));
      st.Notify(InvitationCanceled(spaceId, canceled.userId, memberId));
      r := Success(canceled);
    } else {
      r := Failure(AlreadyAccepted);
    }
  }

  // ---- leaving ----

  /** The rows named by the ids, soft deleted. */
  function SoftDeleted(m: map<MemberId, Member>, ids: seq<MemberId>): (r: map<MemberId, Member>)
    ensures r.Keys == m.Keys
    ensures forall k :: k in m ==> r[k] == if k in ids then m[k].(deleted := true) else m[k]
  {
    map k | k in m :: if k in ids then m[k].(deleted := true) else m[k]
  }

  /** After a soft deletion, a list query returns the rows it returned before, less the deleted ones. */
  lemma SoftDeletedRoster(m: map<MemberId, Member>, ids: seq<MemberId>, spaceIds: set<SpaceId>, f: Filter, n: nat)
    ensures forall k :: k in Roster(SoftDeleted(m, ids), spaceIds, f, n) <==> k in Roster(m, spaceIds, f, n) && k !in ids
  {
    var before, after := Roster(m, spaceIds, f, n), Roster(SoftDeleted(m, ids), spaceIds, f, n);
    forall k | k in after
      ensures k in before && k !in ids
    {
      var i :| 0 <= i < |after| && after[i] == k;
    }
    forall k | k in before && k !in ids
      ensures k in after
    {
      var i :| 0 <= i < |before| && before[i] == k;
    }
  }

  /** Deleting the next row of the list is one more soft delete. */
  lemma SoftDeletedStep(m: map<MemberId, Member>, ids: seq<MemberId>, i: nat, cur: map<MemberId, Member>)
    requires i < |ids| && ids[i] in m && cur == SoftDeleted(m, ids[..i])
    ensures cur[ids[i] := cur[ids[i]].(deleted := true)] == SoftDeleted(m, ids[..i + 1])
  {
    var k := ids[i];
    assert ids[..i + 1] == ids[..i] + [k];
    var a, b := SoftDeleted(m, ids[..i + 1]), cur[k := cur[k].(deleted := true)];
    assert a.Keys == b.Keys;
    forall j | j in a
      ensures a[j] == b[j]
    {
      assert j in ids[..i + 1] <==> j in ids[..i] || j == k;
    }
  }

  /** Deletes every SENDED or RECEIVED row of the space. */
  method DeleteInvitations(st: Store, spaceId: SpaceId)
    requires st.Valid()
    modifies st`members
    ensures st.Valid()
    ensures st.members == SoftDeleted(old(st.members), Roster(old(st.members), {spaceId}, PendingOnly, st.nextMemberId))
  {
    var invited := Roster(st.members, {spaceId}, PendingOnly, st.nextMemberId);
    ghost var before := st.members;
    var i := 0;
    while i < |invited|
      invariant 0 <= i <= |invited|
      invariant st.Valid()
      invariant st.members == SoftDeleted(before, invited[..i])
    {
      SoftDeletedStep(before, invited, i, st.members);
      st.Delete(invited[i]);
      i := i + 1;
    }
    assert invited[..i] == invited;
  }

  /** After the open invitations of a space are deleted, none is left. */
  lemma NoPendingLeft(m: map<MemberId, Member>, spaceId: SpaceId, n: nat)
    requires forall k :: k in m ==> k < n
    ensures Roster(SoftDeleted(m, Roster(m, {spaceId}, PendingOnly, n)), {spaceId}, PendingOnly, n) == []
  {
    var invited := Roster(m, {spaceId}, PendingOnly, n);
    var after := SoftDeleted(m, invited);
    forall k | k in after && k < n
      ensures !Matches(PendingOnly, {spaceId}, after[k])
    {
      if k !in invited {
        assert after[k] == m[k];
      }
    }
    RosterEmpty(after, {spaceId}, PendingOnly, n);
  }

  /** Soft deleting rows never makes a row ACCEPTED: a space without ACCEPTED rows keeps none. */
  lemma NoAcceptedRevived(m: map<MemberId, Member>, spaceId: SpaceId, ids: seq<MemberId>, n: nat)
    requires Roster(m, {spaceId}, AcceptedOnly, n) == []
    ensures Roster(SoftDeleted(m, ids), {spaceId}, AcceptedOnly, n) == []
  {
    RosterEmpty(m, {spaceId}, AcceptedOnly, n);
    RosterEmpty(SoftDeleted(m, ids), {spaceId}, AcceptedOnly, n);
  }

  /** Some live ACCEPTED ADMIN row exists in the space. */
  ghost predicate HasAcceptedAdmin(m: map<MemberId, Member>, spaceId: SpaceId)
  {
    exists k :: k in m && Matches(AcceptedOnly, {spaceId}, m[k]) && m[k].role == Admin
  }

  /** The rows once the leaver's row is deleted. */
  function WithLeaverDeleted(m: map<MemberId, Member>, memberId: MemberId): map<MemberId, Member>
    requires memberId in m
  {
    m[memberId := m[memberId].(deleted := true)]
  }

  /** An ADMIN left, ACCEPTED members remain, and none of them is an ADMIN. */
  predicate Promotes(m: map<MemberId, Member>, spaceId: SpaceId, memberId: MemberId, n: nat)
    requires memberId in m
  {
    var left := WithLeaverDeleted(m, memberId);
    var accepted := Roster(left, {spaceId}, AcceptedOnly, n);
    && m[memberId].role == Admin && |accepted| > 0
    && forall i :: 0 <= i < |accepted| ==> left[accepted[i]].role != Admin
  }

  /** The rows after a member leaves: an orphaned space gets its oldest ACCEPTED member as ADMIN,
      and an emptied space loses its open invitations. */
  function AfterLeave(m: map<MemberId, Member>, spaceId: SpaceId, memberId: MemberId, n: nat): map<MemberId, Member>
    requires memberId in m
  {
    var left := WithLeaverDeleted(m, memberId);
    var accepted := Roster(left, {spaceId}, AcceptedOnly, n);
    if |accepted| == 0 then SoftDeleted(left, Roster(left, {spaceId}, PendingOnly, n))
    else if Promotes(m, spaceId, memberId, n) then left[accepted[0] := left[accepted[0]].(role := Admin)]
    else left
  }

  /** The events a member leaving emits: none for an emptied space; otherwise one for the promoted
      member, if any, and one for the leaver. */
  function LeaveEvents(m: map<MemberId, Member>, spaceId: SpaceId, memberId: MemberId, n: nat): seq<Notification>
    requires memberId in m
  {
    var accepted := Roster(WithLeaverDeleted(m, memberId), {spaceId}, AcceptedOnly, n);
    if |accepted| == 0 then []
    else (if Promotes(m, spaceId, memberId, n) then [MemberUpdated(spaceId, accepted[0])] else [])
         + [MemberUpdated(spaceId, memberId)]
  }

  /** Leaving deletes the leaver's row, and ACCEPTED members remain exactly when some other
      ACCEPTED member was there. */
  lemma {:induction false} LeaveDeletesLeaver(m: map<MemberId, Member>, spaceId: SpaceId, memberId: MemberId, n: nat)
    requires memberId in m && forall k :: k in m ==> k < n
    ensures memberId in AfterLeave(m, spaceId, memberId, n) && AfterLeave(m, spaceId, memberId, n)[memberId].deleted
    ensures Roster(AfterLeave(m, spaceId, memberId, n), {spaceId}, AcceptedOnly, n) != [] <==>
      exists k :: k in m && k != memberId && Matches(AcceptedOnly, {spaceId}, m[k])
  {
    var left := WithLeaverDeleted(m, memberId);
    var accepted := Roster(left, {spaceId}, AcceptedOnly, n);
    var after := AfterLeave(m, spaceId, memberId, n);
    if |accepted| == 0 {
      NoAcceptedRevived(left, spaceId, Roster(left, {spaceId}, PendingOnly, n), n);
      RosterEmpty(left, {spaceId}, AcceptedOnly, n);
      forall k | k in m && k != memberId
        ensures !Matches(AcceptedOnly, {spaceId}, m[k])
      {
        assert left[k] == m[k];
      }
    } else {
      var first := accepted[0];
      assert first != memberId && first in m && Matches(AcceptedOnly, {spaceId}, m[first]);
      assert Matches(AcceptedOnly, {spaceId}, after[first]);
      assert first in Roster(after, {spaceId}, AcceptedOnly, n);
    }
  }

  /** A space that still has ACCEPTED members after someone leaves keeps an ACCEPTED ADMIN
      whenever it had one, and also whenever the leaver was one. */
  lemma {:induction false} LeaveKeepsAdmin(m: map<MemberId, Member>, spaceId: SpaceId, memberId: MemberId, n: nat)
    requires memberId in m && forall k :: k in m ==> k < n
    requires HasAcceptedAdmin(m, spaceId) || m[memberId].role == Admin
    requires Roster(AfterLeave(m, spaceId, memberId, n), {spaceId}, AcceptedOnly, n) != []
    ensures HasAcceptedAdmin(AfterLeave(m, spaceId, memberId, n), spaceId)
  {
    var left := WithLeaverDeleted(m, memberId);
    var accepted := Roster(left, {spaceId}, AcceptedOnly, n);
    var after := AfterLeave(m, spaceId, memberId, n);
    if |accepted| == 0 {
      NoAcceptedRevived(left, spaceId, Roster(left, {spaceId}, PendingOnly, n), n);
      assert false;
    } else if Promotes(m, spaceId, memberId, n) {
      var first := accepted[0];
      assert Matches(AcceptedOnly, {spaceId}, after[first]) && after[first].role == Admin;
    } else if m[memberId].role == Admin {
      var i :| 0 <= i < |accepted| && left[accepted[i]].role == Admin;
      assert Matches(AcceptedOnly, {spaceId}, after[accepted[i]]) && after[accepted[i]].role == Admin;
    } else {
      var k :| k in m && Matches(AcceptedOnly, {spaceId}, m[k]) && m[k].role == Admin;
      assert k != memberId;
      assert Matches(AcceptedOnly, {spaceId}, after[k]) && after[k].role == Admin;
    }
  }

  /** A space left without ACCEPTED members keeps no open invitation. */
  lemma {:induction false} LeaveClearsInvitations(m: map<MemberId, Member>, spaceId: SpaceId, memberId: MemberId, n: nat)
    requires memberId in m && forall k :: k in m ==> k < n
    requires Roster(AfterLeave(m, spaceId, memberId, n), {spaceId}, AcceptedOnly, n) == []
    ensures Roster(AfterLeave(m, spaceId, memberId, n), {spaceId}, PendingOnly, n) == []
  {
    var left := WithLeaverDeleted(m, memberId);
    LeaveDeletesLeaver(m, spaceId, memberId, n);
    if |Roster(left, {spaceId}, AcceptedOnly, n)| == 0 {
      NoPendingLeft(left, spaceId, n);
    }
  }

  /** AfterLeave and LeaveEvents case by case, for the list of ACCEPTED rows left. */
  lemma LeaveCases(m: map<MemberId, Member>, spaceId: SpaceId, memberId: MemberId, n: nat,
                   accepted: seq<MemberId>)
    requires memberId in m && accepted == Roster(WithLeaverDeleted(m, memberId), {spaceId}, AcceptedOnly, n)
    ensures |accepted| == 0 ==>
      var left := WithLeaverDeleted(m, memberId);
      && AfterLeave(m, spaceId, memberId, n) == SoftDeleted(left, Roster(left, {spaceId}, PendingOnly, n))
      && LeaveEvents(m, spaceId, memberId, n) == []
    ensures |accepted| > 0 && Promotes(m, spaceId, memberId, n) ==>
      var left := WithLeaverDeleted(m, memberId);
      && AfterLeave(m, spaceId, memberId, n) == left[accepted[0] := left[accepted[0]].(role := Admin)]
      && LeaveEvents(m, spaceId, memberId, n) == [MemberUpdated(spaceId, accepted[0]), MemberUpdated(spaceId, memberId)]
    ensures |accepted| > 0 && !Promotes(m, spaceId, memberId, n) ==>
      && AfterLeave(m, spaceId, memberId, n) == WithLeaverDeleted(m, memberId)
      && LeaveEvents(m, spaceId, memberId, n) == [MemberUpdated(spaceId, memberId)]
  {
  }

  /** With ACCEPTED members left, an ADMIN who leaves an ADMIN-less roster hands the role to the
      oldest of them; the leaver's row change is announced either way. */
  method HandOverAdmin(st: Store, spaceId: SpaceId, memberId: MemberId, leaverRole: Role,
                       accepted: seq<MemberId>)
    requires st.Valid() && accepted == Roster(st.members, {spaceId}, AcceptedOnly, st.nextMemberId)
    requires |accepted| > 0
    modifies st`members, st`notifications
    ensures st.Valid()
    ensures
      var promote := leaverRole == Admin
                     && forall i :: 0 <= i < |accepted| ==> old(st.members)[accepted[i]].role != Admin;
      && st.members == (if promote then old(st.members)[accepted[0] := old(st.members)[accepted[0]].(role := Admin)]
                        else old(st.members))
      && st.notifications == old(st.notifications)
           + (if promote then [MemberUpdated(spaceId, accepted[0]), MemberUpdated(spaceId, memberId)]
              else [MemberUpdated(spaceId, memberId)])
  {
    if leaverRole == Admin && forall i :: 0 <= i < |accepted| ==> st.members[accepted[i]].role != Admin {
      var oldest := st.members[accepted[0]];
      st.Update(oldest.memberId, if oldest.name.Some? then Given(oldest.name.value) else Null, Given(Admin));
      UpdatedKeepsName(oldest, Admin);
      st.Notify(MemberUpdated(spaceId, oldest.memberId));
    }
    st.Notify(MemberUpdated(spaceId, memberId));
  }

  /** A member leaves the space, whatever the status of the row. */
  method LeaveSpace(st: Store, spaceId: SpaceId, memberId: MemberId) returns (r: bool)
    requires st.Valid() && spaceId in st.spaces && st.IsMemberOf(memberId, spaceId)
    modifies st`members, st`notifications
    ensures st.Valid() && r
    ensures st.members == AfterLeave(old(st.members), spaceId, memberId, st.nextMemberId)
    ensures st.notifications == old(st.notifications) + LeaveEvents(old(st.members), spaceId, memberId, st.nextMemberId)
  {
    var leaver := st.members[memberId];
    ghost var before := st.members;
    st.Delete(memberId);
    assert st.members == WithLeaverDeleted(before, memberId);
    var accepted := Roster(st.members, {spaceId}, AcceptedOnly, st.nextMemberId);
    LeaveCases(before, spaceId, memberId, st.nextMemberId, accepted);
    if |accepted| > 0 {
      HandOverAdmin(st, spaceId, memberId, leaver.role, accepted);
    } else {
      DeleteInvitations(st, spaceId);
    }
    r := true;
  }
}

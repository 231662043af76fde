# Spaces membership and invitation lifecycle, in Dafny

This project models the core of the DEMOS spaces backend. Users create spaces, invite other users by
user id or phone number, and members act on their invitations (view, accept, reject). Admins cancel,
update and delete members, and members leave spaces. Every operation is a short guarded update of
one store, which is modelled as the class `Repository.Store`. The store holds:

- the member rows (the UserSpace relation);
- the users with their phone numbers;
- the spaces;
- the append-only log of notifications handed to the notification layer;
- the object-store removals requested.

Modules:

- `Domain` (`domain.dfy`): ids, the `Member` and `Space` records, roles, invitation statuses,
  notifications, errors, and `Result`. A thrown `ApiError` becomes a `Failure`.
- `Validation` (`validation.dfy`): the Joi request schemas of `space.validation.js` and
  `member.validation.js`, as predicates. The service methods take them as preconditions, just as the
  routes validate a body before calling a service.
- `Repository` (`repository.dfy`): the `Store` class and its invariant. Its finders and writes
  stand for the repositories, whose code is not part of this model. `Roster` is the ordered list
  query: the ids of the matching rows, oldest first.
- `SpaceService` (`space_service.dfy`): `create`, `getSpaceInfo`, `uploadPicture`,
  `updateSpaceInfo` and `getAllUserSpaces` as methods on the store. The id filters of
  `getSpacesData` are pure functions.
- `MemberService` (`member_service.dfy`): invitee resolution, idempotent invitation creation,
  batch sending, and the accept, reject, update, delete, cancel and leave transitions.
  `leaveSpace` is specified by the function `AfterLeave`. The admin-continuity and
  no-dangling-invitation properties are proved about that function.

Conventions of the model:

- Ids are natural numbers issued by counters in the store. The "oldest" member, the first row of a
  repository list, is the one with the lowest id.
- Deletion is soft: the row stays with `deleted` set. Every finder and list query ignores deleted
  rows.
- A request key is `Absent`, `Null` or `Given(v)`. A `userId` of `''` is falsy in the code, so it
  behaves as `Null`.
- The current time is the parameter `now`. The expiry date the member repository assigns on
  insertion is the parameter `expiresAt`.
- The role checks of the routes become preconditions `st.IsAdmin(actor, spaceId)`:
  `src/routes/v1/member.route.js:34,37,41-42` and `src/routes/v1/space.route.js:38,44`. The
  membership checks become `st.IsMemberOf(memberId, spaceId)`:
  `src/routes/v1/member.route.js:31,35-36` and `src/routes/v1/space.route.js:41`.

Behaviours of the code as written that the model keeps, although a reader might expect otherwise:

- Percentages are accepted when 50 < p < 101 (`space.validation.js:26-27,35-36`), so a
  percentage such as 100.5 passes, although a share above 100 percent cannot be met.
- `updateMember`, `deleteMember` and `cancelInvitation` look the row up by id alone. The code never
  checks that it belongs to the space the caller administers, so the model doesn't either.
- When a member leaves an emptied space, the code deletes the open invitations, a cascade
  cancel, without notifying anyone of them (`member.service.js:285-287`).
- The roster returned on accepting comes from `getSpacesData`. How
  `MemberRepository.findAllBySpaceIds` (`space.service.js:121`) filters rows is not visible; the
  model assumes it lists every live row of the space, whatever its status (see "Left out"). The
  list is taken before the ACCEPTED write. The user's own old row is removed and the accepted row
  appended.
- `sendInvitations` keeps the input order of the successful invitations (`Promise.all` then
  `filter`). `SuccessfulConcat` states the order.
- A recipient with neither a user id nor a phone number of at least ten characters is not
  rejected by the service. The code passes an undefined user id to
  `findByUserIdAndSpaceId` and `createMember` (`member.service.js:51-54`), whose behaviour is not
  visible. The model assumes that this fails, and makes it a failure of that recipient
  (`UnknownInvitee`), which `sendInvitations` drops (see "Left out").
- `getSpaceInfo` dereferences the inviter's user row after writing RECEIVED. A missing inviter
  becomes `Failure(RecordMissing)`, after the write and the notification.
- `cancelInvitation` reads the status of a row the repository might not find. The model makes
  that a `Failure(RecordMissing)` before any write.

## Model

| member | source | states |
|---|---|---|
| Validation.SpaceInfoValid | src/validations/space.validation.js:22-29 | a create body has a non-empty name and both percentages, each greater than 50 and less than 101; the description is free |
| Validation.UpdateSpaceInfoValid | src/validations/space.validation.js:31-38 | every key of an update body may be missing or null; a given name is non-empty and a given percentage lies strictly between 50 and 101 |
| Validation.SendInvitationValid | src/validations/member.validation.js:23-35 | an invitation body lists at least one recipient; each recipient's keys may be missing, null or empty |
| Validation.UpdateMemberValid | src/validations/member.validation.js:37-42 | an update-member body has no null role, and a given role is one of the role names; the name is free |
| Validation.CreateBodyIsUpdateBody | src/validations/space.validation.js:22-38 | a body accepted on creation is accepted by the update schema too |
| Validation.ParseRole | src/validations/member.validation.js:39 | only the role enum's names are accepted; a parsed name prints back to the same string, and a refused string is no role's name |
| Validation.ParseRoleName | src/validations/member.validation.js:39 | reading a role's wire name gives that role back |
| Validation.RequestedRole | src/validations/member.validation.js:39-40 | a valid update body never carries a null role; the role is present exactly when the key is, and it is the role that key names |
| Repository.Roster | src/services/member.service.js:276 | the list query returns exactly the live matching rows below the counter, strictly ascending, so the first entry is the oldest |
| Repository.RosterEmpty | src/services/member.service.js:277 | a list query is empty exactly when no row passes its filter |
| Repository.Store.FindByUserIdAndSpaceId | src/services/member.service.js:51 | finds a row exactly when the user has a live row in the space, and returns that row |
| Repository.Store.FindOneByPhoneNumber | src/services/member.service.js:42 | finds a user exactly when some user holds the phone number, and returns that user |
| Repository.Store.FindById | src/services/member.service.js:192 | finds a row exactly when the id names a live row, and returns that row |
| Repository.Store.CreateUser | src/services/member.service.js:30-35 | adds one fresh user holding only the phone number; the store invariant, phone uniqueness included, is kept |
| Repository.Store.CreateMember | src/services/member.service.js:54-60 | adds one row with a fresh id and the given space, user, status, role and inviter, no name, not deleted |
| Repository.Store.UpdateInvitationStatus | src/services/member.service.js:126-130 | only the status of that row changes |
| Repository.Store.Update | src/services/member.service.js:194 | only name and role of that row change, as `Updated` describes |
| Repository.Store.Delete | src/services/member.service.js:236 | the row is marked deleted and nothing else changes |
| Repository.Store.CreateSpace | src/services/space.service.js:46 | adds a space with a fresh id, no picture, and no member rows yet |
| Repository.Store.UpdatePictureKey | src/services/space.service.js:194 | only the picture key of that space changes |
| Repository.Store.UpdateNameAndDescriptionAndPercentages | src/services/space.service.js:169-176 | the space row becomes the row the repository stores and re-reads |
| Repository.UpdatedIdempotent | src/services/member.service.js:194 | repeating an update with the same body changes nothing more |
| Repository.UpdatedKeepsName | src/services/member.service.js:280 | passing a row's own name back with a role changes only the role |
| SpaceService.MemberUserIds | src/services/space.service.js:123 | the user fetch gets one id per member row, and exactly the members' user ids |
| SpaceService.OpenOrClosedIds | src/services/space.service.js:128-130 | participations are fetched for exactly the OPEN or CLOSED proposals |
| SpaceService.ClosedIds | src/services/space.service.js:133 | votes are fetched for exactly the CLOSED proposals |
| SpaceService.ManifestoIds | src/services/space.service.js:136 | manifestos are fetched for every proposal, one id per proposal |
| SpaceService.CommentIds | src/services/space.service.js:143 | comment votes are fetched for exactly the fetched comments |
| SpaceService.ClosedIdsWithinOpenOrClosed | src/services/space.service.js:128-134 | the vote-fetch list is a subsequence of the participation-fetch list |
| SpaceService.SpacesDataPlan | src/services/space.service.js:120-144 | all id lists of the aggregation together: the user, manifesto and vote lists are exact, and the vote list is contained in the participation list |
| SpaceService.Create | src/services/space.service.js:45-57 | the new space carries the request's values and has its creator as owner; its only row is the creator's, ACCEPTED, ADMIN and created by the creator, so the creator administers it |
| SpaceService.SoleRow | src/services/space.service.js:48-54 | a space with one row has exactly that row in its roster |
| SpaceService.GetSpaceInfo | src/services/space.service.js:211-223 | SENDED becomes RECEIVED with one notification and the inviter returned without a phone; any other status changes nothing and returns no inviter, so a second call is a no-op |
| SpaceService.HasKey | src/services/space.service.js:196 | a picture key counts as present unless it is missing, null or empty, as the truthiness test does |
| SpaceService.UploadPicture | src/services/space.service.js:189-203 | the picture key becomes the file's key; the old key's removal is requested exactly when there was an old key; one space-updated notification; no member row changes |
| SpaceService.UpdateSpaceInfo | src/services/space.service.js:166-181 | returns the re-read row; every given field was written and every given percentage is in range; one space-updated notification naming the actor; no member row changes |
| SpaceService.UserSpacesExist | src/services/space.service.js:76-77 | in a valid store every space a user holds a row of exists |
| SpaceService.GetAllUserSpaces | src/services/space.service.js:75-103 | aggregates exactly the user's spaces: the live rows of those spaces, the user's own rows among them, and exactly their users' ids; the store is unchanged |
| MemberService.Resolvable | src/services/member.service.js:41 | a recipient names a user when it gives a user id, or else a phone number of at least ten characters |
| MemberService.ResolveRecipient | src/services/member.service.js:41-49 | a given user id is used as is; otherwise the user holding the phone is reused, or exactly one new user holding it is created |
| MemberService.FindOrInvite | src/services/member.service.js:51-67 | an existing live row is returned with no write and no notification; otherwise one new live SENDED WORKER row created by the inviter, under the next id, with no name and the given expiry, and exactly two notifications, new-invitation then member-updated |
| MemberService.CreateInvitation | src/services/member.service.js:37-68 | fails exactly when the repository fails or the recipient names nobody, with no change; otherwise the resolution and find-or-invite effects above, and the row returned belongs to the recipient's user; the only row it can add is the one returned, the only user it can add holds the phone number of a recipient with no user id and a usable phone number, the log grows by exactly the added row's two events, and a recipient who already holds a row changes nothing |
| MemberService.Successful | src/services/member.service.js:91 | the kept results are exactly the successful ones |
| MemberService.SuccessfulConcat | src/services/member.service.js:79-91 | filtering keeps input order: the kept results of a concatenation are the concatenation of the kept results |
| MemberService.SendInvitations | src/services/member.service.js:77-92 | each recipient fails independently and exactly when its own call fails; the successes are returned in input order and placed in the store; existing rows and users are never changed; the added rows are exactly those with the next ids, each a live SENDED WORKER row created by the inviter, under its own id, with no name and the batch's expiry, and among the returned invitations; every added user holds the phone number of a recipient named by a phone number of at least 10 characters and no user id; the log grows by exactly the new-invitation and member-updated events of each added row, in creation order; when every recipient already holds a row, rows, users and log are unchanged |
| MemberService.WithoutUser | src/services/member.service.js:146 | keeps exactly the rows of other users |
| MemberService.OthersThenSelf | src/services/member.service.js:146-155 | the roster ends with the accepted row, every earlier entry is another user's row from the space, and every other user's row appears |
| MemberService.IsInvitationExpired | src/services/member.service.js:94-99 | an invitation is expired when the current time is strictly later than its expiry date |
| MemberService.AcceptSpaceInvitation | src/services/member.service.js:118-164 | a status other than SENDED or RECEIVED fails with no change; past `expiredAt` (strictly) the row becomes EXPIRED, one notification, failure; otherwise ACCEPTED, one notification, and exactly one entry of the returned roster, the last, carries the user's id |
| MemberService.RejectSpaceInvitation | src/services/member.service.js:172-180 | RECEIVED becomes REJECTED with one notification; any other status returns the row unchanged with no write |
| MemberService.UpdateMember | src/services/member.service.js:190-199 | a live row gets the requested name and role, with one notification; an unknown id fails with no change |
| MemberService.DeleteMember | src/services/member.service.js:232-244 | only a live ACCEPTED row is deleted, with member-updated and member-deleted notifications; otherwise failure and no change |
| MemberService.CancelInvitation | src/services/member.service.js:253-265 | a SENDED or RECEIVED row becomes CANCELED, with member-updated and invitation-canceled notifications; any other status fails with no change |
| MemberService.SoftDeletedRoster | src/services/member.service.js:297-299 | after soft deleting a list of rows, every list query returns what it returned before, less those rows |
| MemberService.DeleteInvitations | src/services/member.service.js:292-300 | exactly the space's SENDED and RECEIVED rows are deleted |
| MemberService.NoPendingLeft | src/services/member.service.js:292-300 | after the invitations of a space are deleted, none is left open |
| MemberService.NoAcceptedRevived | src/services/member.service.js:285-287 | deleting invitations never brings an ACCEPTED row back |
| MemberService.HandOverAdmin | src/services/member.service.js:277-284 | when the leaver was an ADMIN and no remaining ACCEPTED member is one, the oldest becomes ADMIN with one notification; the leaver's update is notified either way |
| MemberService.LeaveSpace | src/services/member.service.js:273-290 | the rows become `AfterLeave` of the old rows and the log grows by `LeaveEvents`; returns true |
| MemberService.LeaveDeletesLeaver | src/services/member.service.js:274-277 | leaving deletes the leaver's row, and ACCEPTED members remain exactly when another ACCEPTED member was there |
| MemberService.LeaveKeepsAdmin | src/services/member.service.js:277-282 | a space that had an ACCEPTED ADMIN, or whose leaver was an ADMIN, keeps an ACCEPTED ADMIN while ACCEPTED members remain |
| MemberService.LeaveClearsInvitations | src/services/member.service.js:285-287 | a space left without ACCEPTED members keeps no open invitation |

## Left out

- The repositories (user, member, space, proposal, manifesto and the others) are not part of this
  model. They are abstract map operations on `Store`. Soft delete, finders that skip deleted rows,
  and an update that writes a present key (null included) and keeps an absent one are assumptions
  about code that is not shown.
- The audit user id passed to each repository write is not modelled, because it does not affect
  the rows.
- The notification layer (`notification.service.js`, the member and space notification modules)
  is reduced to appending one event per call to `notifications`. The per-user cache writes and the
  websocket push are left out.
- Concurrency: the `Promise.all` fan-outs of `sendInvitations` and `deleteInvitations` run
  sequentially in the model, and the concurrent double-accept race is not modelled.
- `removeS3File` is a foreign call to the object store. The model only logs the requested key in
  `removedPictureKeys`. The S3 key builder, the multer upload middleware and the configuration are
  left out.
- Controllers, routes apart from the role and membership gates, `src/index.js`, and the tests and
  mocks are left out.
- `getMembersPhoneNumber` and `getMember` are not in the modelled core.
- Proposal, participation, vote, manifesto, option and comment rows are collaborators' data that
  is passed through. Only the id lists the aggregation computes from them are modelled.
- `IsInvitationExpired` compares the current time with the date as the `>` of JavaScript does.
  Date objects are integers in the model.
- SendInvitations: the repository's per-recipient failure is the oracle `fails`, taken to happen
  before any write. A failure after a partial write is not modelled. The caught error is written to
  the logger (`src/services/member.service.js:85`) before the recipient is dropped; the model drops
  the recipient but not the log line.
- CreateInvitation: a given user id is not checked against the user table, because the code does
  not check it either. What the repository does with a user id that names no user is not modelled.
- CreateInvitation: for a recipient with no user id and no usable phone number, the model assumes
  that `findByUserIdAndSpaceId` or `createMember`, called with an undefined user id, rejects
  (`UnknownInvitee`). Those repository calls are not visible, and they might instead find or
  insert a row.
- Resolvable: the phone-number length is the number of characters of the string, while
  `phoneNumber.length` counts UTF-16 code units. The two differ for characters outside the Basic
  Multilingual Plane, which are counted twice by the code and once by the model.
- UpdateSpaceInfo: null keys of the patch are not claimed to keep the old value. The re-read row
  is a parameter and is only required to agree with every present key, because the repository's
  partial-update behaviour is not visible.
- GetAllUserSpaces: returns the space ids, member rows and user ids only. The proposal and
  manifesto data of the aggregation are left out, as above.
- AcceptSpaceInvitation: returns the space, the roster and the user ids. The other aggregation
  data is left out, as above.
- AcceptSpaceInvitation: the roster is taken to be every live row of the space, whatever its
  status. This is an assumption about `MemberRepository.findAllBySpaceIds`, which is not visible;
  a repository that lists only ACCEPTED rows would return a different roster.

# upstagram member and story core, in Dafny

A model of the decision logic of the upstagram backend: member login with
failed-attempt tracking, member registration with its ordered validation,
the mapping of a federated provider's attribute map to a guest profile, and
story submission with a best-effort upload.

The model is functional. Services read an immutable member table and return
what they would write instead of writing it:

- `login` and `join` return the records they save. `MemberRepository.ApplySaves`
  gives the table afterwards; `save` is an upsert keyed by the record's id.
- `registStory` returns its calls in order: the upload, then the save.
- A Java `null` is `Common.Option.None`, and an exception is `Common.Result.Failure`.
- `new Date()` is a `now` parameter, and the failed-login counter is a Java
  `int` with explicit wrap-around (`Common.Inc32`).
- The password encoder is an `Encoder` value holding two uninterpreted
  functions (`encode`, `matches`). Nothing is assumed about how they relate.
- The upload primitive is an `Uploader` function parameter. It returns a
  file name or an `IOException`.

Modules, one per source file or component:

- `common.dfy`: `Common`, the shared values.
- `member.dfy`: `MemberInfo`, the member record and its transitions.
- `member_repository.dfy`: `MemberRepository`, the keyed member table.
- `login_service.dfy`: `LoginService`, login, validation and join.
- `oauth_attributes.dfy`: `OAuthAttributes`, the attribute mapping.
- `story_service.dfy`: `StoryService`, story submission and the two stubs.

`login` is modelled as `LoginService.LoginWith` with a `WritePolicy`:

- `Rebuild` is the code as written, and `LoginService.Login` is that instance.
- `Transition` applies the entity's own `loginSuccess` / `loginFalse`.

`registStory` is modelled as `StoryService.RegistStoryWith` with an `AuthPolicy`:

- `AsWritten` is the code as written, and `StoryService.RegistStory` is that instance.
- `LoggedInOnly` refuses a request with no id.

Points of the code the model keeps as they are:

- Registration refuses only null fields. An empty id passes.
- `login` raises only `IllegalArgumentException` and `IllegalAccessException`.
- `registStory` returns null, even after the story is saved.

## Model

| member | source | states |
|---|---|---|
| Common.Inc32 | upstagram/src/main/java/com/api/upstagram/service/LoginService.java:79 | Java's `int` increment: the result is congruent to x + 1 modulo 2^32 and stays in `int` range, so it wraps only from the largest value |
| MemberInfo.LoginSuccess | upstagram/src/main/java/com/api/upstagram/domain/memberInfo/MemberInfoEntity.java:89-93 | sets the counter and the last-login stamp to the arguments; every other field is unchanged, and the record itself is returned |
| MemberInfo.LoginFalse | upstagram/src/main/java/com/api/upstagram/domain/memberInfo/MemberInfoEntity.java:96-99 | sets only the counter; the last-login stamp and all other fields are unchanged |
| MemberInfo.LoginSuccessIsFieldUpdate | upstagram/src/main/java/com/api/upstagram/domain/memberInfo/MemberInfoEntity.java:89-93 | any record that agrees with the input on the profile and carries the new counter and stamp is the transition's result: the transition is exactly a two-field update |
| MemberInfo.LoginFalseKeepsStamp | upstagram/src/main/java/com/api/upstagram/domain/memberInfo/MemberInfoEntity.java:96-99 | `loginFalse(n)` is `loginSuccess(n, stamp it already had)` |
| MemberInfo.ToRVO | upstagram/src/main/java/com/api/upstagram/domain/memberInfo/MemberInfoEntity.java:101-110 | the projection carries the record's id, name, nickname, oauthNo, sex and tel |
| MemberInfo.RVOHidesCredentials | upstagram/src/main/java/com/api/upstagram/domain/memberInfo/MemberInfoEntity.java:101-110 | changing the password, role, counter, last-login stamp or active flag leaves the projection unchanged: none of them is exposed |
| MemberRepository.FindById | upstagram/src/main/java/com/api/upstagram/service/LoginService.java:138 | finds a record exactly when the id is a key, whatever its flags, and the record found carries that id |
| MemberRepository.FindByIdAndUseYn | upstagram/src/main/java/com/api/upstagram/service/LoginService.java:38 | finds a record exactly when the id is a key and the stored `useYn` equals the flag asked for |
| MemberRepository.Save | upstagram/src/main/java/com/api/upstagram/service/LoginService.java:65 | upsert: the saved id becomes a key holding the record, and every other row is unchanged |
| MemberRepository.ApplySaves | upstagram/src/main/java/com/api/upstagram/service/LoginService.java:82 | a run of saves adds exactly the saved ids as keys, stores the last record saved under its id, and leaves every row it does not write unchanged |
| LoginService.SessionOf | upstagram/src/main/java/com/api/upstagram/service/LoginService.java:45-51 | the session carries the member's id, name, sex, tel and role |
| LoginService.Rebuilt | upstagram/src/main/java/com/api/upstagram/service/LoginService.java:56-63 | the rebuilt record keeps only id, oauthNo, name and password from the stored one, with the given counter and stamp; every other field is unset |
| LoginService.SuccessWrite | upstagram/src/main/java/com/api/upstagram/service/LoginService.java:56-63 | under either policy the record written on a match has the member's id and password, counter 0 and last login `now` |
| LoginService.FailureWrite | upstagram/src/main/java/com/api/upstagram/service/LoginService.java:74-80 | under either policy the record written on a mismatch has the member's id and password and the stored counter plus one |
| LoginService.LoginWith | upstagram/src/main/java/com/api/upstagram/service/LoginService.java:32-87 | succeeds exactly when id and password are non-empty, an active member has that id and the encoder matches its hash; the session is the stored profile read before the write; one record is saved exactly when an active member was found, none otherwise |
| LoginService.Login | upstagram/src/main/java/com/api/upstagram/service/LoginService.java:32-87 | as written: succeeds exactly for an authenticating request, and the record it saves keeps only id, oauthNo, name and password from the stored one |
| LoginService.AfterLogin | upstagram/src/main/java/com/api/upstagram/service/LoginService.java:65-82 | a login never adds or removes a member and changes no other member's row; when an active member was found, that member's row becomes the record the login saved (counter 0 and stamp `now` on a match, the stored counter plus one on a mismatch) |
| LoginService.LoginChecksInputFirst | upstagram/src/main/java/com/api/upstagram/service/LoginService.java:35-36 | a null or empty id fails with IllegalArgument before anything else, then a null or empty password; neither reads nor writes the table |
| LoginService.LoginUnknownMember | upstagram/src/main/java/com/api/upstagram/service/LoginService.java:38-40 | with valid input and no active member under the id, the call fails with IllegalAccess "not joined" and saves nothing |
| LoginService.LoginMatchResetsCounter | upstagram/src/main/java/com/api/upstagram/service/LoginService.java:44-70 | on a match the session is the pre-write profile, and exactly one record is saved with counter 0, stamp `now`, and only id, oauthNo, name and password kept |
| LoginService.LoginMismatchCountsFailure | upstagram/src/main/java/com/api/upstagram/service/LoginService.java:71-84 | on a mismatch exactly one record is saved, with the stored counter plus one and no stamp, and then IllegalAccess "wrong password" is raised |
| LoginService.LoginMismatchFromTwo | upstagram/src/main/java/com/api/upstagram/service/LoginService.java:79-82 | a stored counter of 2 and a wrong password leave 3 in the table |
| LoginService.RebuildLocksOut | upstagram/src/main/java/com/api/upstagram/service/LoginService.java:56-80 | as written, after any login that writes, the next attempt for that id, with any password, fails as "not joined": the rebuilt record has no `useYn` |
| LoginService.TransitionKeepsProfile | upstagram/src/main/java/com/api/upstagram/domain/memberInfo/MemberInfoEntity.java:89-99 | writing back through the transitions keeps the whole profile, so an active member stays active |
| LoginService.TransitionLoginRepeatable | upstagram/src/main/java/com/api/upstagram/domain/memberInfo/MemberInfoEntity.java:89-93 | through the transitions, a member who logged in can log in again with the same password and gets the same session |
| LoginService.TransitionFailuresAccumulate | upstagram/src/main/java/com/api/upstagram/domain/memberInfo/MemberInfoEntity.java:96-99 | through the transitions, n consecutive wrong passwords raise the stored counter by exactly n (below the `int` limit), and the member stays active with the same profile |
| LoginService.StripHyphens | upstagram/src/main/java/com/api/upstagram/service/LoginService.java:132 | the result has no hyphen and is no longer than the input |
| LoginService.StripHyphensKeepsOthers | upstagram/src/main/java/com/api/upstagram/service/LoginService.java:132 | every character other than a hyphen occurs in the result exactly as often as in the input |
| LoginService.StripHyphensAppend | upstagram/src/main/java/com/api/upstagram/service/LoginService.java:132 | stripping a concatenation is concatenating the stripped parts, so kept characters stay in order |
| LoginService.StripHyphensNoHyphen | upstagram/src/main/java/com/api/upstagram/service/LoginService.java:132 | a string with no hyphen is left as it is |
| LoginService.StripHyphensIdempotent | upstagram/src/main/java/com/api/upstagram/service/LoginService.java:132 | stripping twice is stripping once |
| LoginService.StripHyphensGroupedPhone | upstagram/src/main/java/com/api/upstagram/service/LoginService.java:132-133 | a phone written as three hyphen-separated groups strips to the groups run together |
| LoginService.FirstFailingIsFirst | upstagram/src/main/java/com/api/upstagram/service/LoginService.java:119-142 | the reference "first failing check" finds none exactly when all checks pass, and otherwise names a failing check all of whose predecessors pass |
| LoginService.ChecksInOrder | upstagram/src/main/java/com/api/upstagram/service/LoginService.java:119-142 | the first failing registration check is, in order: id null, password null, tel null, stripped tel not 11 long, sex null, id already stored |
| LoginService.ValidateIdCheck | upstagram/src/main/java/com/api/upstagram/service/LoginService.java:119-144 | passes exactly when no check fails, else raises the first failing check's reason; the request's password is replaced by its hash and its tel by the stripped tel exactly when validation got that far, even if a later check fails |
| LoginService.Join | upstagram/src/main/java/com/api/upstagram/service/LoginService.java:92-116 | fails with the first failing check and saves nothing, or saves and returns one record: hashed password, stripped 11-character tel, role ROLE_USER, both flags Y, counter 0, oauthNo "", join and password-change time `now`, id not stored before |
| LoginService.AfterJoin | upstagram/src/main/java/com/api/upstagram/service/LoginService.java:113 | a failed join leaves the table as it was; a successful one adds exactly the new id, holding the returned record |
| LoginService.JoinOnlyAdds | upstagram/src/main/java/com/api/upstagram/service/LoginService.java:138-142 | every member stored before a join is still stored, unchanged, after it |
| LoginService.JoinTwiceConflicts | upstagram/src/main/java/com/api/upstagram/service/LoginService.java:138-142 | a second join with the same id fails as "already registered", saves nothing, and the first record stays |
| LoginService.JoinAcceptsEmptyId | upstagram/src/main/java/com/api/upstagram/service/LoginService.java:123 | only a null id is refused: an empty id with the other fields present joins |
| OAuthAttributes.GetString | upstagram/src/main/java/com/api/upstagram/common/security/OAuthAttributes.java:34-36 | a missing key or a null value reads as null and a string reads as itself; any other value raises ClassCastException |
| OAuthAttributes.OfGoogle | upstagram/src/main/java/com/api/upstagram/common/security/OAuthAttributes.java:32-40 | name, email and picture are the strings under those keys (null when missing); the raw map and the caller's key are kept; the first non-string among name, email, picture raises ClassCastException |
| OAuthAttributes.Of | upstagram/src/main/java/com/api/upstagram/common/security/OAuthAttributes.java:28-30 | the entry point gives the same profile as `ofGoogle`: name, email and picture are the strings under those keys (null when missing), the raw map and the caller-supplied key are kept, and the first non-string among name, email, picture raises ClassCastException |
| OAuthAttributes.OfIgnoresRegistrationId | upstagram/src/main/java/com/api/upstagram/common/security/OAuthAttributes.java:28-30 | the provider id never changes the outcome |
| OAuthAttributes.ExtraKeysOnlyCarried | upstagram/src/main/java/com/api/upstagram/common/security/OAuthAttributes.java:37 | adding a key other than name, email or picture changes nothing but the retained raw map, which holds it |
| OAuthAttributes.ToEntity | upstagram/src/main/java/com/api/upstagram/common/security/OAuthAttributes.java:42-49 | the entity has the profile's name, email and picture and role GUEST |
| OAuthAttributes.GuestFromAttributes | upstagram/src/main/java/com/api/upstagram/common/security/OAuthAttributes.java:33-49 | from a raw map whose three keys read as strings, the guest entity holds those strings and role GUEST |
| OAuthAttributes.OfSample | upstagram/src/main/java/com/api/upstagram/common/security/OAuthAttributes.java:32-40 | the map {name: Ann, email: a@x.com, picture: p.png, other: a number} yields those three fields and keeps "other" only in the raw map |
| StoryService.RegistStoryWith | upstagram/src/main/java/com/api/upstagram/service/StoryService.java:40-75 | succeeds exactly when the id check passes and a non-empty file is attached, returning null; on failure ARGUMNET_ERROR for the first failing check and no call; on success an upload with the four image types, then one save of a story with the request's id and flags, time "" and the uploaded name, or the request's own name when the upload failed |
| StoryService.RegistStory | upstagram/src/main/java/com/api/upstagram/service/StoryService.java:51 | as written, a submission succeeds only when the request carries no id |
| StoryService.RegistStoryChecksFirst | upstagram/src/main/java/com/api/upstagram/service/StoryService.java:51-52 | the id check fails first, then the file check; a failure saves no story |
| StoryService.UploadFailureStillSaves | upstagram/src/main/java/com/api/upstagram/service/StoryService.java:56-71 | when the upload raises IOException the story is still saved, once, under the file name the request already held |
| StoryService.SubmissionSavesOneStory | upstagram/src/main/java/com/api/upstagram/service/StoryService.java:63-71 | a submission that passes the checks saves exactly one story with the request's id, time "" and the request's show and keep flags |
| StoryService.AsWrittenRefusesLoggedIn | upstagram/src/main/java/com/api/upstagram/service/StoryService.java:51 | as written, any request with an id is refused as "log in first", and every story saved has no owner |
| StoryService.LoggedInOnlySavesOwnedStories | upstagram/src/main/java/com/api/upstagram/service/StoryService.java:51 | with the check the right way round, every saved story is owned by the request's non-empty id |
| StoryService.StoryReactionRegist | upstagram/src/main/java/com/api/upstagram/service/StoryService.java:80-90 | returns null and makes no call |
| StoryService.StoryWatchingHistory | upstagram/src/main/java/com/api/upstagram/service/StoryService.java:95-104 | returns null and makes no call |
| StoryService.InteractionsWriteNothing | upstagram/src/main/java/com/api/upstagram/service/StoryService.java:80-104 | neither interaction call saves a story |

## Left out

- The `MemberInfoEntity` constructor is the datatype constructor `MemberInfo.Member`. Storing each argument in its own field holds by construction, so no separate member states it. `MemberInfo.Unset` is the builder with no setter called.
- The audit fields of `BaseEntity` are not modelled. `BaseEntity` is not part of this model.
- `join` reads the clock twice, once for the join time and once for the password-change time. The model uses one `now` for both.
- `String.length()` counts UTF-16 code units. The model counts Unicode scalar values, so the two differ only for characters outside the Basic Multilingual Plane.
- A write that leaves a NOT NULL column null is not refused. `nickname` is declared `nullable = false`, yet both `join` and the login rebuild leave it null, and the model's `save` always succeeds.
- Database column defaults and the `@DynamicInsert`/`@DynamicUpdate` column selection are not modelled. `save` replaces the whole row with the record given. A freshly joined record has no `useYn`, so in the model it is not active until something outside this core sets the flag.
- `StringUtils.isNotEmpty` is not part of this model. It is taken to mean "not null and not empty".
- `CommonUtils.uploadFile` is not part of this model. It becomes the `Uploader` parameter. Its own content-type check and any exception other than `IOException` are left out.
- `OauthMemberInfoEntity` and `Role` are not part of this model beyond the four fields `toEntity` sets and the `GUEST` role.
- A null request object or a null attribute map raises `NullPointerException` in the source. The model does not represent that.
- Reaction toggling, watch-record upserts and story duration computation are not implemented in the source. The two entry points return null, and `storyTime` is always `""`.
- Logging, `HttpServletRequest`, the JWT issuance left as a TODO, `SecurityConfig`, and concurrent access to the store are left out. None of them holds decision logic of this core.
- BCrypt is not modelled. `Encoder.matches` is never related to `Encoder.encode`, so no lemma shows that a freshly joined member can log in.
- The generated story number is not modelled. Saved stories are read off the call trace, in order.

## Findings

| source | as written | input that shows it | evidently intended | confidence | as-written member | corrected member |
|---|---|---|---|---|---|---|
| upstagram/src/main/java/com/api/upstagram/service/StoryService.java:51 | the submission is refused when the request's id is non-empty | a request with id "kim" and a non-empty image is refused as "log in first"; one with a null id is accepted and saves an ownerless story | refuse when the id is empty, the message being "log in first" | not executed; high | StoryService.AsWrittenRefusesLoggedIn | StoryService.LoggedInOnlySavesOwnedStories |
| upstagram/src/main/java/com/api/upstagram/service/LoginService.java:56-80 | login saves a freshly built record holding only id, oauthNo, name, password, counter and stamp, so `useYn`, role, tel, sex and the rest are written back as null | an active member logs in (with the right or a wrong password); the next login for that id fails as "not joined" | write back through `loginSuccess` / `loginFalse` on the stored record, keeping the profile | not executed; medium (assumes `save` of a detached record overwrites every column, which the model takes as its semantics; since `nickname` is NOT NULL and the rebuilt record leaves it null, the as-written login may instead fail at the write) | LoginService.RebuildLocksOut | LoginService.TransitionLoginRepeatable |

/** `LoginService`: login with failed-attempt tracking, and registration
    (`join` after `validateIdCheck`). Both read the member table and return
    the records they save instead of writing them; `MemberRepository.ApplySaves`
    gives the table afterwards. */
module LoginService {
  import opened Common
  import opened MemberInfo
  import opened MemberRepository

  /** The password encoder, left uninterpreted: `encode` hashes a plaintext,
      `matches(raw, stored)` checks a plaintext against a stored hash. Nothing
      is assumed about how the two relate. */
  datatype Encoder = Encoder(encode: string -> string, matches: (string, Option<string>) -> bool)

  /** The request object `MemberInfoPVO`, with the fields the services read. */
  datatype MemberRequest = MemberRequest(
    id: Option<string>,
    password: Option<string>,
    name: Option<string>,
    sex: Option<string>,
    tel: Option<string>)

  /** The session descriptor returned by a successful login. */
  datatype UserSession = UserSession(
    id: Option<string>,
    name: Option<string>,
    sex: Option<string>,
    tel: Option<string>,
    role: Option<string>)

  /** The session a member's stored profile yields. */
  function SessionOf(m: Member): (s: UserSession)
    ensures s.id == m.id && s.name == m.name && s.sex == m.sex && s.tel == m.tel && s.role == m.role
  {
    UserSession(m.id, m.name, m.sex, m.tel, m.role)
  }

  // ---------------------------------------------------------------------------
  // Login
  // ---------------------------------------------------------------------------

  /** How a login attempt writes the member back. `Rebuild` is the code as
      written: a fresh builder carrying only id, oauthNo, name and password
      plus the new counter (and stamp). `Transition` applies the entity's own
      `loginSuccess` / `loginFalse` to the stored record. */
  datatype WritePolicy = Rebuild | Transition

  /** The outcome of a login: the session or the exception, and the records
      saved before returning or throwing. */
  datatype LoginOutcome = LoginOutcome(result: Result<UserSession>, saves: seq<Member>)

  /** The builder used by the code as written: the stored record's id,
      oauthNo, name and password, the given counter and stamp, and nothing
      else. */
  function Rebuilt(stored: Member, n: Int32, last: Option<Time>): (r: Member)
    ensures KeepsOnlyIdentity(r, stored)
    ensures r.wrongPasswordNumber == n && r.lastLoginDttm == last
  {
    Unset.(id := stored.id, oauthNo := stored.oauthNo, name := stored.name,
           password := stored.password, wrongPasswordNumber := n, lastLoginDttm := last)
  }

  /** `saved` carries id, oauthNo, name and password from `stored`, and every
      other field except the counter and the last-login stamp is unset. */
  predicate KeepsOnlyIdentity(saved: Member, stored: Member)
  {
    && saved.id == stored.id && saved.oauthNo == stored.oauthNo
    && saved.name == stored.name && saved.password == stored.password
    && saved.nickname.None? && saved.sex.None? && saved.tel.None? && saved.role.None?
    && saved.pushViewYn.None? && saved.tagAllowYn.None? && saved.joinDttm.None?
    && saved.passwordChgDttm.None? && saved.useYn.None?
  }

  /** The record written after a password match. */
  function SuccessWrite(policy: WritePolicy, stored: Member, now: Time): (r: Member)
    ensures r.id == stored.id && r.password == stored.password
    ensures r.wrongPasswordNumber == 0 && r.lastLoginDttm == Some(now)
  {
    match policy
    case Rebuild => Rebuilt(stored, 0, Some(now))
    case Transition => LoginSuccess(stored, 0, Some(now))
  }

  /** The record written after a mismatch: the stored counter plus one. */
  function FailureWrite(policy: WritePolicy, stored: Member): (r: Member)
    ensures r.id == stored.id && r.password == stored.password
    ensures r.wrongPasswordNumber == Inc32(stored.wrongPasswordNumber)
  {
    match policy
    case Rebuild => Rebuilt(stored, Inc32(stored.wrongPasswordNumber), None)
    case Transition => LoginFalse(stored, Inc32(stored.wrongPasswordNumber))
  }

  /** Both id and password are present and non-empty. */
  predicate LoginInputGiven(req: MemberRequest)
  {
    !IsNullOrEmpty(req.id) && !IsNullOrEmpty(req.password)
  }

  /** The table holds an active (`useYn == "Y"`) member under this id. */
  predicate Eligible(t: MemberTable, id: string)
  {
    id in t && t[id].useYn == Some("Y")
  }

  /** The request names an active member whose stored hash matches the
      password. */
  predicate Authenticates(t: MemberTable, enc: Encoder, req: MemberRequest)
  {
    && LoginInputGiven(req)
    && Eligible(t, req.id.value)
    && enc.matches(req.password.value, t[req.id.value].password)
  }

  /** `login`, with the write policy as a parameter; `Login` below is the
      code as written. */
  function LoginWith(policy: WritePolicy, t: MemberTable, enc: Encoder, req: MemberRequest, now: Time)
    : (r: LoginOutcome)
    ensures r.result.Success? <==> Authenticates(t, enc, req)
    ensures r.result.Success? ==> r.result.value == SessionOf(t[req.id.value])
    ensures |r.saves| == (if LoginInputGiven(req) && Eligible(t, req.id.value) then 1 else 0)
    ensures forall i :: 0 <= i < |r.saves| ==> r.saves[i].id == req.id
  {
    if IsNullOrEmpty(req.id) then LoginOutcome(Failure(IllegalArgument(IdRequired)), [])
    else if IsNullOrEmpty(req.password) then LoginOutcome(Failure(IllegalArgument(PasswordRequired)), [])
    else
      match FindByIdAndUseYn(t, req.id.value, "Y")
      case None => LoginOutcome(Failure(IllegalAccess(NotJoined)), [])
      case Some(stored) =>
        if enc.matches(req.password.value, stored.password) then
          LoginOutcome(Success(SessionOf(stored)), [SuccessWrite(policy, stored, now)])
        else
          LoginOutcome(Failure(IllegalAccess(WrongPassword)), [FailureWrite(policy, stored)])
  }

  /** `login` as the source writes it. */
  function Login(t: MemberTable, enc: Encoder, req: MemberRequest, now: Time): (r: LoginOutcome)
    ensures r.result.Success? <==> Authenticates(t, enc, req)
    ensures |r.saves| > 0 ==>
      LoginInputGiven(req) && req.id.value in t && KeepsOnlyIdentity(r.saves[0], t[req.id.value])
  {
    LoginWith(Rebuild, t, enc, req, now)
  }

  /** The table after a login's writes. */
  function AfterLogin(policy: WritePolicy, t: MemberTable, enc: Encoder, req: MemberRequest, now: Time)
    : (r: MemberTable)
    ensures r.Keys == t.Keys
    ensures forall k :: k in t && Some(k) != req.id ==> r[k] == t[k]
    ensures LoginInputGiven(req) && Eligible(t, req.id.value) ==>
      r[req.id.value] == LoginWith(policy, t, enc, req, now).saves[0]
  {
    var o := LoginWith(policy, t, enc, req, now);
    assert o.saves != [] ==> SavedKeys(o.saves) == {req.id.value};
    ApplySaves(t, o.saves)
  }

  /** Input is checked before anything is read or written, id first. */
  lemma LoginChecksInputFirst(policy: WritePolicy, t: MemberTable, enc: Encoder, req: MemberRequest, now: Time)
    ensures IsNullOrEmpty(req.id) ==>
      LoginWith(policy, t, enc, req, now) == LoginOutcome(Failure(IllegalArgument(IdRequired)), [])
    ensures !IsNullOrEmpty(req.id) && IsNullOrEmpty(req.password) ==>
      LoginWith(policy, t, enc, req, now) == LoginOutcome(Failure(IllegalArgument(PasswordRequired)), [])
  {
  }

  /** Only an active record counts as found; otherwise nothing is saved. */
  lemma LoginUnknownMember(policy: WritePolicy, t: MemberTable, enc: Encoder, req: MemberRequest, now: Time)
    requires LoginInputGiven(req) && !Eligible(t, req.id.value)
    ensures LoginWith(policy, t, enc, req, now) == LoginOutcome(Failure(IllegalAccess(NotJoined)), [])
  {
  }

  /** On a match the caller gets the stored profile as it was before the
      write, and exactly one record is saved: counter 0, stamp `now`,
      carrying only id, oauthNo, name and password from the stored record. */
  lemma LoginMatchResetsCounter(t: MemberTable, enc: Encoder, req: MemberRequest, now: Time)
    requires Authenticates(t, enc, req)
    ensures var r := Login(t, enc, req, now);
      && r.result == Success(SessionOf(t[req.id.value]))
      && |r.saves| == 1
      && r.saves[0].wrongPasswordNumber == 0
      && r.saves[0].lastLoginDttm == Some(now)
      && KeepsOnlyIdentity(r.saves[0], t[req.id.value])
  {
  }

  /** On a mismatch exactly one record is saved, with the stored counter plus
      one and no stamp, and then the wrong-password exception is raised. */
  lemma LoginMismatchCountsFailure(t: MemberTable, enc: Encoder, req: MemberRequest, now: Time)
    requires LoginInputGiven(req) && Eligible(t, req.id.value)
    requires !enc.matches(req.password.value, t[req.id.value].password)
    ensures var r := Login(t, enc, req, now);
      && r.result == Failure(IllegalAccess(WrongPassword))
      && |r.saves| == 1
      && r.saves[0].wrongPasswordNumber == Inc32(t[req.id.value].wrongPasswordNumber)
      && r.saves[0].lastLoginDttm.None?
      && KeepsOnlyIdentity(r.saves[0], t[req.id.value])
  {
  }

  /** The worked case: a stored counter of 2 and a wrong password persist 3. */
  lemma LoginMismatchFromTwo(t: MemberTable, enc: Encoder, req: MemberRequest, now: Time)
    requires LoginInputGiven(req) && Eligible(t, req.id.value)
    requires !enc.matches(req.password.value, t[req.id.value].password)
    requires t[req.id.value].wrongPasswordNumber == 2
    ensures AfterLogin(Rebuild, t, enc, req, now)[req.id.value].wrongPasswordNumber == 3
  {
    LoginMismatchCountsFailure(t, enc, req, now);
  }

  /** As written, any login that writes leaves the member unable to log in
      again: the rebuilt record has no `useYn`, so the next attempt with the
      same id, whatever its password, is refused as "not joined". */
  lemma RebuildLocksOut(t: MemberTable, enc: Encoder, req: MemberRequest, now: Time,
                        again: MemberRequest, later: Time)
    requires LoginInputGiven(req) && Eligible(t, req.id.value)
    requires again.id == req.id && !IsNullOrEmpty(again.password)
    ensures LoginWith(Rebuild, AfterLogin(Rebuild, t, enc, req, now), enc, again, later).result
         == Failure(IllegalAccess(NotJoined))
  {
    var o := LoginWith(Rebuild, t, enc, req, now);
    var id := req.id.value;
    assert o.saves[0] == SuccessWrite(Rebuild, t[id], now) || o.saves[0] == FailureWrite(Rebuild, t[id]);
    assert SavedKeys(o.saves) == {id};
    assert AfterLogin(Rebuild, t, enc, req, now)[id] == o.saves[0];
    assert !Eligible(AfterLogin(Rebuild, t, enc, req, now), id);
  }

  /** With the entity transitions, the write keeps the whole profile, so an
      active member stays active. */
  lemma TransitionKeepsProfile(t: MemberTable, enc: Encoder, req: MemberRequest, now: Time)
    requires LoginInputGiven(req) && Eligible(t, req.id.value)
    ensures var t' := AfterLogin(Transition, t, enc, req, now);
      && SameProfile(t'[req.id.value], t[req.id.value])
      && Eligible(t', req.id.value)
  {
    var o := LoginWith(Transition, t, enc, req, now);
    assert SavedKeys(o.saves) == {req.id.value};
  }

  /** With the entity transitions, a member who logged in can log in again
      with the same password and gets the same session. */
  lemma TransitionLoginRepeatable(t: MemberTable, enc: Encoder, req: MemberRequest, now: Time, later: Time)
    requires Authenticates(t, enc, req)
    ensures var t' := AfterLogin(Transition, t, enc, req, now);
      LoginWith(Transition, t', enc, req, later).result == LoginWith(Transition, t, enc, req, now).result
  {
    TransitionKeepsProfile(t, enc, req, now);
  }

  /** The table after `n` consecutive logins with the same request. */
  function Attempts(policy: WritePolicy, t: MemberTable, enc: Encoder, req: MemberRequest, now: Time, n: nat)
    : MemberTable
    decreases n
  {
    if n == 0 then t else Attempts(policy, AfterLogin(policy, t, enc, req, now), enc, req, now, n - 1)
  }

  /** With the entity transitions, `n` consecutive wrong passwords raise the
      stored counter by exactly `n` and change nothing else in the profile. */
  lemma {:induction false} TransitionFailuresAccumulate(t: MemberTable, enc: Encoder, req: MemberRequest,
                                                        now: Time, n: nat)
    requires LoginInputGiven(req) && Eligible(t, req.id.value)
    requires !enc.matches(req.password.value, t[req.id.value].password)
    requires t[req.id.value].wrongPasswordNumber + n <= INT32_MAX
    ensures var t' := Attempts(Transition, t, enc, req, now, n);
      && Eligible(t', req.id.value)
      && SameProfile(t'[req.id.value], t[req.id.value])
      && t'[req.id.value].wrongPasswordNumber == t[req.id.value].wrongPasswordNumber + n
    decreases n
  {
    if n > 0 {
      var id := req.id.value;
      var t1 := AfterLogin(Transition, t, enc, req, now);
      TransitionKeepsProfile(t, enc, req, now);
      var o := LoginWith(Transition, t, enc, req, now);
      assert SavedKeys(o.saves) == {id};
      assert t1[id] == FailureWrite(Transition, t[id]);
      Inc32NoWrap(t[id].wrongPasswordNumber);
      TransitionFailuresAccumulate(t1, enc, req, now, n - 1);
    }
  }

  // ---------------------------------------------------------------------------
  // Registration
  // ---------------------------------------------------------------------------

  /** `tel.replaceAll("-", "")`: every hyphen removed, all else kept in order. */
  function StripHyphens(s: string): (r: string)
    ensures '-' !in r
    ensures |r| <= |s|
  {
    if |s| == 0 then ""
    else if s[0] == '-' then StripHyphens(s[1..])
    else [s[0]] + StripHyphens(s[1..])
  }

  /** Stripping removes the hyphens and keeps every other character as
      often as it occurs. */
  lemma {:induction false} StripHyphensKeepsOthers(s: string)
    ensures forall c :: c != '-' ==> multiset(StripHyphens(s))[c] == multiset(s)[c]
    decreases |s|
  {
    if |s| > 0 {
      StripHyphensKeepsOthers(s[1..]);
      assert s == [s[0]] + s[1..];
    }
  }

  /** Stripping works piecewise, so it keeps the order of what it keeps. */
  lemma {:induction false} StripHyphensAppend(a: string, b: string)
    ensures StripHyphens(a + b) == StripHyphens(a) + StripHyphens(b)
    decreases |a|
  {
    if |a| > 0 {
      assert (a + b)[1..] == a[1..] + b;
      StripHyphensAppend(a[1..], b);
    } else {
      assert a + b == b;
    }
  }

  /** A string without hyphens is left as it is, so stripping is idempotent. */
  lemma {:induction false} StripHyphensNoHyphen(s: string)
    requires '-' !in s
    ensures StripHyphens(s) == s
    decreases |s|
  {
    if |s| > 0 {
      assert '-' !in s[1..] by { assert forall i :: 0 <= i < |s[1..]| ==> s[1..][i] == s[i + 1]; }
      StripHyphensNoHyphen(s[1..]);
    }
  }

  lemma StripHyphensIdempotent(s: string)
    ensures StripHyphens(StripHyphens(s)) == StripHyphens(s)
  {
    StripHyphensNoHyphen(StripHyphens(s));
  }

  /** The ordered checks of `validateIdCheck`, each paired with the reason it
      raises, evaluated on the request as the caller passed it. */
  function Checks(t: MemberTable, req: MemberRequest): seq<(bool, Reason)>
  {
    [ (req.id.Some?, IdRequired),
      (req.password.Some?, PasswordRequired),
      (req.tel.Some?, TelRequired),
      (req.tel.Some? && |StripHyphens(req.tel.value)| == 11, TelInvalid),
      (req.sex.Some?, SexRequired),
      (req.id.Some? && req.id.value !in t, AlreadyJoined) ]
  }

  /** The reason of the first check that does not pass, if any. */
  function FirstFailing(checks: seq<(bool, Reason)>): Option<Reason>
  {
    if |checks| == 0 then None
    else if !checks[0].0 then Some(checks[0].1)
    else FirstFailing(checks[1..])
  }

  /** `FirstFailing` names a failing check all of whose predecessors pass,
      and finds none exactly when every check passes. */
  lemma {:induction false} FirstFailingIsFirst(checks: seq<(bool, Reason)>)
    ensures FirstFailing(checks).None? <==> forall i :: 0 <= i < |checks| ==> checks[i].0
    ensures FirstFailing(checks).Some? ==>
      exists i :: 0 <= i < |checks| && !checks[i].0 && checks[i].1 == FirstFailing(checks).value
                  && forall j :: 0 <= j < i ==> checks[j].0
    decreases |checks|
  {
    if |checks| > 0 && checks[0].0 {
      FirstFailingIsFirst(checks[1..]);
      assert forall i :: 0 < i < |checks| ==> checks[i] == checks[1..][i - 1];
      if FirstFailing(checks[1..]).Some? {
        var i :| 0 <= i < |checks[1..]| && !checks[1..][i].0 && checks[1..][i].1 == FirstFailing(checks).value
                 && forall j :: 0 <= j < i ==> checks[1..][j].0;
        assert !checks[i + 1].0 && checks[i + 1].1 == FirstFailing(checks).value;
      }
    } else if |checks| > 0 {
      assert !checks[0].0;
    }
  }

  lemma FirstFailingCons(c: (bool, Reason), rest: seq<(bool, Reason)>)
    ensures FirstFailing([c] + rest) == if !c.0 then Some(c.1) else FirstFailing(rest)
  {
    assert ([c] + rest)[1..] == rest;
  }

  /** The first failing check of the list, spelled out case by case. */
  lemma ChecksInOrder(t: MemberTable, req: MemberRequest)
    ensures FirstFailing(Checks(t, req))
         == if req.id.None? then Some(IdRequired)
            else if req.password.None? then Some(PasswordRequired)
            else if req.tel.None? then Some(TelRequired)
            else if |StripHyphens(req.tel.value)| != 11 then Some(TelInvalid)
            else if req.sex.None? then Some(SexRequired)
            else if req.id.value in t then Some(AlreadyJoined)
            else None
  {
    var c := Checks(t, req);
    FirstFailingCons(c[0], c[1..]);
    FirstFailingCons(c[1], c[2..]);
    FirstFailingCons(c[2], c[3..]);
    FirstFailingCons(c[3], c[4..]);
    FirstFailingCons(c[4], c[5..]);
    FirstFailingCons(c[5], c[6..]);
    assert c == [c[0]] + c[1..];
    assert c[1..] == [c[1]] + c[2..];
    assert c[2..] == [c[2]] + c[3..];
    assert c[3..] == [c[3]] + c[4..];
    assert c[4..] == [c[4]] + c[5..];
    assert c[5..] == [c[5]] + c[6..];
  }

  /** What `validateIdCheck` returns: the verdict and the request object as
      the check left it (it hashes the password and strips the phone in
      place, even when a later check fails). */
  datatype Validation = Validation(result: Result<()>, request: MemberRequest)

  /** `validateIdCheck`. */
  function ValidateIdCheck(t: MemberTable, enc: Encoder, req: MemberRequest): (v: Validation)
    ensures v.result.Success? <==> FirstFailing(Checks(t, req)).None?
    ensures v.result.Failure? ==> v.result.error == IllegalArgument(FirstFailing(Checks(t, req)).value)
    ensures v.request.id == req.id && v.request.name == req.name && v.request.sex == req.sex
    ensures v.request.password
         == if req.id.Some? && req.password.Some? then Some(enc.encode(req.password.value)) else req.password
    ensures v.request.tel
         == if req.id.Some? && req.password.Some? && req.tel.Some? then Some(StripHyphens(req.tel.value))
            else req.tel
  {
    ChecksInOrder(t, req);
    if req.id.None? then Validation(Failure(IllegalArgument(IdRequired)), req)
    else if req.password.None? then Validation(Failure(IllegalArgument(PasswordRequired)), req)
    else
      var hashed := req.(password := Some(enc.encode(req.password.value)));
      if hashed.tel.None? then Validation(Failure(IllegalArgument(TelRequired)), hashed)
      else
        var stripped := hashed.(tel := Some(StripHyphens(hashed.tel.value)));
        if |stripped.tel.value| != 11 then Validation(Failure(IllegalArgument(TelInvalid)), stripped)
        else if stripped.sex.None? then Validation(Failure(IllegalArgument(SexRequired)), stripped)
        else if FindById(t, stripped.id.value).Some? then
          Validation(Failure(IllegalArgument(AlreadyJoined)), stripped)
        else Validation(Success(()), stripped)
  }

  /** The record a successful `join` builds from the validated request. */
  ghost predicate JoinedRecord(m: Member, enc: Encoder, req: MemberRequest, now: Time)
    requires req.password.Some? && req.tel.Some?
  {
    && m.id == req.id && m.name == req.name && m.sex == req.sex
    && m.password == Some(enc.encode(req.password.value))
    && m.tel == Some(StripHyphens(req.tel.value))
    && m.oauthNo == Some("") && m.role == Some("ROLE_USER")
    && m.tagAllowYn == Some("Y") && m.pushViewYn == Some("Y")
    && m.joinDttm == Some(now) && m.passwordChgDttm == Some(now)
    && m.wrongPasswordNumber == 0
    && m.nickname.None? && m.lastLoginDttm.None? && m.useYn.None?
  }

  /** What `join` returns: the new record or the exception, the request
      object as validation left it, and the records saved. */
  datatype JoinOutcome = JoinOutcome(result: Result<Member>, request: MemberRequest, saves: seq<Member>)

  /** `join`: validate, then build and save one record. */
  function Join(t: MemberTable, enc: Encoder, req: MemberRequest, now: Time): (r: JoinOutcome)
    ensures r.result.Success? <==> FirstFailing(Checks(t, req)).None?
    ensures r.result.Failure? ==>
      r.result.error == IllegalArgument(FirstFailing(Checks(t, req)).value) && r.saves == []
    ensures r.result.Success? ==>
      && r.saves == [r.result.value]
      && req.password.Some? && req.tel.Some?
      && JoinedRecord(r.result.value, enc, req, now)
      && req.id.value !in t
      && |r.result.value.tel.value| == 11
  {
    var v := ValidateIdCheck(t, enc, req);
    if v.result.Failure? then JoinOutcome(Failure(v.result.error), v.request, [])
    else
      var m := Unset.(id := v.request.id, password := v.request.password, oauthNo := Some(""),
                      name := v.request.name, sex := v.request.sex, tel := v.request.tel,
                      role := Some("ROLE_USER"), tagAllowYn := Some("Y"), pushViewYn := Some("Y"),
                      joinDttm := Some(now), wrongPasswordNumber := 0, passwordChgDttm := Some(now));
      JoinOutcome(Success(m), v.request, [m])
  }

  /** The table after a join's writes. */
  function AfterJoin(t: MemberTable, enc: Encoder, req: MemberRequest, now: Time): (r: MemberTable)
    ensures Join(t, enc, req, now).result.Failure? ==> r == t
    ensures Join(t, enc, req, now).result.Success? ==>
      && r.Keys == t.Keys + {req.id.value}
      && r[req.id.value] == Join(t, enc, req, now).result.value
  {
    var o := Join(t, enc, req, now);
    ApplySaves(t, o.saves)
  }

  /** A successful join adds one new key and leaves every existing record as
      it was. */
  lemma JoinOnlyAdds(t: MemberTable, enc: Encoder, req: MemberRequest, now: Time)
    ensures forall k :: k in t ==> k in AfterJoin(t, enc, req, now) && AfterJoin(t, enc, req, now)[k] == t[k]
  {
    var o := Join(t, enc, req, now);
    if o.result.Success? {
      assert SavedKeys(o.saves) == {req.id.value};
    }
  }

  /** Joining twice with the same id: the second call is refused as a
      duplicate, saves nothing, and the first record stays. */
  lemma JoinTwiceConflicts(t: MemberTable, enc: Encoder, req: MemberRequest, now: Time, later: Time)
    requires Join(t, enc, req, now).result.Success?
    ensures var t' := AfterJoin(t, enc, req, now);
      && Join(t', enc, req, later).result == Failure(IllegalArgument(AlreadyJoined))
      && Join(t', enc, req, later).saves == []
      && t'[req.id.value] == Join(t, enc, req, now).result.value
  {
  }

  /** Only null is refused: an empty id gets through validation. */
  lemma JoinAcceptsEmptyId(t: MemberTable, enc: Encoder, req: MemberRequest, now: Time)
    requires req.id == Some("") && "" !in t
    requires req.password.Some? && req.sex.Some?
    requires req.tel.Some? && |StripHyphens(req.tel.value)| == 11
    ensures Join(t, enc, req, now).result.Success?
  {
    ChecksInOrder(t, req);
  }

  /** A phone written in three hyphen-separated groups strips to the groups
      joined together: "010-1234-5678" becomes "01012345678". */
  lemma StripHyphensGroupedPhone(a: string, b: string, c: string)
    requires '-' !in a && '-' !in b && '-' !in c
    ensures StripHyphens(a + "-" + b + "-" + c) == a + b + c
  {
    var dash := "-";
    assert StripHyphens(dash) == "" by {
      assert dash[1..] == "";
    }
    StripHyphensNoHyphen(a);
    StripHyphensNoHyphen(b);
    StripHyphensNoHyphen(c);
    var x1 := a + dash;
    var x2 := x1 + b;
    var x3 := x2 + dash;
    StripHyphensAppend(a, dash);
    assert StripHyphens(x1) == a;
    StripHyphensAppend(x1, b);
    assert StripHyphens(x2) == a + b;
    StripHyphensAppend(x2, dash);
    assert StripHyphens(x3) == a + b;
    StripHyphensAppend(x3, c);
  }
}

/** The member record (`MemberInfoEntity`), its two login transitions and
    its read-only projection. */
module MemberInfo {
  import opened Common

  /** One row of the member table. Every field the Java builder can leave
      unset is an `Option`; the failed-login counter is a Java `int`. */
  datatype Member = Member(
    id: Option<string>,
    oauthNo: Option<string>,
    password: Option<string>,
    name: Option<string>,
    nickname: Option<string>,
    sex: Option<string>,
    tel: Option<string>,
    role: Option<string>,
    pushViewYn: Option<string>,
    tagAllowYn: Option<string>,
    joinDttm: Option<Time>,
    lastLoginDttm: Option<Time>,
    wrongPasswordNumber: Int32,
    passwordChgDttm: Option<Time>,
    useYn: Option<string>)

  /** What the builder produces before any setter runs: every reference null
      and the counter 0. */
  const Unset: Member := Member(None, None, None, None, None, None, None, None,
                                None, None, None, None, 0, None, None)

  /** The read-only view `memberEntityToRVO` returns. */
  datatype MemberInfoRVO = MemberInfoRVO(
    id: Option<string>,
    name: Option<string>,
    nickName: Option<string>,
    oauthNo: Option<string>,
    sex: Option<string>,
    tel: Option<string>)

  /** Everything about a member that is not touched by a login attempt agrees. */
  predicate SameProfile(a: Member, b: Member)
  {
    && a.id == b.id && a.oauthNo == b.oauthNo && a.password == b.password
    && a.name == b.name && a.nickname == b.nickname && a.sex == b.sex
    && a.tel == b.tel && a.role == b.role && a.pushViewYn == b.pushViewYn
    && a.tagAllowYn == b.tagAllowYn && a.joinDttm == b.joinDttm
    && a.passwordChgDttm == b.passwordChgDttm && a.useYn == b.useYn
  }

  /** `loginSuccess`: sets the counter and the last-login stamp and returns
      the record itself. */
  function LoginSuccess(m: Member, wrongPasswordNumber: Int32, lastLoginDttm: Option<Time>): (r: Member)
    ensures r.wrongPasswordNumber == wrongPasswordNumber && r.lastLoginDttm == lastLoginDttm
    ensures SameProfile(r, m)
  {
    m.(wrongPasswordNumber := wrongPasswordNumber, lastLoginDttm := lastLoginDttm)
  }

  /** `loginFalse`: sets the counter only and returns the record itself. */
  function LoginFalse(m: Member, wrongPasswordNumber: Int32): (r: Member)
    ensures r.wrongPasswordNumber == wrongPasswordNumber
    ensures r.lastLoginDttm == m.lastLoginDttm
    ensures SameProfile(r, m)
  {
    m.(wrongPasswordNumber := wrongPasswordNumber)
  }

  /** `memberEntityToRVO`. */
  function ToRVO(m: Member): (r: MemberInfoRVO)
    ensures r.id == m.id && r.name == m.name && r.nickName == m.nickname
    ensures r.oauthNo == m.oauthNo && r.sex == m.sex && r.tel == m.tel
  {
    MemberInfoRVO(m.id, m.name, m.nickname, m.oauthNo, m.sex, m.tel)
  }

  /** The transitions are determined by their arguments: a record is exactly
      its profile plus the two login fields, so a record that agrees with the
      result on all of them is the result. */
  lemma LoginSuccessIsFieldUpdate(m: Member, n: Int32, t: Option<Time>, other: Member)
    requires SameProfile(other, m)
    requires other.wrongPasswordNumber == n && other.lastLoginDttm == t
    ensures LoginSuccess(m, n, t) == other
  {
  }

  /** `loginFalse` is `loginSuccess` with the stamp left as it was. */
  lemma LoginFalseKeepsStamp(m: Member, n: Int32)
    ensures LoginFalse(m, n) == LoginSuccess(m, n, m.lastLoginDttm)
  {
  }

  /** The projection exposes neither the password, the role, the counter nor
      any timestamp or flag: changing those leaves it as it was. */
  lemma RVOHidesCredentials(m: Member, password: Option<string>, role: Option<string>, n: Int32,
                            last: Option<Time>, useYn: Option<string>)
    ensures ToRVO(m.(password := password, role := role, wrongPasswordNumber := n,
                     lastLoginDttm := last, useYn := useYn)) == ToRVO(m)
  {
  }
}

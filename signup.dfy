/**
 * Member signup: the form's checks (a submission already running, password
 * confirmation, six-digit password), the role given to the new account, the
 * cell options, and the member record written once the account exists.
 */
module Signup {
  import opened Records
  import opened Seqs
  import ActiveUsers
  import Dashboard
  import QrLogin
  import Store

  /** The one address that is given the admin role. */
  const AdminEmail: string := "amorfortunae@naver.com"

  const MismatchMessage: string := "비밀번호가 일치하지 않습니다."
  const FormatMessage: string := "비밀번호는 숫자 6자리여야 합니다."
  const EmailInUseMessage: string := "이미 가입된 회원정보 입니다."

  /** `cellOptions`: the three roles first, then the cells of the three groups. */
  function CellOptions(): seq<string> {
    [ActiveUsers.Evangelist, ActiveUsers.SeniorTeacher, ActiveUsers.YouthTeacher] + ActiveUsers.Cells()
  }

  /** The options are the 26 entries of the admin's cell order, each once, with the two
      teacher roles moved up behind 전도사. */
  lemma CellOptionsMatchCellOrder()
    ensures |CellOptions()| == 26
    ensures CellOptions()[..3] == [ActiveUsers.Evangelist, ActiveUsers.SeniorTeacher, ActiveUsers.YouthTeacher]
    ensures CellOptions()[3..] == ActiveUsers.CustomCellOrder()[1..24]
    ensures multiset(CellOptions()) == multiset(ActiveUsers.CustomCellOrder())
    ensures Distinct(CellOptions())
  {
    var roles := [ActiveUsers.Evangelist, ActiveUsers.SeniorTeacher, ActiveUsers.YouthTeacher];
    var cells := ActiveUsers.Cells();
    var order := ActiveUsers.CustomCellOrder();
    ActiveUsers.CellsShape();
    assert order[1..24] == cells;
    assert CellOptions()[3..] == cells;
    assert multiset(CellOptions()) == multiset(roles) + multiset(cells);
    assert multiset(order) == multiset([ActiveUsers.Evangelist]) + multiset(cells)
      + multiset([ActiveUsers.SeniorTeacher, ActiveUsers.YouthTeacher]);
    assert Distinct(roles);
    DistinctConcat(roles, cells);
  }

  /** `/^\d{6}$/.test(pw)`: exactly six ASCII digits. */
  predicate IsSixDigitPassword(pw: string) {
    |pw| == 6 && forall i :: 0 <= i < |pw| ==> '0' <= pw[i] <= '9'
  }

  datatype Verdict = AlreadySubmitting | PasswordMismatch | BadPasswordFormat | Proceed

  /** The checks of `handleSignup`, in the order it makes them. */
  function CheckSubmission(submitting: bool, pw: string, pwConfirm: string): (v: Verdict)
    ensures v == AlreadySubmitting <==> submitting
    ensures v == PasswordMismatch <==> !submitting && pw != pwConfirm
    ensures v == BadPasswordFormat <==> !submitting && pw == pwConfirm && !IsSixDigitPassword(pw)
    ensures v == Proceed <==> !submitting && pw == pwConfirm && IsSixDigitPassword(pw)
  {
    if submitting then AlreadySubmitting
    else if pw != pwConfirm then PasswordMismatch
    else if !IsSixDigitPassword(pw) then BadPasswordFormat
    else Proceed
  }

  /** `email === adminEmail ? "admin" : "user"`. */
  function RoleFor(email: string): (role: string)
    ensures role == "admin" <==> email == AdminEmail
    ensures role == "admin" || role == "user"
  {
    if email == AdminEmail then "admin" else "user"
  }

  /** The form's fields other than the passwords. */
  datatype Profile = Profile(email: string, name: string, cell: string, phone: string)

  /** The record `setDoc` writes: no score, no reward dates, not disabled. */
  function NewMember(uid: string, p: Profile, now: int): (u: User)
    ensures u.uid == uid && u.email == p.email && u.name == p.name && u.cell == p.cell && u.phone == p.phone
    ensures u.role == RoleFor(p.email)
    ensures u.talentScore.None? && Score(u) == 0
    ensures u.lastPostDate.None? && u.lastQRDate.None?
    ensures !u.disabled && u.createdAt == Some(now)
  {
    User(uid, p.email, p.name, p.cell, p.phone, RoleFor(p.email), None, None, None, false, Some(now))
  }

  /** A new member's first post and first check-in are both rewarded, whenever they happen. */
  lemma NewMemberFirstRewardsDue(uid: string, p: Profile, now: int, later: int)
    ensures Dashboard.PostRewardDue(NewMember(uid, p, now), later)
    ensures QrLogin.CanAward(NewMember(uid, p, now), later)
    ensures Score(Dashboard.UserAfterSubmit(NewMember(uid, p, now), later)) == 1
    ensures Score(QrLogin.AfterCheckIn(NewMember(uid, p, now), later)) == QrLogin.CheckInBonus
  {
  }

  /** What `createUserWithEmailAndPassword` returned. */
  datatype AuthResult = Created(uid: string) | EmailInUse | AuthFailed(message: string)

  /** The signup form's state. */
  class SignupForm {
    var isSubmitting: bool
    var error: Option<string>
    var success: bool

    constructor ()
      ensures !isSubmitting && error.None? && !success
    {
      isSubmitting, error, success := false, None, false;
    }

    /** `handleSignup` up to the account creation it waits for. Returns whether
        that creation is started. */
    method Submit(pw: string, pwConfirm: string) returns (started: bool)
      modifies this
      ensures started <==> CheckSubmission(old(isSubmitting), pw, pwConfirm) == Proceed
      ensures success == old(success)
      ensures old(isSubmitting) ==> isSubmitting && error == old(error)
      ensures !old(isSubmitting) && pw != pwConfirm ==> !isSubmitting && error == Some(MismatchMessage)
      ensures !old(isSubmitting) && pw == pwConfirm && !IsSixDigitPassword(pw) ==>
        !isSubmitting && error == Some(FormatMessage)
      ensures started ==> isSubmitting && error.None?
    {
      var verdict := CheckSubmission(isSubmitting, pw, pwConfirm);
      if verdict == AlreadySubmitting {
        return false;
      }
      error := None;
      if verdict == PasswordMismatch {
        error := Some(MismatchMessage);
        return false;
      }
      if verdict == BadPasswordFormat {
        error := Some(FormatMessage);
        return false;
      }
      isSubmitting := true;
      started := true;
    }

    /** The rest of `handleSignup`, once the account creation has answered. */
    method Finish(db: Store.Database, p: Profile, auth: AuthResult, now: int)
      requires isSubmitting
      modifies this, db
      ensures !isSubmitting
      ensures db.posts == old(db.posts) && db.history == old(db.history)
      ensures auth.Created? ==>
        db.users == old(db.users)[auth.uid := NewMember(auth.uid, p, now)] && success && error == old(error)
      ensures auth.EmailInUse? ==>
        db.users == old(db.users) && success == old(success) && error == Some(EmailInUseMessage)
      ensures auth.AuthFailed? ==>
        db.users == old(db.users) && success == old(success) && error == Some(auth.message)
    {
      match auth {
        case Created(uid) =>
          db.SetUser(uid, NewMember(uid, p, now));
          success := true;
        case EmailInUse =>
          error := Some(EmailInUseMessage);
        case AuthFailed(message) =>
          error := Some(message);
      }
      isSubmitting := false;
    }
  }
}

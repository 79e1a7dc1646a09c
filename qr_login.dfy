/**
 * QR attendance check-in: opening the check-in page with the right code grants
 * five talent points, once per calendar day. There is no weekday or time-of-day
 * restriction.
 */
module QrLogin {
  import opened Records
  import opened Calendar
  import opened Store
  import Dashboard

  /** The code used when the deployment sets no `NEXT_PUBLIC_QR_SECRET`. */
  const DefaultSecret: string := "YOUR_SECRET_CODE"
  const CheckInBonus: int := 5
  const CheckInMissionContent: string := "QR 코드 출석 인증"

  /** `process.env.NEXT_PUBLIC_QR_SECRET || "YOUR_SECRET_CODE"`: an empty setting counts as none. */
  function ExpectedCode(env: Option<string>): string {
    if env.Some? && env.value != "" then env.value else DefaultSecret
  }

  /** `!codeFromUrl || codeFromUrl !== expectedCode` is false. */
  predicate CodeAccepted(code: Option<string>, expected: string) {
    code.Some? && code.value != "" && code.value == expected
  }

  /** The expected code is never empty, so a code is accepted exactly when it equals it. */
  lemma CodeAcceptedIff(code: Option<string>, env: Option<string>)
    ensures ExpectedCode(env) != ""
    ensures CodeAccepted(code, ExpectedCode(env)) <==> code == Some(ExpectedCode(env))
  {
  }

  /** `canAward`: false exactly when the last check-in fell on today's calendar day. */
  function CanAward(u: User, now: int): (r: bool)
    ensures !r <==> u.lastQRDate.Some? && LocalDayNumber(u.lastQRDate.value) == LocalDayNumber(now)
  {
    match u.lastQRDate
    case None => true
    case Some(last) =>
      SameCalendarDayIff(last, now);
      !SameCalendarDay(last, now)
  }

  /** The member record after an awarded check-in. */
  function AfterCheckIn(u: User, now: int): (r: User)
    ensures Score(r) == Score(u) + CheckInBonus
    ensures r.lastQRDate == Some(now)
    ensures r.(talentScore := u.talentScore, lastQRDate := u.lastQRDate) == u
  {
    u.(talentScore := Some(Score(u) + CheckInBonus), lastQRDate := Some(now))
  }

  function CheckInEntry(now: int): HistoryEntry {
    HistoryEntry(CheckInBonus, CheckInMissionContent, now)
  }

  datatype CheckInOutcome =
    | InvalidCode        // "유효하지 않은 QR 코드입니다."
    | RedirectToLogin    // nobody is logged in
    | CheckedIn          // "출석 인증되었습니다! 달란트 점수가 5점 추가되었습니다."
    | AlreadyCheckedIn   // "이미 출석이 등록되었습니다."
    | NoRecord           // the member has no record; no message is set

  /** The check-in effect of the page. `code` is the URL's `code` parameter,
      `env` the deployment's secret setting, `uid` the logged-in member. */
  method HandleCheckIn(db: Database, code: Option<string>, env: Option<string>, uid: Option<string>, now: int)
    returns (outcome: CheckInOutcome)
    modifies db
    ensures !CodeAccepted(code, ExpectedCode(env)) ==> outcome == InvalidCode && unchanged(db)
    ensures CodeAccepted(code, ExpectedCode(env)) && uid.None? ==> outcome == RedirectToLogin && unchanged(db)
    ensures CodeAccepted(code, ExpectedCode(env)) && uid.Some? && uid.value !in old(db.users) ==>
      outcome == NoRecord && unchanged(db)
    ensures CodeAccepted(code, ExpectedCode(env)) && uid.Some? && uid.value in old(db.users) ==>
      var id := uid.value;
      var u := old(db.users)[id];
      && db.posts == old(db.posts)
      && (CanAward(u, now) ==>
            && outcome == CheckedIn
            && db.users == old(db.users)[id := AfterCheckIn(u, now)]
            && db.history == AppendEntry(old(db.history), id, CheckInEntry(now)))
      && (!CanAward(u, now) ==>
            outcome == AlreadyCheckedIn && db.users == old(db.users) && db.history == old(db.history))
  {
    if !CodeAccepted(code, ExpectedCode(env)) {
      return InvalidCode;
    }
    if uid.None? {
      return RedirectToLogin;
    }
    var id := uid.value;
    var record := db.GetUser(id);
    if record.None? {
      return NoRecord;
    }
    var u := record.value;
    if CanAward(u, now) {
      var _ := db.UpdateUser(id, AfterCheckIn(u, now));
      db.AppendHistory(id, CheckInEntry(now));
      outcome := CheckedIn;
    } else {
      outcome := AlreadyCheckedIn;
    }
  }

  /** A second check-in on the same calendar day is refused. */
  lemma SecondCheckInSameDay(u: User, first: int, second: int)
    requires LocalDayNumber(first) == LocalDayNumber(second)
    ensures !CanAward(AfterCheckIn(u, first), second)
  {
  }

  /** The check-in reward and the daily-post reward keep separate dates: neither
      changes whether the other is due. */
  lemma RewardsAreIndependent(u: User, now: int, later: int)
    ensures Dashboard.PostRewardDue(AfterCheckIn(u, now), later) == Dashboard.PostRewardDue(u, later)
    ensures CanAward(Dashboard.UserAfterSubmit(u, now), later) == CanAward(u, later)
  {
  }

  /** Neither reward reads `disabled`: a removed member is rewarded as before. */
  lemma DisabledDoesNotBlockRewards(u: User, now: int)
    ensures Dashboard.PostRewardDue(u.(disabled := true), now) == Dashboard.PostRewardDue(u, now)
    ensures CanAward(u.(disabled := true), now) == CanAward(u, now)
    ensures Score(Dashboard.UserAfterSubmit(u.(disabled := true), now)) == Score(Dashboard.UserAfterSubmit(u, now))
    ensures Score(AfterCheckIn(u.(disabled := true), now)) == Score(AfterCheckIn(u, now))
  {
  }
}

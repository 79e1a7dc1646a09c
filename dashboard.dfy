/**
 * The member dashboard: submitting a daily mission post, with its once-a-day
 * reward of one talent point, and editing a post.
 */
module Dashboard {
  import opened Records
  import opened Calendar
  import opened Text
  import opened Store

  /** Posts need at least this many UTF-16 code units once trimmed. */
  const MinContentLength: int := 15

  predicate ContentAccepted(content: string) {
    Utf16Length(Trim(content)) >= MinContentLength
  }

  /** What the form holds when it is submitted. */
  datatype Draft = Draft(missionType: string, content: string, isPublic: bool)

  datatype SubmitOutcome =
    | Ignored          // a submission is already running, or nobody is logged in
    | TooShort         // "글 내용은 최소 15자 이상 입력되어야 합니다."
    | Rewarded         // "등록 되었습니다. 달란트 점수가 추가되었습니다."
    | Thanked          // "함께해줘서 고맙고 감사해요!" (already rewarded today)
    | UserUnavailable  // "사용자 정보를 불러올 수 없습니다."

  /** The post document a submission writes. */
  function NewPost(id: string, uid: string, draft: Draft, now: int): Post {
    Post(id, uid, draft.missionType, draft.content, draft.isPublic, Some(now))
  }

  /** The post reward is due unless the last one fell on today's calendar day. */
  function PostRewardDue(u: User, now: int): (due: bool)
    ensures due <==> u.lastPostDate.None? || LocalDayNumber(u.lastPostDate.value) != LocalDayNumber(now)
  {
    match u.lastPostDate
    case None => true
    case Some(last) =>
      SameCalendarDayIff(last, now);
      !SameCalendarDay(last, now)
  }

  /** The member record after an accepted submission at `now`. */
  function UserAfterSubmit(u: User, now: int): (r: User)
    ensures PostRewardDue(u, now) ==> Score(r) == Score(u) + 1 && r.lastPostDate == Some(now)
    ensures !PostRewardDue(u, now) ==> r == u
    ensures r.(talentScore := u.talentScore, lastPostDate := u.lastPostDate) == u
  {
    if PostRewardDue(u, now) then u.(talentScore := Some(Score(u) + 1), lastPostDate := Some(now)) else u
  }

  /** The reward log entry of a rewarded submission. */
  function PostRewardEntry(draft: Draft, now: int): HistoryEntry {
    HistoryEntry(1, draft.missionType, now)
  }

  /** `handleSubmit`. `busy` is the page's `isSubmitting` flag, `uid` the
      logged-in member, `postId` the id the store gives the new post. */
  method HandleSubmit(db: Database, busy: bool, uid: Option<string>, draft: Draft, postId: string, now: int)
    returns (outcome: SubmitOutcome)
    modifies db
    ensures busy || uid.None? ==> outcome == Ignored && unchanged(db)
    ensures !busy && uid.Some? && !ContentAccepted(draft.content) ==> outcome == TooShort && unchanged(db)
    ensures !busy && uid.Some? && ContentAccepted(draft.content) ==>
      var id := uid.value;
      && db.posts == old(db.posts) + [NewPost(postId, id, draft, now)]
      && (id !in old(db.users) ==>
            outcome == UserUnavailable && db.users == old(db.users) && db.history == old(db.history))
      && (id in old(db.users) ==>
            var u := old(db.users)[id];
            && db.users == old(db.users)[id := UserAfterSubmit(u, now)]
            && (PostRewardDue(u, now) ==>
                  outcome == Rewarded && db.history == AppendEntry(old(db.history), id, PostRewardEntry(draft, now)))
            && (!PostRewardDue(u, now) ==> outcome == Thanked && db.history == old(db.history)))
  {
    if busy || uid.None? {
      return Ignored;
    }
    if !ContentAccepted(draft.content) {
      return TooShort;
    }
    var id := uid.value;
    db.AddPost(NewPost(postId, id, draft, now));
    var record := db.GetUser(id);
    if record.None? {
      return UserUnavailable;
    }
    var u := record.value;
    if PostRewardDue(u, now) {
      var _ := db.UpdateUser(id, UserAfterSubmit(u, now));
      db.AppendHistory(id, PostRewardEntry(draft, now));
      outcome := Rewarded;
    } else {
      outcome := Thanked;
    }
  }

  /** The member record after accepted submissions at each of `times`, in order. */
  function UserAfterSubmissions(u: User, times: seq<int>): User
    decreases |times|
  {
    if times == [] then u else UserAfterSubmissions(UserAfterSubmit(u, times[0]), times[1..])
  }

  /** However many posts a member submits within one calendar day, the score
      rises by one point at most, and by one exactly when the first was due. */
  lemma {:induction false} SameDaySubmissionsRewardOnce(u: User, times: seq<int>)
    requires times != []
    requires forall i :: 0 <= i < |times| ==> LocalDayNumber(times[i]) == LocalDayNumber(times[0])
    ensures Score(UserAfterSubmissions(u, times)) == Score(u) + (if PostRewardDue(u, times[0]) then 1 else 0)
  {
    var u1 := UserAfterSubmit(u, times[0]);
    assert !PostRewardDue(u1, times[0]) by {
      if PostRewardDue(u, times[0]) {
        assert u1.lastPostDate == Some(times[0]);
      }
    }
    SameDayRewardsNothing(u1, times[1..], LocalDayNumber(times[0]));
  }

  /** After a reward on day `day`, further same-day submissions leave the record as it is. */
  lemma {:induction false} SameDayRewardsNothing(u: User, times: seq<int>, day: int)
    requires u.lastPostDate.Some? && LocalDayNumber(u.lastPostDate.value) == day
    requires forall i :: 0 <= i < |times| ==> LocalDayNumber(times[i]) == day
    ensures UserAfterSubmissions(u, times) == u
    decreases |times|
  {
    if times != [] {
      assert UserAfterSubmit(u, times[0]) == u;
      SameDayRewardsNothing(u, times[1..], day);
    }
  }

  /** A submission on a later calendar day than the last rewarded one is rewarded again. */
  lemma NextDayRewardsAgain(u: User, t1: int, t2: int)
    requires PostRewardDue(u, t1)
    requires LocalDayNumber(t1) < LocalDayNumber(t2)
    ensures PostRewardDue(UserAfterSubmit(u, t1), t2)
    ensures Score(UserAfterSubmissions(u, [t1, t2])) == Score(u) + 2
  {
    var u1 := UserAfterSubmit(u, t1);
    var u2 := UserAfterSubmit(u1, t2);
    assert u1.lastPostDate == Some(t1);
    assert Score(u2) == Score(u1) + 1;
    assert [t1, t2][1..] == [t2] && [t2][1..] == [];
    assert UserAfterSubmissions(u1, [t2]) == u2;
  }

  datatype EditOutcome =
    | Edited
    | EditCancelled    // the prompt was dismissed or left empty
    | EditTooShort     // "글 내용은 최소 15자 이상이어야 합니다."
    | EditFailed       // the post no longer exists

  /** `handleEditPost`: `newContent` is what the prompt returned (`None` when dismissed). */
  method HandleEditPost(db: Database, postId: string, newContent: Option<string>) returns (outcome: EditOutcome)
    modifies db
    ensures (newContent.None? || newContent.value == "") ==> outcome == EditCancelled && unchanged(db)
    ensures newContent.Some? && newContent.value != "" && !ContentAccepted(newContent.value) ==>
      outcome == EditTooShort && unchanged(db)
    ensures newContent.Some? && ContentAccepted(newContent.value) ==>
      db.users == old(db.users) && db.history == old(db.history)
      && (HasPost(old(db.posts), postId) ==>
            outcome == Edited && db.posts == WithContent(old(db.posts), postId, newContent.value))
      && (!HasPost(old(db.posts), postId) ==> outcome == EditFailed && db.posts == old(db.posts))
  {
    if newContent.Some? && ContentAccepted(newContent.value) {
      var ok := db.SetPostContent(postId, newContent.value);
      outcome := if ok then Edited else EditFailed;
    } else if newContent.Some? && newContent.value != "" {
      outcome := EditTooShort;
    } else {
      outcome := EditCancelled;
    }
  }
}

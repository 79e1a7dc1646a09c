/**
 * The admin page: deleting a post (with a one-point deduction), adding points,
 * disabling a member, searching members, and the lists the page derives from
 * the fetched members (active, disabled, top five by score).
 */
module Admin {
  import opened Records
  import opened Text
  import opened Seqs
  import opened Sorting
  import opened Store
  import Dashboard

  /** The members and posts the page has fetched, and its search box. */
  class AdminView {
    var users: seq<User>
    var posts: seq<Post>
    var searchQuery: string
    var searchResults: seq<User>

    constructor ()
      ensures users == [] && posts == [] && searchQuery == "" && searchResults == []
    {
      users, posts, searchQuery, searchResults := [], [], "", [];
    }

    /** `handleSearch`. */
    method HandleSearch()
      modifies this
      ensures searchResults == Search(users, searchQuery)
      ensures users == old(users) && posts == old(posts) && searchQuery == old(searchQuery)
    {
      searchResults := Search(users, searchQuery);
    }
  }

  /** `list` holds the record of every document of `users`, once per document: there is
      an order of the document ids, each id once, whose records make up `list`. */
  ghost predicate ListsEveryRecord(users: map<string, User>, list: seq<User>) {
    exists keys: seq<string> ::
      && Distinct(keys)
      && (forall k :: k in keys <==> k in users)
      && |keys| == |list|
      && (forall i :: 0 <= i < |keys| ==> list[i] == users[keys[i]])
  }

  /** `getDocs(collection(db, "users"))` mapped to records: every stored record, once per
      document, in an order the store chooses. */
  method ListRecords(users: map<string, User>) returns (list: seq<User>)
    ensures ListsEveryRecord(users, list)
    ensures |list| == |users.Keys|
    ensures forall uid :: uid in users ==> users[uid] in list
    ensures forall u :: u in list ==> u in users.Values
  {
    list := [];
    ghost var keys: seq<string> := [];
    var rest := users.Keys;
    while rest != {}
      invariant rest <= users.Keys
      invariant |list| + |rest| == |users.Keys|
      invariant Distinct(keys) && |keys| == |list|
      invariant forall k :: k in keys <==> k in users.Keys - rest
      invariant forall i :: 0 <= i < |keys| ==> keys[i] in users && list[i] == users[keys[i]]
      decreases |rest|
    {
      var uid :| uid in rest;
      DistinctConcat(keys, [uid]);
      list := list + [users[uid]];
      keys := keys + [uid];
      rest := rest - {uid};
    }
    assert users.Keys - rest == users.Keys;
    ListedByKeys(users, list, keys);
  }

  /** `fetchUsers`: the page's member list becomes every stored record, once per document. */
  method FetchUsers(db: Database, view: AdminView)
    modifies view
    ensures ListsEveryRecord(db.users, view.users)
    ensures |view.users| == |db.users.Keys|
    ensures forall uid :: uid in db.users ==> db.users[uid] in view.users
    ensures forall u :: u in view.users ==> u in db.users.Values
    ensures view.posts == old(view.posts) && view.searchQuery == old(view.searchQuery)
    ensures view.searchResults == old(view.searchResults)
  {
    var list := ListRecords(db.users);
    view.users := list;
  }

  /** A list made of the records at distinct keys, one per key, lists each record. */
  lemma ListedByKeys(users: map<string, User>, list: seq<User>, keys: seq<string>)
    requires Distinct(keys) && |keys| == |list|
    requires forall k :: k in keys <==> k in users
    requires forall i :: 0 <= i < |keys| ==> keys[i] in users && list[i] == users[keys[i]]
    ensures ListsEveryRecord(users, list)
    ensures forall uid :: uid in users ==> users[uid] in list
    ensures forall u :: u in list ==> u in users.Values
  {
    forall uid | uid in users
      ensures users[uid] in list
    {
      var i :| 0 <= i < |keys| && keys[i] == uid;
      assert list[i] == users[uid];
    }
    forall u | u in list
      ensures u in users.Values
    {
      var i :| 0 <= i < |list| && list[i] == u;
      assert users[keys[i]] == u;
    }
  }

  /** The record after one point is taken away; a score that is not positive becomes 0. */
  function AfterDeduction(u: User): (r: User)
    ensures Score(r) == if Score(u) > 0 then Score(u) - 1 else 0
    ensures Score(r) >= 0 && r.talentScore.Some?
    ensures r.(talentScore := u.talentScore) == u
  {
    u.(talentScore := Some(if Score(u) > 0 then Score(u) - 1 else 0))
  }

  /** `handleDeletePost`: on confirmation, the author loses a point if their record
      exists, and the post is deleted from the store and from the page's list. */
  method HandleDeletePost(db: Database, view: AdminView, confirmed: bool, postId: string, postUserId: string)
    modifies db, view
    ensures !confirmed ==> unchanged(db) && unchanged(view)
    ensures confirmed ==>
      && db.posts == WithoutPost(old(db.posts), postId)
      && db.history == old(db.history)
      && db.users == (if postUserId in old(db.users)
                      then old(db.users)[postUserId := AfterDeduction(old(db.users)[postUserId])]
                      else old(db.users))
      && view.posts == WithoutPost(old(view.posts), postId)
      && view.users == old(view.users) && view.searchQuery == old(view.searchQuery)
      && view.searchResults == old(view.searchResults)
  {
    if confirmed {
      var record := db.GetUser(postUserId);
      if record.Some? {
        var _ := db.UpdateUser(postUserId, AfterDeduction(record.value));
      }
      db.DeletePost(postId);
      view.posts := WithoutPost(view.posts, postId);
    }
  }

  /** The record after `amount` points are added. */
  function AfterAddition(u: User, amount: int): (r: User)
    ensures Score(r) == Score(u) + amount
    ensures r.(talentScore := u.talentScore) == u
  {
    u.(talentScore := Some(Score(u) + amount))
  }

  /** `addScore` is accepted only when it is a number above zero. */
  predicate AmountAccepted(amount: Option<int>) {
    amount.Some? && amount.value > 0
  }

  datatype AddScoreOutcome =
    | InvalidAmount   // "유효한 점수를 입력하세요."
    | Added           // "…점이 추가되었습니다."
    | NoRecord        // the member has no record; nothing happens

  /** `handleAddScore`: `amount` is `Number(input)`, `None` when it is not a number. */
  method HandleAddScore(db: Database, view: AdminView, uid: string, amount: Option<int>)
    returns (outcome: AddScoreOutcome)
    modifies db, view
    ensures !AmountAccepted(amount) ==> outcome == InvalidAmount && unchanged(db) && unchanged(view)
    ensures AmountAccepted(amount) && uid !in old(db.users) ==> outcome == NoRecord && unchanged(db) && unchanged(view)
    ensures AmountAccepted(amount) && uid in old(db.users) ==>
      && outcome == Added
      && db.users == old(db.users)[uid := AfterAddition(old(db.users)[uid], amount.value)]
      && db.posts == old(db.posts) && db.history == old(db.history)
      && ListsEveryRecord(db.users, view.users)
      && |view.users| == |db.users.Keys|
      && (forall k :: k in db.users ==> db.users[k] in view.users)
      && (forall u :: u in view.users ==> u in db.users.Values)
      && view.posts == old(view.posts)
      && view.searchQuery == old(view.searchQuery) && view.searchResults == old(view.searchResults)
  {
    if !AmountAccepted(amount) {
      return InvalidAmount;
    }
    var record := db.GetUser(uid);
    if record.None? {
      return NoRecord;
    }
    var _ := db.UpdateUser(uid, AfterAddition(record.value, amount.value));
    FetchUsers(db, view);
    outcome := Added;
  }

  datatype RemoveOutcome =
    | RemoveCancelled
    | Removed         // "회원이 탈퇴 처리되었습니다."
    | RemoveFailed    // `updateDoc` fails: the member has no record

  /** `handleRemoveUser`: on confirmation, `disabled: true` is written to the
      member's record and the list is fetched again. */
  method HandleRemoveUser(db: Database, view: AdminView, confirmed: bool, uid: string)
    returns (outcome: RemoveOutcome)
    modifies db, view
    ensures !confirmed ==> outcome == RemoveCancelled && unchanged(db) && unchanged(view)
    ensures confirmed && uid !in old(db.users) ==> outcome == RemoveFailed && unchanged(db) && unchanged(view)
    ensures confirmed && uid in old(db.users) ==>
      && outcome == Removed
      && db.users == old(db.users)[uid := old(db.users)[uid].(disabled := true)]
      && db.posts == old(db.posts) && db.history == old(db.history)
      && ListsEveryRecord(db.users, view.users)
      && |view.users| == |db.users.Keys|
      && (forall k :: k in db.users ==> db.users[k] in view.users)
      && (forall u :: u in view.users ==> u in db.users.Values)
      && view.posts == old(view.posts)
      && view.searchQuery == old(view.searchQuery) && view.searchResults == old(view.searchResults)
  {
    if !confirmed {
      return RemoveCancelled;
    }
    var record := db.GetUser(uid);
    if record.None? {
      return RemoveFailed;
    }
    var _ := db.UpdateUser(uid, record.value.(disabled := true));
    FetchUsers(db, view);
    outcome := Removed;
  }

  predicate Matches(u: User, query: string) {
    !u.disabled && (Contains(u.name, query) || Contains(u.email, query))
  }

  /** The search results: nothing for a blank query, otherwise the members who are
      not disabled and whose name or email contains the query as typed. */
  function Search(users: seq<User>, query: string): (r: seq<User>)
    ensures Trim(query) == [] ==> r == []
    ensures Trim(query) != [] ==> forall u :: u in r <==> (u in users && !u.disabled &&
      ((exists i :: OccursAt(u.name, query, i)) || (exists i :: OccursAt(u.email, query, i))))
    ensures IsSubsequence(r, users)
  {
    if Trim(query) == [] then
      assert IsSubsequence([], users) by { EmptyIsSubsequence(users); }
      []
    else Filter(users, (u: User) => Matches(u, query))
  }

  /** `users.filter(u => !u.disabled)`. */
  function ActiveUsers(users: seq<User>): (r: seq<User>)
    ensures forall u :: u in r <==> u in users && !u.disabled
    ensures IsSubsequence(r, users)
  {
    Filter(users, (u: User) => !u.disabled)
  }

  /** `users.filter(u => u.disabled)`. */
  function DisabledUsers(users: seq<User>): (r: seq<User>)
    ensures forall u :: u in r <==> u in users && u.disabled
    ensures IsSubsequence(r, users)
  {
    Filter(users, (u: User) => u.disabled)
  }

  /** Every fetched member is listed exactly once, as active or as disabled. */
  lemma ActiveDisabledPartition(users: seq<User>)
    ensures multiset(ActiveUsers(users)) + multiset(DisabledUsers(users)) == multiset(users)
    ensures |ActiveUsers(users)| + |DisabledUsers(users)| == |users|
  {
    FilterPartition(users, (u: User) => !u.disabled, (u: User) => u.disabled);
  }

  /** The ranking comparator `(b.talentScore || 0) - (a.talentScore || 0)` sorts by this key. */
  function RankKey(u: User): int {
    -Score(u)
  }

  const TopCount: nat := 5

  /** The active members, highest score first, members with equal scores in the order fetched. */
  function RankedUsers(users: seq<User>): (r: seq<User>)
    ensures |r| == |ActiveUsers(users)|
    ensures multiset(r) == multiset(ActiveUsers(users))
    ensures forall u :: u in r <==> u in users && !u.disabled
    ensures forall i, j :: 0 <= i < j < |r| ==> Score(r[i]) >= Score(r[j])
  {
    var active := ActiveUsers(users);
    var r := SortByKey(active, RankKey);
    assert forall u :: u in r <==> u in multiset(active);
    assert forall i, j :: 0 <= i < j < |r| ==> RankKey(r[i]) <= RankKey(r[j]);
    r
  }

  /** `topRankings`: at most five active members, highest score first. */
  function TopRankings(users: seq<User>): (r: seq<User>)
    ensures |r| == if |ActiveUsers(users)| < TopCount then |ActiveUsers(users)| else TopCount
    ensures forall i, j :: 0 <= i < j < |r| ==> Score(r[i]) >= Score(r[j])
    ensures forall u :: u in r ==> u in users && !u.disabled
    ensures multiset(r) <= multiset(ActiveUsers(users))
  {
    var ranked := RankedUsers(users);
    Take(ranked, TopCount)
  }

  /** Every active member who is not in the top list scores no more than the last one in it. */
  lemma TopRankingsAreTop(users: seq<User>, u: User)
    requires u in users && !u.disabled
    requires u !in TopRankings(users)
    ensures |TopRankings(users)| == TopCount
    ensures Score(u) <= Score(TopRankings(users)[TopCount - 1])
  {
    var ranked := RankedUsers(users);
    var i :| 0 <= i < |ranked| && ranked[i] == u;
    var top := TopRankings(users);
    assert forall k :: 0 <= k < |top| ==> top[k] == ranked[k];
    assert i >= |top|;
    assert ranked[TopCount - 1] == top[TopCount - 1];
  }

  /** Members with equal scores appear in the ranking in the order they were fetched. */
  lemma RankingTiesKeepFetchOrder(users: seq<User>, score: int)
    ensures Filter(RankedUsers(users), (u: User) => Score(u) == score)
         == Filter(ActiveUsers(users), (u: User) => Score(u) == score)
  {
    SortStable(ActiveUsers(users), RankKey, (u: User) => Score(u) == score);
  }

  /** Deleting a post the member was rewarded for takes back exactly that point. */
  lemma DeductionUndoesPostReward(u: User, now: int)
    requires Score(u) >= 0
    requires Dashboard.PostRewardDue(u, now)
    ensures Score(AfterDeduction(Dashboard.UserAfterSubmit(u, now))) == Score(u)
  {
  }
}

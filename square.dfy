/**
 * The square: the public posts written on today's weekday, in random order,
 * each shown with its author's name and cell.
 */
module Square {
  import opened Records
  import opened Calendar
  import opened Seqs
  import opened Shuffling

  /** The filter of `fetchPublicPosts`: a post needs a nonzero `createdAt.seconds`
      falling on the same local weekday as `now`. */
  predicate ShownToday(p: Post, now: int) {
    p.createdAt.Some? && p.createdAt.value != 0 && LocalWeekday(p.createdAt.value) == LocalWeekday(now)
  }

  /** The fetched public posts that pass the weekday filter, in the order fetched. */
  function TodaysPosts(fetched: seq<Post>, now: int): (r: seq<Post>)
    ensures forall p :: p in r <==>
      p in fetched && p.createdAt.Some? && p.createdAt.value != 0 && LocalWeekday(p.createdAt.value) == LocalWeekday(now)
    ensures IsSubsequence(r, fetched)
  {
    Filter(fetched, (p: Post) => ShownToday(p, now))
  }

  /** The test is on the weekday only: a post written any whole number of weeks
      before (or after) `now` passes it. */
  lemma SameWeekdayOtherWeeksShown(p: Post, now: int, weeks: int)
    requires p.createdAt == Some(now - weeks * 7 * SecondsPerDay) && p.createdAt.value != 0
    ensures ShownToday(p, now)
  {
    WeekdayRepeatsWeekly(now, -weeks);
    assert now + (-weeks) * 7 * SecondsPerDay == now - weeks * 7 * SecondsPerDay;
  }

  /** Both directions: a post with a nonzero time is shown exactly when it was written a whole
      number of local days, divisible by seven, before or after today. */
  lemma ShownTodayIff(p: Post, now: int)
    ensures ShownToday(p, now) <==> (p.createdAt.Some? && p.createdAt.value != 0 &&
      (LocalDayNumber(p.createdAt.value) - LocalDayNumber(now)) % 7 == 0)
  {
    if p.createdAt.Some? {
      SameWeekdayIff(p.createdAt.value, now);
    }
  }

  /** The feed the square shows: today's posts in shuffled order. */
  function Feed(fetched: seq<Post>, now: int, swaps: seq<(int, int)>): (r: seq<Post>)
    ensures multiset(r) == multiset(TodaysPosts(fetched, now))
    ensures forall p :: p in r <==> p in TodaysPosts(fetched, now)
  {
    var r := Shuffle(TodaysPosts(fetched, now), swaps);
    assert forall p :: p in r <==> p in multiset(TodaysPosts(fetched, now));
    r
  }

  /** The name and cell shown under a post. */
  datatype Author = Author(name: string, cell: string)

  const UnassignedCell: string := "미정"
  const Unknown: string := "알 수 없음"

  /** `{ name: user.name, cell: user.cell || "미정" }`. */
  function AuthorOf(u: User): (a: Author)
    ensures a.name == u.name
    ensures a.cell == if u.cell == "" then UnassignedCell else u.cell
    ensures a.cell != ""
  {
    Author(u.name, if u.cell == "" then UnassignedCell else u.cell)
  }

  /** The map the `forEach` loop builds from the users it is given. */
  function UsersMap(users: seq<User>): map<string, Author>
    decreases |users|
  {
    if users == [] then map[]
    else UsersMap(users[..|users| - 1])[users[|users| - 1].uid := AuthorOf(users[|users| - 1])]
  }

  /** `fetchUsers`: the `forEach` loop over the fetched users. */
  method BuildUsersMap(users: seq<User>) returns (m: map<string, Author>)
    ensures m == UsersMap(users)
  {
    m := map[];
    for i := 0 to |users|
      invariant m == UsersMap(users[..i])
    {
      assert users[..i + 1][..i] == users[..i];
      m := m[users[i].uid := AuthorOf(users[i])];
    }
    assert users[..|users|] == users;
  }

  /** Every fetched uid, and nothing else, is a key of the map. */
  lemma {:induction false} UsersMapKeys(users: seq<User>)
    ensures forall uid :: uid in UsersMap(users) <==> exists i :: 0 <= i < |users| && users[i].uid == uid
    decreases |users|
  {
    if users != [] {
      var init := users[..|users| - 1];
      UsersMapKeys(init);
      forall uid
        ensures uid in UsersMap(users) <==> exists i :: 0 <= i < |users| && users[i].uid == uid
      {
        if uid in UsersMap(init) {
          var i :| 0 <= i < |init| && init[i].uid == uid;
          assert users[i] == init[i];
        }
        if exists i :: 0 <= i < |users| && users[i].uid == uid {
          var i :| 0 <= i < |users| && users[i].uid == uid;
          if i < |init| {
            assert init[i] == users[i];
          }
        }
      }
    }
  }

  /** When two users share a uid, the later one wins. */
  lemma {:induction false} UsersMapLastWins(users: seq<User>, i: int)
    requires 0 <= i < |users|
    requires forall j :: i < j < |users| ==> users[j].uid != users[i].uid
    ensures users[i].uid in UsersMap(users)
    ensures UsersMap(users)[users[i].uid] == AuthorOf(users[i])
    decreases |users|
  {
    if i < |users| - 1 {
      var init := users[..|users| - 1];
      assert init[i] == users[i];
      UsersMapLastWins(init, i);
    }
  }

  /** `usersMap[post.userId]?.name || "알 수 없음"` and the same for the cell. */
  function ShownAuthor(m: map<string, Author>, userId: string): (a: Author)
    ensures userId !in m ==> a == Author(Unknown, Unknown)
    ensures userId in m ==> a.name == (if m[userId].name == "" then Unknown else m[userId].name)
    ensures userId in m ==> a.cell == (if m[userId].cell == "" then Unknown else m[userId].cell)
  {
    if userId !in m then Author(Unknown, Unknown)
    else
      var found := m[userId];
      Author(if found.name == "" then Unknown else found.name, if found.cell == "" then Unknown else found.cell)
  }

  /** An author whose record was fetched is shown with that record's cell, or "미정" when it
      has none. */
  lemma AuthorWithRecordShown(users: seq<User>, i: int)
    requires 0 <= i < |users|
    requires forall j :: i < j < |users| ==> users[j].uid != users[i].uid
    ensures ShownAuthor(UsersMap(users), users[i].uid).cell == AuthorOf(users[i]).cell
  {
    var m := UsersMap(users);
    UsersMapLastWins(users, i);
    assert m[users[i].uid] == AuthorOf(users[i]);
  }
}

# Talent-point rules of the youth-group app

This project models the reward and membership rules of a church youth group's
web app. Members earn "talent" points (달란트 점수):

- one point for the first mission post of each calendar day;
- five points for the first QR attendance check-in of each calendar day.

An admin can take a point back by deleting a post, add points by hand, disable
a member, search the members, and read rankings.

The app keeps three collections in its document store:

- `users`: member records;
- `posts`: mission posts;
- `users/<uid>/scoreHistory`: each member's reward log.

The model treats the store as an in-memory object, `Store.Database`. Its
methods stand for the single reads and writes the pages make. Each page
handler is a method that changes the store as the page's code does. The
decisions behind the handlers are pure functions, and lemmas state how the
rules behave across several calls.

Modules:

- `Records`: the documents, the score read as `talentScore || 0`, and cell labels.
- `Calendar`: local day number, year/month/day and weekday of an epoch second, at UTC+9.
- `Text`: `trim`, UTF-16 `length` and `includes`.
- `Seqs`, `Sorting` and `Shuffling`: `filter`, `indexOf`, the stable `sort` by a key, and a random reordering.
- `Store`: the store class and its primitive operations.
- `Dashboard`, `QrLogin`, `Admin`, `ActiveUsers`, `Signup` and `Square`: one module per page.

Two points where the code does less than one might expect:

- The check-in code has no weekday or time-of-day limit. It checks the code, then
  whether a check-in already happened today, and then updates the score with a
  plain read followed by a write (no compare-and-set).
- The signup code writes no `talentScore` field at all. Every page modelled here
  reads the missing field as 0, so `Signup.NewMember` leaves it absent and proves
  that `Score` is 0.
- `disabled` only filters the admin's lists. No reward path reads it, so a removed
  member who is still signed in keeps earning points
  (`QrLogin.DisabledDoesNotBlockRewards`).

Dates: the source compares `getFullYear`, `getMonth` and `getDate` of two
timestamps. `Calendar.CivilDate` converts day numbers to proleptic Gregorian
dates, and `Calendar.SameCalendarDayIff` proves that this comparison is
equality of local day numbers.

## Model

| member | source | states |
|---|---|---|
| Records.AppendEntry | app/dashboard/page.tsx:104-108 | adding one reward-log entry extends that member's log by exactly that entry and leaves every other member's log as it was |
| Records.CellRange | app/admin/active-users/page.tsx:23-25 | `Array.from({length: n}, (_, i) => `g-${i+1}셀`)` has n entries, entry i being the label of cell g-(i+1) |
| Records.CellNameInjective | app/signup/page.tsx:28-30 | two cell labels are equal exactly when group and number are equal |
| Calendar.LocalSecondsOfDay | app/dashboard/page.tsx:86-87 | the time of day lies in [0, 86400) and splits the local timestamp into day number and time of day |
| Calendar.CivilDate | app/dashboard/page.tsx:86-91 | every day number has a valid year/month/day whose day number is that number |
| Calendar.CivilDateOfDayNumber | app/dashboard/page.tsx:86-91 | every valid date is the date of its own day number, so dates and day numbers are in one-to-one correspondence |
| Calendar.DayNumberInjective | app/dashboard/page.tsx:86-91 | two valid dates with the same day number are the same date |
| Calendar.SameCalendarDayIff | app/dashboard/page.tsx:88-91 | equal year, month and date is equal local day number |
| Calendar.SameCalendarDayInterval | app/qr-login/page.tsx:48-51 | two times are on the same calendar day exactly when the second lies in the 24 hours from the first one's local midnight |
| Calendar.MidnightStartsNewDay | app/qr-login/page.tsx:48-51 | one second after 23:59:59 local time is a new day, however little time has passed |
| Calendar.LocalWeekday | app/square/page.tsx:46-47 | `getDay()` is between 0 and 6 |
| Calendar.SameWeekdayIff | app/square/page.tsx:46-47 | two times share `getDay()` exactly when their local day numbers differ by a multiple of seven |
| Calendar.WeekdayRepeatsWeekly | app/square/page.tsx:43-47 | shifting a time by any whole number of weeks keeps its weekday |
| Text.Trim | app/dashboard/page.tsx:64 | `trim()` removes exactly the leading and trailing whitespace: the result is empty exactly for whitespace-only input, otherwise it starts and ends with non-whitespace and sits inside the input with only whitespace around it |
| Text.Utf16Length | app/dashboard/page.tsx:64 | `.length` is between the number of characters and twice that, and equals it when there are no characters beyond the Basic Multilingual Plane |
| Text.Contains | app/admin/page.tsx:176 | `includes(q)` holds exactly when q occurs at some position |
| Seqs.Filter | app/admin/page.tsx:200-201 | `filter(p)` keeps exactly the elements satisfying p, in their original order |
| Seqs.FilterPartition | app/admin/page.tsx:200-201 | filtering by p and by not-p splits a sequence into two parts whose elements and lengths add up to it |
| Seqs.Take | app/admin/page.tsx:204 | `slice(0, n)` keeps the first n elements in place, or all of them when there are fewer, and holds no element more often than the whole |
| Seqs.IndexOf | app/admin/active-users/page.tsx:47-48 | `indexOf` is -1 exactly for absent elements, and otherwise the first position holding the element |
| Seqs.IndexOfDistinct | app/admin/active-users/page.tsx:47-48 | in a list without repetitions `indexOf` returns the position of each entry |
| Sorting.SortByKey | app/admin/active-users/page.tsx:46-53 | sorting by a key gives a permutation ordered by ascending key |
| Sorting.InsertSorted | app/admin/active-users/page.tsx:46-53 | inserting an element before the first one with a key that is not smaller keeps a sorted sequence sorted |
| Sorting.SortStable | app/admin/active-users/page.tsx:46-53 | elements with equal keys keep their input order (the comparator returns 0 and the sort is stable) |
| Shuffling.Shuffle | app/square/page.tsx:51 | the random reordering keeps every post and adds none: same length and same multiset |
| Shuffling.ShuffleReachesEveryOrder | app/square/page.tsx:51 | every rearrangement of the posts is a possible outcome of the reordering |
| Store.Database.UpdateUser | app/admin/page.tsx:135-136 | `updateDoc` changes the record only when the document exists, and fails otherwise |
| Store.WithoutPost | app/admin/page.tsx:120-121 | deleting a post drops exactly the posts with that id, keeps the others in their order, and changes nothing when the id is absent |
| Store.WithContent | app/dashboard/page.tsx:127-128 | editing a post replaces the content of the posts with that id and nothing else |
| Dashboard.PostRewardDue | app/dashboard/page.tsx:84-97 | the post reward is due exactly when `lastPostDate` is absent or on a different local day than now |
| Dashboard.UserAfterSubmit | app/dashboard/page.tsx:98-103 | when due: score becomes (old, or 0) + 1 and `lastPostDate` becomes now; when not due: the record is unchanged; no other field ever changes |
| Dashboard.HandleSubmit | app/dashboard/page.tsx:61-121 | a busy form or no user changes nothing; trimmed content under 15 code units changes nothing; otherwise exactly one post is appended, then the author's record and log get the reward exactly when it is due, and a missing record changes nothing more |
| Dashboard.SameDaySubmissionsRewardOnce | app/dashboard/page.tsx:84-103 | any number of accepted posts on one calendar day raise the score by 1 in total when the first was due, by 0 otherwise |
| Dashboard.SameDayRewardsNothing | app/dashboard/page.tsx:84-97 | after a reward on some day, further posts on that day leave the record unchanged |
| Dashboard.NextDayRewardsAgain | app/dashboard/page.tsx:84-103 | a post on a later day than the last rewarded one is rewarded again: two due posts on different days give 2 points |
| Dashboard.HandleEditPost | app/dashboard/page.tsx:123-136 | a dismissed or empty prompt and trimmed content under 15 code units change nothing; otherwise the post's content is replaced if the post exists and nothing else changes |
| QrLogin.CodeAcceptedIff | app/qr-login/page.tsx:23-31 | the expected code (the setting, or `YOUR_SECRET_CODE` when it is unset or empty) is never empty, so a code is accepted exactly when it equals it |
| QrLogin.CanAward | app/qr-login/page.tsx:44-55 | `canAward` is false exactly when `lastQRDate` is present and on the same local day as now |
| QrLogin.AfterCheckIn | app/qr-login/page.tsx:56-62 | score becomes (old, or 0) + 5, `lastQRDate` becomes now, no other field changes |
| QrLogin.HandleCheckIn | app/qr-login/page.tsx:26-79 | a wrong or missing code, no login, or no record change nothing; otherwise the record gets +5 and the log gets one `{5, "QR 코드 출석 인증"}` entry exactly when `canAward`, and nothing changes when it is not |
| QrLogin.SecondCheckInSameDay | app/qr-login/page.tsx:44-72 | a check-in after an awarded one on the same calendar day is not awarded |
| QrLogin.DisabledDoesNotBlockRewards | app/qr-login/page.tsx:34-79 | whether the post reward and the check-in are due, and the scores they give, are the same for a disabled member as for an active one |
| QrLogin.RewardsAreIndependent | app/qr-login/page.tsx:45-61 | the check-in never changes whether a post reward is due, and a post reward never changes whether a check-in is awarded |
| Admin.AfterDeduction | app/admin/page.tsx:116-118 | the score becomes max(score − 1, 0), with an absent score counted as 0; it is never negative and no other field changes |
| Admin.HandleDeletePost | app/admin/page.tsx:109-126 | without confirmation nothing changes; with it the post is removed from the store and from the page list, and the author loses a point if their record exists |
| Admin.AfterAddition | app/admin/page.tsx:157-158 | the score becomes (old, or 0) + amount and no other field changes |
| Admin.HandleAddScore | app/admin/page.tsx:145-165 | a non-number or an amount ≤ 0 changes nothing; for an existing member the score rises by the amount and the list is fetched again, once per document, while the search query and its shown results stay as they were; a missing member changes nothing |
| Admin.HandleRemoveUser | app/admin/page.tsx:128-143 | with confirmation the member's record gets `disabled: true` and nothing else, and the list is fetched again, once per document, while the search query and its shown results stay as they were; a missing record or no confirmation changes nothing |
| Admin.ListRecords | app/admin/page.tsx:82-86 | the fetched list holds each stored record once per document: an ordering of the document ids, each id once, whose records are the list; hence one entry per document, every record listed and nothing else |
| Admin.FetchUsers | app/admin/page.tsx:80-91 | the page's member list becomes that list, once per document, with the search box and posts untouched |
| Admin.AdminView.HandleSearch | app/admin/page.tsx:167-182 | the results become the search of the fetched list for the query; nothing else changes |
| Admin.Search | app/admin/page.tsx:167-178 | a blank or whitespace-only query gives no results; otherwise the results are exactly the non-disabled members whose name or email contains the untrimmed query, in the fetched order |
| Admin.ActiveUsers | app/admin/page.tsx:200 | exactly the members not disabled, in the fetched order |
| Admin.DisabledUsers | app/admin/page.tsx:201 | exactly the disabled members, in the fetched order |
| Admin.ActiveDisabledPartition | app/admin/page.tsx:200-201 | every fetched member is either active or disabled, and is counted once |
| Admin.RankedUsers | app/admin/page.tsx:202-203 | the active members rearranged in non-increasing score order |
| Admin.TopRankings | app/admin/page.tsx:202-204 | at most five active members (five when there are five), in non-increasing score order, taken from the active members |
| Admin.TopRankingsAreTop | app/admin/page.tsx:202-204 | an active member not shown scores no more than the fifth one shown |
| Admin.RankingTiesKeepFetchOrder | app/admin/page.tsx:202-203 | members with equal scores are ranked in the order they were fetched |
| Admin.DeductionUndoesPostReward | app/admin/page.tsx:116-118 | deleting a post whose reward was granted restores the score from before the reward |
| ActiveUsers.CustomCellOrderShape | app/admin/active-users/page.tsx:21-28 | `customCellOrder` has 26 distinct entries: 전도사, 1-1셀…1-8셀, 2-1셀…2-7셀, 3-1셀…3-8셀, 장년교사, 청년교사 |
| ActiveUsers.CellIndexOfListed | app/admin/active-users/page.tsx:47-48 | `customCellOrder.indexOf` of each listed entry is that entry's own position |
| ActiveUsers.CellKey | app/admin/active-users/page.tsx:47-51 | the sort position of a member is the cell's index, and unlisted or absent cells come after all 26 listed ones |
| ActiveUsers.CompareByCellIsKeyOrder | app/admin/active-users/page.tsx:46-53 | the comparator is negative, zero or positive exactly as the two members' sort positions compare |
| ActiveUsers.ActiveUsersByCell | app/admin/active-users/page.tsx:41-53 | the list is a permutation of the non-disabled fetched members, ordered by ascending sort position |
| ActiveUsers.ListedCellsFirst | app/admin/active-users/page.tsx:47-52 | members of listed cells come before members whose cell is absent or unlisted, and listed cells follow `customCellOrder` |
| ActiveUsers.SameCellKeepsFetchOrder | app/admin/active-users/page.tsx:46-53 | members of one cell appear in the order they were fetched |
| ActiveUsers.UnlistedKeepFetchOrder | app/admin/active-users/page.tsx:49-53 | members with absent or unlisted cells appear in the order they were fetched |
| ActiveUsers.SameCellNameAscending | app/admin/active-users/page.tsx:39-53 | when the store delivers members in ascending name order, the members of each cell are listed in ascending name order |
| ActiveUsers.UnlistedNameAscending | app/admin/active-users/page.tsx:39-53 | when the store delivers members in ascending name order, the members with absent or unlisted cells are listed in ascending name order |
| Signup.CellOptionsMatchCellOrder | app/signup/page.tsx:24-31 | 26 distinct options: 전도사, 장년교사, 청년교사, then the 23 cells in the admin's order, the same entries as `customCellOrder` |
| Signup.CheckSubmission | app/signup/page.tsx:35-47 | a running submission is refused first; then a password mismatch is reported whatever the format; then a password that is not exactly six ASCII digits; only then does signup proceed |
| Signup.RoleFor | app/signup/page.tsx:52 | the role is "admin" exactly for `amorfortunae@naver.com`, and "user" otherwise |
| Signup.NewMember | app/signup/page.tsx:54-62 | the new record holds the form's fields and the role, no `talentScore` (so the score reads as 0), no reward dates, and is not disabled |
| Signup.NewMemberFirstRewardsDue | app/signup/page.tsx:54-62 | a new member's first post earns 1 point and first check-in earns 5, whenever they happen |
| Signup.SignupForm.Submit | app/signup/page.tsx:33-48 | a submission while one is running changes nothing; any validation failure sets its message and leaves `isSubmitting` false; only a valid form sets `isSubmitting` and starts the account creation |
| Signup.SignupForm.Finish | app/signup/page.tsx:49-75 | on success the member record is written under the new uid; an address already in use, or any other failure, sets the message and writes nothing; `isSubmitting` is always reset |
| Square.TodaysPosts | app/square/page.tsx:43-48 | exactly the fetched posts with a nonzero `createdAt.seconds` on today's weekday, in the fetched order |
| Square.SameWeekdayOtherWeeksShown | app/square/page.tsx:43-48 | the test is on the weekday only: a post from any whole number of weeks earlier passes |
| Square.ShownTodayIff | app/square/page.tsx:43-48 | a post passes the filter exactly when it has a nonzero time whose local day is a multiple of seven days away from today |
| Square.Feed | app/square/page.tsx:43-53 | the feed holds exactly today's posts, each as often as fetched, in some order |
| Square.AuthorOf | app/square/page.tsx:70 | a user's entry holds the name, and the cell or "미정" when the cell is absent or empty |
| Square.BuildUsersMap | app/square/page.tsx:68-71 | the `forEach` loop builds the map given by assigning each user's entry in turn |
| Square.UsersMapKeys | app/square/page.tsx:68-71 | the map's keys are exactly the fetched uids |
| Square.UsersMapLastWins | app/square/page.tsx:69-71 | when several users share a uid, the entry of the last of them is kept |
| Square.ShownAuthor | app/square/page.tsx:95 | an author with no entry is shown as "알 수 없음" for name and cell, and empty name or cell values are shown the same way |
| Square.AuthorWithRecordShown | app/square/page.tsx:68-95 | an author whose record was fetched is shown with that record's cell, or "미정" when it has none |

## Left out

- Store and authentication calls are modelled as operations on an in-memory store. Their failures (network errors, permission errors) and the alerts that report them are not modelled. The one exception is `updateDoc` on a missing document, which is modelled.
- Routing, `alert`/`prompt`/`confirm`, rendering beyond the author line under each square post, and the re-reads that only refresh a page (`fetchMyPosts`, `fetchPosts`) are not modelled. Their effects are taken as inputs: the confirmation answer and the prompt's text.
- `serverTimestamp()` and `new Date()` are modelled as one given time, `now`, in whole epoch seconds.
- Time zones: local time is a fixed UTC+9 with no daylight saving. Sub-second parts of timestamps are not modelled.
- `Math.random()` in the square's sort is not modelled. The shuffle takes the exchanges it performs as an input and is proved to keep the posts and to be able to produce any order.
- Admin.HandleAddScore: `Number(input)` is taken as an integer, or `None` when it is not a number. Fractional amounts are not modelled.
- Admin.FetchUsers and Square.BuildUsersMap: the order in which the store lists documents is not modelled. Neither is ActiveUsers' `orderBy("name")`; `ActiveUsers.SameCellNameAscending` and `ActiveUsers.UnlistedNameAscending` take that order as a hypothesis.
- The square's query (`where("isPublic", "==", true)`, `orderBy("createdAt", "desc")`) runs in the store. The model takes the posts it returns as the input.
- Concurrency: two handlers running at once can race on the read-then-write of a score. Each handler is modelled as one atomic step, apart from the signup form, whose `isSubmitting` check is kept across the account creation.
- Dashboard.HandleSubmit: the `isSubmitting` flag is an input (`busy`). Its reset in `finally` is not a modelled state, because each call runs atomically.
- An absent `cell` is modelled as the empty string, and an absent `disabled` as false. Every reader of these fields treats them that way.
- The full-ranking page's `orderBy("talentScore", "desc")` query returns only documents that have the field, so members with no score yet are missing from that ranking rather than listed with 0. That page is not part of this model.
- Not part of this model: the QR scanner and generator components, the navigation bar, the layout, the login page, the configuration, and the all-ranking, disabled-users and my-info pages. These hold no local logic beyond store queries.

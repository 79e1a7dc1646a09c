/**
 * The documents of the app's store: member records (collection `users`),
 * mission posts (collection `posts`) and the per-member reward log
 * (sub-collection `users/<uid>/scoreHistory`).
 */
module Records {

  datatype Option<T> = None | Some(value: T)

  /** A member record. Optional document fields are `Option`s; an absent `cell`
      is the empty string (every reader of it writes `cell || <default>`), and an
      absent `disabled` flag is `false`. Timestamps are whole epoch seconds. */
  datatype User = User(
    uid: string,
    email: string,
    name: string,
    cell: string,
    phone: string,
    role: string,
    talentScore: Option<int>,
    lastPostDate: Option<int>,
    lastQRDate: Option<int>,
    disabled: bool,
    createdAt: Option<int>)

  /** A mission post; `createdAt` holds the timestamp's `seconds`, when present. */
  datatype Post = Post(
    id: string,
    userId: string,
    missionType: string,
    content: string,
    isPublic: bool,
    createdAt: Option<int>)

  /** One entry of a member's reward log. */
  datatype HistoryEntry = HistoryEntry(score: int, missionContent: string, createdAt: int)

  /** The score every handler reads: `talentScore || 0`. */
  function Score(u: User): int {
    match u.talentScore
    case Some(v) => v
    case None => 0
  }

  /** The reward log of `uid`; a member with no log has an empty one. */
  function HistoryOf(h: map<string, seq<HistoryEntry>>, uid: string): seq<HistoryEntry> {
    if uid in h then h[uid] else []
  }

  /** The reward logs after adding `e` to the log of `uid`. */
  function AppendEntry(h: map<string, seq<HistoryEntry>>, uid: string, e: HistoryEntry): (r: map<string, seq<HistoryEntry>>)
    ensures HistoryOf(r, uid) == HistoryOf(h, uid) + [e]
    ensures forall other :: other != uid ==> HistoryOf(r, other) == HistoryOf(h, other)
  {
    h[uid := HistoryOf(h, uid) + [e]]
  }

  /** `c` as the decimal digit character it stands for. */
  function Digit(c: nat): char
    requires c <= 9
  {
    (48 + c) as char
  }

  /** The label of a cell: `<group>-<n>셀`. */
  function CellName(group: nat, n: nat): (r: string)
    requires 1 <= group <= 9 && 1 <= n <= 9
    ensures |r| == 4 && r[0] == Digit(group) && r[1] == '-' && r[2] == Digit(n)
  {
    [Digit(group), '-', Digit(n), '셀']
  }

  /** The cells `<group>-1셀` … `<group>-<count>셀`, in that order. */
  function CellRange(group: nat, count: nat): (r: seq<string>)
    requires 1 <= group <= 9 && count <= 9
    ensures |r| == count
    ensures forall i :: 0 <= i < count ==> r[i] == CellName(group, i + 1)
  {
    seq(count, i requires 0 <= i < count => CellName(group, i + 1))
  }

  lemma CellNameInjective(g1: nat, n1: nat, g2: nat, n2: nat)
    requires 1 <= g1 <= 9 && 1 <= n1 <= 9 && 1 <= g2 <= 9 && 1 <= n2 <= 9
    ensures CellName(g1, n1) == CellName(g2, n2) <==> g1 == g2 && n1 == n2
  {
    if CellName(g1, n1) == CellName(g2, n2) {
      assert Digit(g1) == CellName(g1, n1)[0] == CellName(g2, n2)[0] == Digit(g2);
      assert Digit(n1) == CellName(g1, n1)[2] == CellName(g2, n2)[2] == Digit(n2);
    }
  }
}

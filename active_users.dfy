/**
 * The admin's list of active members, ordered by cell: first the cells of
 * `customCellOrder` in its order, then members whose cell is absent or unlisted.
 */
module ActiveUsers {
  import opened Records
  import opened Seqs
  import opened Sorting

  const Evangelist: string := "전도사"
  const SeniorTeacher: string := "장년교사"
  const YouthTeacher: string := "청년교사"

  /** The cells of the three groups: 1-1셀…1-8셀, 2-1셀…2-7셀, 3-1셀…3-8셀. */
  function Cells(): seq<string> {
    CellRange(1, 8) + CellRange(2, 7) + CellRange(3, 8)
  }

  /** `customCellOrder`. */
  function CustomCellOrder(): seq<string> {
    [Evangelist] + Cells() + [SeniorTeacher, YouthTeacher]
  }

  lemma CellRangeDistinct(group: nat, count: nat)
    requires 1 <= group <= 9 && count <= 9
    ensures Distinct(CellRange(group, count))
  {
    var r := CellRange(group, count);
    forall i, j | 0 <= i < j < |r|
      ensures r[i] != r[j]
    {
      CellNameInjective(group, i + 1, group, j + 1);
    }
  }

  /** Cells of different groups differ in their first character. */
  lemma CellRangesDisjoint(g1: nat, c1: nat, g2: nat, c2: nat)
    requires 1 <= g1 <= 9 && c1 <= 9 && 1 <= g2 <= 9 && c2 <= 9 && g1 != g2
    ensures forall x :: x in CellRange(g1, c1) ==> x !in CellRange(g2, c2)
  {
    forall x | x in CellRange(g1, c1)
      ensures x !in CellRange(g2, c2)
    {
      var i :| 0 <= i < c1 && CellRange(g1, c1)[i] == x;
      if x in CellRange(g2, c2) {
        var j :| 0 <= j < c2 && CellRange(g2, c2)[j] == x;
        CellNameInjective(g1, i + 1, g2, j + 1);
      }
    }
  }

  /** No cell label equals one of the three role names. */
  lemma RoleNamesAreNotCells(group: nat, count: nat)
    requires 1 <= group <= 9 && count <= 9
    ensures Evangelist !in CellRange(group, count)
    ensures SeniorTeacher !in CellRange(group, count)
    ensures YouthTeacher !in CellRange(group, count)
  {
    forall i | 0 <= i < count
      ensures CellRange(group, count)[i][1] == '-'
    {
    }
  }

  /** The 23 cells are distinct, and none of them is a role name. */
  lemma CellsShape()
    ensures |Cells()| == 23
    ensures Distinct(Cells())
    ensures Evangelist !in Cells() && SeniorTeacher !in Cells() && YouthTeacher !in Cells()
  {
    var r1, r2, r3 := CellRange(1, 8), CellRange(2, 7), CellRange(3, 8);
    CellRangeDistinct(1, 8);
    CellRangeDistinct(2, 7);
    CellRangeDistinct(3, 8);
    CellRangesDisjoint(1, 8, 2, 7);
    CellRangesDisjoint(1, 8, 3, 8);
    CellRangesDisjoint(2, 7, 3, 8);
    RoleNamesAreNotCells(1, 8);
    RoleNamesAreNotCells(2, 7);
    RoleNamesAreNotCells(3, 8);
    DistinctConcat(r1, r2);
    DistinctConcat(r1 + r2, r3);
  }

  /** `customCellOrder` has 26 distinct entries in this order: 전도사, 1-1셀…1-8셀,
      2-1셀…2-7셀, 3-1셀…3-8셀, 장년교사, 청년교사. */
  lemma CustomCellOrderShape()
    ensures |CustomCellOrder()| == 26
    ensures CustomCellOrder()[0] == Evangelist
    ensures forall i :: 1 <= i < 9 ==> CustomCellOrder()[i] == CellName(1, i)
    ensures forall i :: 9 <= i < 16 ==> CustomCellOrder()[i] == CellName(2, i - 8)
    ensures forall i :: 16 <= i < 24 ==> CustomCellOrder()[i] == CellName(3, i - 15)
    ensures CustomCellOrder()[24] == SeniorTeacher && CustomCellOrder()[25] == YouthTeacher
    ensures Distinct(CustomCellOrder())
  {
    CellsShape();
    DistinctConcat([Evangelist], Cells());
    var tail := [SeniorTeacher, YouthTeacher];
    assert Distinct(tail);
    DistinctConcat([Evangelist] + Cells(), tail);
  }

  /** `customCellOrder.indexOf(cell || "")`; an absent cell is "" and so unlisted. */
  function CellIndex(cell: string): int {
    IndexOf(CustomCellOrder(), cell)
  }

  /** Each entry of `customCellOrder` is found at its own position. */
  lemma CellIndexOfListed(i: int)
    requires 0 <= i < |CustomCellOrder()|
    ensures CellIndex(CustomCellOrder()[i]) == i
  {
    CustomCellOrderShape();
    IndexOfDistinct(CustomCellOrder(), i);
  }

  /** The comparator of `data.sort`. */
  function CompareByCell(a: User, b: User): int {
    var indexA := CellIndex(a.cell);
    var indexB := CellIndex(b.cell);
    if indexA == -1 && indexB == -1 then 0
    else if indexA == -1 then 1
    else if indexB == -1 then -1
    else indexA - indexB
  }

  /** The number of listed cells, the sort position of members in no listed cell. */
  const Unlisted: int := 26

  /** The position a member sorts at: the cell's index, or past every listed cell. */
  function CellKey(u: User): (k: int)
    ensures 0 <= k <= Unlisted
    ensures k == Unlisted <==> CellIndex(u.cell) == -1
    ensures k < Unlisted ==> k == CellIndex(u.cell)
  {
    CustomCellOrderShape();
    var i := CellIndex(u.cell);
    if i == -1 then Unlisted else i
  }

  /** The comparator orders two members exactly as their keys do, so sorting with it
      is the stable sort by `CellKey`. */
  lemma CompareByCellIsKeyOrder(a: User, b: User)
    ensures CompareByCell(a, b) < 0 <==> CellKey(a) < CellKey(b)
    ensures CompareByCell(a, b) == 0 <==> CellKey(a) == CellKey(b)
    ensures CompareByCell(a, b) > 0 <==> CellKey(a) > CellKey(b)
  {
  }

  predicate Active(u: User) {
    !u.disabled
  }

  /** `fetchActiveUsers`: the fetched members that are not disabled, sorted by cell. */
  function ActiveUsersByCell(fetched: seq<User>): (r: seq<User>)
    ensures multiset(r) == multiset(Filter(fetched, Active))
    ensures forall u :: u in r <==> u in fetched && !u.disabled
    ensures forall i, j :: 0 <= i < j < |r| ==> CellKey(r[i]) <= CellKey(r[j])
  {
    var active := Filter(fetched, Active);
    var r := SortByKey(active, CellKey);
    assert forall u :: u in r <==> u in multiset(active);
    r
  }

  /** Every member whose cell is listed comes before every member whose cell is absent or
      unlisted, and members of listed cells are in the order of `customCellOrder`. */
  lemma ListedCellsFirst(fetched: seq<User>)
    ensures var r := ActiveUsersByCell(fetched);
      forall i, j :: 0 <= i < j < |r| && CellIndex(r[j].cell) != -1 ==> CellIndex(r[i].cell) != -1
    ensures var r := ActiveUsersByCell(fetched);
      forall i, j :: 0 <= i < j < |r| && CellIndex(r[i].cell) != -1 && CellIndex(r[j].cell) != -1 ==>
        CellIndex(r[i].cell) <= CellIndex(r[j].cell)
  {
    var r := ActiveUsersByCell(fetched);
    forall i, j | 0 <= i < j < |r|
      ensures CellIndex(r[j].cell) != -1 ==> CellIndex(r[i].cell) != -1
      ensures CellIndex(r[i].cell) != -1 && CellIndex(r[j].cell) != -1 ==> CellIndex(r[i].cell) <= CellIndex(r[j].cell)
    {
      assert CellKey(r[i]) <= CellKey(r[j]);
    }
  }

  /** Members of one cell keep the order in which they were fetched. */
  lemma SameCellKeepsFetchOrder(fetched: seq<User>, cell: string)
    ensures Filter(ActiveUsersByCell(fetched), (u: User) => u.cell == cell)
         == Filter(Filter(fetched, Active), (u: User) => u.cell == cell)
  {
    SortStable(Filter(fetched, Active), CellKey, (u: User) => u.cell == cell);
  }

  /** Members whose cell is absent or unlisted keep the order in which they were fetched. */
  lemma UnlistedKeepFetchOrder(fetched: seq<User>)
    ensures Filter(ActiveUsersByCell(fetched), (u: User) => CellIndex(u.cell) == -1)
         == Filter(Filter(fetched, Active), (u: User) => CellIndex(u.cell) == -1)
  {
    SortStable(Filter(fetched, Active), CellKey, (u: User) => CellIndex(u.cell) == -1);
  }

  /** Code-point order on names, the order of `orderBy("name", "asc")`. */
  predicate NameLe(a: string, b: string)
    decreases |a|
  {
    a == [] || (b != [] && (a[0] < b[0] || (a[0] == b[0] && NameLe(a[1..], b[1..]))))
  }

  predicate NameAscending(s: seq<User>) {
    forall i, j :: 0 <= i < j < |s| ==> NameLe(s[i].name, s[j].name)
  }

  lemma {:induction false} SubsequenceNameAscending(r: seq<User>, s: seq<User>)
    requires IsSubsequence(r, s) && NameAscending(s)
    ensures NameAscending(r)
    decreases |s|
  {
    if s != [] {
      assert NameAscending(s[1..]);
      if r != [] && r[0] == s[0] && IsSubsequence(r[1..], s[1..]) {
        SubsequenceNameAscending(r[1..], s[1..]);
        SubsequenceMembers(r[1..], s[1..]);
        forall j | 0 < j < |r|
          ensures NameLe(r[0].name, r[j].name)
        {
          assert r[j] == r[1..][j - 1];
          assert r[j] in s[1..];
          var k :| 0 <= k < |s[1..]| && s[1..][k] == r[j];
          assert s[k + 1] == r[j];
        }
      } else {
        SubsequenceNameAscending(r, s[1..]);
      }
    }
  }

  /** When the store delivers the members in ascending name order, the members of each cell
      are listed in ascending name order. */
  lemma SameCellNameAscending(fetched: seq<User>, cell: string)
    requires NameAscending(fetched)
    ensures NameAscending(Filter(ActiveUsersByCell(fetched), (u: User) => u.cell == cell))
  {
    SameCellKeepsFetchOrder(fetched, cell);
    var active := Filter(fetched, Active);
    SubsequenceNameAscending(active, fetched);
    SubsequenceNameAscending(Filter(active, (u: User) => u.cell == cell), active);
  }

  /** Under the same hypothesis, members whose cell is absent or unlisted are listed in
      ascending name order. */
  lemma UnlistedNameAscending(fetched: seq<User>)
    requires NameAscending(fetched)
    ensures NameAscending(Filter(ActiveUsersByCell(fetched), (u: User) => CellIndex(u.cell) == -1))
  {
    UnlistedKeepFetchOrder(fetched);
    var active := Filter(fetched, Active);
    SubsequenceNameAscending(active, fetched);
    SubsequenceNameAscending(Filter(active, (u: User) => CellIndex(u.cell) == -1), active);
  }
}

/**
 * `Array.prototype.sort` with a comparator that returns a random sign: the
 * result is some rearrangement of the input, described here by the sequence of
 * exchanges that produces it.
 */
module Shuffling {

  /** `s` with the elements at `i` and `j` exchanged. */
  function Swap<T>(s: seq<T>, i: nat, j: nat): (r: seq<T>)
    requires i < |s| && j < |s|
    ensures |r| == |s| && multiset(r) == multiset(s)
    ensures r[i] == s[j] && r[j] == s[i]
    ensures forall k :: 0 <= k < |s| && k != i && k != j ==> r[k] == s[k]
  {
    var r := s[i := s[j]][j := s[i]];
    assert multiset(s[i := s[j]]) == multiset(s) - multiset{s[i]} + multiset{s[j]};
    r
  }

  /** `data.sort(() => Math.random() - 0.5)`: the order the random comparisons produce
      is given by `swaps`, applied in turn; pairs out of range are skipped. */
  function Shuffle<T>(s: seq<T>, swaps: seq<(int, int)>): (r: seq<T>)
    ensures |r| == |s| && multiset(r) == multiset(s)
    decreases |swaps|
  {
    if swaps == [] then s
    else
      var (i, j) := swaps[0];
      var next := if 0 <= i < |s| && 0 <= j < |s| then Swap(s, i, j) else s;
      Shuffle(next, swaps[1..])
  }

  /** Every rearrangement of the input is one the shuffle can produce. */
  lemma ShuffleReachesEveryOrder<T>(s: seq<T>, t: seq<T>)
    requires multiset(s) == multiset(t)
    ensures exists swaps :: Shuffle(s, swaps) == t
  {
    assert |s| == |multiset(s)| == |t|;
    assert s[0..] == s && t[0..] == t;
    var swaps := ShuffleFrom(s, t, 0);
  }

  /** Bringing the element `t[k]` to position `k` extends the agreeing prefix by one ... */
  lemma SwapIntoPlacePrefix<T>(s: seq<T>, t: seq<T>, k: nat, j: nat)
    requires |s| == |t| && k <= j < |s|
    requires s[..k] == t[..k] && s[j] == t[k]
    ensures Swap(s, k, j)[..k + 1] == t[..k + 1]
  {
    var s2 := Swap(s, k, j);
    forall m | 0 <= m < k + 1
      ensures s2[m] == t[m]
    {
      if m < k {
        assert s[..k][m] == t[..k][m];
      }
    }
  }

  /** An exchange inside a suffix is an exchange of that suffix. */
  lemma SwapSuffix<T>(s: seq<T>, k: nat, j: nat)
    requires k <= j < |s|
    ensures Swap(s, k, j)[k..] == Swap(s[k..], 0, j - k)
  {
  }

  lemma DropHead<T>(s: seq<T>)
    requires s != []
    ensures multiset(s[1..]) == multiset(s) - multiset{s[0]}
  {
    assert s == [s[0]] + s[1..];
  }

  /** ... and leaves behind it the elements still to be placed. */
  lemma SwapIntoPlaceRest<T>(s: seq<T>, t: seq<T>, k: nat, j: nat)
    requires |s| == |t| && k <= j < |s|
    requires s[j] == t[k]
    requires multiset(s[k..]) == multiset(t[k..])
    ensures multiset(Swap(s, k, j)[k + 1..]) == multiset(t[k + 1..])
  {
    var s2 := Swap(s, k, j);
    SwapSuffix(s, k, j);
    assert multiset(s2[k..]) == multiset(t[k..]);
    DropHead(s2[k..]);
    DropHead(t[k..]);
    assert s2[k..][1..] == s2[k + 1..] && t[k..][1..] == t[k + 1..];
  }

  /** One exchange followed by the rest. */
  lemma ShuffleStep<T>(s: seq<T>, i: nat, j: nat, rest: seq<(int, int)>)
    requires i < |s| && j < |s|
    ensures Shuffle(s, [(i as int, j as int)] + rest) == Shuffle(Swap(s, i, j), rest)
  {
    var swaps := [(i as int, j as int)] + rest;
    assert swaps[0] == (i as int, j as int) && swaps[1..] == rest;
  }

  lemma FindInSuffix<T>(s: seq<T>, k: nat, x: T) returns (j: nat)
    requires k <= |s| && x in multiset(s[k..])
    ensures k <= j < |s| && s[j] == x
  {
    assert x in s[k..];
    var m :| 0 <= m < |s[k..]| && s[k..][m] == x;
    j := k + m;
  }

  lemma {:induction false} ShuffleFrom<T>(s: seq<T>, t: seq<T>, k: nat) returns (swaps: seq<(int, int)>)
    requires |s| == |t| && k <= |s|
    requires s[..k] == t[..k]
    requires multiset(s[k..]) == multiset(t[k..])
    ensures Shuffle(s, swaps) == t
    decreases |s| - k
  {
    if k == |s| {
      assert s == s[..k] && t == t[..k];
      swaps := [];
    } else {
      assert t[k..][0] == t[k];
      var j := FindInSuffix(s, k, t[k]);
      SwapIntoPlacePrefix(s, t, k, j);
      SwapIntoPlaceRest(s, t, k, j);
      var rest := ShuffleFrom(Swap(s, k, j), t, k + 1);
      ShuffleStep(s, k, j, rest);
      swaps := [(k as int, j as int)] + rest;
    }
  }
}

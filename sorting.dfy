/**
 * `Array.prototype.sort` with a comparator that compares one integer key of
 * each element. The sort is stable (as ECMAScript requires since 2019), so its
 * result is unique: elements ordered by key, equal keys in their input order.
 */
module Sorting {
  import opened Seqs

  predicate SortedBy<T>(s: seq<T>, key: T -> int) {
    forall i, j :: 0 <= i < j < |s| ==> key(s[i]) <= key(s[j])
  }

  /** A sorted sequence stays sorted when an element no larger than its head goes in front. */
  lemma SortedCons<T>(h: T, t: seq<T>, key: T -> int)
    ensures SortedBy(t, key) && (t == [] || key(h) <= key(t[0])) ==> SortedBy([h] + t, key)
  {
    if SortedBy(t, key) && (t == [] || key(h) <= key(t[0])) {
      var r := [h] + t;
      forall i, j | 0 <= i < j < |r|
        ensures key(r[i]) <= key(r[j])
      {
        if i == 0 {
          assert r[j] == t[j - 1];
        } else {
          assert r[i] == t[i - 1] && r[j] == t[j - 1];
        }
      }
    }
  }

  /** The tail of a sorted sequence is sorted and starts no lower than the head. */
  lemma SortedTail<T>(s: seq<T>, key: T -> int)
    requires s != []
    ensures SortedBy(s, key) ==> SortedBy(s[1..], key) && (|s| == 1 || key(s[0]) <= key(s[1]))
  {
    if SortedBy(s, key) {
      forall i, j | 0 <= i < j < |s| - 1
        ensures key(s[1..][i]) <= key(s[1..][j])
      {
        assert s[1..][i] == s[i + 1] && s[1..][j] == s[j + 1];
      }
    }
  }

  /** `x` put in front of the first element of `s` whose key is not smaller. */
  function Insert<T>(x: T, s: seq<T>, key: T -> int): (r: seq<T>)
    ensures |r| == |s| + 1
    ensures multiset(r) == multiset(s) + multiset{x}
    ensures r[0] == x || (s != [] && r[0] == s[0])
  {
    if s == [] || key(x) <= key(s[0]) then [x] + s
    else
      var rest := Insert(x, s[1..], key);
      assert multiset(s) == multiset{s[0]} + multiset(s[1..]) by { assert s == [s[0]] + s[1..]; }
      assert multiset([s[0]] + rest) == multiset{s[0]} + multiset(rest);
      [s[0]] + rest
  }

  /** Inserting into a sorted sequence keeps it sorted. */
  lemma {:induction false} InsertSorted<T>(x: T, s: seq<T>, key: T -> int)
    requires SortedBy(s, key)
    ensures SortedBy(Insert(x, s, key), key)
  {
    if s == [] || key(x) <= key(s[0]) {
      SortedCons(x, s, key);
    } else {
      var rest := Insert(x, s[1..], key);
      SortedTail(s, key);
      InsertSorted(x, s[1..], key);
      SortedCons(s[0], rest, key);
    }
  }

  /** The stable sort of `s` by ascending `key`. */
  function SortByKey<T>(s: seq<T>, key: T -> int): (r: seq<T>)
    ensures |r| == |s|
    ensures multiset(r) == multiset(s)
    ensures SortedBy(r, key)
  {
    if s == [] then []
    else
      assert s == [s[0]] + s[1..];
      InsertSorted(s[0], SortByKey(s[1..], key), key);
      Insert(s[0], SortByKey(s[1..], key), key)
  }

  /** Inserting `x` changes a filter that selects elements of one key only by `x` itself. */
  lemma {:induction false} InsertFilter<T(!new)>(x: T, s: seq<T>, key: T -> int, p: T -> bool)
    requires forall a, b :: p(a) && p(b) ==> key(a) == key(b)
    ensures Filter(Insert(x, s, key), p) == (if p(x) then [x] else []) + Filter(s, p)
  {
    if s == [] || key(x) <= key(s[0]) {
      FilterHead([x] + s, p);
      assert ([x] + s)[1..] == s;
    } else {
      var rest := Insert(x, s[1..], key);
      InsertFilter(x, s[1..], key, p);
      FilterHead([s[0]] + rest, p);
      assert ([s[0]] + rest)[1..] == rest;
      FilterHead(s, p);
      if p(x) {
        assert !p(s[0]);
        assert Filter([s[0]] + rest, p) == Filter(rest, p);
      } else {
        assert Filter(rest, p) == Filter(s[1..], p);
      }
    }
  }

  /** Stability: among the elements that share a key, the sort keeps the input order. */
  lemma {:induction false} SortStable<T(!new)>(s: seq<T>, key: T -> int, p: T -> bool)
    requires forall a, b :: p(a) && p(b) ==> key(a) == key(b)
    ensures Filter(SortByKey(s, key), p) == Filter(s, p)
  {
    if s != [] {
      SortStable(s[1..], key, p);
      InsertFilter(s[0], SortByKey(s[1..], key), key, p);
    }
  }
}

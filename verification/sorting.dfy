/** The comparator sorts the system relies on (`Array.prototype.sort`, which is
    stable): a stable insertion sort by a descending key. Each new element
    is placed after every element whose key is at least its own, so ties
    keep their original order. */
module Sorting {

  predicate SortedDesc<T>(s: seq<T>, key: T -> real) {
    forall i, j :: 0 <= i < j < |s| ==> key(s[i]) >= key(s[j])
  }

  function Insert<T>(x: T, s: seq<T>, key: T -> real): (r: seq<T>)
    ensures multiset(r) == multiset(s) + multiset{x}
    ensures |r| == |s| + 1
  {
    if s == [] then [x]
    else if key(s[0]) >= key(x) then
      assert s == [s[0]] + s[1..];
      [s[0]] + Insert(x, s[1..], key)
    else
      assert s == [s[0]] + s[1..];
      [x] + s
  }

  /** A head no smaller than every element of a sorted tail keeps it sorted. */
  lemma ConsSorted<T>(a: T, rest: seq<T>, key: T -> real)
    requires SortedDesc(rest, key)
    requires forall j :: 0 <= j < |rest| ==> key(a) >= key(rest[j])
    ensures SortedDesc([a] + rest, key)
  {
    var r := [a] + rest;
    forall i, j | 0 <= i < j < |r| ensures key(r[i]) >= key(r[j]) {
      assert r[j] == rest[j - 1];
      if i > 0 {
        assert r[i] == rest[i - 1];
      }
    }
  }

  /** Inserting into a sorted list keeps it sorted. */
  lemma {:induction false} InsertSorted<T>(x: T, s: seq<T>, key: T -> real)
    requires SortedDesc(s, key)
    ensures SortedDesc(Insert(x, s, key), key)
  {
    if s == [] {
    } else if key(s[0]) >= key(x) {
      var tail := s[1..];
      assert SortedDesc(tail, key) by {
        forall i, j | 0 <= i < j < |tail| ensures key(tail[i]) >= key(tail[j]) {
          assert tail[i] == s[i + 1] && tail[j] == s[j + 1];
        }
      }
      InsertSorted(x, tail, key);
      var rest := Insert(x, tail, key);
      forall j | 0 <= j < |rest| ensures key(s[0]) >= key(rest[j]) {
        var y := rest[j];
        assert y in multiset(rest);
        if y != x {
          assert y in multiset(tail);
          var k :| 0 <= k < |tail| && tail[k] == y;
          assert s[k + 1] == y;
        }
      }
      ConsSorted(s[0], rest, key);
    } else {
      ConsSorted(x, s, key);
    }
  }

  /** The list sorted by descending key: a permutation of the input. */
  function SortDesc<T>(s: seq<T>, key: T -> real): (r: seq<T>)
    ensures multiset(r) == multiset(s)
    ensures |r| == |s|
    ensures SortedDesc(r, key)
  {
    if s == [] then []
    else
      assert s == s[..|s| - 1] + [s[|s| - 1]];
      InsertSorted(s[|s| - 1], SortDesc(s[..|s| - 1], key), key);
      Insert(s[|s| - 1], SortDesc(s[..|s| - 1], key), key)
  }

  lemma SortKeepsElements<T>(s: seq<T>, key: T -> real, x: T)
    ensures x in SortDesc(s, key) <==> x in s
  {
    var r := SortDesc(s, key);
    assert x in r <==> x in multiset(r);
    assert x in s <==> x in multiset(s);
  }
}

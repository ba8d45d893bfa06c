/** Ordering of query results: SQL `ORDER BY` and Python `sorted`, as a
    stable insertion sort under a total preorder. */
module Sorting {

  predicate SortedBy<T>(s: seq<T>, le: (T, T) -> bool)
  {
    forall i, j :: 0 <= i < j < |s| ==> le(s[i], s[j])
  }

  /** le compares every pair and is transitive. */
  ghost predicate TotalPreorder<T(!new)>(le: (T, T) -> bool)
  {
    && (forall a, b :: le(a, b) || le(b, a))
    && (forall a, b, c :: le(a, b) && le(b, c) ==> le(a, c))
  }

  /** x placed into the sorted s after every item that does not rank above it. */
  function InsertBy<T(!new)>(x: T, s: seq<T>, le: (T, T) -> bool): (r: seq<T>)
    requires TotalPreorder(le) && SortedBy(s, le)
    ensures SortedBy(r, le)
    ensures multiset(r) == multiset(s) + multiset{x}
  {
    if s == [] then [x]
    else if !le(s[0], x) then
      var r := [x] + s;
      assert le(x, s[0]);
      assert forall j :: 1 <= j < |r| ==> le(s[0], r[j]);
      r
    else
      var tail := InsertBy(x, s[1..], le);
      var r := [s[0]] + tail;
      assert s == [s[0]] + s[1..];
      forall j | 1 <= j < |r| ensures le(r[0], r[j]) {
        assert r[j] in multiset(tail);
        assert r[j] in multiset(s[1..]) || r[j] == x;
        if r[j] != x {
          var k :| 0 <= k < |s[1..]| && s[1..][k] == r[j];
          assert s[k + 1] == r[j];
        }
      }
      r
  }

  /** The items of s ordered by le; a permutation of s. */
  function SortBy<T(!new)>(s: seq<T>, le: (T, T) -> bool): (r: seq<T>)
    requires TotalPreorder(le)
    ensures SortedBy(r, le)
    ensures multiset(r) == multiset(s)
    ensures |r| == |s|
  {
    if s == [] then []
    else
      var r := InsertBy(s[|s| - 1], SortBy(s[..|s| - 1], le), le);
      assert s == s[..|s| - 1] + [s[|s| - 1]];
      assert |r| == |multiset(r)|;
      r
  }

  /** The items of s that le ranks level with y, in their order in s. */
  function Level<T>(s: seq<T>, y: T, le: (T, T) -> bool): (r: seq<T>)
    ensures |r| <= |s|
  {
    if s == [] then []
    else (if le(s[0], y) && le(y, s[0]) then [s[0]] else []) + Level(s[1..], y, le)
  }

  lemma {:induction false} LevelAppend<T>(a: seq<T>, b: seq<T>, y: T, le: (T, T) -> bool)
    ensures Level(a + b, y, le) == Level(a, y, le) + Level(b, y, le)
  {
    if a == [] {
      assert a + b == b;
    } else {
      assert (a + b)[1..] == a[1..] + b;
      LevelAppend(a[1..], b, y, le);
    }
  }

  lemma {:induction false} LevelNone<T>(s: seq<T>, y: T, le: (T, T) -> bool)
    requires forall i :: 0 <= i < |s| ==> !(le(s[i], y) && le(y, s[i]))
    ensures Level(s, y, le) == []
  {
    if s != [] {
      assert forall i :: 0 <= i < |s| - 1 ==> s[1..][i] == s[i + 1];
      LevelNone(s[1..], y, le);
    }
  }

  /** When the first item of the sorted s ranks above x, no item of s is at
      or below anything x is at or above. */
  lemma AboveNotLevel<T(!new)>(x: T, s: seq<T>, y: T, le: (T, T) -> bool)
    requires TotalPreorder(le) && SortedBy(s, le) && s != [] && !le(s[0], x) && le(y, x)
    ensures forall i :: 0 <= i < |s| ==> !le(s[i], y)
  {
    var first := s[0];
    assert !le(first, y) by {
      assert le(first, y) ==> le(first, x);
    }
    forall i | 0 <= i < |s| ensures !le(s[i], y) {
      var e := s[i];
      assert le(first, e) by {
        if i > 0 {
          assert le(s[0], s[i]);
        }
      }
      assert le(e, y) ==> le(first, y);
    }
  }

  /** Putting x in front of a sorted s whose first item ranks above x keeps the
      level items in order, x last among them. */
  lemma FrontInsertLevel<T(!new)>(x: T, s: seq<T>, y: T, le: (T, T) -> bool)
    requires TotalPreorder(le) && SortedBy(s, le) && s != [] && !le(s[0], x)
    ensures Level([x] + s, y, le) == Level(s, y, le) + Level([x], y, le)
  {
    LevelAppend([x], s, y, le);
    if le(x, y) && le(y, x) {
      AboveNotLevel(x, s, y, le);
      LevelNone(s, y, le);
    } else {
      LevelNone([x], y, le);
    }
  }

  /** Inserting x adds it behind the items already level with it. */
  lemma {:induction false} InsertByLevel<T(!new)>(x: T, s: seq<T>, y: T, le: (T, T) -> bool)
    requires TotalPreorder(le) && SortedBy(s, le)
    ensures Level(InsertBy(x, s, le), y, le) == Level(s, y, le) + Level([x], y, le)
  {
    if s == [] {
      assert [] + Level([x], y, le) == Level([x], y, le);
    } else if !le(s[0], x) {
      assert InsertBy(x, s, le) == [x] + s;
      FrontInsertLevel(x, s, y, le);
    } else {
      var t := s[1..];
      assert s == [s[0]] + t;
      assert SortedBy(t, le);
      assert InsertBy(x, s, le) == [s[0]] + InsertBy(x, t, le);
      InsertByLevel(x, t, y, le);
      LevelAppend([s[0]], InsertBy(x, t, le), y, le);
      LevelAppend([s[0]], t, y, le);
    }
  }

  /** The sort is stable: the items le ranks level with any y come out in the
      order they went in, as with Python's `sorted`. */
  lemma {:induction false} SortByStable<T(!new)>(s: seq<T>, le: (T, T) -> bool, y: T)
    requires TotalPreorder(le)
    ensures Level(SortBy(s, le), y, le) == Level(s, y, le)
  {
    if s != [] {
      var front := s[..|s| - 1];
      var last := s[|s| - 1];
      assert s == front + [last];
      var sorted := SortBy(front, le);
      assert SortBy(s, le) == InsertBy(last, sorted, le);
      SortByStable(front, le, y);
      InsertByLevel(last, sorted, y, le);
      LevelAppend(front, [last], y, le);
    }
  }

  /** Two equal keys in input order: the sort keeps that order. */
  lemma SortKeepsTies()
    ensures SortBy([(5, 1), (5, 2)], (a: (int, int), b: (int, int)) => a.0 <= b.0) == [(5, 1), (5, 2)]
  {
    var le := (a: (int, int), b: (int, int)) => a.0 <= b.0;
    assert TotalPreorder(le);
    assert [(5, 1), (5, 2)][..1] == [(5, 1)];
    assert SortBy([(5, 1)], le) == [(5, 1)];
  }
}

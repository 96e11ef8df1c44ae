/** A stable sort over a total preorder `le` ("`a` may come before `b`").
    JavaScript's `Array.prototype.sort` has been stable since ES2019, and the
    store's ordering is assumed stable as well, so one definition serves both:
    insertion sort, which places each element before every element it ties
    with that came later in the input. */
module Sorting {

  /** `le` is total and transitive (hence also reflexive). */
  ghost predicate TotalPreorder<T(!new)>(le: (T, T) -> bool) {
    && (forall a, b :: le(a, b) || le(b, a))
    && (forall a, b, c :: le(a, b) && le(b, c) ==> le(a, c))
  }

  /** Every element may come before every later one. */
  ghost predicate Sorted<T>(s: seq<T>, le: (T, T) -> bool) {
    forall i, j :: 0 <= i < j < |s| ==> le(s[i], s[j])
  }

  /** `x` in front of the sorted `s` stays sorted when `x` may precede `s`'s head. */
  lemma ConsSorted<T(!new)>(x: T, s: seq<T>, le: (T, T) -> bool)
    requires TotalPreorder(le)
    requires Sorted(s, le)
    requires forall j :: 0 <= j < |s| ==> le(x, s[j])
    ensures Sorted([x] + s, le)
  {
    var r := [x] + s;
    forall i, j | 0 <= i < j < |r| ensures le(r[i], r[j]) {
      if i == 0 {
        assert r[j] == s[j - 1];
      } else {
        assert r[i] == s[i - 1] && r[j] == s[j - 1];
      }
    }
  }

  /** `x` inserted into the sorted `s` in front of the first element it may precede. */
  function Insert<T(!new)>(x: T, s: seq<T>, le: (T, T) -> bool): (r: seq<T>)
    requires TotalPreorder(le)
    requires Sorted(s, le)
    ensures |r| == |s| + 1
    ensures multiset(r) == multiset(s) + multiset{x}
    ensures Sorted(r, le)
  {
    if |s| == 0 then
      ConsSorted(x, s, le);
      [x]
    else if le(x, s[0]) then
      assert forall j :: 0 <= j < |s| ==> le(x, s[j]) by {
        forall j | 0 <= j < |s| ensures le(x, s[j]) {
          if j > 0 {
            assert le(x, s[0]) && le(s[0], s[j]);
          }
        }
      }
      ConsSorted(x, s, le);
      [x] + s
    else
      var tail := s[1..];
      assert Sorted(tail, le) by {
        forall i, j | 0 <= i < j < |tail| ensures le(tail[i], tail[j]) {
          assert tail[i] == s[i + 1] && tail[j] == s[j + 1];
        }
      }
      var rest := Insert(x, tail, le);
      assert s == [s[0]] + tail;
      assert forall j :: 0 <= j < |rest| ==> le(s[0], rest[j]) by {
        forall j | 0 <= j < |rest| ensures le(s[0], rest[j]) {
          assert rest[j] in multiset(rest);
          if rest[j] != x {
            assert rest[j] in tail;
            var k :| 0 <= k < |tail| && tail[k] == rest[j];
            assert s[k + 1] == rest[j];
          }
        }
      }
      ConsSorted(s[0], rest, le);
      [s[0]] + rest
  }

  /** `s` in the order given by `le`, ties kept in input order. */
  function InsertionSort<T(!new)>(s: seq<T>, le: (T, T) -> bool): (r: seq<T>)
    requires TotalPreorder(le)
    ensures |r| == |s|
    ensures multiset(r) == multiset(s)
    ensures Sorted(r, le)
  {
    if |s| == 0 then []
    else
      assert s == [s[0]] + s[1..];
      Insert(s[0], InsertionSort(s[1..], le), le)
  }

  /** The elements of `s` that tie with `v` under `le`, in order. */
  function Ties<T>(s: seq<T>, v: T, le: (T, T) -> bool): seq<T> {
    if |s| == 0 then []
    else if le(s[0], v) && le(v, s[0]) then [s[0]] + Ties(s[1..], v, le)
    else Ties(s[1..], v, le)
  }

  lemma SortedTail<T>(s: seq<T>, le: (T, T) -> bool)
    requires |s| > 0 && Sorted(s, le)
    ensures Sorted(s[1..], le)
  {
    var tail := s[1..];
    forall i, j | 0 <= i < j < |tail| ensures le(tail[i], tail[j]) {
      assert tail[i] == s[i + 1] && tail[j] == s[j + 1];
    }
  }

  /** Inserting `x` adds it to its tie class in front of the class's other
      members and leaves every other tie class unchanged. */
  lemma {:induction false} TiesOfInsert<T(!new)>(x: T, s: seq<T>, v: T, le: (T, T) -> bool)
    requires TotalPreorder(le)
    requires Sorted(s, le)
    ensures Ties(Insert(x, s, le), v, le)
         == (if le(x, v) && le(v, x) then [x] else []) + Ties(s, v, le)
  {
    if |s| == 0 || le(x, s[0]) {
      assert Insert(x, s, le) == [x] + s;
      assert ([x] + s)[1..] == s;
    } else {
      SortedTail(s, le);
      var rest := Insert(x, s[1..], le);
      assert Insert(x, s, le) == [s[0]] + rest;
      assert ([s[0]] + rest)[1..] == rest;
      TiesOfInsert(x, s[1..], v, le);
    }
  }

  /** Stability: for every tie class, the sort keeps the input order. */
  lemma {:induction false} InsertionSortStable<T(!new)>(s: seq<T>, v: T, le: (T, T) -> bool)
    requires TotalPreorder(le)
    ensures Ties(InsertionSort(s, le), v, le) == Ties(s, v, le)
  {
    if |s| > 0 {
      InsertionSortStable(s[1..], v, le);
      TiesOfInsert(s[0], InsertionSort(s[1..], le), v, le);
    }
  }
}

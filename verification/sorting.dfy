/** Sorting by a comparator that subtracts keys into non-increasing key
    order, written as an insertion sort over sequences. The insertion keeps
    equal keys in input order, but that stability is a property of the
    body; the lemmas here state it only for input already in order. */
module Sorting {
  import opened Common

  /** Keys never increase from left to right. */
  ghost predicate SortedDesc<T>(s: seq<T>, key: T -> real) {
    forall i, j :: 0 <= i < j < |s| ==> key(s[i]) >= key(s[j])
  }

  /** Places `x` in front of the first element whose key is not larger, so
      that `x` stays ahead of the equal keys that followed it in the input. */
  function Insert<T>(x: T, s: seq<T>, key: T -> real): (r: seq<T>)
    requires SortedDesc(s, key)
    ensures SortedDesc(r, key)
    ensures multiset(r) == multiset(s) + multiset{x}
  {
    if s == [] || key(s[0]) <= key(x) then [x] + s
    else
      var rest := Insert(x, s[1..], key);
      assert s == [s[0]] + s[1..];
      HeadBound(s[0], rest, s[1..], x, key);
      [s[0]] + rest
  }

  /** A head that bounds the tail and `x` also bounds their insertion. */
  lemma HeadBound<T>(h: T, rest: seq<T>, tail: seq<T>, x: T, key: T -> real)
    requires multiset(rest) == multiset(tail) + multiset{x}
    requires key(h) >= key(x)
    requires forall k :: 0 <= k < |tail| ==> key(h) >= key(tail[k])
    requires SortedDesc(rest, key)
    ensures SortedDesc([h] + rest, key)
  {
    forall k | 0 <= k < |rest|
      ensures key(h) >= key(rest[k])
    {
      assert rest[k] in multiset(rest);
      if rest[k] != x {
        assert rest[k] in multiset(tail);
        var m :| 0 <= m < |tail| && tail[m] == rest[k];
      }
    }
  }

  function SortDesc<T>(s: seq<T>, key: T -> real): (r: seq<T>)
    ensures SortedDesc(r, key)
    ensures multiset(r) == multiset(s)
    ensures |r| == |s|
  {
    if s == [] then []
    else
      assert s == [s[0]] + s[1..];
      Insert(s[0], SortDesc(s[1..], key), key)
  }

  /** An input already in non-increasing order comes back unchanged. */
  lemma {:induction false} SortOfSortedIsIdentity<T>(s: seq<T>, key: T -> real)
    requires SortedDesc(s, key)
    ensures SortDesc(s, key) == s
  {
    if s != [] {
      assert SortedDesc(s[1..], key);
      SortOfSortedIsIdentity(s[1..], key);
      assert s == [s[0]] + s[1..];
    }
  }

  lemma {:induction false} InsertProjection<T, U>(x: T, s: seq<T>, key: T -> real, f: T -> U)
    requires SortedDesc(s, key)
    ensures multiset(Project(Insert(x, s, key), f)) == multiset(Project(s, f)) + multiset{f(x)}
  {
    if s == [] || key(s[0]) <= key(x) {
      ProjectAppend([x], s, f);
    } else {
      var t := Insert(x, s[1..], key);
      assert Insert(x, s, key) == [s[0]] + t;
      assert Insert(x, s, key)[1..] == t;
      InsertProjection(x, s[1..], key, f);
      ProjectCons(Insert(x, s, key), f);
      ProjectCons(s, f);
    }
  }

  lemma ProjectCons<T, U>(s: seq<T>, f: T -> U)
    requires s != []
    ensures multiset(Project(s, f)) == multiset{f(s[0])} + multiset(Project(s[1..], f))
  {
    assert s == [s[0]] + s[1..];
    ProjectAppend([s[0]], s[1..], f);
  }

  /** Sorting moves elements and never changes them: any projection of the
      elements (an id, say) keeps its multiset. */
  lemma {:induction false} SortProjection<T, U>(s: seq<T>, key: T -> real, f: T -> U)
    ensures multiset(Project(SortDesc(s, key), f)) == multiset(Project(s, f))
  {
    if s != [] {
      SortProjection(s[1..], key, f);
      InsertProjection(s[0], SortDesc(s[1..], key), key, f);
      ProjectCons(s, f);
    }
  }

  lemma {:induction false} InsertDistinct<T, U>(x: T, s: seq<T>, key: T -> real, f: T -> U)
    requires SortedDesc(s, key)
    requires Distinct(Project(s, f)) && f(x) !in Project(s, f)
    ensures Distinct(Project(Insert(x, s, key), f))
  {
    if s == [] || key(s[0]) <= key(x) {
      ProjectAppend([x], s, f);
    } else {
      assert s == [s[0]] + s[1..];
      ProjectAppend([s[0]], s[1..], f);
      var rest := Insert(x, s[1..], key);
      InsertDistinct(x, s[1..], key, f);
      InsertProjection(x, s[1..], key, f);
      ProjectAppend([s[0]], rest, f);
      assert f(s[0]) !in multiset(Project(rest, f));
    }
  }

  /** Elements whose projections are pairwise different stay so after
      sorting. */
  lemma {:induction false} SortDistinct<T, U>(s: seq<T>, key: T -> real, f: T -> U)
    requires Distinct(Project(s, f))
    ensures Distinct(Project(SortDesc(s, key), f))
  {
    if s != [] {
      assert s == [s[0]] + s[1..];
      ProjectAppend([s[0]], s[1..], f);
      SortDistinct(s[1..], key, f);
      SortProjection(s[1..], key, f);
      assert f(s[0]) !in multiset(Project(SortDesc(s[1..], key), f));
      InsertDistinct(s[0], SortDesc(s[1..], key), key, f);
    }
  }
}

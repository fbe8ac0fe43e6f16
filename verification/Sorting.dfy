/**
 Stable sorting of a list by a strict order, as the standard libraries provide it: the
 result is in order, has the same elements, and is the only such list when the order is
 total.
 */
module Sorting {
  /** Irreflexive on equal ranks, and ranks are comparable: what a sort key gives. */
  ghost predicate RanksBy<T(!new)>(before: (T, T) -> bool) {
    && (forall x, y :: before(x, y) ==> !before(y, x))
    && (forall x, y, z :: before(x, z) ==> before(x, y) || before(y, z))
  }

  ghost predicate Total<T(!new)>(before: (T, T) -> bool) {
    forall x, y :: before(x, y) || before(y, x) || x == y
  }

  function Insert<T>(before: (T, T) -> bool, e: T, s: seq<T>): seq<T> {
    if s == [] || !before(s[0], e) then [e] + s else [s[0]] + Insert(before, e, s[1..])
  }

  function Sort<T>(before: (T, T) -> bool, s: seq<T>): seq<T> {
    if s == [] then [] else Insert(before, s[0], Sort(before, s[1..]))
  }

  ghost predicate Sorted<T>(before: (T, T) -> bool, s: seq<T>) {
    s == [] || ((forall e :: e in s[1..] ==> !before(e, s[0])) && Sorted(before, s[1..]))
  }

  lemma {:induction false} InsertSorts<T(!new)>(before: (T, T) -> bool, e: T, s: seq<T>)
    requires RanksBy(before) && Sorted(before, s)
    ensures Sorted(before, Insert(before, e, s))
    ensures multiset(Insert(before, e, s)) == multiset(s) + multiset{e}
  {
    if s == [] || !before(s[0], e) {
      assert ([e] + s)[1..] == s;
      forall x | x in s
        ensures !before(x, e)
      {
        assert s == [s[0]] + s[1..];
      }
      assert multiset([e] + s) == multiset{e} + multiset(s);
    } else {
      var tail := s[1..];
      InsertSorts(before, e, tail);
      assert s == [s[0]] + tail;
      var r := Insert(before, e, tail);
      assert ([s[0]] + r)[1..] == r;
      forall x | x in r
        ensures !before(x, s[0])
      {
        assert x in multiset(r);
      }
      assert multiset([s[0]] + r) == multiset{s[0]} + multiset(r);
    }
  }

  lemma {:induction false} SortSorts<T(!new)>(before: (T, T) -> bool, s: seq<T>)
    requires RanksBy(before)
    ensures Sorted(before, Sort(before, s)) && multiset(Sort(before, s)) == multiset(s)
    ensures |Sort(before, s)| == |s|
  {
    if s != [] {
      SortSorts(before, s[1..]);
      InsertSorts(before, s[0], Sort(before, s[1..]));
      assert s == [s[0]] + s[1..];
      assert multiset(s) == multiset{s[0]} + multiset(s[1..]);
    }
    assert |multiset(Sort(before, s))| == |multiset(s)|;
  }

  lemma {:induction false} SortedRange<T>(before: (T, T) -> bool, s: seq<T>, i: nat, j: nat)
    requires Sorted(before, s) && i < j < |s|
    ensures !before(s[j], s[i])
  {
    if i == 0 {
      assert s[j] == s[1..][j - 1];
    } else {
      var tail := s[1..];
      SortedRange(before, tail, i - 1, j - 1);
      assert tail[i - 1] == s[i] && tail[j - 1] == s[j];
    }
  }

  lemma SortedHead<T>(before: (T, T) -> bool, s: seq<T>, e: T)
    requires Sorted(before, s) && e in multiset(s)
    ensures s != [] && (e == s[0] || !before(e, s[0]))
  {
    assert s == [s[0]] + s[1..];
  }

  lemma MultisetTail<T>(s: seq<T>)
    requires s != []
    ensures multiset(s[1..]) == multiset(s) - multiset{s[0]}
  {
    assert s == [s[0]] + s[1..];
    assert multiset(s) == multiset{s[0]} + multiset(s[1..]);
  }

  /** Under a total order a multiset has only one sorted listing. */
  lemma {:induction false} SortedUnique<T(!new)>(before: (T, T) -> bool, a: seq<T>, b: seq<T>)
    requires RanksBy(before) && Total(before)
    requires Sorted(before, a) && Sorted(before, b) && multiset(a) == multiset(b)
    ensures a == b
  {
    if a == [] {
      assert |multiset(b)| == 0;
    } else {
      assert a[0] in multiset(a);
      SortedHead(before, b, a[0]);
      assert b[0] in multiset(b);
      SortedHead(before, a, b[0]);
      MultisetTail(a);
      MultisetTail(b);
      SortedUnique(before, a[1..], b[1..]);
      assert a == [a[0]] + a[1..] && b == [b[0]] + b[1..];
    }
  }

  /** Sorting forgets the order of its input. */
  lemma SortIgnoresOrder<T(!new)>(before: (T, T) -> bool, a: seq<T>, b: seq<T>)
    requires RanksBy(before) && Total(before) && multiset(a) == multiset(b)
    ensures Sort(before, a) == Sort(before, b)
  {
    SortSorts(before, a);
    SortSorts(before, b);
    SortedUnique(before, Sort(before, a), Sort(before, b));
  }

  // Duplicates

  predicate AdjacentEqual<T(==)>(s: seq<T>) {
    exists i :: 0 <= i < |s| - 1 && s[i] == s[i + 1]
  }

  predicate HasDuplicate<T(==)>(s: seq<T>) {
    exists i, j :: 0 <= i < j < |s| && s[i] == s[j]
  }

  /** In a sorted list, equal elements have equal neighbours. */
  lemma SortedDuplicatesAreAdjacent<T(!new)>(before: (T, T) -> bool, s: seq<T>)
    requires RanksBy(before) && Total(before) && Sorted(before, s)
    ensures AdjacentEqual(s) <==> HasDuplicate(s)
  {
    if AdjacentEqual(s) {
      var i :| 0 <= i < |s| - 1 && s[i] == s[i + 1];
      assert s[i] == s[i + 1];
    }
    if HasDuplicate(s) {
      var i, j :| 0 <= i < j < |s| && s[i] == s[j];
      SortedRange(before, s, i, i + 1);
      if i + 1 < j {
        SortedRange(before, s, i + 1, j);
      }
      assert s[i] == s[i + 1];
    }
  }

  /** A list holds two equal elements exactly when some element is counted twice. */
  lemma DuplicateCount<T>(s: seq<T>)
    ensures HasDuplicate(s) <==> exists e :: multiset(s)[e] > 1
  {
    if HasDuplicate(s) {
      var i, j :| 0 <= i < j < |s| && s[i] == s[j];
      assert s == s[..i] + [s[i]] + s[i + 1..j] + [s[j]] + s[j + 1..];
      assert multiset(s)[s[i]] > 1;
    }
    if exists e :: multiset(s)[e] > 1 {
      var e :| multiset(s)[e] > 1;
      CountedTwice(s, e);
    }
  }

  lemma {:induction false} CountedTwice<T>(s: seq<T>, e: T)
    requires multiset(s)[e] > 1
    ensures HasDuplicate(s)
  {
    assert s != [];
    var tail := s[1..];
    assert s == [s[0]] + tail;
    assert multiset(s) == multiset{s[0]} + multiset(tail);
    if s[0] == e {
      assert e in multiset(tail);
      var j :| 0 <= j < |tail| && tail[j] == e;
      assert s[0] == s[j + 1];
    } else {
      CountedTwice(tail, e);
      var i, j :| 0 <= i < j < |tail| && tail[i] == tail[j];
      assert s[i + 1] == s[j + 1];
    }
  }

  /** Having duplicates depends only on what is counted how often. */
  lemma DuplicatesOfMultiset<T>(a: seq<T>, b: seq<T>)
    requires multiset(a) == multiset(b)
    ensures HasDuplicate(a) <==> HasDuplicate(b)
  {
    DuplicateCount(a);
    DuplicateCount(b);
  }
}

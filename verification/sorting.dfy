/**
 * A stable insertion sort by a caller-supplied "comes no later than" relation.
 *
 * LINQ-to-objects `OrderBy`/`ThenBy` is a stable sort, and the SQL `ORDER BY` the
 * services issue leaves the order of equal keys unspecified; this one sort stands
 * for both, and the ranking lemmas are stated for every sorted permutation.
 */
module Sorting {

  /** `le(a, b)`: `a` may come before `b`. A total preorder orders any two elements. */
  ghost predicate TotalPreorder<T(!new)>(le: (T, T) -> bool) {
    && (forall a, b :: le(a, b) || le(b, a))
    && (forall a, b, c :: le(a, b) && le(b, c) ==> le(a, c))
  }

  predicate SortedBy<T>(s: seq<T>, le: (T, T) -> bool) {
    forall i, j :: 0 <= i < j < |s| ==> le(s[i], s[j])
  }

  /** A sorted rearrangement of `s`. */
  ghost predicate IsSortingOf<T>(r: seq<T>, s: seq<T>, le: (T, T) -> bool) {
    SortedBy(r, le) && multiset(r) == multiset(s)
  }

  /** Puts `x` in front of the first element it may precede (so before its equals). */
  function Insert<T>(x: T, s: seq<T>, le: (T, T) -> bool): (r: seq<T>)
    ensures multiset(r) == multiset(s) + multiset{x}
    ensures |r| == |s| + 1
  {
    if |s| == 0 then [x]
    else if le(x, s[0]) then
      assert multiset([x] + s) == multiset(s) + multiset{x};
      [x] + s
    else
      assert s == [s[0]] + s[1..];
      [s[0]] + Insert(x, s[1..], le)
  }

  /** An element below every element of a sorted sequence may be put in front. */
  lemma ConsSorted<T>(x: T, s: seq<T>, le: (T, T) -> bool)
    requires SortedBy(s, le)
    requires forall k :: 0 <= k < |s| ==> le(x, s[k])
    ensures SortedBy([x] + s, le)
  {
    forall i, j | 0 <= i < j < |[x] + s| ensures le(([x] + s)[i], ([x] + s)[j]) {
      if i > 0 {
        assert ([x] + s)[i] == s[i - 1] && ([x] + s)[j] == s[j - 1];
      } else {
        assert ([x] + s)[j] == s[j - 1];
      }
    }
  }

  lemma {:induction false} InsertSorted<T(!new)>(x: T, s: seq<T>, le: (T, T) -> bool)
    requires TotalPreorder(le) && SortedBy(s, le)
    ensures SortedBy(Insert(x, s, le), le)
  {
    if |s| == 0 {
    } else if le(x, s[0]) {
      forall k | 0 <= k < |s| ensures le(x, s[k]) {
        if k > 0 {
          assert le(s[0], s[k]);
        }
      }
      ConsSorted(x, s, le);
    } else {
      var tail := Insert(x, s[1..], le);
      assert SortedBy(s[1..], le) by {
        forall i, j | 0 <= i < j < |s[1..]| ensures le(s[1..][i], s[1..][j]) {
          assert le(s[i + 1], s[j + 1]);
        }
      }
      InsertSorted(x, s[1..], le);
      assert le(s[0], x);
      forall k | 0 <= k < |tail| ensures le(s[0], tail[k]) {
        assert tail[k] in multiset(tail);
        if tail[k] != x {
          assert tail[k] in multiset(s[1..]);
          var m :| 0 <= m < |s[1..]| && s[1..][m] == tail[k];
          assert le(s[0], s[m + 1]);
        }
      }
      ConsSorted(s[0], tail, le);
    }
  }

  /** Insertion sort: a permutation of `s`, sorted whenever `le` is a total preorder. */
  function Sort<T(!new)>(s: seq<T>, le: (T, T) -> bool): (r: seq<T>)
    ensures multiset(r) == multiset(s)
    ensures |r| == |s|
    ensures TotalPreorder(le) ==> SortedBy(r, le)
  {
    if |s| == 0 then []
    else
      assert s == [s[0]] + s[1..];
      var rest := Sort(s[1..], le);
      assert TotalPreorder(le) ==> SortedBy(Insert(s[0], rest, le), le) by {
        if TotalPreorder(le) {
          InsertSorted(s[0], rest, le);
        }
      }
      Insert(s[0], rest, le)
  }

  /** Dropping the head keeps a sequence sorted and removes one copy from its multiset. */
  lemma DropHead<T>(a: seq<T>, le: (T, T) -> bool)
    requires |a| > 0 && SortedBy(a, le)
    ensures SortedBy(a[1..], le)
    ensures multiset(a[1..]) == multiset(a) - multiset{a[0]}
  {
    assert a == [a[0]] + a[1..];
    forall p, q | 0 <= p < q < |a[1..]| ensures le(a[1..][p], a[1..][q]) {
      assert a[1..][p] == a[p + 1] && a[1..][q] == a[q + 1];
    }
  }

  /** Two sorted permutations start with elements ordered both ways. */
  lemma SortedHeads<T>(a: seq<T>, b: seq<T>, le: (T, T) -> bool)
    requires SortedBy(a, le) && SortedBy(b, le) && multiset(a) == multiset(b) && |a| > 0
    requires forall x, y :: x in a && y in a && le(x, y) && le(y, x) ==> x == y
    ensures |b| > 0 && a[0] == b[0]
  {
    assert a[0] in multiset(b);
    var j :| 0 <= j < |b| && b[j] == a[0];
    assert b[0] in multiset(a);
    var i :| 0 <= i < |a| && a[i] == b[0];
    if i > 0 && j > 0 {
      assert le(a[0], a[i]) && le(b[0], b[j]);
    }
  }

  /** Orders no two distinct elements both ways: kept by dropping the head. */
  lemma AntisymmetricTail<T>(a: seq<T>, le: (T, T) -> bool)
    requires |a| > 0
    requires forall x, y :: x in a && y in a && le(x, y) && le(y, x) ==> x == y
    ensures forall x, y :: x in a[1..] && y in a[1..] && le(x, y) && le(y, x) ==> x == y
  {
    forall x, y | x in a[1..] && y in a[1..] && le(x, y) && le(y, x) ensures x == y {
      assert x in a && y in a;
    }
  }

  /**
   * When `le` orders no two distinct elements both ways, a sequence has one sorted
   * arrangement only: any two sorted permutations of it are equal.
   */
  lemma {:induction false} SortedUnique<T>(a: seq<T>, b: seq<T>, le: (T, T) -> bool)
    requires SortedBy(a, le) && SortedBy(b, le) && multiset(a) == multiset(b)
    requires forall x, y :: x in a && y in a && le(x, y) && le(y, x) ==> x == y
    ensures a == b
    decreases |a|
  {
    if |a| == 0 {
      assert |multiset(b)| == |multiset(a)| == 0;
    } else {
      SameHeadSortedTails(a, b, le);
      SortedUnique(a[1..], b[1..], le);
      HeadTailEqual(a, b);
    }
  }

  /** Two sorted permutations start alike, and their tails are sorted permutations again. */
  lemma SameHeadSortedTails<T>(a: seq<T>, b: seq<T>, le: (T, T) -> bool)
    requires SortedBy(a, le) && SortedBy(b, le) && multiset(a) == multiset(b) && |a| > 0
    requires forall x, y :: x in a && y in a && le(x, y) && le(y, x) ==> x == y
    ensures |b| > 0 && a[0] == b[0]
    ensures SortedBy(a[1..], le) && SortedBy(b[1..], le) && multiset(a[1..]) == multiset(b[1..])
    ensures forall x, y :: x in a[1..] && y in a[1..] && le(x, y) && le(y, x) ==> x == y
  {
    SortedHeads(a, b, le);
    DropHead(a, le);
    DropHead(b, le);
    AntisymmetricTail(a, le);
  }

  /** Sequences with the same head and the same tail are equal. */
  lemma HeadTailEqual<T>(a: seq<T>, b: seq<T>)
    requires |a| > 0 && |b| > 0 && a[0] == b[0] && a[1..] == b[1..]
    ensures a == b
  {
    assert a == [a[0]] + a[1..] && b == [b[0]] + b[1..];
  }
}

/** Sequence helpers shared by the services: LINQ's `Take` and `Count(predicate)`. */
module Seqs {
  import opened Wrappers

  function Min(a: int, b: int): int {
    if a <= b then a else b
  }

  function Max(a: int, b: int): int {
    if a >= b then a else b
  }

  /** LINQ `Take(n)`: the first `n` elements, none when `n` is not positive. */
  function Take<T>(s: seq<T>, n: int): (r: seq<T>)
    ensures |r| == if n <= 0 then 0 else Min(n, |s|)
    ensures r == s[..|r|]
  {
    if n <= 0 then [] else if n >= |s| then s else s[..n]
  }

  /** LINQ `FirstOrDefault(p)`, by position: the first index whose element satisfies `p`. */
  function IndexWhere<T>(s: seq<T>, p: T -> bool): (r: Option<nat>)
    ensures r.Some? ==> r.value < |s| && p(s[r.value])
    ensures r.Some? ==> forall j :: 0 <= j < r.value ==> !p(s[j])
    ensures r.None? <==> forall j :: 0 <= j < |s| ==> !p(s[j])
  {
    if |s| == 0 then None
    else if p(s[0]) then Some(0)
    else match IndexWhere(s[1..], p)
      case None => None
      case Some(k) => Some(k + 1)
  }

  /** Two sequences that agree on `p` position by position have the same first match. */
  lemma {:induction false} SameIndexWhere<T>(a: seq<T>, b: seq<T>, p: T -> bool)
    requires |a| == |b| && forall j :: 0 <= j < |a| ==> p(a[j]) == p(b[j])
    ensures IndexWhere(a, p) == IndexWhere(b, p)
  {
    if |a| > 0 && !p(a[0]) {
      assert forall j :: 0 <= j < |a| - 1 ==> a[1..][j] == a[j + 1] && b[1..][j] == b[j + 1];
      SameIndexWhere(a[1..], b[1..], p);
    }
  }

  /** LINQ `Count(p)`. */
  function CountIf<T>(s: seq<T>, p: T -> bool): (n: nat)
    ensures n <= |s|
  {
    if |s| == 0 then 0 else (if p(s[0]) then 1 else 0) + CountIf(s[1..], p)
  }

  /** LINQ `Where(p)`: the elements satisfying `p`, in order. */
  function Filter<T(!new)>(s: seq<T>, p: T -> bool): (r: seq<T>)
    ensures |r| == CountIf(s, p)
    ensures forall x :: x in r <==> x in s && p(x)
    ensures forall k :: 0 <= k < |r| ==> p(r[k])
  {
    if |s| == 0 then []
    else
      var rest := Filter(s[1..], p);
      assert forall x :: x in s <==> x == s[0] || x in s[1..];
      if p(s[0]) then [s[0]] + rest else rest
  }

  lemma {:induction false} CountIfAppend<T>(a: seq<T>, b: seq<T>, p: T -> bool)
    ensures CountIf(a + b, p) == CountIf(a, p) + CountIf(b, p)
  {
    if |a| == 0 {
      assert a + b == b;
    } else {
      assert (a + b)[1..] == a[1..] + b;
      CountIfAppend(a[1..], b, p);
    }
  }

  /** A count does not depend on the order of the elements. */
  lemma {:induction false} CountIfPermutation<T>(a: seq<T>, b: seq<T>, p: T -> bool)
    requires multiset(a) == multiset(b)
    ensures CountIf(a, p) == CountIf(b, p)
    decreases |a|
  {
    if |a| == 0 {
      assert |multiset(b)| == 0;
    } else {
      var x := a[0];
      assert x in multiset(b);
      var j :| 0 <= j < |b| && b[j] == x;
      var rest := b[..j] + b[j + 1..];
      assert b == b[..j] + [x] + b[j + 1..];
      assert a == [x] + a[1..];
      assert multiset(b) == multiset(b[..j]) + multiset{x} + multiset(b[j + 1..]);
      assert multiset(rest) == multiset(b[..j]) + multiset(b[j + 1..]);
      assert multiset(a) == multiset{x} + multiset(a[1..]);
      assert multiset(a[1..]) == multiset(a) - multiset{x};
      assert multiset(rest) == multiset(b) - multiset{x};
      CountIfPermutation(a[1..], rest, p);
      CountIfAppend(b[..j] + [x], b[j + 1..], p);
      CountIfAppend(b[..j], [x], p);
      CountIfAppend(b[..j], b[j + 1..], p);
    }
  }

  /** Counting under a predicate that implies another never gives more. */
  lemma {:induction false} CountIfMonotonic<T>(s: seq<T>, p: T -> bool, q: T -> bool)
    requires forall x :: x in s && p(x) ==> q(x)
    ensures CountIf(s, p) <= CountIf(s, q)
  {
    if |s| > 0 {
      CountIfMonotonic(s[1..], p, q);
    }
  }

  lemma {:induction false} CountIfNone<T>(s: seq<T>, p: T -> bool)
    requires forall k :: 0 <= k < |s| ==> !p(s[k])
    ensures CountIf(s, p) == 0
  {
    if |s| > 0 {
      CountIfNone(s[1..], p);
    }
  }

  lemma {:induction false} CountIfAll<T>(s: seq<T>, p: T -> bool)
    requires forall k :: 0 <= k < |s| ==> p(s[k])
    ensures CountIf(s, p) == |s|
  {
    if |s| > 0 {
      CountIfAll(s[1..], p);
    }
  }

  /** A count under `p` splits into the counts under two disjoint predicates covering it. */
  lemma {:induction false} CountIfSplit<T>(s: seq<T>, p: T -> bool, q: T -> bool, r: T -> bool)
    requires forall x :: x in s ==> (p(x) <==> q(x) || r(x)) && !(q(x) && r(x))
    ensures CountIf(s, p) == CountIf(s, q) + CountIf(s, r)
  {
    if |s| > 0 {
      CountIfSplit(s[1..], p, q, r);
    }
  }

  /** Some element satisfies `p` exactly when the count is positive. */
  lemma {:induction false} CountIfPositive<T>(s: seq<T>, p: T -> bool)
    ensures CountIf(s, p) > 0 <==> exists k :: 0 <= k < |s| && p(s[k])
  {
    if |s| > 0 {
      CountIfPositive(s[1..], p);
      if p(s[0]) {
      } else {
        assert (exists k :: 0 <= k < |s| && p(s[k])) ==> exists k :: 0 <= k < |s[1..]| && p(s[1..][k]) by {
          if exists k :: 0 <= k < |s| && p(s[k]) {
            var k :| 0 <= k < |s| && p(s[k]);
            assert s[1..][k - 1] == s[k];
          }
        }
      }
    }
  }

  /** Exactly one element, the one at `i`, satisfies `p`. */
  lemma CountIfOnlyOne<T>(s: seq<T>, i: nat, p: T -> bool)
    requires i < |s| && p(s[i])
    requires forall k :: 0 <= k < |s| && k != i ==> !p(s[k])
    ensures CountIf(s, p) == 1
  {
    var before := s[..i];
    var after := s[i + 1..];
    assert s == before + [s[i]] + after;
    CountIfAppend(before + [s[i]], after, p);
    CountIfAppend(before, [s[i]], p);
    forall k | 0 <= k < |before| ensures !p(before[k]) {
      assert before[k] == s[k];
    }
    CountIfNone(before, p);
    forall k | 0 <= k < |after| ensures !p(after[k]) {
      assert after[k] == s[i + 1 + k];
    }
    CountIfNone(after, p);
  }

  /** A member that fails `p` keeps the count below the length. */
  lemma {:induction false} CountIfMissesOne<T>(s: seq<T>, x: T, p: T -> bool)
    requires x in s && !p(x)
    ensures CountIf(s, p) < |s|
  {
    if s[0] != x {
      CountIfMissesOne(s[1..], x, p);
    }
  }

  /** LINQ `Sum(f)`. */
  function SumOf<T>(s: seq<T>, f: T -> int): int {
    if |s| == 0 then 0 else f(s[0]) + SumOf(s[1..], f)
  }

  lemma {:induction false} SumOfAppend<T>(a: seq<T>, b: seq<T>, f: T -> int)
    ensures SumOf(a + b, f) == SumOf(a, f) + SumOf(b, f)
  {
    if |a| == 0 {
      assert a + b == b;
    } else {
      assert (a + b)[1..] == a[1..] + b;
      SumOfAppend(a[1..], b, f);
    }
  }

  /** A sum does not depend on the order of the elements. */
  lemma {:induction false} SumOfPermutation<T>(a: seq<T>, b: seq<T>, f: T -> int)
    requires multiset(a) == multiset(b)
    ensures SumOf(a, f) == SumOf(b, f)
    decreases |a|
  {
    if |a| == 0 {
      assert |multiset(b)| == 0;
    } else {
      var x := a[0];
      assert x in multiset(b);
      var j :| 0 <= j < |b| && b[j] == x;
      var rest := b[..j] + b[j + 1..];
      assert b == b[..j] + [x] + b[j + 1..];
      assert a == [x] + a[1..];
      assert multiset(b) == multiset(b[..j]) + multiset{x} + multiset(b[j + 1..]);
      assert multiset(rest) == multiset(b[..j]) + multiset(b[j + 1..]);
      assert multiset(a) == multiset{x} + multiset(a[1..]);
      assert multiset(a[1..]) == multiset(a) - multiset{x};
      assert multiset(rest) == multiset(b) - multiset{x};
      SumOfPermutation(a[1..], rest, f);
      SumOfAppend(b[..j] + [x], b[j + 1..], f);
      SumOfAppend(b[..j], [x], f);
      SumOfAppend(b[..j], b[j + 1..], f);
    }
  }

  /** Every term in `[lo, hi]` puts the sum in `[lo * |s|, hi * |s|]`. */
  lemma {:induction false} SumOfBounds<T>(s: seq<T>, f: T -> int, lo: int, hi: int)
    requires forall k :: 0 <= k < |s| ==> lo <= f(s[k]) <= hi
    ensures lo * |s| <= SumOf(s, f) <= hi * |s|
  {
    if |s| > 0 {
      var n := |s| - 1;
      assert forall k :: 0 <= k < |s[1..]| ==> s[1..][k] == s[k + 1];
      SumOfBounds(s[1..], f, lo, hi);
      assert lo <= f(s[0]) <= hi;
      assert lo * |s| == lo + lo * n;
      assert hi * |s| == hi + hi * n;
    }
  }

  /** Summing under `p` splits into the sums under two disjoint predicates covering it. */
  lemma {:induction false} SumOfFilterSplit<T(!new)>(s: seq<T>, p: T -> bool, q: T -> bool, r: T -> bool, f: T -> int)
    requires forall x :: x in s ==> (p(x) <==> q(x) || r(x)) && !(q(x) && r(x))
    ensures SumOf(Filter(s, p), f) == SumOf(Filter(s, q), f) + SumOf(Filter(s, r), f)
  {
    if |s| > 0 {
      SumOfFilterSplit(s[1..], p, q, r, f);
    }
  }

  /** Nothing passes a predicate no element satisfies. */
  lemma FilterNone<T(!new)>(s: seq<T>, p: T -> bool)
    requires forall x :: x in s ==> !p(x)
    ensures Filter(s, p) == []
  {
    CountIfNone(s, p);
  }
}

/**
 * The leaderboard order `ORDER BY TotalXp DESC, CurrentStreak DESC` and positional
 * ranks. Users with equal (TotalXp, CurrentStreak) keys may come in any order, so
 * every fact about a position is stated for every sorted permutation of a cohort.
 */
module Ranking {
  import opened Wrappers
  import opened Seqs
  import opened Sorting
  import opened Entities

  /** `a` may be listed before `b`. */
  predicate RanksAtLeast(a: User, b: User) {
    a.totalXp > b.totalXp || (a.totalXp == b.totalXp && a.currentStreak >= b.currentStreak)
  }

  /** `a` is listed before `b` in every sorted order. */
  predicate Above(a: User, b: User) {
    !RanksAtLeast(b, a)
  }

  predicate SameKey(a: User, b: User) {
    a.totalXp == b.totalXp && a.currentStreak == b.currentStreak
  }

  lemma RanksAtLeastIsTotalPreorder()
    ensures TotalPreorder(RanksAtLeast)
  {
  }

  /** `order` is one of the orders the database may return for `cohort`. */
  ghost predicate IsRanking(order: seq<User>, cohort: seq<User>) {
    IsSortingOf(order, cohort, RanksAtLeast)
  }

  /** The cohort in leaderboard order. */
  function SortByRank(cohort: seq<User>): (order: seq<User>)
    ensures IsRanking(order, cohort)
    ensures |order| == |cohort|
  {
    RanksAtLeastIsTotalPreorder();
    Sort(cohort, RanksAtLeast)
  }

  function AboveOf(u: User): User -> bool {
    x => Above(x, u)
  }

  function AtLeastOf(u: User): User -> bool {
    x => RanksAtLeast(x, u)
  }

  function SameKeyOf(u: User): User -> bool {
    x => SameKey(x, u)
  }

  function XpAboveOf(xp: int): User -> bool {
    (x: User) => x.totalXp > xp
  }

  /** How many members are listed before `u` in every order. */
  function CountAbove(cohort: seq<User>, u: User): nat {
    CountIf(cohort, AboveOf(u))
  }

  /** How many members may be listed no later than `u` (itself included). */
  function CountAtLeast(cohort: seq<User>, u: User): nat {
    CountIf(cohort, AtLeastOf(u))
  }

  /** `Count(u => u.TotalXp > xp)`: the fallback rank counts only strictly larger XP. */
  function CountXpAbove(cohort: seq<User>, xp: int): nat {
    CountIf(cohort, XpAboveOf(xp))
  }

  /** `FindIndex(u => u.Id == id) + 1`: the 1-based position of `id`, 0 when absent. */
  function PositionOf(order: seq<User>, id: int): (p: int)
    ensures 0 <= p <= |order|
    ensures p == 0 <==> forall k :: 0 <= k < |order| ==> order[k].id != id
    ensures p > 0 ==> order[p - 1].id == id && forall k :: 0 <= k < p - 1 ==> order[k].id != id
  {
    if |order| == 0 then 0
    else if order[0].id == id then 1
    else
      var p := PositionOf(order[1..], id);
      assert forall k :: 1 <= k < |order| ==> order[k] == order[1..][k - 1];
      if p == 0 then 0 else p + 1
  }

  /**
   * Whatever order the database picks among equal keys, the member at index `i`
   * has every member ranked strictly above it before it, and sits among the members
   * ranked at least as high: its 1-based rank lies in (CountAbove, CountAtLeast].
   */
  lemma {:induction false} PositionBounds(order: seq<User>, cohort: seq<User>, i: nat)
    requires IsRanking(order, cohort) && i < |order|
    ensures CountAbove(cohort, order[i]) <= i < CountAtLeast(cohort, order[i])
  {
    var u := order[i];
    assert order == order[..i] + order[i..];
    assert order[..i + 1] + order[i + 1..] == order;
    CountIfPermutation(order, cohort, AboveOf(u));
    CountIfPermutation(order, cohort, AtLeastOf(u));
    var from := order[i..];
    CountIfAppend(order[..i], from, AboveOf(u));
    forall k | 0 <= k < |from| ensures !AboveOf(u)(from[k]) {
      assert from[k] == order[i + k];
      if k > 0 {
        assert RanksAtLeast(order[i], order[i + k]);
      }
    }
    CountIfNone(from, AboveOf(u));
    var upTo := order[..i + 1];
    CountIfAppend(upTo, order[i + 1..], AtLeastOf(u));
    forall k | 0 <= k < |upTo| ensures AtLeastOf(u)(upTo[k]) {
      assert upTo[k] == order[k];
      if k < i {
        assert RanksAtLeast(order[k], order[i]);
      }
    }
    CountIfAll(upTo, AtLeastOf(u));
  }

  /** When no other member shares `order[i]`'s key, its rank is fixed by the keys alone. */
  lemma PositionOfUniqueKey(order: seq<User>, cohort: seq<User>, i: nat)
    requires IsRanking(order, cohort) && i < |order|
    requires CountIf(cohort, SameKeyOf(order[i])) == 1
    ensures i == CountAbove(cohort, order[i])
  {
    var u := order[i];
    PositionBounds(order, cohort, i);
    CountIfSplit(cohort, AtLeastOf(u), AboveOf(u), SameKeyOf(u));
  }

  /**
   * The fallback rank `1 + Count(TotalXp > own)` ignores the streak tie-break, so it
   * never exceeds the positional rank of the same member in any order.
   */
  lemma FallbackRankAtMostPosition(order: seq<User>, cohort: seq<User>, i: nat)
    requires IsRanking(order, cohort) && i < |order|
    ensures CountXpAbove(cohort, order[i].totalXp) + 1 <= i + 1
  {
    PositionBounds(order, cohort, i);
    CountIfMonotonic(cohort, XpAboveOf(order[i].totalXp), AboveOf(order[i]));
  }

  /**
   * A member whose id no other member shares is found in the leaderboard order, at a
   * 1-based rank in (CountAbove, CountAtLeast] and so between 1 and the cohort size.
   */
  lemma RankOfMember(cohort: seq<User>, u: User)
    requires u in cohort
    requires forall x :: x in cohort && x.id == u.id ==> x == u
    ensures var p := PositionOf(SortByRank(cohort), u.id);
            && 1 <= p <= |cohort|
            && SortByRank(cohort)[p - 1] == u
            && CountAbove(cohort, u) < p <= CountAtLeast(cohort, u)
  {
    var order := SortByRank(cohort);
    assert u in multiset(order);
    var p := PositionOf(order, u.id);
    assert order[p - 1] in multiset(cohort);
    PositionBounds(order, cohort, p - 1);
  }
}

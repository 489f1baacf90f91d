/**
 * The leaderboard ranker (LeaderboardService): the general, school and grade boards,
 * the current user's entry with its fallback rank, the combined response, the XP
 * history and the XP summary with its calendar windows and cohort ranks.
 */
module Leaderboard {
  import opened Wrappers
  import opened Seqs
  import opened Sorting
  import opened Clock
  import opened Entities
  import opened Ranking
  import opened Leagues
  import opened Ledger

  // ------------------------------------------------------------------ cohorts

  /** Which users a board ranks: everybody, one school, or one grade level. */
  datatype CohortKey = AllUsers | SameSchool(school: string) | SameGrade(level: int)

  /** `u.SchoolName == schoolName` / `u.GradeLevel == gradeLevel` in the board queries. */
  predicate InCohort(key: CohortKey, u: User) {
    match key
    case AllUsers => true
    case SameSchool(name) => u.schoolName == Some(name)
    case SameGrade(level) => u.gradeLevel == Some(level)
  }

  function MemberOf(key: CohortKey): User -> bool {
    (u: User) => InCohort(key, u)
  }

  /** The users of the cohort, in store order. */
  function Cohort(users: seq<User>, key: CohortKey): (r: seq<User>)
    ensures forall u :: u in r <==> u in users && InCohort(key, u)
    ensures |r| == CountIf(users, MemberOf(key))
  {
    Filter(users, MemberOf(key))
  }

  // ------------------------------------------------------------------- boards

  datatype LeagueType = General | School | Grade

  /** A `LeaderboardItemDto` without display fields; `league` is the band of the user's XP. */
  datatype LeaderboardItem = LeaderboardItem(rank: int, user: User, isCurrentUser: bool, league: Option<Band>)

  /** A `LeaderboardResponse` without its display name. */
  datatype Response = Response(
    leagueType: LeagueType,
    rankings: seq<LeaderboardItem>,
    currentUserRank: Option<LeaderboardItem>,
    totalUsers: nat)

  function Item(rank: int, u: User, currentUserId: Option<int>, bands: seq<Band>): LeaderboardItem {
    LeaderboardItem(rank, u, IsCurrent(currentUserId, u.id), Classify(bands, u.totalXp))
  }

  /** `BuildRankingsWithLeagueAsync`: ranks 1, 2, 3, … by position, with each user's band. */
  function BuildRankings(window: seq<User>, currentUserId: Option<int>, bands: seq<Band>): (r: seq<LeaderboardItem>)
    ensures |r| == |window|
    ensures forall k :: 0 <= k < |r| ==> r[k] == Item(k + 1, window[k], currentUserId, bands)
  {
    seq(|window|, k requires 0 <= k < |window| => Item(k + 1, window[k], currentUserId, bands))
  }

  /** `rankings` numbers the first entries of `order`. */
  ghost predicate NumbersPrefix(rankings: seq<LeaderboardItem>, order: seq<User>, currentUserId: Option<int>, bands: seq<Band>) {
    && |rankings| <= |order|
    && forall k :: 0 <= k < |rankings| ==> rankings[k] == Item(k + 1, order[k], currentUserId, bands)
  }

  /** `rankings.FirstOrDefault(r => r.UserId == id)`. */
  function FindItem(items: seq<LeaderboardItem>, id: int): (r: Option<LeaderboardItem>)
    ensures r.Some? ==> r.value in items && r.value.user.id == id
    ensures r.None? <==> forall k :: 0 <= k < |items| ==> items[k].user.id != id
  {
    match IndexWhere(items, ItemOf(id))
    case None => None
    case Some(k) => Some(items[k])
  }

  function ItemOf(id: int): LeaderboardItem -> bool {
    (e: LeaderboardItem) => e.user.id == id
  }

  /** `1 + Count(u => <same cohort> && u.TotalXp > own)`: the rank that ignores the streak tie-break. */
  function FallbackRank(cohort: seq<User>, u: User): (rank: int)
    ensures 1 <= rank <= |cohort| + 1
    ensures u in cohort ==> rank <= |cohort|
  {
    assert u in cohort ==> CountXpAbove(cohort, u.totalXp) < |cohort| by {
      if u in cohort {
        CountIfMissesOne(cohort, u, XpAboveOf(u.totalXp));
      }
    }
    CountXpAbove(cohort, u.totalXp) + 1
  }

  /**
   * `GetCurrentUserRankAsync`: nothing without a current user; its own entry when it is
   * listed; otherwise, for an existing user, an entry with the fallback rank.
   */
  function CurrentUserRank(users: seq<User>, key: CohortKey, currentUserId: Option<int>,
                           rankings: seq<LeaderboardItem>, bands: seq<Band>): (r: Option<LeaderboardItem>)
    ensures currentUserId.None? ==> r.None?
    ensures currentUserId.Some? && FindItem(rankings, currentUserId.value).Some? ==>
      r == FindItem(rankings, currentUserId.value)
    ensures currentUserId.Some? && FindItem(rankings, currentUserId.value).None? ==>
      (r.Some? <==> FindUser(users, currentUserId.value).Some?)
    ensures currentUserId.Some? && FindItem(rankings, currentUserId.value).None? && r.Some? ==>
      var u := FindUser(users, currentUserId.value).value;
      r.value == LeaderboardItem(FallbackRank(Cohort(users, key), u), u, true, Classify(bands, u.totalXp))
  {
    if currentUserId.None? then None
    else match FindItem(rankings, currentUserId.value)
      case Some(e) => Some(e)
      case None =>
        match FindUser(users, currentUserId.value)
        case None => None
        case Some(u) => Some(LeaderboardItem(FallbackRank(Cohort(users, key), u), u, true, Classify(bands, u.totalXp)))
  }

  /**
   * What a board promises: the first `limit` users of some leaderboard order of the
   * cohort with ranks 1..k and their bands, the full cohort count, and the current
   * user's entry — present exactly when the current user exists, marked as current,
   * and either its listed entry or the fallback rank.
   */
  ghost predicate IsBoardOf(r: Response, users: seq<User>, key: CohortKey, currentUserId: Option<int>, limit: int, bands: seq<Band>) {
    var cohort := Cohort(users, key);
    && r.totalUsers == |cohort|
    && |r.rankings| == (if limit <= 0 then 0 else Min(limit, |cohort|))
    && (exists order: seq<User> :: IsRanking(order, cohort) && NumbersPrefix(r.rankings, order, currentUserId, bands))
    && (r.currentUserRank.Some? <==> currentUserId.Some? && FindUser(users, currentUserId.value).Some?)
    && (r.currentUserRank.Some? ==>
          && r.currentUserRank.value.user.id == currentUserId.value
          && r.currentUserRank.value.isCurrentUser
          && r.currentUserRank.value.league == Classify(bands, r.currentUserRank.value.user.totalXp)
          && (r.currentUserRank.value in r.rankings ||
              (&& FindItem(r.rankings, currentUserId.value).None?
               && r.currentUserRank.value.user == FindUser(users, currentUserId.value).value
               && r.currentUserRank.value.rank == FallbackRank(cohort, r.currentUserRank.value.user))))
  }

  /** The board of one cohort. */
  function Board(users: seq<User>, leagueType: LeagueType, key: CohortKey, currentUserId: Option<int>,
                 limit: int, bands: seq<Band>): (r: Response)
    ensures r.leagueType == leagueType
    ensures IsBoardOf(r, users, key, currentUserId, limit, bands)
  {
    var cohort := Cohort(users, key);
    var order := SortByRank(cohort);
    var window := Take(order, limit);
    var rankings := BuildRankings(window, currentUserId, bands);
    assert NumbersPrefix(rankings, order, currentUserId, bands) by {
      forall k | 0 <= k < |rankings| ensures rankings[k] == Item(k + 1, order[k], currentUserId, bands) {
        assert window[k] == order[k];
      }
    }
    var current := CurrentUserRank(users, key, currentUserId, rankings, bands);
    assert currentUserId.Some? && FindItem(rankings, currentUserId.value).Some? ==>
      FindUser(users, currentUserId.value).Some? by {
      if currentUserId.Some? && FindItem(rankings, currentUserId.value).Some? {
        var e := FindItem(rankings, currentUserId.value).value;
        var k :| 0 <= k < |rankings| && rankings[k] == e;
        assert order[k] in multiset(cohort);
        assert order[k] in users;
      }
    }
    Response(leagueType, rankings, current, |cohort|)
  }

  /**
   * `GetGeneralLeaderboardAsync`: every user is in the cohort. The window is taken by
   * the database query (`LIMIT`), which refuses a negative limit.
   */
  function GeneralLeaderboard(s: Store, currentUserId: Option<int>, limit: int): (r: Option<Response>)
    ensures r.None? <==> limit < 0
    ensures r.Some? ==> r.value.leagueType == General
    ensures r.Some? ==> IsBoardOf(r.value, s.users, AllUsers, currentUserId, limit, s.bands)
    ensures r.Some? ==> r.value.totalUsers == |s.users|
  {
    if limit < 0 then None
    else
      CountIfAll(s.users, MemberOf(AllUsers));
      Some(Board(s.users, General, AllUsers, currentUserId, limit, s.bands))
  }

  /** The response for a requester that is missing or has no cohort key. */
  function EmptyBoard(leagueType: LeagueType): Response {
    Response(leagueType, [], None, 0)
  }

  /**
   * `GetSchoolLeaderboardAsync`: the users with the requester's school; empty with
   * TotalUsers 0 when the requester is missing or has no school name, before any
   * query runs; otherwise the database query refuses a negative limit.
   */
  function SchoolLeaderboard(s: Store, userId: int, limit: int): (r: Option<Response>)
    ensures r.None? <==>
      limit < 0 && FindUser(s.users, userId).Some? && !IsNullOrEmpty(FindUser(s.users, userId).value.schoolName)
    ensures r.Some? ==> r.value.leagueType == School
    ensures FindUser(s.users, userId).None? || IsNullOrEmpty(FindUser(s.users, userId).value.schoolName) ==>
      r.Some? && r.value.rankings == [] && r.value.totalUsers == 0 && r.value.currentUserRank.None?
    ensures r.Some? && FindUser(s.users, userId).Some? && !IsNullOrEmpty(FindUser(s.users, userId).value.schoolName) ==>
      var u := FindUser(s.users, userId).value;
      && IsBoardOf(r.value, s.users, SameSchool(u.schoolName.value), Some(userId), limit, s.bands)
      && r.value.totalUsers >= 1
      && r.value.currentUserRank.Some? && 1 <= r.value.currentUserRank.value.rank <= r.value.totalUsers
  {
    match FindUser(s.users, userId)
    case None => Some(EmptyBoard(School))
    case Some(u) =>
      if IsNullOrEmpty(u.schoolName) then Some(EmptyBoard(School))
      else if limit < 0 then None
      else
        var r := Board(s.users, School, SameSchool(u.schoolName.value), Some(userId), limit, s.bands);
        RequesterRank(r, s.users, SameSchool(u.schoolName.value), userId, limit, s.bands);
        Some(r)
  }

  /**
   * `GetGradeLeaderboardAsync`: the users with the requester's grade level; empty with
   * TotalUsers 0 when the requester is missing or has no grade level, before any query
   * runs; otherwise the database query refuses a negative limit.
   */
  function GradeLeaderboard(s: Store, userId: int, limit: int): (r: Option<Response>)
    ensures r.None? <==>
      limit < 0 && FindUser(s.users, userId).Some? && FindUser(s.users, userId).value.gradeLevel.Some?
    ensures r.Some? ==> r.value.leagueType == Grade
    ensures FindUser(s.users, userId).None? || FindUser(s.users, userId).value.gradeLevel.None? ==>
      r.Some? && r.value.rankings == [] && r.value.totalUsers == 0 && r.value.currentUserRank.None?
    ensures r.Some? && FindUser(s.users, userId).Some? && FindUser(s.users, userId).value.gradeLevel.Some? ==>
      var u := FindUser(s.users, userId).value;
      && IsBoardOf(r.value, s.users, SameGrade(u.gradeLevel.value), Some(userId), limit, s.bands)
      && r.value.totalUsers >= 1
      && r.value.currentUserRank.Some? && 1 <= r.value.currentUserRank.value.rank <= r.value.totalUsers
  {
    match FindUser(s.users, userId)
    case None => Some(EmptyBoard(Grade))
    case Some(u) =>
      if u.gradeLevel.None? then Some(EmptyBoard(Grade))
      else if limit < 0 then None
      else
        var r := Board(s.users, Grade, SameGrade(u.gradeLevel.value), Some(userId), limit, s.bands);
        RequesterRank(r, s.users, SameGrade(u.gradeLevel.value), userId, limit, s.bands);
        Some(r)
  }

  /**
   * A requester that belongs to its own cohort is counted in it, and its entry has a
   * rank between 1 and the cohort size, listed or not.
   */
  lemma RequesterRank(r: Response, users: seq<User>, key: CohortKey, userId: int, limit: int, bands: seq<Band>)
    requires IsBoardOf(r, users, key, Some(userId), limit, bands)
    requires FindUser(users, userId).Some? && InCohort(key, FindUser(users, userId).value)
    ensures r.totalUsers >= 1
    ensures r.currentUserRank.Some? && 1 <= r.currentUserRank.value.rank <= r.totalUsers
  {
    var cohort := Cohort(users, key);
    var u := FindUser(users, userId).value;
    assert u in cohort;
    var e := r.currentUserRank.value;
    if e in r.rankings {
      var order :| IsRanking(order, cohort) && NumbersPrefix(r.rankings, order, Some(userId), bands);
      var k :| 0 <= k < |r.rankings| && r.rankings[k] == e;
    }
  }

  /** The fallback rank never exceeds the position of the same user in any leaderboard order. */
  lemma FallbackAtMostPosition(r: Response, users: seq<User>, key: CohortKey, currentUserId: Option<int>,
                               limit: int, bands: seq<Band>, order: seq<User>, i: nat)
    requires IsBoardOf(r, users, key, currentUserId, limit, bands)
    requires IsRanking(order, Cohort(users, key)) && i < |order|
    requires r.currentUserRank.Some? && r.currentUserRank.value.user == order[i]
    requires r.currentUserRank.value !in r.rankings
    ensures r.currentUserRank.value.rank <= i + 1
  {
    FallbackRankAtMostPosition(order, Cohort(users, key), i);
  }

  /** `AllLeaguesResponse`: school and grade boards only when their lists are non-empty. */
  datatype AllBoards = AllBoards(general: Response, school: Option<Response>, grade: Option<Response>)

  /**
   * `GetAllLeaguesAsync`: the three boards; a negative limit fails in the first, the
   * general board, so the call fails whatever the requester.
   */
  function AllLeagues(s: Store, userId: int, limit: int): (r: Option<AllBoards>)
    ensures r.None? <==> limit < 0
    ensures r.Some? ==> Some(r.value.general) == GeneralLeaderboard(s, Some(userId), limit)
    ensures r.Some? ==> SchoolLeaderboard(s, userId, limit).Some? && GradeLeaderboard(s, userId, limit).Some?
    ensures r.Some? ==> (r.value.school.Some? <==> |SchoolLeaderboard(s, userId, limit).value.rankings| > 0)
    ensures r.Some? && r.value.school.Some? ==> r.value.school == SchoolLeaderboard(s, userId, limit)
    ensures r.Some? ==> (r.value.grade.Some? <==> |GradeLeaderboard(s, userId, limit).value.rankings| > 0)
    ensures r.Some? && r.value.grade.Some? ==> r.value.grade == GradeLeaderboard(s, userId, limit)
  {
    match GeneralLeaderboard(s, Some(userId), limit)
    case None => None
    case Some(general) =>
      var school := SchoolLeaderboard(s, userId, limit).value;
      var grade := GradeLeaderboard(s, userId, limit).value;
      Some(AllBoards(general,
        if |school.rankings| > 0 then Some(school) else None,
        if |grade.rankings| > 0 then Some(grade) else None))
  }

  /**
   * The school board is part of the combined response exactly when the requester exists,
   * has a school name and the limit is positive (the requester is then a member); the
   * grade board likewise with the grade level. A zero limit answers with the general
   * board alone.
   */
  lemma AllLeaguesIncludes(s: Store, userId: int, limit: int)
    ensures var r := AllLeagues(s, userId, limit);
      r.Some? && r.value.school.Some? <==>
        limit > 0 && FindUser(s.users, userId).Some? && !IsNullOrEmpty(FindUser(s.users, userId).value.schoolName)
    ensures var r := AllLeagues(s, userId, limit);
      r.Some? && r.value.grade.Some? <==>
        limit > 0 && FindUser(s.users, userId).Some? && FindUser(s.users, userId).value.gradeLevel.Some?
    ensures limit == 0 ==> AllLeagues(s, userId, limit) == Some(AllBoards(GeneralLeaderboard(s, Some(userId), 0).value, None, None))
  {
  }

  // ------------------------------------------------------------------ examples

  /** The counts behind the 500/500/300 example. */
  lemma TiedCounts(users: seq<User>)
    requires users == [User(1, None, None, 0, 500), User(2, None, None, 0, 500), User(3, None, None, 0, 300)]
    ensures CountAbove(users, users[2]) == 2
    ensures CountAtLeast(users, users[0]) == 2 && CountAtLeast(users, users[1]) == 2
  {
    var a, b, c := users[0], users[1], users[2];
    assert users[1..] == [b, c] && users[1..][1..] == [c] && [c][1..] == [];
    CountThree(users, AboveOf(c));
    assert AboveOf(c)(a) && AboveOf(c)(b) && !AboveOf(c)(c);
    CountThree(users, AtLeastOf(a));
    assert AtLeastOf(a)(a) && AtLeastOf(a)(b) && !AtLeastOf(a)(c);
    CountThree(users, AtLeastOf(b));
    assert AtLeastOf(b)(a) && AtLeastOf(b)(b) && !AtLeastOf(b)(c);
  }

  /** A count over three elements, one by one. */
  lemma CountThree<T>(s: seq<T>, p: T -> bool)
    requires |s| == 3
    ensures CountIf(s, p) == (if p(s[0]) then 1 else 0) + (if p(s[1]) then 1 else 0) + (if p(s[2]) then 1 else 0)
  {
    CountTwo(s[1..], p);
    assert s[1..][0] == s[1] && s[1..][1] == s[2];
  }

  /** A count over two elements, one by one. */
  lemma CountTwo<T>(s: seq<T>, p: T -> bool)
    requires |s| == 2
    ensures CountIf(s, p) == (if p(s[0]) then 1 else 0) + (if p(s[1]) then 1 else 0)
  {
    assert s[1..][0] == s[1] && |s[1..][1..]| == 0;
  }

  /** On any board of the 500/500/300 cohort, both 500 XP users come first. */
  lemma TiedBoard(r: Response, users: seq<User>, bands: seq<Band>)
    requires users == [User(1, None, None, 0, 500), User(2, None, None, 0, 500), User(3, None, None, 0, 300)]
    requires IsBoardOf(r, users, AllUsers, None, 100, bands)
    ensures |r.rankings| == 3 && r.totalUsers == 3
    ensures r.rankings[0].rank == 1 && r.rankings[1].rank == 2 && r.rankings[2].rank == 3
    ensures r.rankings[0].user.totalXp == 500 && r.rankings[1].user.totalXp == 500
    ensures r.rankings[2].user == users[2]
  {
    CohortOfAll(users);
    assert r.totalUsers == 3 && |r.rankings| == 3;
    var order :| IsRanking(order, users) && NumbersPrefix(r.rankings, order, None, bands);
    TiedOrder(order, users);
    assert r.rankings[0] == Item(1, order[0], None, bands);
    assert r.rankings[1] == Item(2, order[1], None, bands);
    assert r.rankings[2] == Item(3, order[2], None, bands);
  }

  /** Every leaderboard order of the 500/500/300 cohort lists the 300 XP user last. */
  lemma TiedOrder(order: seq<User>, users: seq<User>)
    requires users == [User(1, None, None, 0, 500), User(2, None, None, 0, 500), User(3, None, None, 0, 300)]
    requires IsRanking(order, users)
    ensures |order| == 3
    ensures order[0].totalXp == 500 && order[1].totalXp == 500 && order[2] == users[2]
  {
    assert |order| == |multiset(order)| == 3;
    TiedCounts(users);
    forall k | 0 <= k < 3 ensures order[k] in users {
      assert order[k] in multiset(users);
    }
    PositionBounds(order, users, 0);
    assert order[0] != users[2];
    PositionBounds(order, users, 1);
    assert order[1] != users[2];
    PositionBounds(order, users, 2);
    assert order[2] != users[0] && order[2] != users[1];
  }

  /**
   * Users with XP 500, 500 and 300 get ranks 1, 2 and 3: equal XP still gives distinct
   * ranks, and both 500 XP users are listed before the 300 XP one.
   */
  lemma TiedXpGetsDistinctRanks(s: Store)
    requires s.users == [User(1, None, None, 0, 500), User(2, None, None, 0, 500), User(3, None, None, 0, 300)]
    ensures var r := GeneralLeaderboard(s, None, 100).value;
            && |r.rankings| == 3 && r.totalUsers == 3
            && r.rankings[0].rank == 1 && r.rankings[1].rank == 2 && r.rankings[2].rank == 3
            && r.rankings[0].user.totalXp == 500 && r.rankings[1].user.totalXp == 500
            && r.rankings[2].user == s.users[2]
  {
    TiedBoard(GeneralLeaderboard(s, None, 100).value, s.users, s.bands);
  }

  /** The counts behind the streak tie-break example. */
  lemma StreakCounts(users: seq<User>)
    requires users == [User(1, None, None, 5, 500), User(2, None, None, 1, 500)]
    ensures CountAbove(users, users[1]) == 1
    ensures CountXpAbove(users, 500) == 0
  {
    var a, b := users[0], users[1];
    CountTwo(users, AboveOf(b));
    assert AboveOf(b)(a) && !AboveOf(b)(b);
    CountTwo(users, XpAboveOf(500));
    assert !XpAboveOf(500)(a) && !XpAboveOf(500)(b);
  }

  /** On a one-entry board of two 500 XP users, the listed one is the longer streak. */
  lemma StreakBoard(r: Response, users: seq<User>, bands: seq<Band>)
    requires users == [User(1, None, None, 5, 500), User(2, None, None, 1, 500)]
    requires IsBoardOf(r, users, AllUsers, Some(2), 1, bands)
    ensures r.rankings == [Item(1, users[0], Some(2), bands)]
    ensures r.currentUserRank == Some(LeaderboardItem(1, users[1], true, Classify(bands, 500)))
  {
    CohortOfAll(users);
    var order :| IsRanking(order, users) && NumbersPrefix(r.rankings, order, Some(2), bands);
    StreakBoardFirst(r.rankings, order, users, bands);
    StreakBoardFallback(users);
    assert FindUser(users, 2) == Some(users[1]);
  }

  /** Neither of those two users has more XP than the other: the fallback rank is 1. */
  lemma StreakBoardFallback(users: seq<User>)
    requires users == [User(1, None, None, 5, 500), User(2, None, None, 1, 500)]
    ensures FallbackRank(users, users[1]) == 1
  {
    StreakCounts(users);
  }

  /** Ranking those two users puts the longer streak first. */
  lemma StreakBoardFirst(rankings: seq<LeaderboardItem>, order: seq<User>, users: seq<User>, bands: seq<Band>)
    requires users == [User(1, None, None, 5, 500), User(2, None, None, 1, 500)]
    requires IsRanking(order, users) && NumbersPrefix(rankings, order, Some(2), bands) && |rankings| == 1
    ensures rankings == [Item(1, users[0], Some(2), bands)]
  {
    StreakCounts(users);
    assert order[0] in multiset(users);
    PositionBounds(order, users, 0);
    assert order[0] == users[0];
  }

  /**
   * The fallback rank ignores the streak: of two users with 500 XP, the one with the
   * shorter streak is listed second, yet outside a one-entry window it is reported
   * with rank 1, the rank of the user listed first.
   */
  lemma FallbackIgnoresStreak(s: Store)
    requires s.users == [User(1, None, None, 5, 500), User(2, None, None, 1, 500)]
    ensures var r := GeneralLeaderboard(s, Some(2), 1).value;
            && r.rankings == [Item(1, s.users[0], Some(2), s.bands)]
            && r.currentUserRank == Some(LeaderboardItem(1, s.users[1], true, Classify(s.bands, 500)))
  {
    StreakBoard(GeneralLeaderboard(s, Some(2), 1).value, s.users, s.bands);
  }

  // ---------------------------------------------------------------------- XP

  function OwnerOf(userId: int): XpTransaction -> bool {
    (t: XpTransaction) => t.userId == userId
  }

  /** `OrderByDescending(x => x.EarnedAt)`: `a` may be listed before `b`. */
  predicate EarnedNoEarlier(a: XpTransaction, b: XpTransaction) {
    a.earnedAt >= b.earnedAt
  }

  lemma EarnedNoEarlierIsTotalPreorder()
    ensures TotalPreorder(EarnedNoEarlier)
  {
  }

  /**
   * `GetXpHistoryAsync`: at most `limit` of the user's own transactions, newest first;
   * all of them when the limit covers them. The database query refuses a negative limit.
   */
  function XpHistory(s: Store, userId: int, limit: int): (r: Option<seq<XpTransaction>>)
    ensures r.None? <==> limit < 0
    ensures r.Some? ==> |r.value| == Min(limit, CountIf(s.xpLog, OwnerOf(userId)))
    ensures r.Some? ==> forall k :: 0 <= k < |r.value| ==> r.value[k] in s.xpLog && r.value[k].userId == userId
    ensures r.Some? ==> SortedBy(r.value, EarnedNoEarlier)
    ensures r.Some? ==>
      exists order :: IsSortingOf(order, Filter(s.xpLog, OwnerOf(userId)), EarnedNoEarlier) && r.value == Take(order, limit)
    ensures r.Some? && limit >= CountIf(s.xpLog, OwnerOf(userId)) ==>
      multiset(r.value) == multiset(Filter(s.xpLog, OwnerOf(userId)))
  {
    if limit < 0 then None
    else
      var own := Filter(s.xpLog, OwnerOf(userId));
      EarnedNoEarlierIsTotalPreorder();
      var order := Sort(own, EarnedNoEarlier);
      HistoryWindow(s.xpLog, userId, order, limit);
      Some(Take(order, limit))
  }

  /** A window of the user's transactions in date order: the user's own, still in order. */
  lemma HistoryWindow(log: seq<XpTransaction>, userId: int, order: seq<XpTransaction>, limit: int)
    requires IsSortingOf(order, Filter(log, OwnerOf(userId)), EarnedNoEarlier)
    ensures |order| == CountIf(log, OwnerOf(userId))
    ensures forall k :: 0 <= k < |Take(order, limit)| ==> Take(order, limit)[k] in log && Take(order, limit)[k].userId == userId
    ensures SortedBy(Take(order, limit), EarnedNoEarlier)
  {
    var own := Filter(log, OwnerOf(userId));
    var r := Take(order, limit);
    assert |order| == |multiset(order)| == |multiset(own)| == |own|;
    forall k | 0 <= k < |r| ensures r[k] in log && r[k].userId == userId {
      assert r[k] == order[k];
      assert order[k] in multiset(own);
    }
    forall i, j | 0 <= i < j < |r| ensures EarnedNoEarlier(r[i], r[j]) {
      assert r[i] == order[i] && r[j] == order[j];
    }
  }

  /** The sum of `userId`'s transactions whose date satisfies `inWindow`. */
  function WindowSum(log: seq<XpTransaction>, userId: int, inWindow: Day -> bool): int {
    if |log| == 0 then 0
    else
      var t := log[|log| - 1];
      WindowSum(log[..|log| - 1], userId, inWindow) + (if t.userId == userId && inWindow(DayOf(t.earnedAt)) then t.amount else 0)
  }

  /** Every transaction of the user has a non-negative amount. */
  ghost predicate NonNegativeAmounts(log: seq<XpTransaction>, userId: int) {
    forall k :: 0 <= k < |log| && log[k].userId == userId ==> log[k].amount >= 0
  }

  /** With non-negative amounts, a wider window never sums to less. */
  lemma {:induction false} WindowSumMonotonic(log: seq<XpTransaction>, userId: int, p: Day -> bool, q: Day -> bool)
    requires NonNegativeAmounts(log, userId)
    requires forall d :: p(d) ==> q(d)
    ensures WindowSum(log, userId, p) <= WindowSum(log, userId, q)
  {
    if |log| > 0 {
      var init := log[..|log| - 1];
      assert NonNegativeAmounts(init, userId) by {
        forall k | 0 <= k < |init| && init[k].userId == userId ensures init[k].amount >= 0 {
          assert init[k] == log[k];
        }
      }
      WindowSumMonotonic(init, userId, p, q);
    }
  }

  /** A window that holds every day sums the whole ledger of the user. */
  lemma {:induction false} WindowSumEverything(log: seq<XpTransaction>, userId: int, p: Day -> bool)
    requires forall d :: p(d)
    ensures WindowSum(log, userId, p) == LedgerSum(log, userId)
  {
    if |log| > 0 {
      WindowSumEverything(log[..|log| - 1], userId, p);
    }
  }

  /** With non-negative amounts, no window exceeds the whole ledger of the user. */
  lemma WindowSumAtMostLedger(log: seq<XpTransaction>, userId: int, p: Day -> bool)
    requires NonNegativeAmounts(log, userId)
    ensures WindowSum(log, userId, p) <= LedgerSum(log, userId)
  {
    var all := (d: Day) => true;
    WindowSumMonotonic(log, userId, p, all);
    WindowSumEverything(log, userId, all);
  }

  function OnDay(today: Day): Day -> bool {
    (d: Day) => d == today
  }

  /** No upper bound: a window holds every day from `first` on, future ones included. */
  function FromDay(first: Day): Day -> bool {
    (d: Day) => d >= first
  }

  datatype CohortRank = CohortRank(rank: int, totalUsers: nat)

  /** `UserXpSummaryDto` without display names; `leagueInfo` is the user's league status. */
  datatype XpSummary = XpSummary(
    userId: int,
    totalXp: int,
    todayXp: int,
    weekXp: int,
    monthXp: int,
    currentStreak: int,
    generalRank: CohortRank,
    rankInSchool: Option<CohortRank>,
    rankInGrade: Option<CohortRank>,
    leagueInfo: Option<UserLeagueInfo>)

  /** The rank of `u` within a cohort by strictly larger XP, and the cohort size. */
  function RankIn(cohort: seq<User>, u: User): (r: CohortRank)
    ensures r.totalUsers == |cohort|
    ensures r.rank == CountXpAbove(cohort, u.totalXp) + 1
    ensures u in cohort ==> 1 <= r.rank <= r.totalUsers
  {
    CohortRank(FallbackRank(cohort, u), |cohort|)
  }

  /**
   * `GetUserXpSummaryAsync`: for a missing user only the id is set. Otherwise the
   * user's totals, the XP earned today, since the Sunday of this week and since the
   * first day of the month (`monthStart`), its rank in the general cohort and — when it
   * has a school name / grade level — in its school / grade cohort, and its league.
   */
  function XpSummaryOf(s: Store, userId: int, today: Day, monthStart: Day): (r: XpSummary)
    ensures r.userId == userId
    ensures FindUser(s.users, userId).None? ==>
      r == XpSummary(userId, 0, 0, 0, 0, 0, CohortRank(0, 0), None, None, None)
    ensures FindUser(s.users, userId).Some? ==>
      var u := FindUser(s.users, userId).value;
      && r.totalXp == u.totalXp && r.currentStreak == u.currentStreak
      && r.todayXp == WindowSum(s.xpLog, userId, OnDay(today))
      && r.weekXp == WindowSum(s.xpLog, userId, FromDay(WeekStart(today)))
      && r.monthXp == WindowSum(s.xpLog, userId, FromDay(monthStart))
      && r.generalRank.totalUsers == |s.users|
      && 1 <= r.generalRank.rank <= r.generalRank.totalUsers
      && r.generalRank.rank == CountXpAbove(s.users, u.totalXp) + 1
      && (r.rankInSchool.Some? <==> !IsNullOrEmpty(u.schoolName))
      && (r.rankInSchool.Some? ==>
            var cohort := Cohort(s.users, SameSchool(u.schoolName.value));
            r.rankInSchool.value.totalUsers == |cohort| >= 1
            && 1 <= r.rankInSchool.value.rank <= r.rankInSchool.value.totalUsers
            && r.rankInSchool.value.rank == CountXpAbove(cohort, u.totalXp) + 1)
      && (r.rankInGrade.Some? <==> u.gradeLevel.Some?)
      && (r.rankInGrade.Some? ==>
            var cohort := Cohort(s.users, SameGrade(u.gradeLevel.value));
            r.rankInGrade.value.totalUsers == |cohort| >= 1
            && 1 <= r.rankInGrade.value.rank <= r.rankInGrade.value.totalUsers
            && r.rankInGrade.value.rank == CountXpAbove(cohort, u.totalXp) + 1)
      && r.leagueInfo == UserLeague(s, userId)
  {
    match FindUser(s.users, userId)
    case None => XpSummary(userId, 0, 0, 0, 0, 0, CohortRank(0, 0), None, None, None)
    case Some(u) =>
      var school := if IsNullOrEmpty(u.schoolName) then None else Some(RankIn(Cohort(s.users, SameSchool(u.schoolName.value)), u));
      var grade := if u.gradeLevel.None? then None else Some(RankIn(Cohort(s.users, SameGrade(u.gradeLevel.value)), u));
      XpSummary(userId, u.totalXp,
        WindowSum(s.xpLog, userId, OnDay(today)),
        WindowSum(s.xpLog, userId, FromDay(WeekStart(today))),
        WindowSum(s.xpLog, userId, FromDay(monthStart)),
        u.currentStreak,
        RankIn(s.users, u), school, grade,
        UserLeague(s, userId))
  }

  /**
   * With non-negative amounts, today's XP is at most the week's, and at most the
   * month's because the month starts no later than today; on a balanced ledger no
   * window exceeds the user's total.
   */
  lemma XpSummaryWindows(s: Store, userId: int, today: Day, monthStart: Day)
    requires FindUser(s.users, userId).Some?
    requires monthStart <= today
    requires NonNegativeAmounts(s.xpLog, userId)
    ensures var r := XpSummaryOf(s, userId, today, monthStart);
            && 0 <= r.todayXp <= r.weekXp
            && r.todayXp <= r.monthXp
            && (Balanced(s) ==> r.weekXp <= r.totalXp && r.monthXp <= r.totalXp)
  {
    var r := XpSummaryOf(s, userId, today, monthStart);
    WindowSumMonotonic(s.xpLog, userId, OnDay(today), FromDay(WeekStart(today)));
    WindowSumMonotonic(s.xpLog, userId, OnDay(today), FromDay(monthStart));
    WindowSumMonotonic(s.xpLog, userId, (d: Day) => false, OnDay(today));
    WindowSumEverything(s.xpLog, userId, (d: Day) => true);
    WindowSumAtMostLedger(s.xpLog, userId, FromDay(WeekStart(today)));
    WindowSumAtMostLedger(s.xpLog, userId, FromDay(monthStart));
    ZeroWindow(s.xpLog, userId);
    if Balanced(s) {
      var k :| 0 <= k < |s.users| && s.users[k].id == userId;
      var u := FindUser(s.users, userId).value;
      var j :| 0 <= j < |s.users| && s.users[j] == u;
      assert u.totalXp == LedgerSum(s.xpLog, userId);
    }
  }

  /** The empty window sums to 0. */
  lemma {:induction false} ZeroWindow(log: seq<XpTransaction>, userId: int)
    ensures WindowSum(log, userId, (d: Day) => false) == 0
  {
    if |log| > 0 {
      ZeroWindow(log[..|log| - 1], userId);
    }
  }

  /**
   * The summary's general rank is never worse than the user's position in the general
   * board: it counts only users with strictly more XP.
   */
  lemma SummaryRankAtMostBoardRank(s: Store, userId: int, today: Day, monthStart: Day, limit: int, k: nat)
    requires UniqueUserIds(s.users)
    requires FindUser(s.users, userId).Some?
    requires var r := GeneralLeaderboard(s, Some(userId), limit); r.Some? && k < |r.value.rankings| && r.value.rankings[k].user.id == userId
    ensures XpSummaryOf(s, userId, today, monthStart).generalRank.rank <= GeneralLeaderboard(s, Some(userId), limit).value.rankings[k].rank
  {
    GeneralBoardRankBound(s, userId, limit, k);
  }

  /** A general board position is never better than one plus the count of users with more XP. */
  lemma GeneralBoardRankBound(s: Store, userId: int, limit: int, k: nat)
    requires UniqueUserIds(s.users)
    requires FindUser(s.users, userId).Some?
    requires var r := GeneralLeaderboard(s, Some(userId), limit); r.Some? && k < |r.value.rankings| && r.value.rankings[k].user.id == userId
    ensures CountXpAbove(s.users, FindUser(s.users, userId).value.totalXp) + 1 <= GeneralLeaderboard(s, Some(userId), limit).value.rankings[k].rank
  {
    var r := GeneralLeaderboard(s, Some(userId), limit).value;
    var cohort := Cohort(s.users, AllUsers);
    CohortOfAll(s.users);
    var order :| IsRanking(order, cohort) && NumbersPrefix(r.rankings, order, Some(userId), s.bands);
    PrefixRankBound(r.rankings, order, s.users, Some(userId), s.bands, k);
    var j :| 0 <= j < |s.users| && s.users[j] == r.rankings[k].user;
    FindUserUnique(s.users, j);
  }

  /**
   * In a numbered prefix of a ranking, the user on row `k` is a cohort member ranked
   * no better than one plus the count of members with more XP.
   */
  lemma PrefixRankBound(rankings: seq<LeaderboardItem>, order: seq<User>, cohort: seq<User>, currentUserId: Option<int>, bands: seq<Band>, k: nat)
    requires IsRanking(order, cohort) && NumbersPrefix(rankings, order, currentUserId, bands)
    requires k < |rankings|
    ensures rankings[k].user in cohort
    ensures CountXpAbove(cohort, rankings[k].user.totalXp) + 1 <= rankings[k].rank
  {
    assert rankings[k] == Item(k + 1, order[k], currentUserId, bands);
    assert order[k] in multiset(cohort);
    FallbackRankAtMostPosition(order, cohort, k);
  }

  /** The general cohort is the whole user table. */
  lemma {:induction false} CohortOfAll(users: seq<User>)
    ensures Cohort(users, AllUsers) == users
  {
    if |users| > 0 {
      CohortOfAll(users[1..]);
      assert users == [users[0]] + users[1..];
    }
  }
}

/**
 * The league classifier (LeagueService): which XP band a total falls in, a user's
 * progress and rank inside the band, the per-band leaderboard and overview, and the
 * league-history rows opened and closed as a user moves between bands.
 */
module Leagues {
  import opened Wrappers
  import opened Seqs
  import opened Sorting
  import opened Clock
  import opened Entities
  import opened Ranking

  /** `MinXp <= xp && (MaxXp == null || MaxXp >= xp)`. */
  predicate Contains(b: Band, xp: int) {
    b.minXp <= xp && (b.maxXp.None? || xp <= b.maxXp.value)
  }

  /**
   * `GetLeagueByXpAsync`: among the bands containing `xp`, one with the greatest
   * RankOrder; none when no band contains `xp`.
   */
  function Classify(bands: seq<Band>, xp: int): (r: Option<Band>)
    ensures r.None? <==> forall i :: 0 <= i < |bands| ==> !Contains(bands[i], xp)
    ensures r.Some? ==> r.value in bands && Contains(r.value, xp)
    ensures r.Some? ==> forall i :: 0 <= i < |bands| && Contains(bands[i], xp) ==> bands[i].rankOrder <= r.value.rankOrder
  {
    if |bands| == 0 then None
    else
      var rest := Classify(bands[1..], xp);
      assert forall i :: 1 <= i < |bands| ==> bands[i] == bands[1..][i - 1];
      if !Contains(bands[0], xp) then rest
      else if rest.Some? && rest.value.rankOrder > bands[0].rankOrder then rest
      else Some(bands[0])
  }

  predicate RankOrderLe(a: Band, b: Band) {
    a.rankOrder <= b.rankOrder
  }

  /** `Leagues.OrderBy(l => l.RankOrder)`. */
  function SortByRankOrder(bands: seq<Band>): (r: seq<Band>)
    ensures IsSortingOf(r, bands, RankOrderLe)
    ensures |r| == |bands|
  {
    assert TotalPreorder(RankOrderLe);
    Sort(bands, RankOrderLe)
  }

  /** The index of the first band containing `xp`. */
  function FirstContaining(bands: seq<Band>, xp: int): (r: Option<nat>)
    ensures r.Some? ==> r.value < |bands| && Contains(bands[r.value], xp)
    ensures r.Some? ==> forall j :: 0 <= j < r.value ==> !Contains(bands[j], xp)
    ensures r.None? <==> forall j :: 0 <= j < |bands| ==> !Contains(bands[j], xp)
  {
    if |bands| == 0 then None
    else if Contains(bands[0], xp) then Some(0)
    else
      assert forall j :: 1 <= j < |bands| ==> bands[j] == bands[1..][j - 1];
      match FirstContaining(bands[1..], xp)
      case None => None
      case Some(k) => Some(k + 1)
  }

  /**
   * The overview's match `leagues.OrderBy(RankOrder).FirstOrDefault(contains)`:
   * a band containing `xp` with the least RankOrder.
   */
  function LowestContaining(bands: seq<Band>, xp: int): (r: Option<Band>)
    ensures r.None? <==> forall i :: 0 <= i < |bands| ==> !Contains(bands[i], xp)
    ensures r.Some? ==> r.value in bands && Contains(r.value, xp)
    ensures r.Some? ==> forall i :: 0 <= i < |bands| && Contains(bands[i], xp) ==> r.value.rankOrder <= bands[i].rankOrder
  {
    var sorted := SortByRankOrder(bands);
    match FirstContaining(sorted, xp)
    case None =>
      NoneContainingSorted(bands, sorted, xp);
      None
    case Some(k) =>
      FirstContainingIsLowest(bands, sorted, xp, k);
      Some(sorted[k])
  }

  /** A reordering of the bands with no band containing `xp` leaves none in the original. */
  lemma NoneContainingSorted(bands: seq<Band>, sorted: seq<Band>, xp: int)
    requires multiset(sorted) == multiset(bands)
    requires forall j :: 0 <= j < |sorted| ==> !Contains(sorted[j], xp)
    ensures forall i :: 0 <= i < |bands| ==> !Contains(bands[i], xp)
  {
    assert forall i :: 0 <= i < |bands| ==> bands[i] in multiset(sorted);
  }

  /** In the bands sorted by RankOrder, the first one containing `xp` has the least RankOrder. */
  lemma FirstContainingIsLowest(bands: seq<Band>, sorted: seq<Band>, xp: int, k: nat)
    requires IsSortingOf(sorted, bands, RankOrderLe)
    requires k < |sorted| && Contains(sorted[k], xp)
    requires forall j :: 0 <= j < k ==> !Contains(sorted[j], xp)
    ensures sorted[k] in bands
    ensures forall i :: 0 <= i < |bands| && Contains(bands[i], xp) ==> sorted[k].rankOrder <= bands[i].rankOrder
  {
    assert sorted[k] in multiset(bands);
    forall i | 0 <= i < |bands| && Contains(bands[i], xp) ensures sorted[k].rankOrder <= bands[i].rankOrder {
      assert bands[i] in multiset(sorted);
      var m :| 0 <= m < |sorted| && sorted[m] == bands[i];
      assert m >= k;
      if m > k {
        assert RankOrderLe(sorted[k], sorted[m]);
      }
    }
  }

  /** No XP value lies in two of the bands. */
  ghost predicate NonOverlapping(bands: seq<Band>) {
    forall i, j, xp :: 0 <= i < j < |bands| && Contains(bands[i], xp) ==> !Contains(bands[j], xp)
  }

  /**
   * The overview matches a user to the containing band of least RankOrder, the
   * classifier to the one of greatest RankOrder; on non-overlapping bands they agree.
   */
  lemma OverviewMatchIsClassify(bands: seq<Band>, xp: int)
    requires NonOverlapping(bands)
    ensures LowestContaining(bands, xp) == Classify(bands, xp)
  {
    var lo := LowestContaining(bands, xp);
    var hi := Classify(bands, xp);
    if lo.Some? {
      var i :| 0 <= i < |bands| && bands[i] == lo.value;
      var j :| 0 <= j < |bands| && bands[j] == hi.value;
      ContainingIsUnique(bands, xp, i, j);
    }
  }

  lemma ContainingIsUnique(bands: seq<Band>, xp: int, i: nat, j: nat)
    requires NonOverlapping(bands)
    requires i < |bands| && j < |bands| && Contains(bands[i], xp) && Contains(bands[j], xp)
    ensures i == j
  {
  }

  /** `Leagues.OrderBy(l => l.RankOrder).FirstOrDefault()`: a band of least RankOrder. */
  function LowestBand(bands: seq<Band>): (r: Option<Band>)
    ensures r.None? <==> |bands| == 0
    ensures r.Some? ==> r.value in bands && forall i :: 0 <= i < |bands| ==> r.value.rankOrder <= bands[i].rankOrder
  {
    var sorted := SortByRankOrder(bands);
    if |sorted| == 0 then None
    else
      assert sorted[0] in multiset(bands);
      assert forall i :: 0 <= i < |bands| ==> sorted[0].rankOrder <= bands[i].rankOrder by {
        forall i | 0 <= i < |bands| ensures sorted[0].rankOrder <= bands[i].rankOrder {
          assert bands[i] in multiset(sorted);
          var m :| 0 <= m < |sorted| && sorted[m] == bands[i];
          if m > 0 {
            assert RankOrderLe(sorted[0], sorted[m]);
          }
        }
      }
      Some(sorted[0])
  }

  /** `Where(l => l.RankOrder == current.RankOrder + 1).FirstOrDefault()`. */
  function NextBand(bands: seq<Band>, current: Band): (r: Option<Band>)
    ensures r.Some? ==> r.value in bands && r.value.rankOrder == current.rankOrder + 1
    ensures r.None? <==> forall i :: 0 <= i < |bands| ==> bands[i].rankOrder != current.rankOrder + 1
  {
    if |bands| == 0 then None
    else if bands[0].rankOrder == current.rankOrder + 1 then Some(bands[0])
    else
      assert forall j :: 1 <= j < |bands| ==> bands[j] == bands[1..][j - 1];
      NextBand(bands[1..], current)
  }

  /** The band test as a predicate on users, for counting. */
  function InBand(b: Band): User -> bool {
    (u: User) => Contains(b, u.totalXp)
  }

  /** The users whose XP lies in band `b`, in store order: one entry per such user row. */
  function BandMembers(users: seq<User>, b: Band): (r: seq<User>)
    ensures forall u :: u in r <==> u in users && Contains(b, u.totalXp)
    ensures |r| == CountIf(users, InBand(b))
    ensures |r| <= |users|
  {
    if |users| == 0 then []
    else
      var rest := BandMembers(users[1..], b);
      assert forall u :: u in users <==> u == users[0] || u in users[1..];
      if Contains(b, users[0].totalXp) then [users[0]] + rest else rest
  }

  /** `GetUsersInLeagueAsync`: the members of the band with key `leagueId`, none if absent. */
  function UsersInLeague(s: Store, leagueId: int): (r: seq<User>)
    ensures FindBand(s.bands, leagueId).None? ==> r == []
    ensures FindBand(s.bands, leagueId).Some? ==>
      forall u :: u in r <==> u in s.users && Contains(FindBand(s.bands, leagueId).value, u.totalXp)
    ensures FindBand(s.bands, leagueId).Some? ==> |r| == CountIf(s.users, InBand(FindBand(s.bands, leagueId).value))
  {
    match FindBand(s.bands, leagueId)
    case None => []
    case Some(b) => BandMembers(s.users, b)
  }

  // ---------------------------------------------------------------- user status

  /** The progress part of `UserLeagueDto`; `percentage` is the exact value before rounding. */
  datatype BandProgress = BandProgress(
    next: Option<Band>,
    xpInCurrentLeague: int,
    xpToNextLeague: int,
    percentage: real)

  /** `UserLeagueDto` without display fields. */
  datatype UserLeagueInfo = UserLeagueInfo(
    userId: int,
    totalXp: int,
    current: Band,
    progress: BandProgress,
    rankInLeague: int,
    totalUsersInLeague: nat)

  /** `Math.Min(100, (double)inBand / range * 100)` in exact arithmetic, or 100 when range <= 0. */
  function ProgressPercentage(inBand: int, range: int): (p: real)
    requires inBand >= 0
    ensures 0.0 <= p <= 100.0
    ensures range <= 0 ==> p == 100.0
    ensures range > 0 && inBand >= range ==> p == 100.0
    ensures range > 0 && inBand < range ==> p < 100.0 && p * (range as real) == (inBand as real) * 100.0
  {
    if range > 0 then
      var raw := (inBand as real) / (range as real) * 100.0;
      if raw <= 100.0 then raw else 100.0
    else 100.0
  }

  /**
   * Progress of `xp` through `current` towards the band of RankOrder + 1: XP already
   * in the band, XP still to go and the percentage; 0 to go and 100% without a next band.
   */
  function Progress(bands: seq<Band>, current: Band, xp: int): (p: BandProgress)
    requires Contains(current, xp)
    ensures p.xpInCurrentLeague == xp - current.minXp >= 0
    ensures 0.0 <= p.percentage <= 100.0
    ensures p.next.Some? ==>
      && p.next.value in bands
      && p.next.value.rankOrder == current.rankOrder + 1
      && p.xpToNextLeague == p.next.value.minXp - xp
      && (p.next.value.minXp - current.minXp <= 0 ==> p.percentage == 100.0)
      && (0 < p.next.value.minXp - current.minXp <= p.xpInCurrentLeague ==> p.percentage == 100.0)
      && (p.xpInCurrentLeague < p.next.value.minXp - current.minXp ==>
            p.percentage * ((p.next.value.minXp - current.minXp) as real) == (p.xpInCurrentLeague as real) * 100.0)
    ensures p.next.None? ==>
      && p.xpToNextLeague == 0 && p.percentage == 100.0
      && forall i :: 0 <= i < |bands| ==> bands[i].rankOrder != current.rankOrder + 1
  {
    var next := NextBand(bands, current);
    var inBand := xp - current.minXp;
    match next
    case None => BandProgress(None, inBand, 0, 100.0)
    case Some(n) => BandProgress(next, inBand, n.minXp - xp, ProgressPercentage(inBand, n.minXp - current.minXp))
  }

  /**
   * `GetUserLeagueAsync`: the band of the user's XP, progress towards the next band and
   * the user's position among the band's members (0 if it is not found among them).
   */
  function UserLeague(s: Store, userId: int): (r: Option<UserLeagueInfo>)
    ensures r.None? <==> FindUser(s.users, userId).None? || Classify(s.bands, FindUser(s.users, userId).value.totalXp).None?
    ensures r.Some? ==>
      var u := FindUser(s.users, userId).value;
      var info := r.value;
      && info.totalXp == u.totalXp
      && Classify(s.bands, u.totalXp) == Some(info.current)
      && info.progress == Progress(s.bands, info.current, u.totalXp)
      && info.totalUsersInLeague == |UsersInLeague(s, info.current.id)|
      && 0 <= info.rankInLeague <= info.totalUsersInLeague
  {
    match FindUser(s.users, userId)
    case None => None
    case Some(u) =>
      match Classify(s.bands, u.totalXp)
      case None => None
      case Some(band) =>
        var members := UsersInLeague(s, band.id);
        var rank := PositionOf(SortByRank(members), userId);
        Some(UserLeagueInfo(userId, u.totalXp, band, Progress(s.bands, band, u.totalXp), rank, |members|))
  }

  /**
   * With unique keys, the user is a member of its own band, so the rank is a real
   * position: 1 <= RankInLeague <= TotalUsersInLeague, and it lies between the number
   * of members ranked strictly above the user and those ranked at least as high.
   */
  lemma UserLeagueRank(s: Store, userId: int)
    requires UniqueUserIds(s.users) && UniqueBandIds(s.bands)
    requires UserLeague(s, userId).Some?
    ensures var info := UserLeague(s, userId).value;
            var u := FindUser(s.users, userId).value;
            var members := UsersInLeague(s, info.current.id);
            && 1 <= info.rankInLeague <= info.totalUsersInLeague
            && CountAbove(members, u) < info.rankInLeague <= CountAtLeast(members, u)
  {
    var u := FindUser(s.users, userId).value;
    var band := Classify(s.bands, u.totalXp).value;
    var k :| 0 <= k < |s.bands| && s.bands[k] == band;
    FindBandUnique(s.bands, k);
    var members := UsersInLeague(s, band.id);
    assert members == BandMembers(s.users, band);
    MemberIdsUnique(s.users, members, u);
    RankOfMember(members, u);
  }

  /** Among users drawn from a table with unique ids, a user's id picks out that user. */
  lemma MemberIdsUnique(users: seq<User>, members: seq<User>, u: User)
    requires UniqueUserIds(users) && u in users
    requires forall x :: x in members ==> x in users
    ensures forall x :: x in members && x.id == u.id ==> x == u
  {
    forall x | x in members && x.id == u.id ensures x == u {
      var i :| 0 <= i < |users| && users[i] == x;
      var j :| 0 <= j < |users| && users[j] == u;
      assert i == j;
    }
  }

  // ------------------------------------------------------------ band leaderboard

  datatype BoardEntry = BoardEntry(rank: int, user: User, isCurrentUser: bool)

  datatype LeagueBoard = LeagueBoard(
    league: Band,
    rankings: seq<BoardEntry>,
    totalUsers: nat,
    currentUserRank: Option<BoardEntry>)

  predicate IsCurrent(currentUserId: Option<int>, id: int) {
    currentUserId.Some? && currentUserId.value == id
  }

  /** Rank 1, 2, 3, … by position: equal keys still get distinct ranks. */
  function NumberEntries(window: seq<User>, currentUserId: Option<int>): (r: seq<BoardEntry>)
    ensures |r| == |window|
    ensures forall k :: 0 <= k < |r| ==> r[k] == BoardEntry(k + 1, window[k], IsCurrent(currentUserId, window[k].id))
  {
    seq(|window|, k requires 0 <= k < |window| => BoardEntry(k + 1, window[k], IsCurrent(currentUserId, window[k].id)))
  }

  function FindEntry(entries: seq<BoardEntry>, id: int): (r: Option<BoardEntry>)
    ensures r.Some? ==> r.value in entries && r.value.user.id == id
    ensures r.None? <==> forall k :: 0 <= k < |entries| ==> entries[k].user.id != id
  {
    match IndexWhere(entries, EntryOf(id))
    case None => None
    case Some(k) => Some(entries[k])
  }

  function EntryOf(id: int): BoardEntry -> bool {
    (e: BoardEntry) => e.user.id == id
  }

  /**
   * The current user's entry: its row in the window when listed there, otherwise an
   * entry at its position in the full order, and none when it is not a member.
   */
  function CurrentUserEntry(order: seq<User>, rankings: seq<BoardEntry>, id: int): (r: Option<BoardEntry>)
    requires |rankings| <= |order|
    requires forall k :: 0 <= k < |rankings| ==> rankings[k] == BoardEntry(k + 1, order[k], order[k].id == id)
    ensures r.Some? <==> FindUser(order, id).Some?
    ensures r.Some? ==> r.value.user.id == id && r.value.isCurrentUser && 1 <= r.value.rank <= |order|
    ensures r.Some? ==> order[r.value.rank - 1].id == id
  {
    match FindEntry(rankings, id)
    case Some(e) =>
      var k :| 0 <= k < |rankings| && rankings[k] == e;
      Some(e)
    case None =>
      match FindUser(order, id)
      case None => None
      case Some(u) => Some(BoardEntry(PositionOf(order, id), u, true))
  }

  /**
   * The board lists the first entries of `order`, a leaderboard order of the members,
   * ranked by position, and places the current user at its position in that order.
   */
  ghost predicate ShowsOrder(board: LeagueBoard, members: seq<User>, order: seq<User>, currentUserId: Option<int>) {
    && IsRanking(order, members) && |order| == |members| && |board.rankings| <= |order|
    && (forall k :: 0 <= k < |board.rankings| ==>
          board.rankings[k] == BoardEntry(k + 1, order[k], IsCurrent(currentUserId, order[k].id)))
    && (board.currentUserRank.Some? ==>
          && currentUserId.Some? && 1 <= board.currentUserRank.value.rank <= |order|
          && order[board.currentUserRank.value.rank - 1].id == currentUserId.value)
  }

  /** The board of one band, given its members. */
  function BoardOf(band: Band, members: seq<User>, currentUserId: Option<int>, limit: int): (board: LeagueBoard)
    ensures board.league == band && board.totalUsers == |members|
    ensures |board.rankings| == (if limit <= 0 then 0 else Min(limit, |members|))
    ensures exists order: seq<User> :: ShowsOrder(board, members, order, currentUserId)
    ensures board.currentUserRank.Some? <==> currentUserId.Some? && FindUser(members, currentUserId.value).Some?
    ensures board.currentUserRank.Some? ==>
      && board.currentUserRank.value.user.id == currentUserId.value
      && board.currentUserRank.value.isCurrentUser
      && 1 <= board.currentUserRank.value.rank <= |members|
  {
    BoardFrom(band, members, SortByRank(members), currentUserId, limit)
  }

  /** The first `limit` users of `order`, ranked 1, 2, 3, … by position. */
  function WindowEntries(order: seq<User>, currentUserId: Option<int>, limit: int): (r: seq<BoardEntry>)
    ensures |r| == (if limit <= 0 then 0 else Min(limit, |order|))
    ensures forall k :: 0 <= k < |r| ==> r[k] == BoardEntry(k + 1, order[k], IsCurrent(currentUserId, order[k].id))
  {
    var window := Take(order, limit);
    var r := NumberEntries(window, currentUserId);
    assert forall k :: 0 <= k < |r| ==> window[k] == order[k];
    r
  }

  /** The board of one band, built on a given leaderboard order of its members. */
  function BoardFrom(band: Band, members: seq<User>, order: seq<User>, currentUserId: Option<int>, limit: int): (board: LeagueBoard)
    requires IsRanking(order, members) && |order| == |members|
    ensures board.league == band && board.totalUsers == |members|
    ensures |board.rankings| == (if limit <= 0 then 0 else Min(limit, |members|))
    ensures ShowsOrder(board, members, order, currentUserId)
    ensures board.currentUserRank.Some? <==> currentUserId.Some? && FindUser(members, currentUserId.value).Some?
    ensures board.currentUserRank.Some? ==>
      && board.currentUserRank.value.user.id == currentUserId.value
      && board.currentUserRank.value.isCurrentUser
      && 1 <= board.currentUserRank.value.rank <= |members|
  {
    var rankings := WindowEntries(order, currentUserId, limit);
    var current := CurrentEntryOf(order, rankings, currentUserId);
    BoardFromShows(band, members, order, currentUserId, rankings, current);
    LeagueBoard(band, rankings, |members|, current)
  }

  /** The current user's entry, when there is a current user. */
  function CurrentEntryOf(order: seq<User>, rankings: seq<BoardEntry>, currentUserId: Option<int>): (r: Option<BoardEntry>)
    requires |rankings| <= |order|
    requires forall k :: 0 <= k < |rankings| ==> rankings[k] == BoardEntry(k + 1, order[k], IsCurrent(currentUserId, order[k].id))
    ensures r.Some? <==> currentUserId.Some? && FindUser(order, currentUserId.value).Some?
    ensures r.Some? ==>
      && r.value.user.id == currentUserId.value && r.value.isCurrentUser
      && 1 <= r.value.rank <= |order| && order[r.value.rank - 1].id == currentUserId.value
  {
    if currentUserId.None? then None
    else
      assert forall k :: 0 <= k < |rankings| ==> IsCurrent(currentUserId, order[k].id) == (order[k].id == currentUserId.value);
      CurrentUserEntry(order, rankings, currentUserId.value)
  }

  /** A numbered window of the order and an entry found in that order show the order. */
  lemma BoardFromShows(band: Band, members: seq<User>, order: seq<User>, currentUserId: Option<int>,
                       rankings: seq<BoardEntry>, current: Option<BoardEntry>)
    requires IsRanking(order, members) && |order| == |members| && |rankings| <= |order|
    requires forall k :: 0 <= k < |rankings| ==> rankings[k] == BoardEntry(k + 1, order[k], IsCurrent(currentUserId, order[k].id))
    requires current.Some? <==> currentUserId.Some? && FindUser(order, currentUserId.value).Some?
    requires current.Some? ==>
      && current.value.user.id == currentUserId.value && current.value.isCurrentUser
      && 1 <= current.value.rank <= |order| && order[current.value.rank - 1].id == currentUserId.value
    ensures ShowsOrder(LeagueBoard(band, rankings, |members|, current), members, order, currentUserId)
    ensures current.Some? <==> currentUserId.Some? && FindUser(members, currentUserId.value).Some?
  {
    if currentUserId.Some? {
      SameIds(order, members, currentUserId.value);
    }
  }

  /** Two orders of the same members hold the same ids. */
  lemma SameIds(a: seq<User>, b: seq<User>, id: int)
    requires multiset(a) == multiset(b)
    ensures FindUser(a, id).Some? <==> FindUser(b, id).Some?
  {
    if FindUser(a, id).Some? {
      assert FindUser(a, id).value in multiset(b);
    }
    if FindUser(b, id).Some? {
      assert FindUser(b, id).value in multiset(a);
    }
  }

  /**
   * `GetLeagueLeaderboardAsync`: the first `limit` members in leaderboard order with
   * ranks 1..k, the member count, and the current user's entry — from the window, or
   * at its position in the same full order, or none when not a member.
   */
  function LeagueLeaderboard(s: Store, leagueId: int, currentUserId: Option<int>, limit: int): (r: Option<LeagueBoard>)
    ensures r.None? <==> FindBand(s.bands, leagueId).None?
    ensures r.Some? ==> r.value.league.id == leagueId && r.value == BoardOf(r.value.league, UsersInLeague(s, leagueId), currentUserId, limit)
  {
    match FindBand(s.bands, leagueId)
    case None => None
    case Some(band) => Some(BoardOf(band, UsersInLeague(s, leagueId), currentUserId, limit))
  }

  // ------------------------------------------------------------------- overview

  datatype OverviewItem = OverviewItem(league: Band, totalUsers: nat, isCurrentUserLeague: bool)

  datatype Overview = Overview(leagues: seq<OverviewItem>, currentUserLeagueId: Option<int>)

  function LeaguesOf(items: seq<OverviewItem>): (r: seq<Band>)
    ensures |r| == |items| && forall k :: 0 <= k < |items| ==> r[k] == items[k].league
  {
    seq(|items|, k requires 0 <= k < |items| => items[k].league)
  }

  /** The band the overview marks for the current user: the first in RankOrder containing its XP. */
  function OverviewLeagueId(s: Store, currentUserId: Option<int>): (r: Option<int>)
    ensures r.Some? <==>
      currentUserId.Some? && FindUser(s.users, currentUserId.value).Some?
      && LowestContaining(s.bands, FindUser(s.users, currentUserId.value).value.totalXp).Some?
    ensures r.Some? ==>
      r.value == LowestContaining(s.bands, FindUser(s.users, currentUserId.value).value.totalXp).value.id
  {
    if currentUserId.None? then None
    else match FindUser(s.users, currentUserId.value)
      case None => None
      case Some(u) =>
        match LowestContaining(s.bands, u.totalXp)
        case None => None
        case Some(b) => Some(b.id)
  }

  /**
   * `GetAllLeaguesOverviewAsync`: every band in RankOrder order with its member count,
   * and the current user's band marked.
   */
  function AllLeaguesOverview(s: Store, currentUserId: Option<int>): (r: Overview)
    ensures IsSortingOf(LeaguesOf(r.leagues), s.bands, RankOrderLe)
    ensures r.currentUserLeagueId == OverviewLeagueId(s, currentUserId)
    ensures forall k :: 0 <= k < |r.leagues| ==>
      && r.leagues[k].totalUsers == |BandMembers(s.users, r.leagues[k].league)|
      && (r.leagues[k].isCurrentUserLeague <==>
            r.currentUserLeagueId.Some? && r.leagues[k].league.id == r.currentUserLeagueId.value)
  {
    var sorted := SortByRankOrder(s.bands);
    var leagueId := OverviewLeagueId(s, currentUserId);
    var items := seq(|sorted|, k requires 0 <= k < |sorted| =>
      OverviewItem(sorted[k], |BandMembers(s.users, sorted[k])|, leagueId.Some? && sorted[k].id == leagueId.value));
    assert LeaguesOf(items) == sorted;
    Overview(items, leagueId)
  }

  // ------------------------------------------------------------ history rows

  predicate IsCurrentRowOf(row: LeagueHistoryRow, userId: int) {
    row.userId == userId && row.isCurrent
  }

  /** `UserLeagueHistories.Where(h => h.UserId == userId && h.IsCurrent).FirstOrDefault()`. */
  function CurrentRowIndex(h: seq<LeagueHistoryRow>, userId: int): (r: Option<nat>)
    ensures r.Some? ==> r.value < |h| && IsCurrentRowOf(h[r.value], userId)
    ensures r.Some? ==> forall j :: 0 <= j < r.value ==> !IsCurrentRowOf(h[j], userId)
    ensures r.None? <==> forall j :: 0 <= j < |h| ==> !IsCurrentRowOf(h[j], userId)
  {
    if |h| == 0 then None
    else if IsCurrentRowOf(h[0], userId) then Some(0)
    else
      assert forall j :: 1 <= j < |h| ==> h[j] == h[1..][j - 1];
      match CurrentRowIndex(h[1..], userId)
      case None => None
      case Some(k) => Some(k + 1)
  }

  /** The history invariant: no user has two current rows. */
  ghost predicate OneCurrentPerUser(h: seq<LeagueHistoryRow>) {
    forall i, j :: 0 <= i < j < |h| && h[i].isCurrent && h[j].isCurrent ==> h[i].userId != h[j].userId
  }

  function HistoryIds(h: seq<LeagueHistoryRow>): seq<int> {
    seq(|h|, k requires 0 <= k < |h| => h[k].id)
  }

  /** The closing write: not current, ended now, final XP recorded. */
  function Close(row: LeagueHistoryRow, now: Instant, finalXp: int): LeagueHistoryRow {
    row.(isCurrent := false, endDate := Some(now), finalXp := Some(finalXp))
  }

  function OpenRow(h: seq<LeagueHistoryRow>, userId: int, leagueId: int, now: Instant): LeagueHistoryRow {
    LeagueHistoryRow(FreshId(HistoryIds(h)), userId, leagueId, now, None, None, None, true)
  }

  datatype LeagueChange =
    | Unchanged
    | Changed(previous: Option<Band>, newLeague: Band, isPromotion: bool)

  /**
   * `CheckAndUpdateUserLeagueAsync`. No change when the user is missing, no band
   * contains its XP, or its current row already points at that band. Otherwise the
   * current row (if any) is closed and one new current row is appended.
   */
  function CheckAndUpdate(s: Store, userId: int, now: Instant): (r: (LeagueChange, Store))
    ensures r.1 == s.(leagueHistory := r.1.leagueHistory)
    ensures r.0.Unchanged? ==> r.1 == s
    ensures r.0.Unchanged? <==>
      || FindUser(s.users, userId).None?
      || Classify(s.bands, FindUser(s.users, userId).value.totalXp).None?
      || (CurrentRowIndex(s.leagueHistory, userId).Some?
          && s.leagueHistory[CurrentRowIndex(s.leagueHistory, userId).value].leagueId
             == Classify(s.bands, FindUser(s.users, userId).value.totalXp).value.id)
    ensures r.0.Changed? ==>
      var xp := FindUser(s.users, userId).value.totalXp;
      var h := s.leagueHistory;
      var h' := r.1.leagueHistory;
      && Some(r.0.newLeague) == Classify(s.bands, xp)
      && |h'| == |h| + 1
      && h'[|h|] == OpenRow(h, userId, r.0.newLeague.id, now)
      && (forall k :: 0 <= k < |h| && CurrentRowIndex(h, userId) != Some(k) ==> h'[k] == h[k])
      && (forall k :: 0 <= k < |h| ==> h'[k] == h[k] || (IsCurrentRowOf(h[k], userId) && h'[k] == Close(h[k], now, xp)))
      && (r.0.isPromotion <==> r.0.previous.None? || r.0.newLeague.rankOrder > r.0.previous.value.rankOrder)
    ensures r.0.Changed? && CurrentRowIndex(s.leagueHistory, userId).None? ==>
      r.0.previous.None? && r.0.isPromotion
    ensures r.0.Changed? && CurrentRowIndex(s.leagueHistory, userId).Some? ==>
      var c := CurrentRowIndex(s.leagueHistory, userId).value;
      && r.0.previous == FindBand(s.bands, s.leagueHistory[c].leagueId)
      && r.1.leagueHistory[c] == Close(s.leagueHistory[c], now, FindUser(s.users, userId).value.totalXp)
  {
    match FindUser(s.users, userId)
    case None => (Unchanged, s)
    case Some(u) =>
      match Classify(s.bands, u.totalXp)
      case None => (Unchanged, s)
      case Some(band) =>
        var h := s.leagueHistory;
        var cur := CurrentRowIndex(h, userId);
        if cur.Some? && h[cur.value].leagueId == band.id then (Unchanged, s)
        else
          var previous := if cur.Some? then FindBand(s.bands, h[cur.value].leagueId) else None;
          var closed := if cur.Some? then h[cur.value := Close(h[cur.value], now, u.totalXp)] else h;
          var isPromotion := previous.None? || band.rankOrder > previous.value.rankOrder;
          (Changed(previous, band, isPromotion), s.(leagueHistory := closed + [OpenRow(h, userId, band.id, now)]))
  }

  /** A league change keeps "at most one current row per user". */
  lemma CheckAndUpdateKeepsOneCurrent(s: Store, userId: int, now: Instant)
    requires OneCurrentPerUser(s.leagueHistory)
    ensures OneCurrentPerUser(CheckAndUpdate(s, userId, now).1.leagueHistory)
  {
    var (c, s') := CheckAndUpdate(s, userId, now);
    if c.Changed? {
      var h := s.leagueHistory;
      var h' := s'.leagueHistory;
      forall i, j | 0 <= i < j < |h'| && h'[i].isCurrent && h'[j].isCurrent
        ensures h'[i].userId != h'[j].userId
      {
        if j == |h| {
          assert h'[i] == h[i];
          assert !IsCurrentRowOf(h[i], userId);
        } else {
          assert h'[i] == h[i] && h'[j] == h[j];
        }
      }
    }
  }

  /** After a change the user's only current row is the new one. */
  lemma CheckAndUpdateLeavesNewRowCurrent(s: Store, userId: int, now: Instant)
    requires OneCurrentPerUser(s.leagueHistory)
    requires CheckAndUpdate(s, userId, now).0.Changed?
    ensures var h' := CheckAndUpdate(s, userId, now).1.leagueHistory;
            CurrentRowIndex(h', userId) == Some(|s.leagueHistory|)
  {
    var h := s.leagueHistory;
    var h' := CheckAndUpdate(s, userId, now).1.leagueHistory;
    NoOtherCurrent(h, userId, CurrentRowIndex(h, userId));
    NewRowOnlyCurrent(h, h', userId, CurrentRowIndex(h, userId));
  }

  /**
   * Closing the user's current row (if any), keeping every other row and appending a
   * current row of the user leaves the appended row as the user's only current one.
   */
  lemma NewRowOnlyCurrent(h: seq<LeagueHistoryRow>, h': seq<LeagueHistoryRow>, userId: int, c: Option<nat>)
    requires forall k :: 0 <= k < |h| && c != Some(k) ==> !IsCurrentRowOf(h[k], userId)
    requires |h'| == |h| + 1 && IsCurrentRowOf(h'[|h|], userId)
    requires forall k :: 0 <= k < |h| && c != Some(k) ==> h'[k] == h[k]
    requires c.Some? && c.value < |h| ==> !h'[c.value].isCurrent
    ensures CurrentRowIndex(h', userId) == Some(|h|)
  {
    forall k | 0 <= k < |h| ensures !IsCurrentRowOf(h'[k], userId) {
      if c != Some(k) {
        assert h'[k] == h[k];
      }
    }
  }

  /** Under the invariant, no row but the one found is the user's current row. */
  lemma NoOtherCurrent(h: seq<LeagueHistoryRow>, userId: int, c: Option<nat>)
    requires OneCurrentPerUser(h) && c == CurrentRowIndex(h, userId)
    ensures forall k :: 0 <= k < |h| && c != Some(k) ==> !IsCurrentRowOf(h[k], userId)
  {
    if c.Some? {
      OnlyCurrentRow(h, userId);
      forall k | 0 <= k < |h| && c != Some(k) ensures !IsCurrentRowOf(h[k], userId) {
        assert !CurrentOf(userId)(h[k]);
      }
    }
  }

  /**
   * Re-running the check with the same users and bands changes nothing: the new current
   * row already points at the band the user's XP classifies into.
   */
  lemma {:induction false} CheckAndUpdateIdempotent(s: Store, userId: int, now: Instant, later: Instant)
    requires OneCurrentPerUser(s.leagueHistory)
    ensures var s' := CheckAndUpdate(s, userId, now).1;
            CheckAndUpdate(s', userId, later) == (Unchanged, s')
  {
    var (c, s') := CheckAndUpdate(s, userId, now);
    if c.Changed? {
      CheckAndUpdateLeavesNewRowCurrent(s, userId, now);
      assert s'.users == s.users && s'.bands == s.bands;
    }
  }

  function CurrentOf(userId: int): LeagueHistoryRow -> bool {
    (row: LeagueHistoryRow) => IsCurrentRowOf(row, userId)
  }

  function ClosedOf(userId: int): LeagueHistoryRow -> bool {
    (row: LeagueHistoryRow) => row.userId == userId && !row.isCurrent
  }

  /**
   * Each band change closes the previous current row (if any) and adds one current
   * row, so crossing B band boundaries from one current row leaves B closed rows
   * more and still exactly one current row.
   */
  lemma CheckAndUpdateCounts(s: Store, userId: int, now: Instant)
    requires OneCurrentPerUser(s.leagueHistory)
    requires CheckAndUpdate(s, userId, now).0.Changed?
    ensures var h := s.leagueHistory;
            var h' := CheckAndUpdate(s, userId, now).1.leagueHistory;
            && CountIf(h', CurrentOf(userId)) == 1
            && CountIf(h', ClosedOf(userId)) == CountIf(h, ClosedOf(userId)) + CountIf(h, CurrentOf(userId))
  {
    var h := s.leagueHistory;
    var h' := CheckAndUpdate(s, userId, now).1.leagueHistory;
    var body := h'[..|h|];
    assert h' == body + [h'[|h|]];
    CountIfAppend(body, [h'[|h|]], CurrentOf(userId));
    CountIfAppend(body, [h'[|h|]], ClosedOf(userId));
    CheckAndUpdateLeavesNewRowCurrent(s, userId, now);
    forall k | 0 <= k < |body| ensures !CurrentOf(userId)(body[k]) {
      assert body[k] == h'[k];
    }
    CountIfNone(body, CurrentOf(userId));
    var xp := FindUser(s.users, userId).value.totalXp;
    match CurrentRowIndex(h, userId)
    case None =>
      assert body == h;
      CountIfNone(h, CurrentOf(userId));
    case Some(cur) =>
      assert body == h[cur := Close(h[cur], now, xp)];
      ReplaceCounts(h, cur, Close(h[cur], now, xp), userId);
      OnlyCurrentRow(h, userId);
      CountIfOnlyOne(h, cur, CurrentOf(userId));
  }

  lemma ReplaceCounts(h: seq<LeagueHistoryRow>, i: nat, row: LeagueHistoryRow, userId: int)
    requires i < |h| && IsCurrentRowOf(h[i], userId) && row.userId == userId && !row.isCurrent
    ensures CountIf(h[i := row], ClosedOf(userId)) == CountIf(h, ClosedOf(userId)) + 1
  {
    assert h == h[..i] + [h[i]] + h[i + 1..];
    assert h[i := row] == h[..i] + [row] + h[i + 1..];
    CountIfAppend(h[..i] + [h[i]], h[i + 1..], ClosedOf(userId));
    CountIfAppend(h[..i], [h[i]], ClosedOf(userId));
    CountIfAppend(h[..i] + [row], h[i + 1..], ClosedOf(userId));
    CountIfAppend(h[..i], [row], ClosedOf(userId));
  }

  /** Under the invariant, the current row found is the user's only current row. */
  lemma OnlyCurrentRow(h: seq<LeagueHistoryRow>, userId: int)
    requires OneCurrentPerUser(h)
    requires CurrentRowIndex(h, userId).Some?
    ensures forall k :: 0 <= k < |h| && k != CurrentRowIndex(h, userId).value ==> !CurrentOf(userId)(h[k])
  {
    var cur := CurrentRowIndex(h, userId).value;
    forall k | 0 <= k < |h| && k != cur ensures !CurrentOf(userId)(h[k]) {
      if h[k].isCurrent {
        if k < cur {
          assert h[k].userId != h[cur].userId;
        } else {
          assert h[cur].userId != h[k].userId;
        }
      }
    }
  }

  // ------------------------------------------------------------------ initialize

  predicate HasHistory(h: seq<LeagueHistoryRow>, userId: int) {
    exists k :: 0 <= k < |h| && h[k].userId == userId
  }

  /**
   * `InitializeUserLeagueAsync`: a user with no history rows gets one current row for
   * the band of least RankOrder, whatever its XP; anything else is left alone.
   */
  function Initialize(s: Store, userId: int, now: Instant): (r: Store)
    ensures r == s.(leagueHistory := r.leagueHistory)
    ensures r == s <==>
      FindUser(s.users, userId).None? || HasHistory(s.leagueHistory, userId) || |s.bands| == 0
    ensures r != s ==>
      r.leagueHistory == s.leagueHistory + [OpenRow(s.leagueHistory, userId, LowestBand(s.bands).value.id, now)]
  {
    if FindUser(s.users, userId).None? || HasHistory(s.leagueHistory, userId) then s
    else match LowestBand(s.bands)
      case None => s
      case Some(b) =>
        var r := s.(leagueHistory := s.leagueHistory + [OpenRow(s.leagueHistory, userId, b.id, now)]);
        assert |r.leagueHistory| != |s.leagueHistory|;
        r
  }

  /** Initializing twice is initializing once, and it keeps one current row per user. */
  lemma InitializeIdempotent(s: Store, userId: int, now: Instant, later: Instant)
    ensures Initialize(Initialize(s, userId, now), userId, later) == Initialize(s, userId, now)
    ensures OneCurrentPerUser(s.leagueHistory) ==> OneCurrentPerUser(Initialize(s, userId, now).leagueHistory)
  {
    var r := Initialize(s, userId, now);
    if r != s {
      assert r.leagueHistory[|s.leagueHistory|].userId == userId;
      assert HasHistory(r.leagueHistory, userId);
    }
  }
}

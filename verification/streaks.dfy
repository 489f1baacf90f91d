/**
 * The study-streak tracker (StudyStreakService): a day-granularity check-in that
 * starts, keeps, extends or restarts a user's active streak row, and the read-only
 * status projection.
 */
module Streaks {
  import opened Wrappers
  import opened Seqs
  import opened Sorting
  import opened Clock
  import opened Entities
  import opened Ledger

  /** The XP added to `TotalXp` when a streak is continued from yesterday. */
  const ContinuationBonus := 10

  predicate IsActiveOf(row: StudyStreak, userId: int) {
    row.userId == userId && row.isActive
  }

  /** `StudyStreaks.FirstOrDefault(s => s.UserId == userId && s.IsActive)`. */
  function ActiveIndex(rows: seq<StudyStreak>, userId: int): (r: Option<nat>)
    ensures r.Some? ==> r.value < |rows| && IsActiveOf(rows[r.value], userId)
    ensures r.Some? ==> forall j :: 0 <= j < r.value ==> !IsActiveOf(rows[j], userId)
    ensures r.None? <==> forall j :: 0 <= j < |rows| ==> !IsActiveOf(rows[j], userId)
  {
    if |rows| == 0 then None
    else if IsActiveOf(rows[0], userId) then Some(0)
    else
      assert forall j :: 1 <= j < |rows| ==> rows[j] == rows[1..][j - 1];
      match ActiveIndex(rows[1..], userId)
      case None => None
      case Some(k) => Some(k + 1)
  }

  /** No user has two active streak rows. */
  ghost predicate OneActivePerUser(rows: seq<StudyStreak>) {
    forall i, j :: 0 <= i < j < |rows| && rows[i].isActive && rows[j].isActive ==> rows[i].userId != rows[j].userId
  }

  /** Every user's `CurrentStreak` is the day count of its active row, if it has one. */
  ghost predicate InSync(s: Store) {
    forall k, i :: 0 <= k < |s.users| && 0 <= i < |s.streaks| && IsActiveOf(s.streaks[i], s.users[k].id) ==>
      s.users[k].currentStreak == s.streaks[i].currentDays
  }

  function StreakIds(rows: seq<StudyStreak>): seq<int> {
    seq(|rows|, k requires 0 <= k < |rows| => rows[k].id)
  }

  /** A fresh one-day active row starting and ending today. */
  function FreshStreak(rows: seq<StudyStreak>, userId: int, today: Day): StudyStreak {
    StudyStreak(FreshId(StreakIds(rows)), userId, today, Some(today), 1, true)
  }

  /** The check-in continues a streak whose active row ended yesterday. */
  predicate Continues(s: Store, userId: int, today: Day) {
    && UserIndex(s.users, userId).Some?
    && ActiveIndex(s.streaks, userId).Some?
    && s.streaks[ActiveIndex(s.streaks, userId).value].endDate == Some(today - 1)
  }

  /** The streak side of a check-in: the rows and CurrentStreak, without any XP. */
  function Advance(s: Store, userId: int, today: Day): Store {
    match UserIndex(s.users, userId)
    case None => s
    case Some(k) =>
      var u := s.users[k];
      match ActiveIndex(s.streaks, userId)
      case None =>
        s.(streaks := s.streaks + [FreshStreak(s.streaks, userId, today)],
           users := s.users[k := u.(currentStreak := 1)])
      case Some(a) =>
        var row := s.streaks[a];
        if row.endDate == Some(today) then s
        else if row.endDate == Some(today - 1) then
          s.(streaks := s.streaks[a := row.(endDate := Some(today), currentDays := row.currentDays + 1)],
             users := s.users[k := u.(currentStreak := u.currentStreak + 1)])
        else
          s.(streaks := s.streaks[a := row.(isActive := false)] + [FreshStreak(s.streaks, userId, today)],
             users := s.users[k := u.(currentStreak := 1)])
  }

  /**
   * `UpdateStreakAsync` as written. A missing user changes nothing. Without an active
   * row a one-day row is opened and CurrentStreak set to 1; an active row ending today
   * is left alone; one ending yesterday is extended to today, with CurrentDays,
   * CurrentStreak and TotalXp raised by 1, 1 and 10; any other end date (older, later
   * or none) deactivates the row, opens a one-day row and sets CurrentStreak to 1.
   */
  function Update(s: Store, userId: int, today: Day): (r: Store)
    ensures r == s.(users := r.users, streaks := r.streaks)
    ensures UserIndex(s.users, userId).None? ==> r == s
    ensures UserIndex(s.users, userId).Some? ==>
      var k := UserIndex(s.users, userId).value;
      var u := s.users[k];
      && |r.users| == |s.users|
      && (forall j :: 0 <= j < |s.users| && j != k ==> r.users[j] == s.users[j])
      && match ActiveIndex(s.streaks, userId)
         case None =>
           && r.streaks == s.streaks + [FreshStreak(s.streaks, userId, today)]
           && r.users[k] == u.(currentStreak := 1)
         case Some(a) =>
           var row := s.streaks[a];
           if row.endDate == Some(today) then r == s
           else if row.endDate == Some(today - 1) then
             && r.streaks == s.streaks[a := row.(endDate := Some(today), currentDays := row.currentDays + 1)]
             && r.users[k] == u.(currentStreak := u.currentStreak + 1, totalXp := u.totalXp + ContinuationBonus)
           else
             && r.streaks == s.streaks[a := row.(isActive := false)] + [FreshStreak(s.streaks, userId, today)]
             && r.users[k] == u.(currentStreak := 1)
  {
    var t := Advance(s, userId, today);
    if Continues(s, userId, today) then
      t.(users := AddXp(t.users, UserIndex(s.users, userId).value, ContinuationBonus))
    else t
  }

  /** Every branch leaves the checking-in user with exactly one active row, ending today. */
  lemma UpdateLeavesActiveToday(s: Store, userId: int, today: Day)
    requires OneActivePerUser(s.streaks)
    requires UserIndex(s.users, userId).Some?
    ensures var r := Update(s, userId, today);
            && ActiveIndex(r.streaks, userId).Some?
            && r.streaks[ActiveIndex(r.streaks, userId).value].endDate == Some(today)
            && forall j :: 0 <= j < |r.streaks| && j != ActiveIndex(r.streaks, userId).value ==> !IsActiveOf(r.streaks[j], userId)
  {
    var r := Update(s, userId, today);
    match ActiveIndex(s.streaks, userId)
    case None =>
      assert IsActiveOf(r.streaks[|s.streaks|], userId);
    case Some(a) =>
      OnlyActiveRow(s.streaks, userId);
      var row := s.streaks[a];
      if row.endDate == Some(today) || row.endDate == Some(today - 1) {
        assert IsActiveOf(r.streaks[a], userId);
      } else {
        assert IsActiveOf(r.streaks[|s.streaks|], userId);
      }
  }

  /** Under the invariant, the active row found is the user's only active row. */
  lemma OnlyActiveRow(rows: seq<StudyStreak>, userId: int)
    requires OneActivePerUser(rows)
    requires ActiveIndex(rows, userId).Some?
    ensures forall j :: 0 <= j < |rows| && j != ActiveIndex(rows, userId).value ==> !IsActiveOf(rows[j], userId)
  {
    var a := ActiveIndex(rows, userId).value;
    forall j | 0 <= j < |rows| && j != a ensures !IsActiveOf(rows[j], userId) {
      if rows[j].isActive {
        if j < a {
          assert rows[j].userId != rows[a].userId;
        } else {
          assert rows[a].userId != rows[j].userId;
        }
      }
    }
  }

  /** A check-in keeps "at most one active row per user". */
  lemma UpdateKeepsOneActive(s: Store, userId: int, today: Day)
    requires OneActivePerUser(s.streaks)
    ensures OneActivePerUser(Update(s, userId, today).streaks)
  {
    var r := Update(s, userId, today);
    if UserIndex(s.users, userId).Some? {
      UpdateLeavesActiveToday(s, userId, today);
      var a' := ActiveIndex(r.streaks, userId).value;
      forall i, j | 0 <= i < j < |r.streaks| && r.streaks[i].isActive && r.streaks[j].isActive
        ensures r.streaks[i].userId != r.streaks[j].userId
      {
        if i != a' && j != a' {
          assert r.streaks[i] == s.streaks[i] && r.streaks[j] == s.streaks[j];
        }
      }
    }
  }

  /**
   * A check-in keeps every user's CurrentStreak equal to its active row's CurrentDays:
   * each branch sets or raises both together, and no other user's rows change.
   */
  lemma UpdateKeepsInSync(s: Store, userId: int, today: Day)
    requires UniqueUserIds(s.users) && OneActivePerUser(s.streaks) && InSync(s)
    ensures InSync(Update(s, userId, today))
  {
    var r := Update(s, userId, today);
    if UserIndex(s.users, userId).Some? {
      var k0 := UserIndex(s.users, userId).value;
      UpdateLeavesActiveToday(s, userId, today);
      var a' := ActiveIndex(r.streaks, userId).value;
      if ActiveIndex(s.streaks, userId).Some? {
        OnlyActiveRow(s.streaks, userId);
      }
      forall k, i | 0 <= k < |r.users| && 0 <= i < |r.streaks| && IsActiveOf(r.streaks[i], r.users[k].id)
        ensures r.users[k].currentStreak == r.streaks[i].currentDays
      {
        if k == k0 {
          assert i == a';
        } else {
          assert r.users[k] == s.users[k];
          assert s.users[k].id != userId;
          assert r.streaks[i] == s.streaks[i];
        }
      }
    }
  }

  /** Checking in twice on the same day is checking in once. */
  lemma UpdateSameDayIdempotent(s: Store, userId: int, today: Day)
    requires OneActivePerUser(s.streaks)
    ensures Update(Update(s, userId, today), userId, today) == Update(s, userId, today)
  {
    if UserIndex(s.users, userId).Some? {
      UpdateLeavesActiveToday(s, userId, today);
    }
  }

  /** `n` steps on the consecutive days `first`, `first + 1`, …, `first + n - 1`. */
  function Repeat(step: (Store, Day) -> Store, s: Store, first: Day, n: nat): Store
    decreases n
  {
    if n == 0 then s else step(Repeat(step, s, first, n - 1), first + n - 1)
  }

  /** One user's check-in, as a step on a given day. */
  function CheckIn(userId: int): (Store, Day) -> Store {
    (r: Store, d: Day) => Update(r, userId, d)
  }

  /** `n` check-ins by one user on the consecutive days `first`, …, `first + n - 1`. */
  function CheckInDays(s: Store, userId: int, first: Day, n: nat): Store {
    Repeat(CheckIn(userId), s, first, n)
  }

  /** A check-in never changes which user sits at which index. */
  lemma UpdateKeepsUserIndex(s: Store, userId: int, today: Day, id: int)
    ensures UserIndex(Update(s, userId, today).users, id) == UserIndex(s.users, id)
  {
    var r := Update(s, userId, today);
    assert forall j :: 0 <= j < |s.users| ==> r.users[j].id == s.users[j].id;
    UserIndexSameKeys(r.users, s.users, id);
  }

  /** The continuation branch, seen from the active row: it stays the active row. */
  lemma UpdateContinues(s: Store, userId: int, k: nat, a: nat, today: Day)
    requires UserIndex(s.users, userId) == Some(k)
    requires ActiveIndex(s.streaks, userId) == Some(a)
    requires s.streaks[a].endDate == Some(today - 1)
    ensures UserIndex(Update(s, userId, today).users, userId) == Some(k)
    ensures ActiveIndex(Update(s, userId, today).streaks, userId) == Some(a)
    ensures Update(s, userId, today).streaks[a] ==
      s.streaks[a].(endDate := Some(today), currentDays := s.streaks[a].currentDays + 1)
    ensures Update(s, userId, today).users[k].currentStreak == s.users[k].currentStreak + 1
  {
    var row := s.streaks[a];
    var row' := row.(endDate := Some(today), currentDays := row.currentDays + 1);
    UpdateKeepsUserIndex(s, userId, today, userId);
    ContinuedRows(s, userId, k, a, today, row');
    ReplaceActiveRow(s.streaks, userId, a, row');
  }

  /** The rows and the user the continuation branch writes. */
  lemma ContinuedRows(s: Store, userId: int, k: nat, a: nat, today: Day, row': StudyStreak)
    requires UserIndex(s.users, userId) == Some(k)
    requires ActiveIndex(s.streaks, userId) == Some(a)
    requires s.streaks[a].endDate == Some(today - 1)
    requires row' == s.streaks[a].(endDate := Some(today), currentDays := s.streaks[a].currentDays + 1)
    ensures Update(s, userId, today).streaks == s.streaks[a := row']
    ensures Update(s, userId, today).users[k].currentStreak == s.users[k].currentStreak + 1
  {
  }

  /** Replacing the active row by another active row of the user keeps it the active row. */
  lemma ReplaceActiveRow(rows: seq<StudyStreak>, userId: int, a: nat, row: StudyStreak)
    requires ActiveIndex(rows, userId) == Some(a)
    requires IsActiveOf(row, userId)
    ensures ActiveIndex(rows[a := row], userId) == Some(a)
  {
    var rows' := rows[a := row];
    assert forall j :: 0 <= j < a ==> rows'[j] == rows[j] && !IsActiveOf(rows'[j], userId);
    assert IsActiveOf(rows'[a], userId);
    var b := ActiveIndex(rows', userId);
    assert b.Some? && b.value <= a;
  }

  /** The branch without an active row: the new row is the active one. */
  lemma UpdateStarts(s: Store, userId: int, today: Day)
    requires UserIndex(s.users, userId).Some?
    requires ActiveIndex(s.streaks, userId).None?
    ensures var k := UserIndex(s.users, userId).value;
            var r := Update(s, userId, today);
            && ActiveIndex(r.streaks, userId) == Some(|s.streaks|)
            && r.streaks[|s.streaks|] == FreshStreak(s.streaks, userId, today)
            && r.users[k].currentStreak == 1
  {
    var r := Update(s, userId, today);
    assert forall j :: 0 <= j < |s.streaks| ==> r.streaks[j] == s.streaks[j];
    assert forall j :: 0 <= j < |s.streaks| ==> !IsActiveOf(r.streaks[j], userId);
    assert IsActiveOf(r.streaks[|s.streaks|], userId);
  }

  /**
   * After `n` consecutive check-ins from `first` to `last`: the user is still at index
   * `k` with CurrentStreak `n`, and its active row, at index `a`, started on `first`,
   * ends on `last` and counts `n` days.
   */
  predicate StreakAfter(r: Store, userId: int, k: nat, a: nat, first: Day, last: Day, n: nat) {
    && UserIndex(r.users, userId) == Some(k)
    && ActiveIndex(r.streaks, userId) == Some(a)
    && r.users[k].currentStreak == n
    && r.streaks[a].startDate == first
    && r.streaks[a].endDate == Some(last)
    && r.streaks[a].currentDays == n
  }

  /** One more check-in the day after an `n`-day streak makes it `n + 1` days. */
  lemma ContinueStep(prev: Store, userId: int, k: nat, a: nat, first: Day, yesterday: Day, today: Day, n: nat, m: nat)
    requires StreakAfter(prev, userId, k, a, first, yesterday, n) && yesterday == today - 1 && m == n + 1
    ensures StreakAfter(Update(prev, userId, today), userId, k, a, first, today, m)
  {
    UpdateContinues(prev, userId, k, a, today);
  }

  /** The first check-in without an active row starts a one-day streak in a new row. */
  lemma StartStep(s: Store, userId: int, k: nat, first: Day, last: Day, m: nat)
    requires UserIndex(s.users, userId) == Some(k) && ActiveIndex(s.streaks, userId).None?
    requires last == first && m == 1
    ensures StreakAfter(Update(s, userId, last), userId, k, |s.streaks|, first, last, m)
  {
    UpdateKeepsUserIndex(s, userId, last, userId);
    UpdateStarts(s, userId, last);
  }

  /**
   * Steps on consecutive days, the first of which starts a one-day streak in row `a`
   * and each later of which extends the streak by a day, build a streak of `n` days.
   */
  lemma {:induction false} RunKeeps(step: (Store, Day) -> Store, s: Store, userId: int, k: nat, a: nat, first: Day, n: nat)
    requires n >= 1
    requires StreakAfter(step(s, first), userId, k, a, first, first, 1)
    requires forall r: Store, last: Day, m: nat :: StreakAfter(r, userId, k, a, first, last, m) ==>
      StreakAfter(step(r, last + 1), userId, k, a, first, last + 1, m + 1)
    ensures StreakAfter(Repeat(step, s, first, n), userId, k, a, first, first + n - 1, n)
  {
    if n == 1 {
      assert Repeat(step, s, first, 1) == step(s, first);
    } else {
      RunKeeps(step, s, userId, k, a, first, n - 1);
      var prev := Repeat(step, s, first, n - 1);
      var last := first + (n - 1) - 1;
      assert StreakAfter(prev, userId, k, a, first, last, n - 1);
      assert StreakAfter(step(prev, last + 1), userId, k, a, first, last + 1, n - 1 + 1);
      assert Repeat(step, s, first, n) == step(prev, last + 1);
    }
  }

  /** The first check-in from no active row is a one-day streak in a new row. */
  lemma StartRun(s: Store, userId: int, k: nat, first: Day)
    requires UserIndex(s.users, userId) == Some(k) && ActiveIndex(s.streaks, userId).None?
    ensures StreakAfter(CheckIn(userId)(s, first), userId, k, |s.streaks|, first, first, 1)
  {
    StartStep(s, userId, k, first, first, 1);
    assert CheckIn(userId)(s, first) == Update(s, userId, first);
  }

  /** A check-in the day after the last day of a streak extends it by a day. */
  lemma ContinueRun(userId: int, k: nat, a: nat, first: Day)
    ensures forall r: Store, last: Day, m: nat :: StreakAfter(r, userId, k, a, first, last, m) ==>
      StreakAfter(CheckIn(userId)(r, last + 1), userId, k, a, first, last + 1, m + 1)
  {
    forall r: Store, last: Day, m: nat | StreakAfter(r, userId, k, a, first, last, m)
      ensures StreakAfter(CheckIn(userId)(r, last + 1), userId, k, a, first, last + 1, m + 1)
    {
      ContinueStep(r, userId, k, a, first, last, last + 1, m, m + 1);
      assert CheckIn(userId)(r, last + 1) == Update(r, userId, last + 1);
    }
  }

  /**
   * Starting with no active row, K check-ins on consecutive days leave CurrentStreak = K
   * and, in the row the first of them appended, an active row with CurrentDays = K that
   * started on the first day and ends on the last.
   */
  lemma ConsecutiveCheckIns(s: Store, userId: int, first: Day, n: nat)
    requires UserIndex(s.users, userId).Some?
    requires ActiveIndex(s.streaks, userId).None?
    requires n >= 1
    ensures StreakAfter(CheckInDays(s, userId, first, n), userId, UserIndex(s.users, userId).value, |s.streaks|,
                        first, first + n - 1, n)
  {
    var k := UserIndex(s.users, userId).value;
    StartRun(s, userId, k, first);
    ContinueRun(userId, k, |s.streaks|, first);
    RunKeeps(CheckIn(userId), s, userId, k, |s.streaks|, first, n);
  }

  // ---------------------------------------------------------------- ledger

  /**
   * As written, continuing a streak raises TotalXp by 10 with no transaction row, so
   * from a balanced store the continuing user's total no longer equals its ledger sum.
   */
  lemma ContinuationUnbalances(s: Store, userId: int, today: Day)
    requires Balanced(s)
    requires UserIndex(s.users, userId).Some?
    requires ActiveIndex(s.streaks, userId).Some?
    requires s.streaks[ActiveIndex(s.streaks, userId).value].endDate == Some(today - 1)
    ensures !Balanced(Update(s, userId, today))
  {
    var k := UserIndex(s.users, userId).value;
    var r := Update(s, userId, today);
    assert s.users[k].totalXp == LedgerSum(s.xpLog, s.users[k].id);
    assert r.xpLog == s.xpLog && r.users[k].id == s.users[k].id;
    assert r.users[k].totalXp != LedgerSum(r.xpLog, r.users[k].id);
  }

  /** A concrete store: one user with 0 XP and no ledger rows, who checked in yesterday (day 1). */
  lemma ContinuationUnbalancesExample()
    ensures var s := Store([User(1, None, None, 1, 0)], [], [], [StudyStreak(1, 1, 1, Some(1), 1, true)], [], [], [], [], [], [], {});
            && Balanced(s)
            && Update(s, 1, 2).users[0].totalXp == 10
            && LedgerSum(Update(s, 1, 2).xpLog, 1) == 0
  {
    var s := Store([User(1, None, None, 1, 0)], [], [], [StudyStreak(1, 1, 1, Some(1), 1, true)], [], [], [], [], [], [], {});
    assert LedgerSum(s.xpLog, 1) == 0;
    assert UserIndex(s.users, 1) == Some(0);
    assert ActiveIndex(s.streaks, 1) == Some(0);
  }

  /** The source type of the ledger row the corrected check-in writes for the bonus. */
  const StreakBonusSource := "STREAK_BONUS"

  /**
   * The check-in with the continuation bonus recorded like every other award: the
   * streak rows and users end up exactly as in `Update`, and the +10 also gets its
   * ledger row.
   */
  function UpdateRecorded(s: Store, userId: int, today: Day, now: Instant): (r: Store)
    ensures r.streaks == Update(s, userId, today).streaks
    ensures r.users == Update(s, userId, today).users
    ensures r.xpLog == s.xpLog + (if Continues(s, userId, today)
      then [XpTransaction(FreshId(TransactionIds(s.xpLog)), userId, ContinuationBonus, StreakBonusSource, None, now)]
      else [])
  {
    var t := Advance(s, userId, today);
    if Continues(s, userId, today) then
      assert UserIndex(t.users, userId) == UserIndex(s.users, userId) by {
        UserIndexSameKeys(t.users, s.users, userId);
      }
      Record(t, userId, ContinuationBonus, StreakBonusSource, None, now)
    else t
  }

  /** The corrected check-in keeps every user's total equal to its ledger sum. */
  lemma UpdateRecordedKeepsBalanced(s: Store, userId: int, today: Day, now: Instant)
    requires UniqueUserIds(s.users) && Balanced(s)
    ensures Balanced(UpdateRecorded(s, userId, today, now))
  {
    var t := Advance(s, userId, today);
    assert |t.users| == |s.users| && forall j :: 0 <= j < |s.users| ==> t.users[j].id == s.users[j].id && t.users[j].totalXp == s.users[j].totalXp;
    assert t.xpLog == s.xpLog;
    if Continues(s, userId, today) {
      RecordKeepsBalanced(t, userId, ContinuationBonus, StreakBonusSource, None, now);
    }
  }

  // ---------------------------------------------------------------- status

  datatype StreakStatus = StreakStatus(
    currentStreak: int,
    longestStreak: int,
    hasStudiedToday: bool,
    history: seq<StudyStreak>)

  function OwnedBy(userId: int): StudyStreak -> bool {
    (row: StudyStreak) => row.userId == userId
  }

  /** `OrderByDescending(s => s.StartDate)`. */
  predicate StartsNoEarlier(a: StudyStreak, b: StudyStreak) {
    a.startDate >= b.startDate
  }

  /** `streaks.Any() ? streaks.Max(s => s.CurrentDays) : 0`. */
  function LongestOf(rows: seq<StudyStreak>): (m: int)
    ensures forall k :: 0 <= k < |rows| ==> rows[k].currentDays <= m
    ensures |rows| == 0 ==> m == 0
    ensures |rows| > 0 ==> exists k :: 0 <= k < |rows| && rows[k].currentDays == m
  {
    if |rows| == 0 then 0
    else if |rows| == 1 then rows[0].currentDays
    else
      var rest := LongestOf(rows[1..]);
      assert forall k :: 1 <= k < |rows| ==> rows[k] == rows[1..][k - 1];
      Max(rows[0].currentDays, rest)
  }

  function FirstActive(rows: seq<StudyStreak>): (r: Option<StudyStreak>)
    ensures r.Some? ==> r.value in rows && r.value.isActive
    ensures r.None? <==> forall k :: 0 <= k < |rows| ==> !rows[k].isActive
  {
    if |rows| == 0 then None
    else if rows[0].isActive then Some(rows[0])
    else
      assert forall k :: 1 <= k < |rows| ==> rows[k] == rows[1..][k - 1];
      FirstActive(rows[1..])
  }

  /**
   * `GetUserStreakStatusAsync`: none for a missing user (the source throws "User not
   * found"); otherwise CurrentStreak from the user, the longest CurrentDays over its
   * rows, whether the first active row in the history ends today, and its rows by
   * StartDate, latest first.
   */
  function Status(s: Store, userId: int, today: Day): (r: Option<StreakStatus>)
    ensures r.None? <==> FindUser(s.users, userId).None?
    ensures r.Some? ==>
      var st := r.value;
      && st.currentStreak == FindUser(s.users, userId).value.currentStreak
      && IsSortingOf(st.history, Filter(s.streaks, OwnedBy(userId)), StartsNoEarlier)
      && (forall row :: row in s.streaks && row.userId == userId ==> row.currentDays <= st.longestStreak)
      && (st.longestStreak == 0 || exists row :: row in s.streaks && row.userId == userId && row.currentDays == st.longestStreak)
      && (st.hasStudiedToday ==> exists row :: row in s.streaks && IsActiveOf(row, userId) && row.endDate == Some(today))
  {
    match FindUser(s.users, userId)
    case None => None
    case Some(u) =>
      var own := Filter(s.streaks, OwnedBy(userId));
      assert TotalPreorder(StartsNoEarlier);
      var history := Sort(own, StartsNoEarlier);
      HistoryRows(s.streaks, userId, history);
      Some(StatusFrom(u, s.streaks, userId, history, today))
  }

  /** A rearrangement of a user's rows holds exactly that user's rows. */
  lemma HistoryRows(rows: seq<StudyStreak>, userId: int, history: seq<StudyStreak>)
    requires multiset(history) == multiset(Filter(rows, OwnedBy(userId)))
    ensures forall row :: row in rows && row.userId == userId ==> row in history
    ensures forall k :: 0 <= k < |history| ==> history[k] in rows && history[k].userId == userId
  {
    var own := Filter(rows, OwnedBy(userId));
    forall row | row in rows && row.userId == userId ensures row in history {
      assert row in own;
      assert row in multiset(history);
    }
    forall k | 0 <= k < |history| ensures history[k] in rows && history[k].userId == userId {
      assert history[k] in multiset(own);
    }
  }

  /** The status read off a user's rows in history order. */
  function StatusFrom(u: User, rows: seq<StudyStreak>, userId: int, history: seq<StudyStreak>, today: Day): (st: StreakStatus)
    requires forall row :: row in rows && row.userId == userId ==> row in history
    requires forall k :: 0 <= k < |history| ==> history[k] in rows && history[k].userId == userId
    ensures st.currentStreak == u.currentStreak && st.history == history
    ensures forall row :: row in rows && row.userId == userId ==> row.currentDays <= st.longestStreak
    ensures st.longestStreak == 0 || exists row :: row in rows && row.userId == userId && row.currentDays == st.longestStreak
    ensures st.hasStudiedToday ==> exists row :: row in rows && IsActiveOf(row, userId) && row.endDate == Some(today)
  {
    var longest := LongestOf(history);
    var active := FirstActive(history);
    StreakStatus(u.currentStreak, longest, active.Some? && active.value.endDate == Some(today), history)
  }

  /** With one active row per user, HasStudiedToday holds exactly when that row ends today. */
  lemma HasStudiedTodayIff(s: Store, userId: int, today: Day)
    requires OneActivePerUser(s.streaks)
    requires FindUser(s.users, userId).Some?
    ensures Status(s, userId, today).value.hasStudiedToday <==>
      ActiveIndex(s.streaks, userId).Some? && s.streaks[ActiveIndex(s.streaks, userId).value].endDate == Some(today)
  {
    var u := FindUser(s.users, userId).value;
    var history := Sort(Filter(s.streaks, OwnedBy(userId)), StartsNoEarlier);
    HistoryRows(s.streaks, userId, history);
    assert Status(s, userId, today) == Some(StatusFrom(u, s.streaks, userId, history, today));
    StudiedTodayFrom(u, s.streaks, userId, history, today);
  }

  lemma StudiedTodayFrom(u: User, rows: seq<StudyStreak>, userId: int, history: seq<StudyStreak>, today: Day)
    requires OneActivePerUser(rows)
    requires forall row :: row in rows && row.userId == userId ==> row in history
    requires forall k :: 0 <= k < |history| ==> history[k] in rows && history[k].userId == userId
    ensures StatusFrom(u, rows, userId, history, today).hasStudiedToday <==>
      ActiveIndex(rows, userId).Some? && rows[ActiveIndex(rows, userId).value].endDate == Some(today)
  {
    var active := FirstActive(history);
    match ActiveIndex(rows, userId)
    case None =>
    case Some(a) =>
      OnlyActiveRow(rows, userId);
      var row := rows[a];
      assert row in history;
      var i :| 0 <= i < |history| && history[i] == row;
      assert history[i].isActive;
      assert active.Some?;
      var k :| 0 <= k < |history| && history[k] == active.value;
      assert active.value in rows;
      var j :| 0 <= j < |rows| && rows[j] == active.value;
      assert j == a;
  }
}

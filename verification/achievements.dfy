/**
 * The achievement rule evaluator (AchievementService): which catalog entries a user
 * has earned, from its XP and streak thresholds and from rules keyed on the entry's
 * name, and the grant step that adds a row for every active entry earned and not
 * held yet.
 */
module Achievements {
  import opened Wrappers
  import opened Seqs
  import opened Sorting
  import opened Clock
  import opened Entities
  import opened Leagues

  // ------------------------------------------------------------------ hours

  /** 22:00–04:00 at UTC+3, read off the session's end (or start) time. */
  predicate IsNightOwlTime(t: Instant) {
    LocalHour(t) >= 22 || LocalHour(t) < 4
  }

  /** 06:00–08:00 at UTC+3, read off the session's start time. */
  predicate IsEarlyBirdTime(t: Instant) {
    LocalHour(t) >= 6 && LocalHour(t) < 8
  }

  /** In UTC the night-owl hours are 19:00–01:00 and the early-bird hours 03:00–05:00. */
  lemma HourWindowsInUtc(t: Instant)
    ensures IsNightOwlTime(t) <==> HourOf(t) in {19, 20, 21, 22, 23, 0}
    ensures IsEarlyBirdTime(t) <==> HourOf(t) in {3, 4}
  {
  }

  // ------------------------------------------------------------------ exams

  /** `OrderByDescending(t => t.ExamDate)`: `a` may be listed before `b`. */
  predicate NewerOrSame(a: TrialExam, b: TrialExam) {
    a.examDate >= b.examDate
  }

  lemma NewerOrSameIsTotalPreorder()
    ensures TotalPreorder(NewerOrSame)
  {
  }

  /** The three exams at the front of `newestFirst` have scores rising towards the newest. */
  predicate Growing(newestFirst: seq<TrialExam>) {
    |newestFirst| >= 3
    && newestFirst[0].totalScore > newestFirst[1].totalScore > newestFirst[2].totalScore
  }

  /**
   * `CheckConsistentGrowth`: false with fewer than three exams; otherwise whether the
   * three latest exams by date have strictly rising TotalScore, oldest to newest.
   */
  function ConsistentGrowth(exams: seq<TrialExam>): (r: bool)
    ensures |exams| < 3 ==> !r
    ensures exists order :: IsSortingOf(order, exams, NewerOrSame) && (r <==> Growing(order))
  {
    NewerOrSameIsTotalPreorder();
    var order := Sort(exams, NewerOrSame);
    Growing(order)
  }

  /**
   * When no two exams share a date, the newest-first order is unique, so the rule
   * reads the same three exams whatever order the exams come in.
   */
  lemma ConsistentGrowthAnyOrder(exams: seq<TrialExam>, order: seq<TrialExam>)
    requires DistinctDates(exams)
    requires IsSortingOf(order, exams, NewerOrSame)
    ensures ConsistentGrowth(exams) <==> Growing(order)
  {
    NewerOrSameIsTotalPreorder();
    var o := Sort(exams, NewerOrSame);
    forall x, y | x in order && y in order && NewerOrSame(x, y) && NewerOrSame(y, x) ensures x == y {
      assert x in multiset(exams) && y in multiset(exams);
      var i :| 0 <= i < |exams| && exams[i] == x;
      var j :| 0 <= j < |exams| && exams[j] == y;
      assert i == j;
    }
    SortedUnique(order, o, NewerOrSame);
  }

  // --------------------------------------------------------------- sessions

  /** The minutes of the sessions that satisfy `p`, a missing duration counting as 0. */
  function MinutesWhere(sessions: seq<PomodoroSession>, p: PomodoroSession -> bool): int {
    if |sessions| == 0 then 0
    else MinutesWhere(sessions[..|sessions| - 1], p)
         + (if p(sessions[|sessions| - 1]) then sessions[|sessions| - 1].actualMinutes.GetOr(0) else 0)
  }

  function CompletedOn(d: Day): PomodoroSession -> bool {
    (x: PomodoroSession) => x.isCompleted && DayOf(x.startTime) == d
  }

  function CompletedStudy(): PomodoroSession -> bool {
    (x: PomodoroSession) => x.isCompleted && x.sessionType == "STUDY"
  }

  /** One session's share of `MinutesWhere(_, p)`. */
  function MinutesIf(p: PomodoroSession -> bool): PomodoroSession -> int {
    (x: PomodoroSession) => if p(x) then x.actualMinutes.GetOr(0) else 0
  }

  /** The minutes total is the LINQ sum of the sessions' shares. */
  lemma {:induction false} MinutesWhereIsSum(sessions: seq<PomodoroSession>, p: PomodoroSession -> bool)
    ensures MinutesWhere(sessions, p) == SumOf(sessions, MinutesIf(p))
  {
    if |sessions| > 0 {
      var init := sessions[..|sessions| - 1];
      var last := sessions[|sessions| - 1];
      MinutesWhereIsSum(init, p);
      assert sessions == init + [last];
      SumOfAppend(init, [last], MinutesIf(p));
      assert SumOf([last], MinutesIf(p)) == MinutesIf(p)(last) + SumOf([last][1..], MinutesIf(p));
    }
  }

  /** A minutes total does not depend on the order the sessions are loaded in. */
  lemma MinutesWhereAnyOrder(a: seq<PomodoroSession>, b: seq<PomodoroSession>, p: PomodoroSession -> bool)
    requires multiset(a) == multiset(b)
    ensures MinutesWhere(a, p) == MinutesWhere(b, p)
  {
    MinutesWhereIsSum(a, p);
    MinutesWhereIsSum(b, p);
    SumOfPermutation(a, b, MinutesIf(p));
  }

  /** An element of a sequence is an element of any reordering of it. */
  lemma InReordering<T>(a: seq<T>, b: seq<T>, k: nat)
    requires multiset(a) == multiset(b) && k < |a|
    ensures exists j :: 0 <= j < |b| && b[j] == a[k]
  {
    assert a[k] in multiset(b);
  }

  /** The completed minutes, of any session type, of the sessions started on day `d`. */
  function DayMinutes(sessions: seq<PomodoroSession>, d: Day): int {
    MinutesWhere(sessions, CompletedOn(d))
  }

  /**
   * `CheckDailyStudyRecord`: the completed sessions grouped by start date, some group
   * reaching `target` minutes. Only days with a completed session form a group.
   */
  predicate DailyRecord(sessions: seq<PomodoroSession>, target: int) {
    exists k :: 0 <= k < |sessions| && sessions[k].isCompleted && DayMinutes(sessions, DayOf(sessions[k].startTime)) >= target
  }

  /** A day whose minutes are not 0 has a completed session started on it. */
  lemma {:induction false} NonZeroDayHasSession(sessions: seq<PomodoroSession>, d: Day)
    requires DayMinutes(sessions, d) != 0
    ensures exists k :: 0 <= k < |sessions| && sessions[k].isCompleted && DayOf(sessions[k].startTime) == d
  {
    var init := sessions[..|sessions| - 1];
    var last := sessions[|sessions| - 1];
    if !CompletedOn(d)(last) {
      NonZeroDayHasSession(init, d);
      var k :| 0 <= k < |init| && init[k].isCompleted && DayOf(init[k].startTime) == d;
      assert sessions[k] == init[k];
    }
  }

  /** The daily record does not depend on the order the sessions are loaded in. */
  lemma DailyRecordAnyOrder(a: seq<PomodoroSession>, b: seq<PomodoroSession>, target: int)
    requires multiset(a) == multiset(b)
    ensures DailyRecord(a, target) <==> DailyRecord(b, target)
  {
    if DailyRecord(a, target) {
      var k :| 0 <= k < |a| && a[k].isCompleted && DayMinutes(a, DayOf(a[k].startTime)) >= target;
      InReordering(a, b, k);
      MinutesWhereAnyOrder(a, b, CompletedOn(DayOf(a[k].startTime)));
    }
    if DailyRecord(b, target) {
      var k :| 0 <= k < |b| && b[k].isCompleted && DayMinutes(b, DayOf(b[k].startTime)) >= target;
      InReordering(b, a, k);
      MinutesWhereAnyOrder(a, b, CompletedOn(DayOf(b[k].startTime)));
    }
  }

  /**
   * For a positive target, the record is reached exactly when some day's minutes reach it:
   * any day, and equally the start day of any session, completed or not.
   */
  lemma DailyRecordIff(sessions: seq<PomodoroSession>, target: int, d: Day)
    requires target > 0
    ensures DayMinutes(sessions, d) >= target ==> DailyRecord(sessions, target)
    ensures DailyRecord(sessions, target) <==>
      exists k :: 0 <= k < |sessions| && DayMinutes(sessions, DayOf(sessions[k].startTime)) >= target
  {
    if DayMinutes(sessions, d) >= target {
      NonZeroDayHasSession(sessions, d);
    }
    forall k | 0 <= k < |sessions| && DayMinutes(sessions, DayOf(sessions[k].startTime)) >= target
      ensures DailyRecord(sessions, target)
    {
      NonZeroDayHasSession(sessions, DayOf(sessions[k].startTime));
    }
  }

  /** The minutes of the completed STUDY sessions. */
  function FocusMinutes(sessions: seq<PomodoroSession>): int {
    MinutesWhere(sessions, CompletedStudy())
  }

  /**
   * The focus minutes are a sum over sessions: one more session adds its credited minutes
   * when it is a completed STUDY session (none recorded counting as 0), and nothing
   * otherwise.
   */
  lemma FocusMinutesAdds(a: seq<PomodoroSession>, x: PomodoroSession)
    ensures FocusMinutes(a + [x]) ==
      FocusMinutes(a) + (if x.isCompleted && x.sessionType == "STUDY" then x.actualMinutes.GetOr(0) else 0)
  {
    assert (a + [x])[..|a + [x]| - 1] == a;
  }

  // ------------------------------------------------------------------ rules

  /** What the rules read: the user, its exams and sessions, and its league status. */
  datatype Signals = Signals(
    user: User,
    exams: seq<TrialExam>,
    sessions: seq<PomodoroSession>,
    leagueName: Option<string>,
    weeklyRank: Option<int>)

  const MinDailyRecordMinutes := 360
  const MinFocusMinutes := 3000

  /** The generic checks: an XP requirement met, or a streak requirement met. */
  predicate MeetsThreshold(a: Achievement, u: User) {
    || (a.xpRequirement.Some? && u.totalXp >= a.xpRequirement.value)
    || (a.streakRequirement.Some? && u.currentStreak >= a.streakRequirement.value)
  }

  predicate HasTytCentury(exams: seq<TrialExam>) {
    exists k :: 0 <= k < |exams| && exams[k].examType == "TYT" && exams[k].totalScore >= 100
  }

  predicate HasNightSession(sessions: seq<PomodoroSession>) {
    exists k :: 0 <= k < |sessions| && sessions[k].isCompleted
      && IsNightOwlTime(sessions[k].endTime.GetOr(sessions[k].startTime))
  }

  predicate HasEarlySession(sessions: seq<PomodoroSession>) {
    exists k :: 0 <= k < |sessions| && IsEarlyBirdTime(sessions[k].startTime)
  }

  /**
   * One TYT exam with TotalScore at least 100 is enough: adding an exam turns the signal
   * on exactly when that exam is one.
   */
  lemma TytCenturyAdds(a: seq<TrialExam>, x: TrialExam)
    ensures HasTytCentury(a + [x]) <==> HasTytCentury(a) || (x.examType == "TYT" && x.totalScore >= 100)
  {
    if HasTytCentury(a) {
      var k :| 0 <= k < |a| && a[k].examType == "TYT" && a[k].totalScore >= 100;
      assert (a + [x])[k] == a[k];
    }
    if HasTytCentury(a + [x]) && !(x.examType == "TYT" && x.totalScore >= 100) {
      var k :| 0 <= k < |a + [x]| && (a + [x])[k].examType == "TYT" && (a + [x])[k].totalScore >= 100;
      assert k < |a| && (a + [x])[k] == a[k];
    }
    assert (a + [x])[|a|] == x;
  }

  /**
   * One completed session ending (or, with no end, starting) in the local 22:00–04:00
   * window is enough, whatever its type: adding a session turns the signal on exactly
   * when that session is one.
   */
  lemma NightSessionAdds(a: seq<PomodoroSession>, x: PomodoroSession)
    ensures HasNightSession(a + [x]) <==>
      HasNightSession(a) || (x.isCompleted && IsNightOwlTime(x.endTime.GetOr(x.startTime)))
  {
    if HasNightSession(a) {
      var k :| 0 <= k < |a| && a[k].isCompleted && IsNightOwlTime(a[k].endTime.GetOr(a[k].startTime));
      assert (a + [x])[k] == a[k];
    }
    if HasNightSession(a + [x]) && !(x.isCompleted && IsNightOwlTime(x.endTime.GetOr(x.startTime))) {
      var k :| 0 <= k < |a + [x]| && (a + [x])[k].isCompleted
               && IsNightOwlTime((a + [x])[k].endTime.GetOr((a + [x])[k].startTime));
      assert k < |a| && (a + [x])[k] == a[k];
    }
    assert (a + [x])[|a|] == x;
  }

  /**
   * One session started in the local 06:00–08:00 window is enough, completed or not:
   * adding a session turns the signal on exactly when that session is one.
   */
  lemma EarlySessionAdds(a: seq<PomodoroSession>, x: PomodoroSession)
    ensures HasEarlySession(a + [x]) <==> HasEarlySession(a) || IsEarlyBirdTime(x.startTime)
  {
    if HasEarlySession(a) {
      var k :| 0 <= k < |a| && IsEarlyBirdTime(a[k].startTime);
      assert (a + [x])[k] == a[k];
    }
    if HasEarlySession(a + [x]) && !IsEarlyBirdTime(x.startTime) {
      var k :| 0 <= k < |a + [x]| && IsEarlyBirdTime((a + [x])[k].startTime);
      assert k < |a| && (a + [x])[k] == a[k];
    }
    assert (a + [x])[|a|] == x;
  }

  /**
   * The exam and session signals read the loaded collections as sets of rows: none of
   * them depends on the order the database returns them in.
   */
  lemma SignalsAnyOrder(exams: seq<TrialExam>, exams': seq<TrialExam>,
                        sessions: seq<PomodoroSession>, sessions': seq<PomodoroSession>)
    requires multiset(exams) == multiset(exams') && multiset(sessions) == multiset(sessions')
    ensures HasTytCentury(exams) <==> HasTytCentury(exams')
    ensures |exams| == |exams'|
    ensures FocusMinutes(sessions) == FocusMinutes(sessions')
    ensures HasNightSession(sessions) <==> HasNightSession(sessions')
    ensures HasEarlySession(sessions) <==> HasEarlySession(sessions')
  {
    assert |exams| == |multiset(exams)| == |multiset(exams')| == |exams'|;
    MinutesWhereAnyOrder(sessions, sessions', CompletedStudy());
    if HasTytCentury(exams) {
      var k :| 0 <= k < |exams| && exams[k].examType == "TYT" && exams[k].totalScore >= 100;
      InReordering(exams, exams', k);
    }
    if HasTytCentury(exams') {
      var k :| 0 <= k < |exams'| && exams'[k].examType == "TYT" && exams'[k].totalScore >= 100;
      InReordering(exams', exams, k);
    }
    if HasNightSession(sessions) {
      var k :| 0 <= k < |sessions| && sessions[k].isCompleted
               && IsNightOwlTime(sessions[k].endTime.GetOr(sessions[k].startTime));
      InReordering(sessions, sessions', k);
    }
    if HasNightSession(sessions') {
      var k :| 0 <= k < |sessions'| && sessions'[k].isCompleted
               && IsNightOwlTime(sessions'[k].endTime.GetOr(sessions'[k].startTime));
      InReordering(sessions', sessions, k);
    }
    if HasEarlySession(sessions) {
      var k :| 0 <= k < |sessions| && IsEarlyBirdTime(sessions[k].startTime);
      InReordering(sessions, sessions', k);
    }
    if HasEarlySession(sessions') {
      var k :| 0 <= k < |sessions'| && IsEarlyBirdTime(sessions'[k].startTime);
      InReordering(sessions', sessions, k);
    }
  }

  /**
   * The rule keyed on the entry's name, given the threshold result: most rules can only
   * add to it; "Durmak Yok" and "Konu Ekspertizi" replace it.
   */
  predicate Earned(a: Achievement, sig: Signals) {
    var base := MeetsThreshold(a, sig.user);
    var streak := sig.user.currentStreak;
    match a.name
    case "Isınma Turları" => base || streak >= 7
    case "Kamp Ateşi" => base || streak >= 30
    case "Efsanevi İrade" => base || streak >= 90
    case "İstikrarlı Maratoncu" => base || streak >= 30
    case "100 Kulübü" => base || HasTytCentury(sig.exams)
    case "Odak Ustası" => base || FocusMinutes(sig.sessions) >= MinFocusMinutes
    case "Deneme Canavarı" => base || |sig.exams| >= 20
    case "Gece Kuşu" => base || HasNightSession(sig.sessions)
    case "Durmak Yok" => ConsistentGrowth(sig.exams)
    case "Erkenci Tayfa" => base || HasEarlySession(sig.sessions)
    case "Haftanın Yıldızı" => base || (sig.weeklyRank.Some? && sig.weeklyRank.value <= 3)
    case "Konu Ekspertizi" => DailyRecord(sig.sessions, MinDailyRecordMinutes)
    case "Elmas Ligi" => base || sig.leagueName == Some("Diamond") || sig.leagueName == Some("Elmas")
    case _ => base
  }

  /**
   * A met threshold earns every entry except the two whose rule replaces it; those two
   * are decided by their rule alone; an entry outside the seeded names is decided by its
   * thresholds alone; and the study-hours requirement is never read.
   */
  lemma EarnedShape(a: Achievement, sig: Signals, hours: Option<int>)
    ensures a.name != "Durmak Yok" && a.name != "Konu Ekspertizi" && MeetsThreshold(a, sig.user) ==> Earned(a, sig)
    ensures a.name == "Durmak Yok" ==> (Earned(a, sig) <==> ConsistentGrowth(sig.exams))
    ensures a.name == "Konu Ekspertizi" ==> (Earned(a, sig) <==> DailyRecord(sig.sessions, MinDailyRecordMinutes))
    ensures Earned(a.(studyHoursRequirement := hours), sig) == Earned(a, sig)
    ensures a.name !in SeedNames ==> (Earned(a, sig) <==> MeetsThreshold(a, sig.user))
  {
  }

  /**
   * The streak-based named rules: each entry is earned exactly when its thresholds are
   * met or the current streak reaches the rule's length.
   */
  lemma StreakRules(a: Achievement, sig: Signals)
    ensures a.name == "Isınma Turları" ==> (Earned(a, sig) <==> MeetsThreshold(a, sig.user) || sig.user.currentStreak >= 7)
    ensures a.name == "Kamp Ateşi" ==> (Earned(a, sig) <==> MeetsThreshold(a, sig.user) || sig.user.currentStreak >= 30)
    ensures a.name == "Efsanevi İrade" ==> (Earned(a, sig) <==> MeetsThreshold(a, sig.user) || sig.user.currentStreak >= 90)
    ensures a.name == "İstikrarlı Maratoncu" ==> (Earned(a, sig) <==> MeetsThreshold(a, sig.user) || sig.user.currentStreak >= 30)
  {
  }

  /**
   * The other additive named rules: each entry is earned exactly when its thresholds are
   * met or its own signal holds, so the signal earns it whatever thresholds the row carries.
   */
  lemma NamedRules(a: Achievement, sig: Signals)
    ensures a.name == "100 Kulübü" ==> (Earned(a, sig) <==> MeetsThreshold(a, sig.user) || HasTytCentury(sig.exams))
    ensures a.name == "Odak Ustası" ==> (Earned(a, sig) <==> MeetsThreshold(a, sig.user) || FocusMinutes(sig.sessions) >= 3000)
    ensures a.name == "Deneme Canavarı" ==> (Earned(a, sig) <==> MeetsThreshold(a, sig.user) || |sig.exams| >= 20)
    ensures a.name == "Gece Kuşu" ==> (Earned(a, sig) <==> MeetsThreshold(a, sig.user) || HasNightSession(sig.sessions))
    ensures a.name == "Erkenci Tayfa" ==> (Earned(a, sig) <==> MeetsThreshold(a, sig.user) || HasEarlySession(sig.sessions))
    ensures a.name == "Haftanın Yıldızı" ==>
      (Earned(a, sig) <==> MeetsThreshold(a, sig.user) || (sig.weeklyRank.Some? && sig.weeklyRank.value <= 3))
    ensures a.name == "Elmas Ligi" ==>
      (Earned(a, sig) <==> MeetsThreshold(a, sig.user) || sig.leagueName == Some("Diamond") || sig.leagueName == Some("Elmas"))
  {
  }

  /**
   * The rule switch reads the user's exams and sessions as loaded, in an order the
   * database does not fix; when no two exams share a date, every entry's verdict is the
   * same for any order of them.
   */
  lemma EarnedAnyOrder(a: Achievement, sig: Signals, exams: seq<TrialExam>, sessions: seq<PomodoroSession>)
    requires DistinctDates(sig.exams)
    requires multiset(exams) == multiset(sig.exams) && multiset(sessions) == multiset(sig.sessions)
    ensures Earned(a, sig.(exams := exams, sessions := sessions)) <==> Earned(a, sig)
  {
    var sig' := sig.(exams := exams, sessions := sessions);
    SignalsAnyOrder(exams, sig.exams, sessions, sig.sessions);
    DailyRecordAnyOrder(sessions, sig.sessions, MinDailyRecordMinutes);
    assert ConsistentGrowth(exams) <==> ConsistentGrowth(sig.exams) by {
      NewerOrSameIsTotalPreorder();
      var o := Sort(exams, NewerOrSame);
      assert IsSortingOf(o, sig.exams, NewerOrSame);
      ConsistentGrowthAnyOrder(sig.exams, o);
    }
    EarnedFromSignals(a, sig, sig');
  }

  /** Two signal records that agree on everything the rules read give the same verdict. */
  lemma EarnedFromSignals(a: Achievement, sig: Signals, sig': Signals)
    requires sig'.user == sig.user && sig'.leagueName == sig.leagueName && sig'.weeklyRank == sig.weeklyRank
    requires HasTytCentury(sig'.exams) == HasTytCentury(sig.exams) && |sig'.exams| == |sig.exams|
    requires ConsistentGrowth(sig'.exams) == ConsistentGrowth(sig.exams)
    requires FocusMinutes(sig'.sessions) == FocusMinutes(sig.sessions)
    requires HasNightSession(sig'.sessions) == HasNightSession(sig.sessions)
    requires HasEarlySession(sig'.sessions) == HasEarlySession(sig.sessions)
    requires DailyRecord(sig'.sessions, MinDailyRecordMinutes) == DailyRecord(sig.sessions, MinDailyRecordMinutes)
    ensures Earned(a, sig') <==> Earned(a, sig)
  {
    EarnedShape(a, sig, None);
    EarnedShape(a, sig', None);
    if a.name in SeedNames {
      StreakRules(a, sig);
      StreakRules(a, sig');
      NamedRules(a, sig);
      NamedRules(a, sig');
    }
  }

  // ------------------------------------------------------------------ catalog

  const SeedNames: seq<string> := [
    "Isınma Turları", "Kamp Ateşi", "Efsanevi İrade", "İstikrarlı Maratoncu", "100 Kulübü",
    "Odak Ustası", "Deneme Canavarı", "Gece Kuşu", "Durmak Yok", "Erkenci Tayfa",
    "Haftanın Yıldızı", "Konu Ekspertizi", "Elmas Ligi"]

  /** The seeded entry at index `k`, with key `k + 1`: streak 7/30/90/30, 50 study hours for "Odak Ustası". */
  function SeedEntry(k: nat): Achievement
    requires k < |SeedNames|
  {
    var streak := if k == 0 then Some(7) else if k == 1 then Some(30) else if k == 2 then Some(90)
                  else if k == 3 then Some(30) else None;
    var hours := if k == 5 then Some(50) else None;
    Achievement(k + 1, SeedNames[k], None, streak, hours, true)
  }

  /** `SeedAchievementsAsync`: the thirteen entries when the catalog is empty, nothing otherwise. */
  function SeedIfEmpty(catalog: seq<Achievement>): (r: seq<Achievement>)
    ensures |catalog| > 0 ==> r == catalog
    ensures |catalog| == 0 ==> |r| == |SeedNames| && forall k :: 0 <= k < |r| ==> r[k].isActive && r[k].id == k + 1
    ensures |r| > 0
  {
    if |catalog| > 0 then catalog
    else seq(|SeedNames|, k requires 0 <= k < |SeedNames| => SeedEntry(k))
  }

  // ------------------------------------------------------------------- grants

  function GrantIds(grants: seq<UserAchievement>): seq<int> {
    seq(|grants|, k requires 0 <= k < |grants| => grants[k].id)
  }

  /** The keys of the entries the user already holds. */
  function EarnedIds(grants: seq<UserAchievement>, userId: int): (r: set<int>)
    ensures forall id :: id in r <==> exists k :: 0 <= k < |grants| && grants[k].userId == userId && grants[k].achievementId == id
  {
    set k | 0 <= k < |grants| && grants[k].userId == userId :: grants[k].achievementId
  }

  /** `a.IsActive && !earnedIds.Contains(a.Id)`. */
  function Candidate(earned: set<int>): Achievement -> bool {
    (a: Achievement) => a.isActive && a.id !in earned
  }

  function EarnedOf(sig: Signals): Achievement -> bool {
    (a: Achievement) => Earned(a, sig)
  }

  function AchievementIds(entries: seq<Achievement>): (r: seq<int>)
    ensures |r| == |entries| && forall k :: 0 <= k < |r| ==> r[k] == entries[k].id
  {
    seq(|entries|, k requires 0 <= k < |entries| => entries[k].id)
  }

  function GrantedIds(grants: seq<UserAchievement>): (r: seq<int>)
    ensures |r| == |grants| && forall k :: 0 <= k < |r| ==> r[k] == grants[k].achievementId
  {
    seq(|grants|, k requires 0 <= k < |grants| => grants[k].achievementId)
  }

  /**
   * The loop over the candidates: a grant row for each earned one, in order, with a
   * fresh key, for `userId`, stamped `now`; the rows already there are kept.
   */
  function GrantEach(candidates: seq<Achievement>, sig: Signals, userId: int, now: Instant,
                     grants: seq<UserAchievement>): (r: seq<UserAchievement>)
    ensures |r| >= |grants| && r[..|grants|] == grants
    ensures GrantedIds(r[|grants|..]) == AchievementIds(Filter(candidates, EarnedOf(sig)))
    ensures forall k :: |grants| <= k < |r| ==> r[k].userId == userId && r[k].earnedAt == now
    decreases |candidates|
  {
    if |candidates| == 0 then grants
    else
      var a := candidates[0];
      var row := UserAchievement(FreshId(GrantIds(grants)), userId, a.id, now);
      var next := if EarnedOf(sig)(a) then grants + [row] else grants;
      var r := GrantEach(candidates[1..], sig, userId, now, next);
      GrantEachStep(candidates, EarnedOf(sig), userId, now, grants, row, next, r);
      r
  }

  /** One candidate's step of `GrantEach`: what the rest of the loop promises carries over. */
  lemma {:induction false} GrantEachStep(candidates: seq<Achievement>, earned: Achievement -> bool, userId: int, now: Instant,
                      grants: seq<UserAchievement>, row: UserAchievement, next: seq<UserAchievement>,
                      r: seq<UserAchievement>)
    requires |candidates| > 0
    requires row.userId == userId && row.achievementId == candidates[0].id && row.earnedAt == now
    requires next == if earned(candidates[0]) then grants + [row] else grants
    requires |r| >= |next| && r[..|next|] == next
    requires GrantedIds(r[|next|..]) == AchievementIds(Filter(candidates[1..], earned))
    requires forall k :: |next| <= k < |r| ==> r[k].userId == userId && r[k].earnedAt == now
    ensures |r| >= |grants| && r[..|grants|] == grants
    ensures GrantedIds(r[|grants|..]) == AchievementIds(Filter(candidates, earned))
    ensures forall k :: |grants| <= k < |r| ==> r[k].userId == userId && r[k].earnedAt == now
  {
    var a := candidates[0];
    var rest := Filter(candidates[1..], earned);
    if earned(a) {
      GrantEarnedStep(candidates, earned, userId, now, grants, row, next, r);
    } else {
      assert Filter(candidates, earned) == rest;
    }
  }

  /** The step of `GrantEachStep` for an earned candidate, whose row is the first new grant. */
  lemma GrantEarnedStep(candidates: seq<Achievement>, earned: Achievement -> bool, userId: int, now: Instant,
                        grants: seq<UserAchievement>, row: UserAchievement, next: seq<UserAchievement>,
                        r: seq<UserAchievement>)
    requires |candidates| > 0 && earned(candidates[0])
    requires row.userId == userId && row.achievementId == candidates[0].id && row.earnedAt == now
    requires next == grants + [row]
    requires |r| >= |next| && r[..|next|] == next
    requires GrantedIds(r[|next|..]) == AchievementIds(Filter(candidates[1..], earned))
    ensures |r| >= |grants| && r[..|grants|] == grants
    ensures GrantedIds(r[|grants|..]) == AchievementIds(Filter(candidates, earned))
    ensures r[|grants|] == row
  {
    var rest := Filter(candidates[1..], earned);
    assert Filter(candidates, earned) == [candidates[0]] + rest;
    assert next[..|grants|] == grants;
    PrefixOfPrefix(r, next, grants);
    assert r[|grants|] == row by {
      assert r[|grants|] == r[..|next|][|grants|];
    }
    SplitFirst(r, |grants|);
    GrantedIdsAppend([row], r[|next|..]);
    AchievementIdsAppend([candidates[0]], rest);
  }

  lemma PrefixOfPrefix<T>(r: seq<T>, next: seq<T>, grants: seq<T>)
    requires |r| >= |next| >= |grants| && r[..|next|] == next && next[..|grants|] == grants
    ensures r[..|grants|] == grants
  {
    assert r[..|next|][..|grants|] == r[..|grants|];
  }

  lemma SplitFirst<T>(r: seq<T>, i: nat)
    requires i < |r|
    ensures r[i..] == [r[i]] + r[i + 1..]
  {
  }

  lemma AchievementIdsAppend(a: seq<Achievement>, b: seq<Achievement>)
    ensures AchievementIds(a + b) == AchievementIds(a) + AchievementIds(b)
  {
    assert forall k :: 0 <= k < |a + b| ==> AchievementIds(a + b)[k] == (AchievementIds(a) + AchievementIds(b))[k];
  }

  lemma GrantedIdsAppend(a: seq<UserAchievement>, b: seq<UserAchievement>)
    ensures GrantedIds(a + b) == GrantedIds(a) + GrantedIds(b)
  {
    assert forall k :: 0 <= k < |a + b| ==> GrantedIds(a + b)[k] == (GrantedIds(a) + GrantedIds(b))[k];
  }

  /** The signals the service reads for an existing user. */
  function SignalsOf(s: Store, u: User): Signals {
    var info := UserLeague(s, u.id);
    Signals(u,
      Filter(s.exams, (e: TrialExam) => e.userId == u.id),
      Filter(s.sessions, (x: PomodoroSession) => x.userId == u.id),
      if info.Some? then Some(info.value.current.name) else None,
      if info.Some? then Some(info.value.rankInLeague) else None)
  }

  /**
   * `CheckAndGrantAchievementsAsync`: nothing for a missing user. Otherwise the catalog
   * is seeded if empty, and every active entry the user does not hold yet and has
   * earned gets one grant row; no other field changes and no grant row is removed.
   */
  function CheckAndGrant(s: Store, userId: int, now: Instant): (r: Store)
    ensures FindUser(s.users, userId).None? ==> r == s
    ensures FindUser(s.users, userId).Some? ==>
      var sig := SignalsOf(s, FindUser(s.users, userId).value);
      var candidates := Filter(SeedIfEmpty(s.catalog), Candidate(EarnedIds(s.grants, userId)));
      && r == s.(catalog := SeedIfEmpty(s.catalog), grants := r.grants)
      && |r.grants| >= |s.grants| && r.grants[..|s.grants|] == s.grants
      && GrantedIds(r.grants[|s.grants|..]) == AchievementIds(Filter(candidates, EarnedOf(sig)))
      && forall k :: |s.grants| <= k < |r.grants| ==> r.grants[k].userId == userId && r.grants[k].earnedAt == now
  {
    match FindUser(s.users, userId)
    case None => s
    case Some(u) =>
      var catalog := SeedIfEmpty(s.catalog);
      var candidates := Filter(catalog, Candidate(EarnedIds(s.grants, userId)));
      s.(catalog := catalog, grants := GrantEach(candidates, SignalsOf(s, u), userId, now, s.grants))
  }

  /** Every new row is for an active catalog entry the user did not hold and has earned. */
  lemma CheckAndGrantSound(s: Store, userId: int, now: Instant, k: nat)
    requires FindUser(s.users, userId).Some?
    requires |s.grants| <= k < |CheckAndGrant(s, userId, now).grants|
    ensures var r := CheckAndGrant(s, userId, now);
            exists e :: e in r.catalog && e.id == r.grants[k].achievementId && e.isActive
              && e.id !in EarnedIds(s.grants, userId) && Earned(e, SignalsOf(s, FindUser(s.users, userId).value))
  {
    var r := CheckAndGrant(s, userId, now);
    var sig := SignalsOf(s, FindUser(s.users, userId).value);
    var candidates := Filter(r.catalog, Candidate(EarnedIds(s.grants, userId)));
    var chosen := Filter(candidates, EarnedOf(sig));
    var added := r.grants[|s.grants|..];
    assert added[k - |s.grants|] == r.grants[k];
    assert GrantedIds(added)[k - |s.grants|] == AchievementIds(chosen)[k - |s.grants|];
    var e := chosen[k - |s.grants|];
    assert e in chosen && e in candidates;
    assert EarnedOf(sig)(e) && Candidate(EarnedIds(s.grants, userId))(e);
  }

  /** Every active catalog entry the user did not hold and has earned gets a new row. */
  lemma CheckAndGrantComplete(s: Store, userId: int, now: Instant, a: Achievement)
    requires FindUser(s.users, userId).Some?
    ensures var r := CheckAndGrant(s, userId, now);
            a in r.catalog && a.isActive && a.id !in EarnedIds(s.grants, userId)
            && Earned(a, SignalsOf(s, FindUser(s.users, userId).value)) ==>
              exists k :: |s.grants| <= k < |r.grants| && r.grants[k].achievementId == a.id
  {
    var r := CheckAndGrant(s, userId, now);
    var sig := SignalsOf(s, FindUser(s.users, userId).value);
    var candidates := Filter(r.catalog, Candidate(EarnedIds(s.grants, userId)));
    var chosen := Filter(candidates, EarnedOf(sig));
    var added := r.grants[|s.grants|..];
    if a in r.catalog && a.isActive && a.id !in EarnedIds(s.grants, userId) && Earned(a, sig) {
      assert Candidate(EarnedIds(s.grants, userId))(a) && EarnedOf(sig)(a);
      assert a in candidates;
      assert a in chosen;
      var i :| 0 <= i < |chosen| && chosen[i] == a;
      assert GrantedIds(added)[i] == AchievementIds(chosen)[i];
      assert added[i] == r.grants[|s.grants| + i];
    }
  }

  /** The signals do not read the catalog or the grants. */
  lemma SignalsIgnoreGrants(s: Store, t: Store, u: User)
    requires t == s.(catalog := t.catalog, grants := t.grants)
    ensures SignalsOf(t, u) == SignalsOf(s, u)
  {
    assert UsersInLeague(t, 0) == UsersInLeague(s, 0);
  }

  /**
   * Granting is idempotent: a second run right after the first — at any time, since the
   * signals are unchanged — adds no row.
   */
  lemma CheckAndGrantIdempotent(s: Store, userId: int, now: Instant, later: Instant)
    ensures var r := CheckAndGrant(s, userId, now);
            CheckAndGrant(r, userId, later) == r
  {
    var r := CheckAndGrant(s, userId, now);
    if FindUser(s.users, userId).Some? {
      var u := FindUser(s.users, userId).value;
      SignalsIgnoreGrants(s, r, u);
      var sig := SignalsOf(s, u);
      var before := EarnedIds(s.grants, userId);
      var after := EarnedIds(r.grants, userId);
      assert before <= after by {
        forall id | id in before ensures id in after {
          var j :| 0 <= j < |s.grants| && s.grants[j].userId == userId && s.grants[j].achievementId == id;
          assert r.grants[j] == s.grants[j];
        }
      }
      var again := Filter(r.catalog, Candidate(after));
      forall k | 0 <= k < |again| ensures !EarnedOf(sig)(again[k]) {
        var e := again[k];
        assert e in again;
        CheckAndGrantComplete(s, userId, now, e);
      }
      CountIfNone(again, EarnedOf(sig));
      assert Filter(again, EarnedOf(sig)) == [];
      assert SeedIfEmpty(r.catalog) == r.catalog;
      var r2 := CheckAndGrant(r, userId, later);
      assert r2.grants[..|r.grants|] == r.grants;
    }
  }
}

/**
 * The rows the gamification services read and write, and the in-memory store that
 * replaces the database: one immutable record holding every table as a sequence.
 * Display-only columns (names, avatars, icons, colours, descriptions, timestamps of
 * row creation) are not carried.
 */
module Entities {
  import opened Wrappers
  import opened Clock

  /** The parts of a user the engine reads: cohort keys, streak and XP total. */
  datatype User = User(
    id: int,
    schoolName: Option<string>,
    gradeLevel: Option<int>,
    currentStreak: int,
    totalXp: int)

  /** A league band; `maxXp == None` is the open top band. */
  datatype Band = Band(id: int, name: string, minXp: int, maxXp: Option<int>, rankOrder: int)

  /** One ledger entry. */
  datatype XpTransaction = XpTransaction(
    id: int,
    userId: int,
    amount: int,
    sourceType: string,
    sourceId: Option<int>,
    earnedAt: Instant)

  datatype StudyStreak = StudyStreak(
    id: int,
    userId: int,
    startDate: Day,
    endDate: Option<Day>,
    currentDays: int,
    isActive: bool)

  datatype LeagueHistoryRow = LeagueHistoryRow(
    id: int,
    userId: int,
    leagueId: int,
    startDate: Instant,
    endDate: Option<Instant>,
    finalXp: Option<int>,
    finalRank: Option<int>,
    isCurrent: bool)

  datatype PomodoroSession = PomodoroSession(
    id: int,
    userId: int,
    subjectId: Option<int>,
    scheduleId: Option<int>,
    sessionType: string,
    plannedMinutes: int,
    actualMinutes: Option<int>,
    startTime: Instant,
    endTime: Option<Instant>,
    isCompleted: bool,
    notes: Option<string>,
    xpEarned: int)

  datatype StudySchedule = StudySchedule(
    id: int,
    userId: int,
    subjectId: int,
    dayOfWeek: int,
    startTime: TimeOfDay,
    endTime: TimeOfDay,
    topic: Option<string>,
    isActive: bool)

  /** One subject's answer counts in a trial exam (a `TrialSubjectScore` row). */
  datatype SubjectScore = SubjectScore(
    subjectId: int,
    correct: int,
    wrong: int,
    empty: int,
    timeSpentMinutes: Option<int>)

  /** A trial exam with its subject scores. */
  datatype TrialExam = TrialExam(
    id: int,
    userId: int,
    name: string,
    examType: string,
    examDate: Instant,
    totalScore: int,
    ranking: Option<int>,
    durationMinutes: Option<int>,
    notes: Option<string>,
    scores: seq<SubjectScore>)

  /** No two of the exams share an exam date, so ordering by date leaves no ties. */
  ghost predicate DistinctDates(exams: seq<TrialExam>) {
    forall i, j :: 0 <= i < j < |exams| ==> exams[i].examDate != exams[j].examDate
  }

  /** An achievement catalog entry (the columns of the `Achievements` table). */
  datatype Achievement = Achievement(
    id: int,
    name: string,
    xpRequirement: Option<int>,
    streakRequirement: Option<int>,
    studyHoursRequirement: Option<int>,
    isActive: bool)

  /** A grant of an achievement to a user. */
  datatype UserAchievement = UserAchievement(id: int, userId: int, achievementId: int, earnedAt: Instant)

  /**
   * The database. Of the `Subjects` table only its keys are kept: the foreign keys of
   * sessions, schedules and subject scores point at them.
   */
  datatype Store = Store(
    users: seq<User>,
    bands: seq<Band>,
    xpLog: seq<XpTransaction>,
    streaks: seq<StudyStreak>,
    leagueHistory: seq<LeagueHistoryRow>,
    sessions: seq<PomodoroSession>,
    schedules: seq<StudySchedule>,
    exams: seq<TrialExam>,
    catalog: seq<Achievement>,
    grants: seq<UserAchievement>,
    subjectIds: set<int>)

  // ------------------------------------------------------------ foreign keys

  /** Some stored schedule has the key (the target of `PomodoroSessions.ScheduleId`). */
  predicate HasSchedule(schedules: seq<StudySchedule>, id: int) {
    exists k :: 0 <= k < |schedules| && schedules[k].id == id
  }

  /** Some session, of any user, was started from the schedule. */
  predicate ScheduleInUse(sessions: seq<PomodoroSession>, scheduleId: int) {
    exists k :: 0 <= k < |sessions| && sessions[k].scheduleId == Some(scheduleId)
  }

  /** The optional subject and schedule of a session exist. */
  predicate SessionRefsOk(subjectId: Option<int>, scheduleId: Option<int>, subjectIds: set<int>,
                          schedules: seq<StudySchedule>) {
    && (subjectId.Some? ==> subjectId.value in subjectIds)
    && (scheduleId.Some? ==> HasSchedule(schedules, scheduleId.value))
  }

  /** Every subject score names an existing subject. */
  predicate ScoreSubjectsOk(scores: seq<SubjectScore>, subjectIds: set<int>) {
    forall k :: 0 <= k < |scores| ==> scores[k].subjectId in subjectIds
  }

  /**
   * The foreign keys of the session, schedule and subject-score rows hold: every
   * subject and schedule a row names is stored.
   */
  ghost predicate RefsExist(s: Store) {
    && (forall k :: 0 <= k < |s.sessions| ==> SessionRefsOk(s.sessions[k].subjectId, s.sessions[k].scheduleId, s.subjectIds, s.schedules))
    && (forall k :: 0 <= k < |s.schedules| ==> s.schedules[k].subjectId in s.subjectIds)
    && (forall k :: 0 <= k < |s.exams| ==> ScoreSubjectsOk(s.exams[k].scores, s.subjectIds))
  }

  /** A primary key the database may hand out: larger than every key in use. */
  function FreshId(ids: seq<int>): (r: int)
    ensures r >= 1
    ensures forall i :: 0 <= i < |ids| ==> ids[i] < r
  {
    if |ids| == 0 then 1
    else
      var rest := FreshId(ids[1..]);
      assert forall i :: 1 <= i < |ids| ==> ids[i] == ids[1..][i - 1];
      if ids[0] < rest then rest else ids[0] + 1
  }

  /** The position of the user `Users.FindAsync(id)` returns. */
  function UserIndex(users: seq<User>, id: int): (r: Option<nat>)
    ensures r.Some? ==> r.value < |users| && users[r.value].id == id
    ensures r.Some? ==> forall j :: 0 <= j < r.value ==> users[j].id != id
    ensures r.None? <==> forall j :: 0 <= j < |users| ==> users[j].id != id
  {
    if |users| == 0 then None
    else if users[0].id == id then Some(0)
    else match UserIndex(users[1..], id)
      case None => None
      case Some(k) => Some(k + 1)
  }

  /** Lookups by key do not depend on columns other than the key. */
  lemma {:induction false} UserIndexSameKeys(a: seq<User>, b: seq<User>, id: int)
    requires |a| == |b| && forall j :: 0 <= j < |a| ==> a[j].id == b[j].id
    ensures UserIndex(a, id) == UserIndex(b, id)
  {
    if |a| > 0 && a[0].id != id {
      UserIndexSameKeys(a[1..], b[1..], id);
    }
  }

  function FindUser(users: seq<User>, id: int): (r: Option<User>)
    ensures r.Some? <==> exists j :: 0 <= j < |users| && users[j].id == id
    ensures r.Some? ==> r.value in users && r.value.id == id
  {
    match UserIndex(users, id)
    case None => None
    case Some(k) => Some(users[k])
  }

  ghost predicate UniqueUserIds(users: seq<User>) {
    forall i, j :: 0 <= i < j < |users| ==> users[i].id != users[j].id
  }

  /** With unique keys, the user found by key is the one stored under it. */
  lemma FindUserUnique(users: seq<User>, k: nat)
    requires UniqueUserIds(users) && k < |users|
    ensures FindUser(users, users[k].id) == Some(users[k])
  {
  }

  /** `Leagues.FindAsync(id)`. */
  function FindBand(bands: seq<Band>, id: int): (r: Option<Band>)
    ensures r.Some? ==> r.value in bands && r.value.id == id
    ensures r.None? <==> forall j :: 0 <= j < |bands| ==> bands[j].id != id
  {
    if |bands| == 0 then None
    else if bands[0].id == id then Some(bands[0])
    else FindBand(bands[1..], id)
  }

  ghost predicate UniqueBandIds(bands: seq<Band>) {
    forall i, j :: 0 <= i < j < |bands| ==> bands[i].id != bands[j].id
  }

  lemma {:induction false} FindBandUnique(bands: seq<Band>, k: nat)
    requires UniqueBandIds(bands) && k < |bands|
    ensures FindBand(bands, bands[k].id) == Some(bands[k])
  {
    if k > 0 {
      assert bands[1..][k - 1] == bands[k];
      FindBandUnique(bands[1..], k - 1);
    }
  }

  /** `string.IsNullOrEmpty`. */
  predicate IsNullOrEmpty(s: Option<string>) {
    s.None? || s.value == ""
  }
}

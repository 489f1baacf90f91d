/**
 * The weekly study schedule (the schedule half of PomodoroService): clock-face
 * durations, the seven day buckets of the weekly view, the day-name lookup of the
 * schedule view, and create / update / delete.
 *
 * Days are numbered 0 (Sunday) to 6 (Saturday). The update as written stores any day
 * number, after which the day-name lookup of that schedule fails; `UpdateSchedule`
 * is the corrected update, `UpdateScheduleAsWritten` the original.
 */
module Schedules {
  import opened Wrappers
  import opened Seqs
  import opened Sorting
  import opened Clock
  import opened Entities

  const DayNames: seq<string> := ["Pazar", "Pazartesi", "Salı", "Çarşamba", "Perşembe", "Cuma", "Cumartesi"]

  predicate IsDayNumber(d: int) {
    0 <= d < |DayNames|
  }

  /** `DayNames[d]`, which throws for a day outside 0..6. */
  function DayName(d: int): (r: Option<string>)
    ensures r.Some? <==> 0 <= d < 7
    ensures r.Some? ==> r.value == DayNames[d]
  {
    if IsDayNumber(d) then Some(DayNames[d]) else None
  }

  /** Every calendar day's weekday has a name, and the seven names differ. */
  lemma DayNamesOfWeek(day: Day)
    ensures DayName(DayOfWeek(day)).Some?
    ensures forall i, j :: 0 <= i < j < 7 ==> DayNames[i] != DayNames[j]
  {
  }

  // ---------------------------------------------------------------- durations

  /** `EndTime - StartTime` of two `TimeOnly` values, in seconds: the way round the clock face. */
  function ClockSeconds(start: TimeOfDay, end: TimeOfDay): (d: int)
    ensures 0 <= d < SecondsPerDay
    ensures (start + d) % SecondsPerDay == end
    ensures start <= end ==> d == end - start
  {
    (end - start) % SecondsPerDay
  }

  /** `(int)(EndTime - StartTime).TotalMinutes`: the whole minutes of the clock-face difference. */
  function DurationMinutes(start: TimeOfDay, end: TimeOfDay): (m: int)
    ensures 0 <= m < 1440
    ensures m * SecondsPerMinute <= ClockSeconds(start, end) < (m + 1) * SecondsPerMinute
  {
    ClockSeconds(start, end) / SecondsPerMinute
  }

  /** An evening slot that crosses midnight, and a zero-length one. */
  lemma DurationExamples()
    ensures DurationMinutes(22 * 3600, 1 * 3600) == 180
    ensures DurationMinutes(9 * 3600, 9 * 3600) == 0
    ensures DurationMinutes(9 * 3600 + 30, 9 * 3600) == 1439
  {
  }

  function Duration(x: StudySchedule): int {
    DurationMinutes(x.startTime, x.endTime)
  }

  // --------------------------------------------------------------------- view

  /** `StudyScheduleDto` without the subject's display fields. */
  datatype ScheduleDto = ScheduleDto(
    id: int,
    subjectId: int,
    dayOfWeek: int,
    dayName: string,
    startTime: TimeOfDay,
    endTime: TimeOfDay,
    durationMinutes: int,
    topic: Option<string>,
    isActive: bool)

  /** `MapToScheduleDto`: fails exactly when the schedule's day has no name. */
  function MapToScheduleDto(x: StudySchedule): (r: Option<ScheduleDto>)
    ensures r.None? <==> !(0 <= x.dayOfWeek < 7)
    ensures r.Some? ==>
      && r.value.id == x.id && r.value.dayOfWeek == x.dayOfWeek && r.value.dayName == DayNames[x.dayOfWeek]
      && r.value.startTime == x.startTime && r.value.endTime == x.endTime
      && 0 <= r.value.durationMinutes < 1440
  {
    match DayName(x.dayOfWeek)
    case None => None
    case Some(name) =>
      Some(ScheduleDto(x.id, x.subjectId, x.dayOfWeek, name, x.startTime, x.endTime,
        Duration(x), x.topic, x.isActive))
  }

  /** Every schedule's day has a name. */
  predicate DaysInRange(schedules: seq<StudySchedule>) {
    forall k :: 0 <= k < |schedules| ==> 0 <= schedules[k].dayOfWeek < 7
  }

  /** The views of schedules whose days have names. */
  function Dtos(rows: seq<StudySchedule>): (r: seq<ScheduleDto>)
    requires DaysInRange(rows)
    ensures |r| == |rows|
    ensures forall k :: 0 <= k < |rows| ==> Some(r[k]) == MapToScheduleDto(rows[k])
  {
    seq(|rows|, k requires 0 <= k < |rows| => MapToScheduleDto(rows[k]).value)
  }

  /** `DailyScheduleDto`. */
  datatype DailySchedule = DailySchedule(dayOfWeek: int, dayName: string, schedules: seq<ScheduleDto>, totalMinutes: int)

  /** The user's active schedules on weekday `d`. */
  function OnDay(userId: int, d: int): StudySchedule -> bool {
    (x: StudySchedule) => x.userId == userId && x.isActive && x.dayOfWeek == d
  }

  /** The user's active schedules on a weekday before `n`. */
  function BeforeDay(userId: int, n: int): StudySchedule -> bool {
    (x: StudySchedule) => x.userId == userId && x.isActive && 0 <= x.dayOfWeek < n
  }

  predicate StartsNoLater(a: StudySchedule, b: StudySchedule) {
    a.startTime <= b.startTime
  }

  lemma StartsNoLaterIsTotalPreorder()
    ensures TotalPreorder(StartsNoLater)
  {
  }

  /** The views are those of the user's active schedules on day `d`, in start-time order. */
  ghost predicate ListsDay(views: seq<ScheduleDto>, s: Store, userId: int, d: int) {
    exists rows :: IsSortingOf(rows, Filter(s.schedules, OnDay(userId, d)), StartsNoLater) && DaysInRange(rows) && views == Dtos(rows)
  }

  /**
   * One day of the weekly view: the day's active schedules of the user in start-time
   * order (ties in the order the database returns, here the stored order), and the sum
   * of their durations.
   */
  function DayEntry(s: Store, userId: int, d: int): (r: DailySchedule)
    requires 0 <= d < 7
    ensures r.dayOfWeek == d && r.dayName == DayNames[d]
    ensures ListsDay(r.schedules, s, userId, d)
    ensures r.totalMinutes == SumOf(Filter(s.schedules, OnDay(userId, d)), Duration)
    ensures 0 <= r.totalMinutes <= 1439 * |r.schedules|
  {
    var chosen := Filter(s.schedules, OnDay(userId, d));
    var rows := Sort(chosen, StartsNoLater);
    StartsNoLaterIsTotalPreorder();
    DayRows(s.schedules, userId, d, rows);
    assert IsSortingOf(rows, chosen, StartsNoLater);
    DailySchedule(d, DayNames[d], Dtos(rows), SumOf(rows, Duration))
  }

  /** A rearrangement of one day's schedules: named days, the same total, bounded by a day per row. */
  lemma DayRows(schedules: seq<StudySchedule>, userId: int, d: int, rows: seq<StudySchedule>)
    requires 0 <= d < 7
    requires multiset(rows) == multiset(Filter(schedules, OnDay(userId, d)))
    ensures DaysInRange(rows)
    ensures SumOf(rows, Duration) == SumOf(Filter(schedules, OnDay(userId, d)), Duration)
    ensures 0 <= SumOf(rows, Duration) <= 1439 * |rows|
  {
    var chosen := Filter(schedules, OnDay(userId, d));
    forall k | 0 <= k < |rows| ensures 0 <= rows[k].dayOfWeek < 7 && 0 <= Duration(rows[k]) <= 1439 {
      assert rows[k] in multiset(chosen);
      assert rows[k] in chosen;
    }
    SumOfPermutation(rows, chosen, Duration);
    SumOfBounds(rows, Duration, 0, 1439);
  }

  /**
   * `GetWeeklyScheduleAsync`: seven entries, Sunday first; entry `d` lists exactly the
   * user's active schedules on day `d`. A schedule whose day is outside 0..6 is in
   * none of them.
   */
  function Weekly(s: Store, userId: int): (r: seq<DailySchedule>)
    ensures |r| == 7
    ensures forall d :: 0 <= d < 7 ==> r[d].dayOfWeek == d && r[d].dayName == DayNames[d]
    ensures forall d :: 0 <= d < 7 ==> ListsDay(r[d].schedules, s, userId, d)
    ensures forall d :: 0 <= d < 7 ==> r[d].totalMinutes == SumOf(Filter(s.schedules, OnDay(userId, d)), Duration)
  {
    var r := seq(7, d requires 0 <= d < 7 => DayEntry(s, userId, d));
    assert forall d :: 0 <= d < 7 ==> r[d] == DayEntry(s, userId, d);
    r
  }

  /** The totals of the first `n` entries. */
  function WeekSum(week: seq<DailySchedule>, n: nat): int
    requires n <= |week|
  {
    if n == 0 then 0 else WeekSum(week, n - 1) + week[n - 1].totalMinutes
  }

  /**
   * The seven daily totals add up to the durations of all the user's active
   * schedules whose day is in range.
   */
  lemma {:induction false} WeeklyTotalsAddUp(s: Store, userId: int, n: nat)
    requires n <= 7
    ensures WeekSum(Weekly(s, userId), n) == SumOf(Filter(s.schedules, BeforeDay(userId, n)), Duration)
  {
    var week := Weekly(s, userId);
    if n == 0 {
      FilterNone(s.schedules, BeforeDay(userId, 0));
    } else {
      WeeklyTotalsAddUp(s, userId, n - 1);
      SumOfFilterSplit(s.schedules, BeforeDay(userId, n), BeforeDay(userId, n - 1), OnDay(userId, n - 1), Duration);
    }
  }

  /** `GetTodayScheduleAsync`: today's entry of the weekly view. */
  function Today(s: Store, userId: int, today: Day): (r: DailySchedule)
    ensures r == Weekly(s, userId)[DayOfWeek(today)]
  {
    DayEntry(s, userId, DayOfWeek(today))
  }

  // ------------------------------------------------------------------- create

  /** `CreateScheduleRequest`, with `DayOfWeek` validated to 0..6 before the service runs. */
  datatype CreateRequest = CreateRequest(subjectId: int, dayOfWeek: int, startTime: string, endTime: string, topic: Option<string>)

  function ScheduleIds(schedules: seq<StudySchedule>): seq<int> {
    seq(|schedules|, k requires 0 <= k < |schedules| => schedules[k].id)
  }

  /**
   * `CreateScheduleAsync`: rejected for a day outside 0..6 (the request's range
   * check), a missing user or subject, or a time that does not parse; otherwise an
   * active schedule is appended and returned.
   */
  function CreateSchedule(s: Store, userId: int, req: CreateRequest,
                          parse: string -> Option<TimeOfDay>): (r: Option<(ScheduleDto, Store)>)
    ensures r.None? <==>
      !(0 <= req.dayOfWeek < 7) || FindUser(s.users, userId).None? || req.subjectId !in s.subjectIds
      || parse(req.startTime).None? || parse(req.endTime).None?
    ensures r.Some? ==>
      var t := r.value.1;
      && t == s.(schedules := t.schedules)
      && |t.schedules| == |s.schedules| + 1 && t.schedules[..|s.schedules|] == s.schedules
      && var x := t.schedules[|s.schedules|];
         && x.userId == userId && x.isActive && x.dayOfWeek == req.dayOfWeek
         && x.startTime == parse(req.startTime).value && x.endTime == parse(req.endTime).value
         && Some(r.value.0) == MapToScheduleDto(x)
  {
    if !(0 <= req.dayOfWeek < 7) || FindUser(s.users, userId).None? || req.subjectId !in s.subjectIds then None
    else match (parse(req.startTime), parse(req.endTime))
      case (Some(start), Some(end)) =>
        var x := StudySchedule(FreshId(ScheduleIds(s.schedules)), userId, req.subjectId, req.dayOfWeek,
          start, end, req.topic, true);
        var t := s.(schedules := s.schedules + [x]);
        assert t.schedules[..|s.schedules|] == s.schedules;
        Some((MapToScheduleDto(x).value, t))
      case _ => None
  }

  lemma CreateKeepsDaysInRange(s: Store, userId: int, req: CreateRequest, parse: string -> Option<TimeOfDay>)
    requires DaysInRange(s.schedules)
    requires CreateSchedule(s, userId, req, parse).Some?
    ensures DaysInRange(CreateSchedule(s, userId, req, parse).value.1.schedules)
  {
    var t := CreateSchedule(s, userId, req, parse).value.1.schedules;
    forall k | 0 <= k < |t| ensures 0 <= t[k].dayOfWeek < 7 {
      if k < |s.schedules| {
        assert t[k] == t[..|s.schedules|][k];
      }
    }
  }

  /** Creating a schedule keeps every foreign key of the store satisfied. */
  lemma CreateKeepsRefs(s: Store, userId: int, req: CreateRequest, parse: string -> Option<TimeOfDay>)
    requires RefsExist(s)
    requires CreateSchedule(s, userId, req, parse).Some?
    ensures RefsExist(CreateSchedule(s, userId, req, parse).value.1)
  {
    var t := CreateSchedule(s, userId, req, parse).value.1;
    forall k | 0 <= k < |t.schedules| ensures t.schedules[k].subjectId in t.subjectIds {
      if k < |s.schedules| {
        assert t.schedules[k] == t.schedules[..|s.schedules|][k];
      }
    }
    forall k | 0 <= k < |t.sessions|
      ensures SessionRefsOk(t.sessions[k].subjectId, t.sessions[k].scheduleId, t.subjectIds, t.schedules)
    {
      var x := s.sessions[k];
      if x.scheduleId.Some? {
        var j :| 0 <= j < |s.schedules| && s.schedules[j].id == x.scheduleId.value;
        assert t.schedules[j] == t.schedules[..|s.schedules|][j];
      }
    }
  }

  // ------------------------------------------------------------------- update

  /** `FirstOrDefault(s => s.Id == scheduleId && s.UserId == userId)`. */
  function ScheduleIndex(schedules: seq<StudySchedule>, scheduleId: int, userId: int): (r: Option<nat>)
    ensures r.None? <==> forall k :: 0 <= k < |schedules| ==> !(schedules[k].id == scheduleId && schedules[k].userId == userId)
    ensures r.Some? ==> r.value < |schedules| && schedules[r.value].id == scheduleId && schedules[r.value].userId == userId
  {
    IndexWhere(schedules, ScheduleKey(scheduleId, userId))
  }

  /** The lookup key `s.Id == scheduleId && s.UserId == userId`. */
  function ScheduleKey(scheduleId: int, userId: int): StudySchedule -> bool {
    (x: StudySchedule) => x.id == scheduleId && x.userId == userId
  }

  /** `UpdateScheduleRequest`: every field optional, and the day not range-checked. */
  datatype UpdateRequest = UpdateRequest(
    subjectId: Option<int>,
    dayOfWeek: Option<int>,
    startTime: Option<string>,
    endTime: Option<string>,
    topic: Option<string>,
    isActive: Option<bool>)

  /** A supplied, non-empty time string that parses; anything else leaves the field alone. */
  function ParsedTime(text: Option<string>, parse: string -> Option<TimeOfDay>): Option<TimeOfDay> {
    if text.Some? && |text.value| > 0 then parse(text.value) else None
  }

  /** The schedule with each supplied field of the request written over it. */
  function Patched(x: StudySchedule, req: UpdateRequest, parse: string -> Option<TimeOfDay>): (y: StudySchedule)
    ensures y.id == x.id && y.userId == x.userId
    ensures y.subjectId == req.subjectId.GetOr(x.subjectId)
    ensures y.dayOfWeek == req.dayOfWeek.GetOr(x.dayOfWeek)
    ensures y.startTime == ParsedTime(req.startTime, parse).GetOr(x.startTime)
    ensures y.endTime == ParsedTime(req.endTime, parse).GetOr(x.endTime)
    ensures y.topic == (if req.topic.Some? then req.topic else x.topic)
    ensures y.isActive == req.isActive.GetOr(x.isActive)
  {
    x.(subjectId := req.subjectId.GetOr(x.subjectId),
       dayOfWeek := req.dayOfWeek.GetOr(x.dayOfWeek),
       startTime := ParsedTime(req.startTime, parse).GetOr(x.startTime),
       endTime := ParsedTime(req.endTime, parse).GetOr(x.endTime),
       topic := if req.topic.Some? then req.topic else x.topic,
       isActive := req.isActive.GetOr(x.isActive))
  }

  /** An empty request changes nothing, and applying a request twice is applying it once. */
  lemma PatchedEmptyAndIdempotent(x: StudySchedule, req: UpdateRequest, parse: string -> Option<TimeOfDay>)
    ensures Patched(x, UpdateRequest(None, None, None, None, None, None), parse) == x
    ensures Patched(Patched(x, req, parse), req, parse) == Patched(x, req, parse)
  {
  }

  /**
   * What the update as written ends in: not found, a save the database refuses (nothing
   * is stored), the updated view, or a failure after saving.
   */
  datatype UpdateOutcome =
    | NotFound
    | SaveFailed
    | Updated(dto: ScheduleDto, store: Store)
    | FailedAfterSave(store: Store)

  /** The request moves the schedule to a subject that is not stored, which its foreign key refuses. */
  predicate SubjectRejected(s: Store, req: UpdateRequest) {
    req.subjectId.Some? && req.subjectId.value !in s.subjectIds
  }

  /**
   * `UpdateScheduleAsync` as written: the save fails for a subject that is not stored;
   * otherwise the patched schedule is saved whatever its day, and only then mapped to
   * its view, which fails for a day outside 0..6.
   */
  function UpdateScheduleAsWritten(s: Store, userId: int, scheduleId: int, req: UpdateRequest,
                                   parse: string -> Option<TimeOfDay>): (r: UpdateOutcome)
    ensures r.NotFound? <==> ScheduleIndex(s.schedules, scheduleId, userId).None?
    ensures r.SaveFailed? <==> ScheduleIndex(s.schedules, scheduleId, userId).Some? && SubjectRejected(s, req)
    ensures r.Updated? || r.FailedAfterSave? ==>
      var k := ScheduleIndex(s.schedules, scheduleId, userId).value;
      var y := Patched(s.schedules[k], req, parse);
      && r.store == s.(schedules := s.schedules[k := y])
      && (r.FailedAfterSave? <==> !(0 <= y.dayOfWeek < 7))
      && (r.Updated? ==> Some(r.dto) == MapToScheduleDto(y))
  {
    match ScheduleIndex(s.schedules, scheduleId, userId)
    case None => NotFound
    case Some(k) =>
      if SubjectRejected(s, req) then SaveFailed
      else
        var y := Patched(s.schedules[k], req, parse);
        var t := s.(schedules := s.schedules[k := y]);
        match MapToScheduleDto(y)
        case None => FailedAfterSave(t)
        case Some(dto) => Updated(dto, t)
  }

  /**
   * A schedule moved to day 7 stays saved with that day, the request fails, and the
   * schedule drops out of every day of the weekly view.
   */
  lemma UpdateAsWrittenStoresUnnamedDay(s: Store, parse: string -> Option<TimeOfDay>)
    requires s.schedules == [StudySchedule(1, 1, 1, 2, 9 * 3600, 10 * 3600, None, true)]
    ensures var r := UpdateScheduleAsWritten(s, 1, 1, UpdateRequest(None, Some(7), None, None, None, None), parse);
            && r.FailedAfterSave?
            && r.store.schedules[0].dayOfWeek == 7
            && forall d :: 0 <= d < 7 ==> Weekly(r.store, 1)[d].schedules == []
  {
    var r := UpdateScheduleAsWritten(s, 1, 1, UpdateRequest(None, Some(7), None, None, None, None), parse);
    assert r.store.schedules == [StudySchedule(1, 1, 1, 7, 9 * 3600, 10 * 3600, None, true)];
    forall d | 0 <= d < 7 ensures Weekly(r.store, 1)[d].schedules == [] {
      FilterNone(r.store.schedules, OnDay(1, d));
      assert ListsDay(Weekly(r.store, 1)[d].schedules, r.store, 1, d);
      var rows :| IsSortingOf(rows, Filter(r.store.schedules, OnDay(1, d)), StartsNoLater)
                 && DaysInRange(rows) && Weekly(r.store, 1)[d].schedules == Dtos(rows);
      assert Filter(r.store.schedules, OnDay(1, d)) == [];
      assert IsSortingOf(rows, Filter(r.store.schedules, OnDay(1, d)), StartsNoLater);
      assert IsSortingOf(rows, [], StartsNoLater);
      assert multiset(rows) == multiset(Filter(r.store.schedules, OnDay(1, d)));
      assert multiset(rows) == multiset{};
      assert |rows| == |multiset(rows)| == 0;
    }
  }

  /**
   * `UpdateScheduleAsync` corrected: a day outside 0..6 is rejected, like the create
   * request's range check, and nothing is saved; a subject that is not stored fails the
   * save as in the source; otherwise the patched schedule is saved and its view returned.
   */
  function UpdateSchedule(s: Store, userId: int, scheduleId: int, req: UpdateRequest,
                          parse: string -> Option<TimeOfDay>): (r: Option<(ScheduleDto, Store)>)
    ensures req.dayOfWeek.Some? && !(0 <= req.dayOfWeek.value < 7) ==> r.None?
    ensures r.None? <==>
      || ScheduleIndex(s.schedules, scheduleId, userId).None?
      || SubjectRejected(s, req)
      || !(0 <= Patched(s.schedules[ScheduleIndex(s.schedules, scheduleId, userId).value], req, parse).dayOfWeek < 7)
    ensures r.Some? ==>
      var k := ScheduleIndex(s.schedules, scheduleId, userId).value;
      var y := Patched(s.schedules[k], req, parse);
      && r.value.1 == s.(schedules := s.schedules[k := y])
      && Some(r.value.0) == MapToScheduleDto(y)
  {
    match ScheduleIndex(s.schedules, scheduleId, userId)
      case None => None
      case Some(k) =>
        var y := Patched(s.schedules[k], req, parse);
        if !SubjectRejected(s, req) && 0 <= y.dayOfWeek < 7 then Some((MapToScheduleDto(y).value, s.(schedules := s.schedules[k := y])))
        else None
  }

  /**
   * On a store whose days are all in range, the corrected update fails only for a
   * missing schedule, a subject that is not stored or a requested day outside 0..6,
   * keeps every day in range, and agrees with the update as written whenever the latter
   * does not fail.
   */
  lemma UpdateKeepsDaysInRange(s: Store, userId: int, scheduleId: int, req: UpdateRequest,
                               parse: string -> Option<TimeOfDay>)
    requires DaysInRange(s.schedules)
    ensures var r := UpdateSchedule(s, userId, scheduleId, req, parse);
            r.None? <==>
              || ScheduleIndex(s.schedules, scheduleId, userId).None? || SubjectRejected(s, req)
              || (req.dayOfWeek.Some? && !(0 <= req.dayOfWeek.value < 7))
    ensures var r := UpdateSchedule(s, userId, scheduleId, req, parse);
            r.Some? ==> DaysInRange(r.value.1.schedules)
    ensures var w := UpdateScheduleAsWritten(s, userId, scheduleId, req, parse);
            var r := UpdateSchedule(s, userId, scheduleId, req, parse);
            && (w.Updated? <==> r.Some?)
            && (w.Updated? ==> r.value == (w.dto, w.store))
  {
    match ScheduleIndex(s.schedules, scheduleId, userId)
    case None =>
    case Some(k) =>
      assert 0 <= s.schedules[k].dayOfWeek < 7;
  }

  // ------------------------------------------------------------------- delete

  /**
   * `DeleteScheduleAsync`: removes the user's schedule; fails for a missing or foreign
   * one (the source returns false), and for one a Pomodoro session was started from,
   * whose foreign key has no delete action (the save throws and nothing is removed).
   */
  function DeleteSchedule(s: Store, userId: int, scheduleId: int): (r: Option<Store>)
    ensures r.None? <==> ScheduleIndex(s.schedules, scheduleId, userId).None? || ScheduleInUse(s.sessions, scheduleId)
    ensures r.Some? ==>
      var k := ScheduleIndex(s.schedules, scheduleId, userId).value;
      && r.value == s.(schedules := r.value.schedules)
      && |r.value.schedules| == |s.schedules| - 1
      && (forall j :: 0 <= j < k ==> r.value.schedules[j] == s.schedules[j])
      && (forall j :: k < j < |s.schedules| ==> r.value.schedules[j - 1] == s.schedules[j])
  {
    match ScheduleIndex(s.schedules, scheduleId, userId)
    case None => None
    case Some(k) =>
      if ScheduleInUse(s.sessions, scheduleId) then None
      else Some(s.(schedules := s.schedules[..k] + s.schedules[k + 1..]))
  }

  lemma DeleteKeepsDaysInRange(s: Store, userId: int, scheduleId: int)
    requires DaysInRange(s.schedules)
    requires DeleteSchedule(s, userId, scheduleId).Some?
    ensures DaysInRange(DeleteSchedule(s, userId, scheduleId).value.schedules)
  {
    var k := ScheduleIndex(s.schedules, scheduleId, userId).value;
    var t := DeleteSchedule(s, userId, scheduleId).value.schedules;
    forall j | 0 <= j < |t| ensures 0 <= t[j].dayOfWeek < 7 {
      if j >= k {
        assert t[j] == s.schedules[j + 1];
      }
    }
  }

  /** Updating a schedule keeps every foreign key of the store satisfied. */
  lemma UpdateKeepsRefs(s: Store, userId: int, scheduleId: int, req: UpdateRequest, parse: string -> Option<TimeOfDay>)
    requires RefsExist(s)
    requires UpdateSchedule(s, userId, scheduleId, req, parse).Some?
    ensures RefsExist(UpdateSchedule(s, userId, scheduleId, req, parse).value.1)
  {
    var k := ScheduleIndex(s.schedules, scheduleId, userId).value;
    var t := UpdateSchedule(s, userId, scheduleId, req, parse).value.1;
    assert t.schedules == s.schedules[k := Patched(s.schedules[k], req, parse)];
    forall i | 0 <= i < |t.sessions|
      ensures SessionRefsOk(t.sessions[i].subjectId, t.sessions[i].scheduleId, t.subjectIds, t.schedules)
    {
      var x := s.sessions[i];
      if x.scheduleId.Some? {
        var j :| 0 <= j < |s.schedules| && s.schedules[j].id == x.scheduleId.value;
        assert t.schedules[j].id == s.schedules[j].id;
      }
    }
  }

  /**
   * Deleting a schedule keeps every foreign key of the store satisfied: no session is
   * left naming the removed schedule.
   */
  lemma DeleteKeepsRefs(s: Store, userId: int, scheduleId: int)
    requires RefsExist(s)
    requires DeleteSchedule(s, userId, scheduleId).Some?
    ensures RefsExist(DeleteSchedule(s, userId, scheduleId).value)
  {
    var k := ScheduleIndex(s.schedules, scheduleId, userId).value;
    var t := DeleteSchedule(s, userId, scheduleId).value;
    assert t.schedules == s.schedules[..k] + s.schedules[k + 1..];
    forall i | 0 <= i < |t.schedules| ensures t.schedules[i].subjectId in t.subjectIds {
      if i >= k {
        assert t.schedules[i] == s.schedules[i + 1];
      }
    }
    forall i | 0 <= i < |t.sessions|
      ensures SessionRefsOk(t.sessions[i].subjectId, t.sessions[i].scheduleId, t.subjectIds, t.schedules)
    {
      var x := s.sessions[i];
      if x.scheduleId.Some? {
        assert x.scheduleId != Some(scheduleId);
        var j :| 0 <= j < |s.schedules| && s.schedules[j].id == x.scheduleId.value;
        assert j != k;
        if j < k {
          assert t.schedules[j] == s.schedules[j];
        } else {
          assert t.schedules[j - 1] == s.schedules[j];
        }
      }
    }
  }
}

/**
 * The Pomodoro session lifecycle (PomodoroService): start, complete and cancel, the XP a
 * completed STUDY session earns, the ledger row and total it adds, and the league check
 * that follows.
 *
 * A session is open while it is neither completed nor ended; cancelling ends it without
 * completing it, and a cancelled session can still be completed.
 */
module Pomodoro {
  import opened Wrappers
  import opened Seqs
  import opened Clock
  import opened Entities
  import opened Leagues
  import opened Ledger

  const XpPerMinute := 2
  const CompletionBonus := 10
  const StudyType := "STUDY"
  const PomodoroSource := "POMODORO"

  /** `p.UserId == userId && !p.IsCompleted && p.EndTime == null`. */
  predicate IsOpenOf(x: PomodoroSession, userId: int) {
    x.userId == userId && !x.isCompleted && x.endTime.None?
  }

  /** The first open session of the user (`GetActivePomodoroAsync`'s query). */
  function OpenIndex(sessions: seq<PomodoroSession>, userId: int): (r: Option<nat>)
    ensures r.None? <==> forall k :: 0 <= k < |sessions| ==> !IsOpenOf(sessions[k], userId)
    ensures r.Some? ==> r.value < |sessions| && IsOpenOf(sessions[r.value], userId)
    ensures r.Some? ==> forall j :: 0 <= j < r.value ==> !IsOpenOf(sessions[j], userId)
  {
    if |sessions| == 0 then None
    else if IsOpenOf(sessions[0], userId) then Some(0)
    else match OpenIndex(sessions[1..], userId)
      case None => None
      case Some(k) => Some(k + 1)
  }

  /** No user has two open sessions. */
  ghost predicate AtMostOneOpen(sessions: seq<PomodoroSession>) {
    forall i, j :: 0 <= i < j < |sessions| && IsOpenOf(sessions[i], sessions[i].userId) ==>
      !IsOpenOf(sessions[j], sessions[i].userId)
  }

  function SessionIds(sessions: seq<PomodoroSession>): seq<int> {
    seq(|sessions|, k requires 0 <= k < |sessions| => sessions[k].id)
  }

  // -------------------------------------------------------------------- start

  /** A `StartPomodoroRequest`. */
  datatype StartRequest = StartRequest(
    subjectId: Option<int>,
    scheduleId: Option<int>,
    sessionType: string,
    plannedMinutes: int,
    notes: Option<string>)

  /**
   * `StartPomodoroAsync`: fails when the user is missing or already has an open session
   * (the source returns null), and when the request names a subject or a schedule that
   * is not stored (the insert breaks a foreign key and throws); otherwise appends an
   * open session started `now` with no XP, and changes nothing else.
   */
  function Start(s: Store, userId: int, req: StartRequest, now: Instant): (r: Option<Store>)
    ensures r.None? <==>
      || FindUser(s.users, userId).None? || OpenIndex(s.sessions, userId).Some?
      || !SessionRefsOk(req.subjectId, req.scheduleId, s.subjectIds, s.schedules)
    ensures r.Some? ==> |r.value.sessions| == |s.sessions| + 1
    ensures r.Some? ==>
      var n := |s.sessions|;
      var x := r.value.sessions[n];
      && r.value == s.(sessions := r.value.sessions)
      && r.value.sessions[..n] == s.sessions
      && IsOpenOf(x, userId) && x.startTime == now && x.xpEarned == 0 && x.actualMinutes.None?
      && x.sessionType == req.sessionType && x.plannedMinutes == req.plannedMinutes
      && x.subjectId == req.subjectId && x.scheduleId == req.scheduleId && x.notes == req.notes
      && forall k :: 0 <= k < n ==> s.sessions[k].id < x.id
  {
    if FindUser(s.users, userId).None? || OpenIndex(s.sessions, userId).Some? then None
    else if !SessionRefsOk(req.subjectId, req.scheduleId, s.subjectIds, s.schedules) then None
    else
      var x := PomodoroSession(FreshId(SessionIds(s.sessions)), userId, req.subjectId, req.scheduleId,
        req.sessionType, req.plannedMinutes, None, now, None, false, req.notes, 0);
      assert forall k :: 0 <= k < |s.sessions| ==> SessionIds(s.sessions)[k] == s.sessions[k].id;
      Some(s.(sessions := s.sessions + [x]))
  }

  /** Starting keeps every foreign key of the store satisfied. */
  lemma StartKeepsRefs(s: Store, userId: int, req: StartRequest, now: Instant)
    requires RefsExist(s)
    requires Start(s, userId, req, now).Some?
    ensures RefsExist(Start(s, userId, req, now).value)
  {
    var t := Start(s, userId, req, now).value;
    forall k | 0 <= k < |t.sessions|
      ensures SessionRefsOk(t.sessions[k].subjectId, t.sessions[k].scheduleId, t.subjectIds, t.schedules)
    {
      if k < |s.sessions| {
        assert t.sessions[k] == t.sessions[..|s.sessions|][k];
      }
    }
  }

  /** A started session is the user's active one, and a second start fails. */
  lemma StartThenActive(s: Store, userId: int, req: StartRequest, now: Instant, req2: StartRequest, later: Instant)
    requires Start(s, userId, req, now).Some?
    ensures var t := Start(s, userId, req, now).value;
            && OpenIndex(t.sessions, userId) == Some(|s.sessions|)
            && Start(t, userId, req2, later).None?
  {
    var t := Start(s, userId, req, now).value;
    forall j | 0 <= j < |s.sessions| ensures !IsOpenOf(t.sessions[j], userId) {
      assert t.sessions[j] == s.sessions[j];
    }
  }

  /** Starting keeps "no user has two open sessions". */
  lemma StartKeepsAtMostOneOpen(s: Store, userId: int, req: StartRequest, now: Instant)
    requires AtMostOneOpen(s.sessions)
    requires Start(s, userId, req, now).Some?
    ensures AtMostOneOpen(Start(s, userId, req, now).value.sessions)
  {
    var t := Start(s, userId, req, now).value.sessions;
    forall i, j | 0 <= i < j < |t| && IsOpenOf(t[i], t[i].userId) ensures !IsOpenOf(t[j], t[i].userId) {
      if j == |s.sessions| {
        assert t[i] == s.sessions[i];
      } else {
        assert t[i] == s.sessions[i] && t[j] == s.sessions[j];
      }
    }
  }

  // ----------------------------------------------------------------- complete

  /** A `CompletePomodoroRequest`; the request itself may be absent. */
  datatype CompleteRequest = CompleteRequest(actualMinutes: Option<int>, notes: Option<string>)

  /** `FirstOrDefault(p => p.Id == sessionId && p.UserId == userId)`. */
  function SessionIndex(sessions: seq<PomodoroSession>, sessionId: int, userId: int): (r: Option<nat>)
    ensures r.None? <==> forall k :: 0 <= k < |sessions| ==> !(sessions[k].id == sessionId && sessions[k].userId == userId)
    ensures r.Some? ==> r.value < |sessions| && sessions[r.value].id == sessionId && sessions[r.value].userId == userId
  {
    IndexWhere(sessions, SessionKey(sessionId, userId))
  }

  /** The lookup key `s.Id == sessionId && s.UserId == userId`. */
  function SessionKey(sessionId: int, userId: int): PomodoroSession -> bool {
    (x: PomodoroSession) => x.id == sessionId && x.userId == userId
  }

  /**
   * The minutes credited: the supplied value, else the whole minutes elapsed since the
   * start, and at least 1 either way.
   */
  function CreditedMinutes(start: Instant, now: Instant, req: Option<CompleteRequest>): (m: int)
    ensures m >= 1
    ensures req.Some? && req.value.actualMinutes.Some? ==>
      (m == req.value.actualMinutes.value || (m == 1 && req.value.actualMinutes.value < 1))
    ensures (req.None? || req.value.actualMinutes.None?) && start <= now ==>
      (m * SecondsPerMinute <= now - start < (m + 1) * SecondsPerMinute || (m == 1 && now - start < SecondsPerMinute))
  {
    var raw := if req.Some? && req.value.actualMinutes.Some? then req.value.actualMinutes.value
               else ElapsedWholeMinutes(start, now);
    Max(1, raw)
  }

  /** The XP of a completed session: 2 per minute plus a bonus of 10 for STUDY, none for breaks. */
  function SessionXp(sessionType: string, minutes: int): (xp: int)
    ensures sessionType != StudyType ==> xp == 0
    ensures sessionType == StudyType && minutes >= 1 ==> xp >= 12 && (xp - CompletionBonus) % XpPerMinute == 0
  {
    if sessionType == StudyType then minutes * XpPerMinute + CompletionBonus else 0
  }

  /** The session as the completion leaves it. */
  function Finished(x: PomodoroSession, minutes: int, xp: int, now: Instant, req: Option<CompleteRequest>): PomodoroSession {
    var notes := if req.Some? && req.value.notes.Some? then req.value.notes else x.notes;
    x.(endTime := Some(now), actualMinutes := Some(minutes), isCompleted := true, xpEarned := xp, notes := notes)
  }

  /**
   * The award step: with positive XP, a POMODORO ledger row and the same amount on the
   * user's total, then the league check; nothing otherwise.
   */
  function Award(s: Store, userId: int, xp: int, sessionId: int, now: Instant): (r: Store)
    ensures xp <= 0 ==> r == s
    ensures xp > 0 ==> r == CheckAndUpdate(Record(s, userId, xp, PomodoroSource, Some(sessionId), now), userId, now).1
    ensures r.sessions == s.sessions
  {
    if xp > 0 then CheckAndUpdate(Record(s, userId, xp, PomodoroSource, Some(sessionId), now), userId, now).1
    else s
  }

  /**
   * `CompletePomodoroAsync`: fails for a session that is missing, someone else's or
   * already completed. Otherwise the session is completed with the credited minutes and
   * its XP, and the XP is awarded; the completed session is returned.
   */
  function Complete(s: Store, userId: int, sessionId: int, req: Option<CompleteRequest>, now: Instant): (r: Option<(PomodoroSession, Store)>)
    ensures r.None? <==>
      SessionIndex(s.sessions, sessionId, userId).None? || s.sessions[SessionIndex(s.sessions, sessionId, userId).value].isCompleted
    ensures r.Some? ==>
      var k := SessionIndex(s.sessions, sessionId, userId).value;
      var x := s.sessions[k];
      var m := CreditedMinutes(x.startTime, now, req);
      var done := r.value.0;
      && done == Finished(x, m, SessionXp(x.sessionType, m), now, req)
      && done.isCompleted && done.endTime == Some(now) && done.actualMinutes == Some(m)
      && done.id == x.id && done.userId == userId && done.sessionType == x.sessionType && done.startTime == x.startTime
      && r.value.1.sessions == s.sessions[k := done]
      && r.value.1 == Award(s.(sessions := s.sessions[k := done]), userId, done.xpEarned, sessionId, now)
  {
    match SessionIndex(s.sessions, sessionId, userId)
    case None => None
    case Some(k) =>
      var x := s.sessions[k];
      if x.isCompleted then None
      else
        var m := CreditedMinutes(x.startTime, now, req);
        var done := Finished(x, m, SessionXp(x.sessionType, m), now, req);
        Some((done, Award(s.(sessions := s.sessions[k := done]), userId, done.xpEarned, sessionId, now)))
  }

  /**
   * Completing keeps the ledger balanced: a STUDY session appends one POMODORO row of
   * its XP (at least 12) and raises the user's total by the same amount; a break
   * session appends nothing and leaves every total as it was.
   */
  lemma CompleteKeepsBalanced(s: Store, userId: int, sessionId: int, req: Option<CompleteRequest>, now: Instant)
    requires UniqueUserIds(s.users) && Balanced(s)
    requires Complete(s, userId, sessionId, req, now).Some?
    ensures Balanced(Complete(s, userId, sessionId, req, now).value.1)
  {
    var (done, t) := Complete(s, userId, sessionId, req, now).value;
    var s1 := s.(sessions := t.sessions);
    assert Balanced(s1);
    if done.xpEarned > 0 {
      RecordKeepsBalanced(s1, userId, done.xpEarned, PomodoroSource, Some(sessionId), now);
    }
  }

  /**
   * A completed STUDY session earns 2 XP per credited minute plus 10, so at least 12;
   * the ledger gains exactly one POMODORO row of that amount for the session and, when
   * the user exists, its total grows by the same amount. A break earns nothing and
   * leaves the ledger and every total unchanged.
   */
  lemma CompleteAwards(s: Store, userId: int, sessionId: int, req: Option<CompleteRequest>, now: Instant)
    requires Complete(s, userId, sessionId, req, now).Some?
    ensures var (done, t) := Complete(s, userId, sessionId, req, now).value;
            && (done.sessionType == StudyType ==>
                  && done.xpEarned == 2 * done.actualMinutes.value + 10 >= 12
                  && |t.xpLog| == |s.xpLog| + 1 && t.xpLog[..|s.xpLog|] == s.xpLog
                  && t.xpLog[|s.xpLog|].userId == userId && t.xpLog[|s.xpLog|].amount == done.xpEarned
                  && t.xpLog[|s.xpLog|].sourceType == PomodoroSource && t.xpLog[|s.xpLog|].sourceId == Some(sessionId)
                  && (forall j :: 0 <= j < |s.users| ==>
                        t.users[j].totalXp == s.users[j].totalXp + (if UserIndex(s.users, userId) == Some(j) then done.xpEarned else 0)))
            && (done.sessionType != StudyType ==> done.xpEarned == 0 && t.xpLog == s.xpLog && t.users == s.users)
  {
    var (done, t) := Complete(s, userId, sessionId, req, now).value;
    if done.sessionType == StudyType {
      assert t.xpLog[..|s.xpLog|] == s.xpLog;
    }
  }

  // ------------------------------------------------------------------- cancel

  /**
   * `CancelPomodoroAsync`: fails for a session that is missing, someone else's or
   * completed; otherwise ends it `now` with 0 minutes, still not completed.
   */
  function Cancel(s: Store, userId: int, sessionId: int, now: Instant): (r: Option<Store>)
    ensures r.None? <==>
      SessionIndex(s.sessions, sessionId, userId).None? || s.sessions[SessionIndex(s.sessions, sessionId, userId).value].isCompleted
    ensures r.Some? ==>
      var k := SessionIndex(s.sessions, sessionId, userId).value;
      && r.value == s.(sessions := r.value.sessions)
      && |r.value.sessions| == |s.sessions|
      && (forall j :: 0 <= j < |s.sessions| && j != k ==> r.value.sessions[j] == s.sessions[j])
      && r.value.sessions[k] == s.sessions[k].(endTime := Some(now), isCompleted := false, actualMinutes := Some(0))
  {
    match SessionIndex(s.sessions, sessionId, userId)
    case None => None
    case Some(k) =>
      var x := s.sessions[k];
      if x.isCompleted then None
      else Some(s.(sessions := s.sessions[k := x.(endTime := Some(now), isCompleted := false, actualMinutes := Some(0))]))
  }

  /** The same session is found again after a change that keeps every key and owner. */
  lemma {:induction false} SessionIndexSameKeys(a: seq<PomodoroSession>, b: seq<PomodoroSession>, sessionId: int, userId: int)
    requires |a| == |b|
    requires forall j :: 0 <= j < |a| ==> a[j].id == b[j].id && a[j].userId == b[j].userId
    ensures SessionIndex(a, sessionId, userId) == SessionIndex(b, sessionId, userId)
  {
    SameIndexWhere(a, b, SessionKey(sessionId, userId));
  }

  /**
   * A cancelled session is no longer open, can be cancelled again and can still be
   * completed; a completed one can be neither cancelled nor completed again.
   */
  lemma CancelThenComplete(s: Store, userId: int, sessionId: int, now: Instant, later: Instant, req: Option<CompleteRequest>)
    requires Cancel(s, userId, sessionId, now).Some?
    ensures var t := Cancel(s, userId, sessionId, now).value;
            var k := SessionIndex(s.sessions, sessionId, userId).value;
            && !IsOpenOf(t.sessions[k], userId)
            && Cancel(t, userId, sessionId, later).Some?
            && Complete(t, userId, sessionId, req, later).Some?
  {
    var t := Cancel(s, userId, sessionId, now).value;
    SessionIndexSameKeys(s.sessions, t.sessions, sessionId, userId);
  }

  lemma CompleteThenNoMore(s: Store, userId: int, sessionId: int, req: Option<CompleteRequest>, now: Instant,
                           later: Instant, req2: Option<CompleteRequest>)
    requires Complete(s, userId, sessionId, req, now).Some?
    ensures var t := Complete(s, userId, sessionId, req, now).value.1;
            && Cancel(t, userId, sessionId, later).None?
            && Complete(t, userId, sessionId, req2, later).None?
  {
    var t := Complete(s, userId, sessionId, req, now).value.1;
    var k := SessionIndex(s.sessions, sessionId, userId).value;
    SessionIndexSameKeys(s.sessions, t.sessions, sessionId, userId);
    assert t.sessions[k].isCompleted;
  }

  /** Closing sessions, leaving the others as they were, cannot create a second open one. */
  lemma ClosingKeepsAtMostOneOpen(a: seq<PomodoroSession>, b: seq<PomodoroSession>)
    requires AtMostOneOpen(a) && |a| == |b|
    requires forall j :: 0 <= j < |b| && IsOpenOf(b[j], b[j].userId) ==> b[j] == a[j]
    ensures AtMostOneOpen(b)
  {
    forall i, j | 0 <= i < j < |b| && IsOpenOf(b[i], b[i].userId) ensures !IsOpenOf(b[j], b[i].userId) {
      assert b[i] == a[i];
    }
  }

  /** Completing and cancelling keep "no user has two open sessions". */
  lemma CompleteKeepsAtMostOneOpen(s: Store, userId: int, sessionId: int, req: Option<CompleteRequest>, now: Instant)
    requires AtMostOneOpen(s.sessions)
    requires Complete(s, userId, sessionId, req, now).Some?
    ensures AtMostOneOpen(Complete(s, userId, sessionId, req, now).value.1.sessions)
  {
    ClosingKeepsAtMostOneOpen(s.sessions, Complete(s, userId, sessionId, req, now).value.1.sessions);
  }

  lemma CancelKeepsAtMostOneOpen(s: Store, userId: int, sessionId: int, now: Instant)
    requires AtMostOneOpen(s.sessions)
    requires Cancel(s, userId, sessionId, now).Some?
    ensures AtMostOneOpen(Cancel(s, userId, sessionId, now).value.sessions)
  {
    ClosingKeepsAtMostOneOpen(s.sessions, Cancel(s, userId, sessionId, now).value.sessions);
  }

  /** `GetActivePomodoroAsync`: the user's open session, if any. */
  function ActiveSession(s: Store, userId: int): (r: Option<PomodoroSession>)
    ensures r.None? <==> forall k :: 0 <= k < |s.sessions| ==> !IsOpenOf(s.sessions[k], userId)
    ensures r.Some? ==> r.value in s.sessions && IsOpenOf(r.value, userId)
  {
    match OpenIndex(s.sessions, userId)
    case None => None
    case Some(k) => Some(s.sessions[k])
  }
}

/**
 * Trial-exam scoring (TrialExamService and TrialSubjectScore): nets, the rounded total
 * score, create / update / delete / get for the owner only, the list with its
 * net-change sequence, and the statistics.
 *
 * A subject's net is correct − wrong/4. Every net, sum of nets and difference of nets
 * is a multiple of 0.25, so the model counts in quarter points (4 · net, an integer):
 * the source's rounding of those values to two decimals changes nothing and is exact.
 */
module TrialExams {
  import opened Wrappers
  import opened Seqs
  import opened Sorting
  import opened Clock
  import opened Entities

  /** `NetScore` in quarter points: 4 · (correct − wrong/4). */
  function NetQuarters(x: SubjectScore): (q: int)
    ensures x.wrong >= 0 ==> q <= 4 * x.correct
    ensures q == 4 * x.correct <==> x.wrong == 0
    ensures 0 <= x.correct <= 100 && 0 <= x.wrong <= 100 ==> -100 <= q <= 400
  {
    4 * x.correct - x.wrong
  }

  /** 80 correct and 20 wrong is a net of 75; blank answers and time spent do not count. */
  lemma NetExamples(x: SubjectScore)
    ensures NetQuarters(SubjectScore(x.subjectId, 80, 20, x.empty, x.timeSpentMinutes)) == 4 * 75
    ensures NetQuarters(x.(empty := 0, timeSpentMinutes := None)) == NetQuarters(x)
  {
  }

  /** The exam's total net in quarter points: the same formula summed over its subjects. */
  function ExamNet(x: TrialExam): int {
    SumOf(x.scores, NetQuarters)
  }

  /**
   * `(int)Math.Round(q / 4.0)`: the integer nearest to q/4, a tie (q/4 ending in .5)
   * going to the even neighbour.
   */
  function RoundQuarters(q: int): (r: int)
    ensures -2 <= 4 * r - q <= 2
    ensures (4 * r - q == 2 || 4 * r - q == -2) ==> r % 2 == 0
  {
    var floor := q / 4;
    var rem := q % 4;
    if rem < 2 then floor
    else if rem > 2 then floor + 1
    else if floor % 2 == 0 then floor
    else floor + 1
  }

  /** The two rounding conditions leave no choice: any integer meeting them is the rounded value. */
  lemma RoundQuartersUnique(q: int, r: int)
    requires -2 <= 4 * r - q <= 2
    requires (4 * r - q == 2 || 4 * r - q == -2) ==> r % 2 == 0
    ensures r == RoundQuarters(q)
  {
    var t := RoundQuarters(q);
    assert -1 <= r - t <= 1;
  }

  /** 0.5 and −0.5 round to 0, 1.5 to 2, 2.5 to 2 and 74.75 to 75. */
  lemma RoundExamples()
    ensures RoundQuarters(2) == 0 && RoundQuarters(-2) == 0
    ensures RoundQuarters(6) == 2 && RoundQuarters(10) == 2
    ensures RoundQuarters(299) == 75
  {
  }

  /** The stored TotalScore is the rounded total net of the stored subject scores. */
  predicate ScoreConsistent(x: TrialExam) {
    x.totalScore == RoundQuarters(ExamNet(x))
  }

  ghost predicate AllScoresConsistent(exams: seq<TrialExam>) {
    forall k :: 0 <= k < |exams| ==> ScoreConsistent(exams[k])
  }

  // ------------------------------------------------------------------- create

  /** A `SubjectScoreRequest`. */
  datatype ScoreRequest = ScoreRequest(subjectId: int, correct: int, wrong: int, empty: int)

  function ToScores(reqs: seq<ScoreRequest>): (r: seq<SubjectScore>)
    ensures |r| == |reqs|
    ensures forall k :: 0 <= k < |reqs| ==>
      r[k] == SubjectScore(reqs[k].subjectId, reqs[k].correct, reqs[k].wrong, reqs[k].empty, None)
  {
    seq(|reqs|, k requires 0 <= k < |reqs| =>
      SubjectScore(reqs[k].subjectId, reqs[k].correct, reqs[k].wrong, reqs[k].empty, None))
  }

  /** A `CreateTrialExamRequest`. */
  datatype CreateRequest = CreateRequest(
    name: string,
    examType: string,
    examDate: Instant,
    durationMinutes: Option<int>,
    notes: Option<string>,
    scores: seq<ScoreRequest>)

  function ExamIds(exams: seq<TrialExam>): seq<int> {
    seq(|exams|, k requires 0 <= k < |exams| => exams[k].id)
  }

  /**
   * What creating an exam ends in: no user (the source returns null), the created exam,
   * or a refused score row. The exam row is saved on its own before its scores, so when
   * a score names a subject that is not stored the exam stays behind with no scores and
   * TotalScore 0, and the call throws.
   */
  datatype CreateOutcome =
    | NoUser
    | Created(exam: TrialExam, store: Store)
    | ScoresRefused(store: Store)

  /**
   * `CreateTrialExamAsync`: fails for a missing user; otherwise appends the user's exam,
   * with the requested subject scores and their rounded total when every score names a
   * stored subject, and with neither when one does not.
   */
  function CreateExam(s: Store, userId: int, req: CreateRequest): (r: CreateOutcome)
    ensures r.NoUser? <==> FindUser(s.users, userId).None?
    ensures r.ScoresRefused? <==>
      FindUser(s.users, userId).Some? && !ScoreSubjectsOk(ToScores(req.scores), s.subjectIds)
    ensures !r.NoUser? ==> |r.store.exams| == |s.exams| + 1
    ensures !r.NoUser? ==>
      var x := r.store.exams[|s.exams|];
      && r.store == s.(exams := s.exams + [x])
      && x.userId == userId && x.name == req.name && x.examType == req.examType && x.examDate == req.examDate
      && x.ranking.None?
      && (forall k :: 0 <= k < |s.exams| ==> s.exams[k].id < x.id)
      && (r.Created? ==> r.exam == x && x.scores == ToScores(req.scores) && ScoreConsistent(x))
      && (r.ScoresRefused? ==> x.scores == [] && x.totalScore == 0)
  {
    if FindUser(s.users, userId).None? then NoUser
    else
      var scores := ToScores(req.scores);
      var x := TrialExam(FreshId(ExamIds(s.exams)), userId, req.name, req.examType, req.examDate,
        0, None, req.durationMinutes, req.notes, []);
      assert forall k :: 0 <= k < |s.exams| ==> ExamIds(s.exams)[k] == s.exams[k].id;
      if !ScoreSubjectsOk(scores, s.subjectIds) then ScoresRefused(s.(exams := s.exams + [x]))
      else
        var y := x.(scores := scores, totalScore := RoundQuarters(SumOf(scores, NetQuarters)));
        Created(y, s.(exams := s.exams + [y]))
  }

  // ------------------------------------------------------------- find / get

  /** `FirstOrDefault(t => t.Id == trialId && t.UserId == userId)`. */
  function ExamIndex(exams: seq<TrialExam>, examId: int, userId: int): (r: Option<nat>)
    ensures r.None? <==> forall k :: 0 <= k < |exams| ==> !(exams[k].id == examId && exams[k].userId == userId)
    ensures r.Some? ==> r.value < |exams| && exams[r.value].id == examId && exams[r.value].userId == userId
  {
    IndexWhere(exams, ExamKey(examId, userId))
  }

  /** The lookup key `t.Id == examId && t.UserId == userId`. */
  function ExamKey(examId: int, userId: int): TrialExam -> bool {
    (x: TrialExam) => x.id == examId && x.userId == userId
  }

  /** `GetTrialExamByIdAsync`: the exam, only for its owner. */
  function GetExam(s: Store, userId: int, examId: int): (r: Option<TrialExam>)
    ensures r.None? <==> forall k :: 0 <= k < |s.exams| ==> !(s.exams[k].id == examId && s.exams[k].userId == userId)
    ensures r.Some? ==> r.value in s.exams && r.value.id == examId && r.value.userId == userId
  {
    match ExamIndex(s.exams, examId, userId)
    case None => None
    case Some(k) => Some(s.exams[k])
  }

  // ------------------------------------------------------------------- update

  /** An `UpdateTrialExamRequest`: every field optional. */
  datatype UpdateRequest = UpdateRequest(
    name: Option<string>,
    examDate: Option<Instant>,
    durationMinutes: Option<int>,
    notes: Option<string>,
    scores: Option<seq<ScoreRequest>>)

  /**
   * The exam with the request applied: a non-empty name, a date, a duration and notes
   * when supplied; the subject scores are replaced, and the total recomputed, only for
   * a non-empty score list.
   */
  function Revised(x: TrialExam, req: UpdateRequest): (y: TrialExam)
    ensures y.id == x.id && y.userId == x.userId && y.examType == x.examType && y.ranking == x.ranking
    ensures y.name == (if IsNullOrEmpty(req.name) then x.name else req.name.value)
    ensures y.examDate == req.examDate.GetOr(x.examDate)
    ensures y.durationMinutes == (if req.durationMinutes.Some? then req.durationMinutes else x.durationMinutes)
    ensures y.notes == (if req.notes.Some? then req.notes else x.notes)
    ensures req.scores.Some? && |req.scores.value| > 0 ==> y.scores == ToScores(req.scores.value) && ScoreConsistent(y)
    ensures !(req.scores.Some? && |req.scores.value| > 0) ==> y.scores == x.scores && y.totalScore == x.totalScore
  {
    var y := x.(name := if IsNullOrEmpty(req.name) then x.name else req.name.value,
                examDate := req.examDate.GetOr(x.examDate),
                durationMinutes := if req.durationMinutes.Some? then req.durationMinutes else x.durationMinutes,
                notes := if req.notes.Some? then req.notes else x.notes);
    if req.scores.Some? && |req.scores.value| > 0 then
      var scores := ToScores(req.scores.value);
      y.(scores := scores, totalScore := RoundQuarters(SumOf(scores, NetQuarters)))
    else y
  }

  /**
   * The request replaces the scores with one that names a subject that is not stored,
   * which the score row's foreign key refuses.
   */
  predicate ScoresRejected(s: Store, req: UpdateRequest) {
    req.scores.Some? && |req.scores.value| > 0 && !ScoreSubjectsOk(ToScores(req.scores.value), s.subjectIds)
  }

  /**
   * `UpdateTrialExamAsync`: fails, changing nothing, unless the exam is the user's own
   * (the source returns null) and, when the scores are replaced, every new score names
   * a stored subject (otherwise the save that carries all the changes throws).
   */
  function UpdateExam(s: Store, userId: int, examId: int, req: UpdateRequest): (r: Option<(TrialExam, Store)>)
    ensures r.None? <==> ExamIndex(s.exams, examId, userId).None? || ScoresRejected(s, req)
    ensures r.Some? ==>
      var k := ExamIndex(s.exams, examId, userId).value;
      && r.value.0 == Revised(s.exams[k], req)
      && r.value.1 == s.(exams := s.exams[k := r.value.0])
  {
    match ExamIndex(s.exams, examId, userId)
    case None => None
    case Some(k) =>
      if ScoresRejected(s, req) then None
      else
        var y := Revised(s.exams[k], req);
        Some((y, s.(exams := s.exams[k := y])))
  }

  /**
   * Creating and updating keep every stored TotalScore equal to its rounded total net,
   * the scoreless exam a refused creation leaves behind included.
   */
  lemma CreateKeepsScoresConsistent(s: Store, userId: int, req: CreateRequest)
    requires AllScoresConsistent(s.exams)
    requires !CreateExam(s, userId, req).NoUser?
    ensures AllScoresConsistent(CreateExam(s, userId, req).store.exams)
  {
    var t := CreateExam(s, userId, req).store.exams;
    forall k | 0 <= k < |t| ensures ScoreConsistent(t[k]) {
      if k < |s.exams| {
        assert t[k] == s.exams[k];
      }
    }
  }

  lemma UpdateKeepsScoresConsistent(s: Store, userId: int, examId: int, req: UpdateRequest)
    requires AllScoresConsistent(s.exams)
    requires UpdateExam(s, userId, examId, req).Some?
    ensures AllScoresConsistent(UpdateExam(s, userId, examId, req).value.1.exams)
  {
    var k := ExamIndex(s.exams, examId, userId).value;
    assert ScoreConsistent(s.exams[k]);
  }

  /** Creating an exam, refused or not, keeps every foreign key of the store satisfied. */
  lemma CreateExamKeepsRefs(s: Store, userId: int, req: CreateRequest)
    requires RefsExist(s)
    requires !CreateExam(s, userId, req).NoUser?
    ensures RefsExist(CreateExam(s, userId, req).store)
  {
    var t := CreateExam(s, userId, req).store;
    forall k | 0 <= k < |t.exams| ensures ScoreSubjectsOk(t.exams[k].scores, t.subjectIds) {
      if k < |s.exams| {
        assert t.exams[k] == s.exams[k];
      }
    }
  }

  /** Updating an exam keeps every foreign key of the store satisfied. */
  lemma UpdateExamKeepsRefs(s: Store, userId: int, examId: int, req: UpdateRequest)
    requires RefsExist(s)
    requires UpdateExam(s, userId, examId, req).Some?
    ensures RefsExist(UpdateExam(s, userId, examId, req).value.1)
  {
    var k := ExamIndex(s.exams, examId, userId).value;
    assert ScoreSubjectsOk(s.exams[k].scores, s.subjectIds);
  }

  // ------------------------------------------------------------------- delete

  /** `DeleteTrialExamAsync`: removes the user's exam with its scores; fails for a missing or foreign one. */
  function DeleteExam(s: Store, userId: int, examId: int): (r: Option<Store>)
    ensures r.None? <==> ExamIndex(s.exams, examId, userId).None?
    ensures r.Some? ==>
      var k := ExamIndex(s.exams, examId, userId).value;
      && r.value == s.(exams := r.value.exams)
      && |r.value.exams| == |s.exams| - 1
      && multiset(r.value.exams) == multiset(s.exams) - multiset{s.exams[k]}
  {
    match ExamIndex(s.exams, examId, userId)
    case None => None
    case Some(k) =>
      assert s.exams == s.exams[..k] + [s.exams[k]] + s.exams[k + 1..];
      Some(s.(exams := s.exams[..k] + s.exams[k + 1..]))
  }

  /** Updating or deleting one user's exam leaves every other user's exams as they were. */
  lemma UpdateLeavesOthers(s: Store, userId: int, examId: int, req: UpdateRequest, other: int)
    requires other != userId
    requires UpdateExam(s, userId, examId, req).Some?
    ensures Filter(UpdateExam(s, userId, examId, req).value.1.exams, Owned(other)) == Filter(s.exams, Owned(other))
  {
    var k := ExamIndex(s.exams, examId, userId).value;
    var y := UpdateExam(s, userId, examId, req).value.0;
    assert UpdateExam(s, userId, examId, req).value.1.exams == s.exams[k := y];
    FilterSkips(s.exams, k, y, Owned(other));
  }

  lemma DeleteLeavesOthers(s: Store, userId: int, examId: int, other: int)
    requires other != userId
    requires DeleteExam(s, userId, examId).Some?
    ensures Filter(DeleteExam(s, userId, examId).value.exams, Owned(other)) == Filter(s.exams, Owned(other))
  {
    var k := ExamIndex(s.exams, examId, userId).value;
    assert DeleteExam(s, userId, examId).value.exams == s.exams[..k] + s.exams[k + 1..];
    FilterDrops(s.exams, k, Owned(other));
  }

  function Owned(userId: int): TrialExam -> bool {
    (x: TrialExam) => x.userId == userId
  }

  lemma {:induction false} FilterSkips(a: seq<TrialExam>, k: nat, y: TrialExam, p: TrialExam -> bool)
    requires k < |a| && !p(a[k]) && !p(y)
    ensures Filter(a[k := y], p) == Filter(a, p)
  {
    if k > 0 {
      FilterSkips(a[1..], k - 1, y, p);
      assert a[k := y][1..] == a[1..][k - 1 := y];
    } else {
      assert a[k := y][1..] == a[1..];
    }
  }

  lemma {:induction false} FilterDrops(a: seq<TrialExam>, k: nat, p: TrialExam -> bool)
    requires k < |a| && !p(a[k])
    ensures Filter(a[..k] + a[k + 1..], p) == Filter(a, p)
  {
    if k > 0 {
      FilterDrops(a[1..], k - 1, p);
      assert (a[..k] + a[k + 1..])[1..] == a[1..][..k - 1] + a[1..][k..];
    } else {
      assert a[..k] + a[k + 1..] == a[1..];
    }
  }

  // ---------------------------------------------------------- list and stats

  /** The user's exams, of the given type when one is named (a null or empty type means all). */
  function Selects(userId: int, examType: Option<string>): TrialExam -> bool {
    (x: TrialExam) => x.userId == userId && (IsNullOrEmpty(examType) || x.examType == examType.value)
  }

  function Selected(s: Store, userId: int, examType: Option<string>): seq<TrialExam> {
    Filter(s.exams, Selects(userId, examType))
  }

  /** `OrderBy(t => t.ExamDate)`: `a` may be listed before `b`. */
  predicate OlderOrSame(a: TrialExam, b: TrialExam) {
    a.examDate <= b.examDate
  }

  lemma OlderOrSameIsTotalPreorder()
    ensures TotalPreorder(OlderOrSame)
  {
  }

  /** The selected exams, oldest first (ties as the query returned them). */
  function OldestFirst(s: Store, userId: int, examType: Option<string>): (r: seq<TrialExam>)
    ensures IsSortingOf(r, Selected(s, userId, examType), OlderOrSame)
    ensures |r| == |Selected(s, userId, examType)|
  {
    OlderOrSameIsTotalPreorder();
    Sort(Selected(s, userId, examType), OlderOrSame)
  }

  /** A `TrialExamListItemDto`, nets in quarter points. */
  datatype ListItem = ListItem(id: int, name: string, examType: string, examDate: Instant,
                               netQuarters: int, changeQuarters: Option<int>)

  function ItemOf(x: TrialExam, change: Option<int>): ListItem {
    ListItem(x.id, x.name, x.examType, x.examDate, ExamNet(x), change)
  }

  /**
   * The loop over the exams oldest first: each item carries the exam's net and, from
   * the second on, its change against the exam before it.
   */
  function Chain(ordered: seq<TrialExam>): (r: seq<ListItem>)
    ensures |r| == |ordered|
    ensures forall i :: 0 <= i < |ordered| ==> r[i].id == ordered[i].id && r[i].examDate == ordered[i].examDate
    ensures forall i :: 0 <= i < |ordered| ==> r[i].netQuarters == ExamNet(ordered[i])
    ensures |ordered| > 0 ==> r[0].changeQuarters.None?
    ensures forall i :: 1 <= i < |ordered| ==> r[i].changeQuarters == Some(ExamNet(ordered[i]) - ExamNet(ordered[i - 1]))
  {
    if |ordered| == 0 then []
    else
      var n := |ordered|;
      var change := if n == 1 then None else Some(ExamNet(ordered[n - 1]) - ExamNet(ordered[n - 2]));
      Chain(ordered[..n - 1]) + [ItemOf(ordered[n - 1], change)]
  }

  /** The sum of the changes of the items before position `n`. */
  function ChangeSum(items: seq<ListItem>, n: nat): int
    requires n <= |items|
  {
    if n == 0 then 0 else ChangeSum(items, n - 1) + items[n - 1].changeQuarters.GetOr(0)
  }

  /** The changes telescope: together they are the newest net minus the oldest. */
  lemma {:induction false} ChangesTelescope(ordered: seq<TrialExam>, n: nat)
    requires 1 <= n <= |ordered|
    ensures ChangeSum(Chain(ordered), n) == ExamNet(ordered[n - 1]) - ExamNet(ordered[0])
  {
    if n > 1 {
      ChangesTelescope(ordered, n - 1);
    }
  }

  /** `a` may be listed before `b` in the newest-first list. */
  predicate ItemNewerOrSame(a: ListItem, b: ListItem) {
    a.examDate >= b.examDate
  }

  lemma ItemNewerOrSameIsTotalPreorder()
    ensures TotalPreorder(ItemNewerOrSame)
  {
  }

  /** `TrialExamStatsDto`; the average is kept as the sum of the nets over the count. */
  datatype Stats = Stats(totalTrials: nat, netQuarterSum: int, highestQuarters: int,
                         lastChangeQuarters: Option<int>, lastTrialDate: Option<Instant>)

  /** The highest net among the exams. */
  function MaxNet(exams: seq<TrialExam>): (m: int)
    requires |exams| > 0
    ensures exists k :: 0 <= k < |exams| && m == ExamNet(exams[k])
    ensures forall k :: 0 <= k < |exams| ==> ExamNet(exams[k]) <= m
  {
    if |exams| == 1 then ExamNet(exams[0])
    else
      var rest := MaxNet(exams[1..]);
      assert forall k :: 1 <= k < |exams| ==> exams[k] == exams[1..][k - 1];
      if ExamNet(exams[0]) >= rest then ExamNet(exams[0]) else rest
  }

  /** The last exam of an oldest-first order is one of the exams and none is later. */
  lemma NewestIsLatest(o: seq<TrialExam>, sel: seq<TrialExam>)
    requires IsSortingOf(o, sel, OlderOrSame) && |o| > 0
    ensures exists k :: 0 <= k < |sel| && o[|o| - 1] == sel[k]
    ensures forall k :: 0 <= k < |sel| ==> sel[k].examDate <= o[|o| - 1].examDate
  {
    var n := |o|;
    assert o[n - 1] in multiset(sel);
    forall k | 0 <= k < |sel| ensures sel[k].examDate <= o[n - 1].examDate {
      assert sel[k] in multiset(o);
      var j :| 0 <= j < n && o[j] == sel[k];
      assert j < n - 1 ==> OlderOrSame(o[j], o[n - 1]);
    }
  }

  /**
   * `GetTrialExamStatsAsync`: all zero and absent without exams; otherwise the count,
   * the sum of nets (the average's numerator), the highest net, the latest exam date,
   * and the change between the two newest exams when there are at least two.
   */
  function StatsOf(s: Store, userId: int, examType: Option<string>): (r: Stats)
    ensures var sel := Selected(s, userId, examType);
            && (|sel| == 0 ==> r == Stats(0, 0, 0, None, None))
            && (|sel| > 0 ==> Summarises(r, sel))
            && (r.lastChangeQuarters.Some? <==> |sel| >= 2)
    ensures r.lastChangeQuarters == NewestChangeIn(OldestFirst(s, userId, examType))
  {
    var sel := Selected(s, userId, examType);
    if |sel| == 0 then Stats(0, 0, 0, None, None)
    else StatsFrom(sel, OldestFirst(s, userId, examType))
  }

  /** The newest net minus the second newest, in an oldest-first order; none below two exams. */
  function NewestChangeIn(o: seq<TrialExam>): Option<int> {
    if |o| >= 2 then Some(ExamNet(o[|o| - 1]) - ExamNet(o[|o| - 2])) else None
  }

  /** The count, sum, highest net and latest date of a non-empty selection. */
  ghost predicate Summarises(r: Stats, sel: seq<TrialExam>) {
    && r.totalTrials == |sel|
    && r.netQuarterSum == SumOf(sel, ExamNet)
    && (exists k :: 0 <= k < |sel| && r.highestQuarters == ExamNet(sel[k]))
    && (forall k :: 0 <= k < |sel| ==> ExamNet(sel[k]) <= r.highestQuarters)
    && r.lastTrialDate.Some?
    && (exists k :: 0 <= k < |sel| && r.lastTrialDate.value == sel[k].examDate)
    && (forall k :: 0 <= k < |sel| ==> sel[k].examDate <= r.lastTrialDate.value)
  }

  /** The statistics of a non-empty selection, given the selection oldest first. */
  function StatsFrom(sel: seq<TrialExam>, o: seq<TrialExam>): (r: Stats)
    requires IsSortingOf(o, sel, OlderOrSame) && |o| == |sel| > 0
    ensures Summarises(r, sel)
    ensures r.lastChangeQuarters.Some? <==> |sel| >= 2
    ensures |o| >= 2 ==> r.lastChangeQuarters == Some(ExamNet(o[|o| - 1]) - ExamNet(o[|o| - 2]))
  {
    var n := |o|;
    NewestIsLatest(o, sel);
    var change := if n >= 2 then Some(ExamNet(o[n - 1]) - ExamNet(o[n - 2])) else None;
    Stats(n, SumOf(sel, ExamNet), MaxNet(sel), change, Some(o[n - 1].examDate))
  }

  /** The average net is at most the highest net. */
  lemma AverageAtMostHighest(s: Store, userId: int, examType: Option<string>)
    ensures var r := StatsOf(s, userId, examType);
            r.netQuarterSum <= r.highestQuarters * r.totalTrials
  {
    var sel := Selected(s, userId, examType);
    if |sel| > 0 {
      var r := StatsOf(s, userId, examType);
      SumOfBounds(sel, ExamNet, MinNetLower(sel), r.highestQuarters);
    }
  }

  /** A lower bound on the nets, to pair with the highest in a bounds argument. */
  function MinNetLower(exams: seq<TrialExam>): (m: int)
    ensures forall k :: 0 <= k < |exams| ==> m <= ExamNet(exams[k])
  {
    if |exams| == 0 then 0
    else
      var rest := MinNetLower(exams[1..]);
      assert forall k :: 1 <= k < |exams| ==> exams[k] == exams[1..][k - 1];
      if ExamNet(exams[0]) <= rest then ExamNet(exams[0]) else rest
  }

  /** `TrialExamListResponse`. */
  datatype ListResponse = ListResponse(trials: seq<ListItem>, stats: Stats)

  /**
   * `GetTrialExamsAsync`: the net chain computed oldest first, listed newest first,
   * with the statistics of the same selection.
   */
  function ListExams(s: Store, userId: int, examType: Option<string>): (r: ListResponse)
    ensures IsSortingOf(r.trials, Chain(OldestFirst(s, userId, examType)), ItemNewerOrSame)
    ensures |r.trials| == |Selected(s, userId, examType)|
    ensures r.stats == StatsOf(s, userId, examType)
  {
    ItemNewerOrSameIsTotalPreorder();
    ListResponse(Sort(Chain(OldestFirst(s, userId, examType)), ItemNewerOrSame), StatsOf(s, userId, examType))
  }

  /** The statistics' last change is the change carried by the newest item of the net chain. */
  lemma StatsMatchChain(s: Store, userId: int, examType: Option<string>)
    requires |Selected(s, userId, examType)| > 0
    ensures var c := Chain(OldestFirst(s, userId, examType));
            |c| > 0 && StatsOf(s, userId, examType).lastChangeQuarters == c[|c| - 1].changeQuarters
  {
    var o := OldestFirst(s, userId, examType);
    var r := StatsOf(s, userId, examType);
    if |o| < 2 {
      assert r.lastChangeQuarters.None?;
    }
  }

  /** Without tied exam dates the oldest-first order of a selection is unique. */
  lemma OldestFirstUnique(sel: seq<TrialExam>, a: seq<TrialExam>, b: seq<TrialExam>)
    requires DistinctDates(sel)
    requires IsSortingOf(a, sel, OlderOrSame) && IsSortingOf(b, sel, OlderOrSame)
    ensures a == b
  {
    forall x, y | x in a && y in a && OlderOrSame(x, y) && OlderOrSame(y, x) ensures x == y {
      assert x in multiset(sel) && y in multiset(sel);
      var i :| 0 <= i < |sel| && sel[i] == x;
      var j :| 0 <= j < |sel| && sel[j] == y;
      assert i == j;
    }
    SortedUnique(a, b, OlderOrSame);
  }

  /**
   * Without tied exam dates the statistics' last change is the difference between the
   * two newest exams of ANY oldest-first order, so it does not depend on how the query
   * happens to order the rows.
   */
  lemma StatsAnyOrder(s: Store, userId: int, examType: Option<string>, o: seq<TrialExam>)
    requires DistinctDates(Selected(s, userId, examType))
    requires IsSortingOf(o, Selected(s, userId, examType), OlderOrSame) && |o| >= 2
    ensures StatsOf(s, userId, examType).lastChangeQuarters == Some(ExamNet(o[|o| - 1]) - ExamNet(o[|o| - 2]))
  {
    OldestFirstUnique(Selected(s, userId, examType), o, OldestFirst(s, userId, examType));
    assert StatsOf(s, userId, examType).lastChangeQuarters == NewestChangeIn(o);
  }

  /**
   * Without tied exam dates the list and the statistics agree whatever oldest-first order
   * the list's query returns: the newest item's change is the statistics' last change.
   */
  lemma StatsMatchListOrder(s: Store, userId: int, examType: Option<string>, o: seq<TrialExam>)
    requires DistinctDates(Selected(s, userId, examType)) && |Selected(s, userId, examType)| > 0
    requires IsSortingOf(o, Selected(s, userId, examType), OlderOrSame)
    ensures var c := Chain(o);
            |c| > 0 && StatsOf(s, userId, examType).lastChangeQuarters == c[|c| - 1].changeQuarters
  {
    OldestFirstUnique(Selected(s, userId, examType), o, OldestFirst(s, userId, examType));
    StatsMatchChain(s, userId, examType);
  }
}

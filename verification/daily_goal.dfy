/** The daily study goal (`DailyGoal`): its defaults and its completion percentage. */
module DailyGoals {
  import opened Seqs
  import opened Clock

  datatype DailyGoal = DailyGoal(
    id: int,
    userId: int,
    goalDate: Day,
    targetStudyMinutes: int,
    actualStudyMinutes: int,
    targetSubjects: int,
    completedSubjects: int,
    isCompleted: bool)

  /** A goal as created: nothing studied yet, three subjects targeted, not completed. */
  function NewGoal(id: int, userId: int, goalDate: Day, target: int): (g: DailyGoal)
    ensures g.targetStudyMinutes == target && g.actualStudyMinutes == 0
    ensures g.targetSubjects == 3 && g.completedSubjects == 0 && !g.isCompleted
    ensures CompletionPercentage(g) == 0
  {
    DailyGoal(id, userId, goalDate, target, 0, 3, 0, false)
  }

  /**
   * `CompletionPercentage`: 0 without a positive target; otherwise the whole percent
   * of the target studied, truncated toward zero and capped at 100.
   */
  function CompletionPercentage(g: DailyGoal): (p: int)
    ensures g.targetStudyMinutes <= 0 ==> p == 0
    ensures g.targetStudyMinutes > 0 && g.actualStudyMinutes >= 0 ==> 0 <= p <= 100
    ensures g.targetStudyMinutes > 0 && g.actualStudyMinutes >= g.targetStudyMinutes ==> p == 100
    ensures g.targetStudyMinutes > 0 && 0 <= g.actualStudyMinutes && p < 100 ==>
      p * g.targetStudyMinutes <= g.actualStudyMinutes * 100 < (p + 1) * g.targetStudyMinutes
  {
    if g.targetStudyMinutes > 0 then
      PercentFacts(g.actualStudyMinutes, g.targetStudyMinutes);
      Min(100, TruncDiv(g.actualStudyMinutes * 100, g.targetStudyMinutes))
    else 0
  }

  lemma PercentFacts(actual: int, target: int)
    requires target > 0
    ensures actual >= 0 ==> TruncDiv(actual * 100, target) >= 0
    ensures actual >= 0 ==>
      TruncDiv(actual * 100, target) * target <= actual * 100 < (TruncDiv(actual * 100, target) + 1) * target
    ensures actual >= target ==> TruncDiv(actual * 100, target) >= 100
  {
    if actual >= 0 {
      QuotientBounds(actual * 100, target);
    }
    if actual >= target {
      CompleteQuotient(actual, target);
    }
  }

  /** A non-negative quotient brackets the dividend between two multiples of the divisor. */
  lemma QuotientBounds(a: int, d: int)
    requires a >= 0 && d > 0
    ensures TruncDiv(a, d) >= 0
    ensures TruncDiv(a, d) * d <= a < (TruncDiv(a, d) + 1) * d
  {
    var q := TruncDiv(a, d);
    assert (q + 1) * d == q * d + d;
    if q < 0 {
      MulMonotonic(q, -1, d);
    }
  }

  /** Studying the whole target gives a quotient of at least 100. */
  lemma CompleteQuotient(actual: int, target: int)
    requires actual >= target > 0
    ensures TruncDiv(actual * 100, target) >= 100
  {
    var q := TruncDiv(actual * 100, target);
    QuotientBounds(actual * 100, target);
    MulMonotonic(target, actual, 100);
    if q < 100 {
      MulMonotonic(q + 1, 100, target);
    }
  }

  lemma MulMonotonic(x: int, y: int, t: int)
    requires x <= y && t >= 0
    ensures x * t <= y * t
  {
    assert y * t - x * t == (y - x) * t;
  }

  /** Division by a positive number keeps order. */
  lemma DivMonotonic(a: int, b: int, d: int)
    requires 0 <= a <= b && d > 0
    ensures TruncDiv(a, d) <= TruncDiv(b, d)
  {
    var qa := TruncDiv(a, d);
    var qb := TruncDiv(b, d);
    QuotientBounds(a, d);
    QuotientBounds(b, d);
    if qa > qb {
      MulMonotonic(qb + 1, qa, d);
    }
  }

  /** For a fixed positive target, studying more never lowers the percentage. */
  lemma PercentageMonotonic(g: DailyGoal, more: int)
    requires g.targetStudyMinutes > 0 && 0 <= g.actualStudyMinutes <= more
    ensures CompletionPercentage(g) <= CompletionPercentage(g.(actualStudyMinutes := more))
  {
    MulMonotonic(g.actualStudyMinutes, more, 100);
    DivMonotonic(g.actualStudyMinutes * 100, more * 100, g.targetStudyMinutes);
  }
}

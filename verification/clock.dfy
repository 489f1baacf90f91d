/**
 * C# integer division and the calendar quantities the services read off `DateTime`
 * and `DateOnly`. The services call `DateTime.UtcNow`; here "now" and "today" are
 * parameters of every operation that needs them.
 */
module Clock {

  const SecondsPerMinute: nat := 60
  const SecondsPerHour: nat := 3600
  const SecondsPerDay: nat := 86400

  /** A UTC `DateTime`, as whole seconds since 0001-01-01T00:00:00Z. */
  type Instant = nat

  /** A `TimeOnly`, as seconds after midnight. */
  type TimeOfDay = s: int | 0 <= s < 86400

  /** A `DateOnly` (or `DateTime.Date`), as a day number; day 0 is 0001-01-01, a Monday. */
  type Day = int

  /**
   * C#'s `/` on `int`: the quotient truncated toward zero (Dafny's `/` is Euclidean).
   * The remainder it leaves has the sign of the dividend and is smaller than the divisor.
   */
  function TruncDiv(a: int, b: int): (q: int)
    requires b > 0
    ensures a >= 0 ==> 0 <= a - q * b < b
    ensures a < 0 ==> -b < a - q * b <= 0
  {
    if a >= 0 then a / b else -((-a) / b)
  }

  /** `DateTime.Date` as a day number. */
  function DayOf(t: Instant): (d: Day)
    ensures d >= 0
    ensures d * SecondsPerDay <= t < (d + 1) * SecondsPerDay
  {
    t / SecondsPerDay
  }

  /** `DateTime.Hour`. */
  function HourOf(t: Instant): (h: int)
    ensures 0 <= h < 24
  {
    (t / SecondsPerHour) % 24
  }

  /** `(int)DayOfWeek`, Sunday = 0 … Saturday = 6. */
  function DayOfWeek(d: Day): (w: int)
    ensures 0 <= w < 7
    ensures w == 0 <==> (d + 1) % 7 == 0
  {
    (d + 1) % 7
  }

  /** `today.AddDays(-(int)today.DayOfWeek)`: the Sunday that opens the week of `d`. */
  function WeekStart(d: Day): (s: Day)
    ensures s <= d < s + 7
    ensures DayOfWeek(s) == 0
  {
    d - DayOfWeek(d)
  }

  /** `time.AddHours(3).Hour`: the hour of the day at UTC+3. */
  function LocalHour(t: Instant): (h: int)
    ensures h == (HourOf(t) + 3) % 24
  {
    assert (t + 3 * SecondsPerHour) / SecondsPerHour == t / SecondsPerHour + 3;
    HourOf(t + 3 * SecondsPerHour)
  }

  /** `(int)(to - from).TotalMinutes`: whole elapsed minutes, truncated toward zero. */
  function ElapsedWholeMinutes(from: Instant, to: Instant): (m: int)
    ensures from <= to ==> m * SecondsPerMinute <= to - from < (m + 1) * SecondsPerMinute
    ensures to <= from ==> m <= 0
  {
    TruncDiv(to - from, SecondsPerMinute)
  }
}

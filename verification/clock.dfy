/**
 * Calendar arithmetic over an abstract integer clock.
 *
 * An instant is a count of milliseconds on the household's civil (Pacific)
 * wall-clock scale; day `d` is the civil day starting at `d * MsPerDay`, and
 * day 0 (1970-01-01) was a Thursday. A week-start date ("YYYY-MM-DD") is the
 * index of its day.
 */
module Clock {
  import opened Options

  const MsPerDay: int := 86_400_000
  const MsPerHour: int := 3_600_000
  const MsPerMinute: int := 60_000
  const MsPerSecond: int := 1_000

  /** The civil day an instant falls on (floor division, as for `setHours(0, 0, 0, 0)`). */
  function Day(t: int): int {
    t / MsPerDay
  }

  /** `getDay()` of day `d`: 0 = Sunday, ..., 6 = Saturday. */
  function Weekday(d: int): int {
    (d + 4) % 7
  }

  function DayOfWeek(t: int): int {
    Weekday(Day(t))
  }

  /** The first and last instant of day `d`. */
  lemma DayBounds(d: int)
    ensures Day(d * MsPerDay) == d
    ensures Day(d * MsPerDay + MsPerDay - 1) == d
  {
  }

  /** An instant lies after the start of its own day and before the next. */
  lemma InstantWithinDay(t: int)
    ensures Day(t) * MsPerDay <= t < Day(t) * MsPerDay + MsPerDay
  {
  }

  /** `getMidnightPacificToday`: the start of the current civil day. */
  function MidnightToday(now: int): (m: int)
    ensures m <= now < m + MsPerDay
    ensures Day(m) == Day(now)
    ensures m % MsPerDay == 0
  {
    InstantWithinDay(now);
    DayBounds(Day(now));
    Day(now) * MsPerDay
  }

  /** `getWeekStartDate`: the day `today - getDay()`, the most recent Sunday. */
  function WeekStartDay(now: int): (d: int)
    ensures d <= Day(now) < d + 7
    ensures Weekday(d) == 0
  {
    Day(now) - DayOfWeek(now)
  }

  /** A Sunday `w` is the week start of every instant of the seven days it begins, and of no other. */
  lemma WeekStartOfSunday(w: int, t: int)
    ensures Weekday(w) == 0 ==> (WeekStartDay(t) == w <==> w <= Day(t) < w + 7)
  {
    if Weekday(w) == 0 && w <= Day(t) < w + 7 {
      // Day(t) is w + x for the offset x in [0, 7), and x is its weekday.
      var q := (w + 4) / 7;
      var x := Day(t) - w;
      assert Day(t) + 4 == 7 * q + x;
      assert DayOfWeek(t) == x;
    }
  }

  /**
   * `shouldResetDaily`: a missing marker is always due; otherwise the reset is
   * due exactly when today's midnight is strictly after the marker, which is
   * exactly when today is a later civil day than the marker's.
   */
  function ShouldResetDaily(lastReset: Option<int>, now: int): (r: bool)
    ensures lastReset.None? ==> r
    ensures lastReset.Some? ==> (r <==> Day(now) > Day(lastReset.value))
  {
    match lastReset
    case None => true
    case Some(last) =>
      InstantWithinDay(last);
      MidnightAfterIffLaterDay(now, last);
      MidnightToday(now) > last
  }

  lemma MidnightAfterIffLaterDay(now: int, last: int)
    ensures Day(now) * MsPerDay > last <==> Day(now) > Day(last)
  {
    InstantWithinDay(last);
    if Day(now) > Day(last) {
      MulMonotone(Day(last) + 1, Day(now));
    } else {
      MulMonotone(Day(now), Day(last));
    }
  }

  lemma MulMonotone(a: int, b: int)
    requires a <= b
    ensures a * MsPerDay <= b * MsPerDay
  {
  }

  /** After stamping the daily marker at `now`, no reset is due again until the next civil day. */
  lemma DailyMarkerHoldsForTheDay(now: int, later: int)
    requires now <= later
    ensures !ShouldResetDaily(Some(now), later) <==> Day(later) == Day(now)
  {
    DayMonotone(now, later);
  }

  lemma DayMonotone(a: int, b: int)
    requires a <= b
    ensures Day(a) <= Day(b)
  {
  }

  /**
   * `shouldResetWeekly`: a missing week start is always due; otherwise the
   * reset is due exactly when it differs from the current week start.
   */
  function ShouldResetWeekly(weekStart: Option<int>, now: int): (r: bool)
    ensures weekStart.None? ==> r
    ensures weekStart.Some? && Weekday(weekStart.value) == 0 ==>
              (r <==> !(weekStart.value <= Day(now) < weekStart.value + 7))
    ensures weekStart.Some? && Weekday(weekStart.value) != 0 ==> r
  {
    match weekStart
    case None => true
    case Some(w) =>
      WeekStartOfSunday(w, now);
      WeekStartDay(now) != w
  }

  /** Once the week start is stamped with the current one, the weekly reset is not due again that week. */
  lemma WeeklyMarkerHoldsForTheWeek(now: int, later: int)
    ensures !ShouldResetWeekly(Some(WeekStartDay(now)), later) <==>
              WeekStartDay(now) <= Day(later) < WeekStartDay(now) + 7
  {
  }

  datatype Range = Range(start: int, end: int)

  /** `getCurrentWeekRange`: from Sunday 00:00 to the following Saturday 23:59:59.999. */
  function CurrentWeekRange(now: int): (r: Range)
    ensures r.start <= now <= r.end
    ensures r.end - r.start == 7 * MsPerDay - 1
    ensures Day(r.start) == WeekStartDay(now) && DayOfWeek(r.start) == 0
    ensures Day(r.end) == Day(r.start) + 6 && DayOfWeek(r.end) == 6
  {
    var start := WeekStartDay(now) * MsPerDay;
    var end := start + 6 * MsPerDay + 23 * MsPerHour + 59 * MsPerMinute + 59 * MsPerSecond + 999;
    InstantWithinDay(now);
    DayBounds(WeekStartDay(now));
    DayBounds(WeekStartDay(now) + 6);
    MulMonotone(WeekStartDay(now), Day(now));
    MulMonotone(Day(now) + 1, WeekStartDay(now) + 7);
    Range(start, end)
  }
}

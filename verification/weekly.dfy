/**
 * Weekly stats: the live per-child totals with their per-day buckets, and the
 * rollover that archives a finished week into the bounded history.
 */
module Weekly {
  import opened Options
  import opened JsonObject
  import opened Model

  /** Past weeks kept in the history; with the live week that makes six. */
  const HistoryLimit: nat := 5

  const FreshChild: ChildStats := ChildStats(0, 0, [])
  const FreshDay: DayStats := DayStats(0, 0)

  /** `Math.max(0, x)`. */
  function Max0(x: int): (r: int)
    ensures r >= 0 && r >= x && (x >= 0 ==> r == x)
  {
    if x < 0 then 0 else x
  }

  /** A child's stats, `{0, 0, {}}` when the child has none yet. */
  function StatsOf(w: WeekStats, childId: string): ChildStats {
    Get(w.children, childId).GetOr(FreshChild)
  }

  /** A day's bucket, `{0, 0}` when there is none yet. */
  function DayOf(cs: ChildStats, day: string): DayStats {
    Get(cs.dailyHistory, day).GetOr(FreshDay)
  }

  /**
   * `updateWeeklyStats`: adds one task and `points` to the child's totals and
   * to today's bucket, or with `isUndo` subtracts them, floored at 0. The
   * child and the bucket are created when missing, even on an undo.
   */
  function UpdateWeeklyStats(w: WeekStats, childId: string, points: int, isUndo: bool, today: string): (r: WeekStats)
    ensures r.weekStartDate == w.weekStartDate
    ensures forall c {:trigger Get(r.children, c)} :: c != childId ==> Get(r.children, c) == Get(w.children, c)
    ensures Get(r.children, childId).Some? && Get(Get(r.children, childId).value.dailyHistory, today).Some?
    ensures var before := StatsOf(w, childId);
            var after := StatsOf(r, childId);
            forall d {:trigger Get(after.dailyHistory, d)} :: d != today ==>
              Get(after.dailyHistory, d) == Get(before.dailyHistory, d)
    ensures var before := StatsOf(w, childId);
            var after := StatsOf(r, childId);
            !isUndo ==>
              && after.tasksCompleted == before.tasksCompleted + 1
              && after.pointsEarned == before.pointsEarned + points
              && DayOf(after, today) == DayStats(DayOf(before, today).tasks + 1, DayOf(before, today).points + points)
    ensures var before := StatsOf(w, childId);
            var after := StatsOf(r, childId);
            isUndo ==>
              && after.tasksCompleted == Max0(before.tasksCompleted - 1)
              && after.pointsEarned == Max0(before.pointsEarned - points)
              && DayOf(after, today) == DayStats(Max0(DayOf(before, today).tasks - 1), Max0(DayOf(before, today).points - points))
    ensures UniqueKeys(w.children) ==> UniqueKeys(r.children)
  {
    var cs' := UpdateChild(StatsOf(w, childId), points, isUndo, today);
    PutKeepsUniqueKeys(w.children, childId, cs');
    w.(children := Put(w.children, childId, cs'))
  }

  /** One child's part of `updateWeeklyStats`. */
  function UpdateChild(cs: ChildStats, points: int, isUndo: bool, today: string): (r: ChildStats)
    ensures Get(r.dailyHistory, today).Some?
  {
    var tasksCompleted := if isUndo then Max0(cs.tasksCompleted - 1) else cs.tasksCompleted + 1;
    var pointsEarned := if isUndo then Max0(cs.pointsEarned - points) else cs.pointsEarned + points;
    ChildStats(tasksCompleted, pointsEarned, Put(cs.dailyHistory, today, Tally(DayOf(cs, today), points, isUndo)))
  }

  /** One day's bucket after counting (or, with `isUndo`, uncounting) a task. */
  function Tally(day: DayStats, points: int, isUndo: bool): DayStats {
    if isUndo then DayStats(Max0(day.tasks - 1), Max0(day.points - points))
    else DayStats(day.tasks + 1, day.points + points)
  }

  predicate DayNonNegative(d: DayStats) {
    d.tasks >= 0 && d.points >= 0
  }

  predicate ChildNonNegative(cs: ChildStats) {
    cs.tasksCompleted >= 0 && cs.pointsEarned >= 0 && forall e :: e in cs.dailyHistory ==> DayNonNegative(e.1)
  }

  /** No counter anywhere in a week's stats is negative. */
  predicate NonNegative(w: WeekStats) {
    forall e :: e in w.children ==> ChildNonNegative(e.1)
  }

  /** An undo, or a completion worth non-negative points, keeps every weekly counter non-negative. */
  lemma UpdateKeepsNonNegative(w: WeekStats, childId: string, points: int, isUndo: bool, today: string)
    requires NonNegative(w)
    requires isUndo || points >= 0
    ensures NonNegative(UpdateWeeklyStats(w, childId, points, isUndo, today))
  {
    var cs := StatsOf(w, childId);
    assert ChildNonNegative(cs) by {
      if Get(w.children, childId).Some? {
        assert (childId, cs) in w.children;
      }
    }
    var cs' := UpdateChild(cs, points, isUndo, today);
    PutEntries(w.children, childId, cs');
    PutEntries(cs.dailyHistory, today, Tally(DayOf(cs, today), points, isUndo));
    assert DayNonNegative(DayOf(cs, today)) by {
      if Get(cs.dailyHistory, today).Some? {
        assert (today, DayOf(cs, today)) in cs.dailyHistory;
      }
    }
  }

  /**
   * Undoing a completion right after recording it restores the stats, once the
   * child and today's bucket exist and the counters are non-negative.
   */
  lemma UndoRestoresStats(w: WeekStats, childId: string, points: int, today: string)
    requires UniqueKeys(w.children) && NonNegative(w)
    requires Get(w.children, childId).Some? && Get(Get(w.children, childId).value.dailyHistory, today).Some?
    ensures UpdateWeeklyStats(UpdateWeeklyStats(w, childId, points, false, today), childId, points, true, today) == w
  {
    var cs := Get(w.children, childId).value;
    assert (childId, cs) in w.children;
    var cs1 := UpdateChild(cs, points, false, today);
    assert (today, Get(cs.dailyHistory, today).value) in cs.dailyHistory;
    UndoRestoresChild(cs, points, today);
    PutPut(w.children, childId, cs1, cs);
    PutExisting(w.children, childId);
  }

  lemma UndoRestoresChild(cs: ChildStats, points: int, today: string)
    requires cs.tasksCompleted >= 0 && cs.pointsEarned >= 0
    requires Get(cs.dailyHistory, today).Some? && DayNonNegative(Get(cs.dailyHistory, today).value)
    ensures UpdateChild(UpdateChild(cs, points, false, today), points, true, today) == cs
  {
    var day := Get(cs.dailyHistory, today).value;
    var day1 := Tally(day, points, false);
    var cs1 := UpdateChild(cs, points, false, today);
    assert cs1.dailyHistory == Put(cs.dailyHistory, today, day1);
    assert DayOf(cs1, today) == day1;
    var cs2 := UpdateChild(cs1, points, true, today);
    assert cs2.tasksCompleted == cs.tasksCompleted;
    assert cs2.pointsEarned == cs.pointsEarned;
    TallyUndo(day, points);
    assert cs2.dailyHistory == Put(Put(cs.dailyHistory, today, day1), today, day);
    PutPut(cs.dailyHistory, today, day1, day);
    PutExisting(cs.dailyHistory, today);
  }

  /** Uncounting a task just counted restores a non-negative bucket. */
  lemma TallyUndo(day: DayStats, points: int)
    requires DayNonNegative(day)
    ensures Tally(Tally(day, points, false), points, true) == day
  {
  }

  /**
   * `resetWeeklyStats`: when the live week has a start date, prepends it to the
   * history and drops the oldest entry if that makes more than five; the live
   * stats always become a fresh, empty week starting at `newWeekStart`.
   */
  function ResetWeeklyStats(s: Store, newWeekStart: int): (r: Store)
    ensures r == s.(weeklyStats := r.weeklyStats, weeklyHistory := r.weeklyHistory)
    ensures r.weeklyStats == WeekStats(Some(newWeekStart), [])
    ensures s.weeklyStats.weekStartDate.None? ==> r.weeklyHistory == s.weeklyHistory
    ensures s.weeklyStats.weekStartDate.Some? ==>
              && |r.weeklyHistory| == (if |s.weeklyHistory| < HistoryLimit then |s.weeklyHistory| + 1 else |s.weeklyHistory|)
              && r.weeklyHistory[0] == s.weeklyStats
              && r.weeklyHistory[1..] == s.weeklyHistory[..|r.weeklyHistory| - 1]
    ensures |s.weeklyHistory| <= HistoryLimit ==> |r.weeklyHistory| <= HistoryLimit
  {
    var history :=
      if s.weeklyStats.weekStartDate.Some? then
        var prepended := [WeekStats(s.weeklyStats.weekStartDate, s.weeklyStats.children)] + s.weeklyHistory;
        if |prepended| > HistoryLimit then prepended[..|prepended| - 1] else prepended
      else s.weeklyHistory;
    s.(weeklyStats := WeekStats(Some(newWeekStart), []), weeklyHistory := history)
  }

  /** Applies `resetWeeklyStats` once for each week start in `starts`, in order. */
  function ResetAll(s: Store, starts: seq<int>): Store
    decreases |starts|
  {
    if |starts| == 0 then s else ResetAll(ResetWeeklyStats(s, starts[0]), starts[1..])
  }

  lemma {:induction false} HistoryStaysBounded(s: Store, starts: seq<int>)
    requires |s.weeklyHistory| <= HistoryLimit
    ensures |ResetAll(s, starts).weeklyHistory| <= HistoryLimit
    ensures |starts| > 0 ==> ResetAll(s, starts).weeklyStats == WeekStats(Some(starts[|starts| - 1]), [])
    decreases |starts|
  {
    if |starts| > 0 {
      HistoryStaysBounded(ResetWeeklyStats(s, starts[0]), starts[1..]);
    }
  }
}

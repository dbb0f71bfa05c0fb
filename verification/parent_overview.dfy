/**
 * The parent's weekly overview: undoing a completion from today's list, which
 * ledger keys that list shows, and the six bars of the weekly chart.
 */
module ParentOverview {
  import opened Options
  import opened JsonObject
  import opened Model
  import Ledger
  import Weekly
  import Resets

  /**
   * `handleConfirmRemove`: always runs the ledger undo, and undoes the weekly
   * stats only when the task is still in the catalogue.
   */
  function HandleConfirmRemove(s: Store, childId: string, taskId: string, today: string): (r: Store)
    ensures r == s.(completions := r.completions, weeklyStats := r.weeklyStats)
    ensures r.completions == Ledger.RemoveCompletion(s, childId, taskId).completions
    ensures FindTask(s.tasks, taskId).None? ==> r.weeklyStats == s.weeklyStats
    ensures FindTask(s.tasks, taskId).Some? ==>
              r.weeklyStats == Weekly.UpdateWeeklyStats(s.weeklyStats, childId, FindTask(s.tasks, taskId).value.points, true, today)
  {
    var removed := Ledger.RemoveCompletion(s, childId, taskId);
    match FindTask(s.tasks, taskId)
    case None => removed
    case Some(task) => removed.(weeklyStats := Weekly.UpdateWeeklyStats(s.weeklyStats, childId, task.points, true, today))
  }

  /** Removing a listed completion takes exactly the task's points back from the child. */
  lemma ConfirmRemoveReturnsPoints(s: Store, childId: string, taskId: string, today: string)
    requires WellFormedLedger(s.completions)
    requires taskId in TodaysCompleted(s.completions, childId, s.tasks)
    ensures Ledger.CalculatePoints(childId, HandleConfirmRemove(s, childId, taskId, today).completions, s.tasks)
            == Ledger.CalculatePoints(childId, s.completions, s.tasks) - FindTask(s.tasks, taskId).value.points
  {
    Ledger.RemoveCompletionReturnsPoints(s, childId, taskId);
  }

  /**
   * The two halves are not tied together: confirming a removal for a task that
   * is no longer done (the list was stale) leaves the ledger alone but still
   * subtracts the task from the week's totals.
   */
  lemma ConfirmRemoveOfUndoneTaskStillUndoesStats(s: Store, childId: string, taskId: string, today: string)
    requires !IsCompleted(s.completions, childId, taskId) && FindTask(s.tasks, taskId).Some?
    requires Weekly.StatsOf(s.weeklyStats, childId).tasksCompleted > 0
    ensures var r := HandleConfirmRemove(s, childId, taskId, today);
            r.completions == s.completions &&
            Weekly.StatsOf(r.weeklyStats, childId).tasksCompleted == Weekly.StatsOf(s.weeklyStats, childId).tasksCompleted - 1
  {
  }

  /**
   * The "Today's Completed Tasks" list: the child's ledger keys, in order,
   * without the redemption accumulator, ids missing from the catalogue, or
   * counts that are not positive.
   */
  function TodaysCompleted(c: Completions, childId: string, tasks: seq<Task>): (r: seq<string>)
    ensures forall k :: k in r <==>
              k in Keys(ChildEntries(c, childId)) && k != RedemptionKey && FindTask(tasks, k).Some? && IsCompleted(c, childId, k)
    ensures |r| <= |Keys(ChildEntries(c, childId))|
  {
    Shown(ChildEntries(c, childId), ChildEntries(c, childId), tasks)
  }

  /** Filters the keys of `rest`, a suffix of `entries`, reading each count from `entries`. */
  function Shown(entries: Obj<int>, rest: Obj<int>, tasks: seq<Task>): (r: seq<string>)
    ensures forall k :: k in r <==>
              k in Keys(rest) && k != RedemptionKey && FindTask(tasks, k).Some? &&
              Get(entries, k).Some? && Get(entries, k).value > 0
    ensures |r| <= |Keys(rest)|
  {
    if |rest| == 0 then []
    else
      var k := rest[0].0;
      var tail := Shown(entries, rest[1..], tasks);
      if k != RedemptionKey && FindTask(tasks, k).Some? && Get(entries, k).Some? && Get(entries, k).value > 0
      then [k] + tail
      else tail
  }

  /** Right after a daily reset the list is empty for every child. */
  lemma TodaysCompletedEmptyAfterReset(s: Store, childId: string)
    ensures TodaysCompleted(Resets.ResetDailyTasks(s).completions, childId, s.tasks) == []
  {
  }

  /** A week's points for the child, 0 when the child has no stats that week. */
  function ChildPoints(w: WeekStats, childId: string): (r: int)
    ensures Get(w.children, childId).None? ==> r == 0
    ensures Get(w.children, childId).Some? ==> r == Get(w.children, childId).value.pointsEarned
  {
    match Get(w.children, childId)
    case None => 0
    case Some(cs) => cs.pointsEarned
  }

  /** How a bar is labelled: a `...` placeholder, the start date of a past week, or "This Week". */
  datatype ChartLabel = Padding | WeekOf(start: Option<int>) | ThisWeek

  datatype Bar = Bar(caption: ChartLabel, points: int, isCurrent: bool)

  /** Past weeks the chart shows: the newest five of the history. */
  function ShownWeeks(history: seq<WeekStats>): (n: nat)
    ensures n <= 5 && n <= |history|
    ensures n == 5 || n == |history|
  {
    if |history| < 5 then |history| else 5
  }

  /** `xs` back to front. */
  function Reverse<T>(xs: seq<T>): (r: seq<T>)
    ensures |r| == |xs|
    ensures forall i :: 0 <= i < |xs| ==> r[i] == xs[|xs| - 1 - i]
  {
    if |xs| == 0 then [] else Reverse(xs[1..]) + [xs[0]]
  }

  function PastBars(weeks: seq<WeekStats>, childId: string): (r: seq<Bar>)
    ensures |r| == |weeks|
    ensures forall i :: 0 <= i < |weeks| ==> r[i] == Bar(WeekOf(weeks[i].weekStartDate), ChildPoints(weeks[i], childId), false)
  {
    if |weeks| == 0 then []
    else [Bar(WeekOf(weeks[0].weekStartDate), ChildPoints(weeks[0], childId), false)] + PastBars(weeks[1..], childId)
  }

  function PaddingBars(n: nat): (r: seq<Bar>)
    ensures |r| == n && forall i :: 0 <= i < n ==> r[i] == Bar(Padding, 0, false)
  {
    if n == 0 then [] else [Bar(Padding, 0, false)] + PaddingBars(n - 1)
  }

  /**
   * The six-week chart: placeholders first, then up to five past weeks oldest
   * first (the history is stored newest first), then the live week.
   */
  function ChartSeries(history: seq<WeekStats>, current: WeekStats, childId: string): (r: seq<Bar>)
    ensures |r| == 6
    ensures forall i :: 0 <= i < 6 ==> (r[i].isCurrent <==> i == 5)
    ensures r[5] == Bar(ThisWeek, ChildPoints(current, childId), true)
    ensures var n := ShownWeeks(history);
            forall i :: 0 <= i < 5 - n ==> r[i] == Bar(Padding, 0, false)
    ensures var n := ShownWeeks(history);
            forall i :: 5 - n <= i < 5 ==>
              r[i] == Bar(WeekOf(history[4 - i].weekStartDate), ChildPoints(history[4 - i], childId), false)
    ensures |history| > 0 ==> r[4].caption == WeekOf(history[0].weekStartDate)
  {
    var n := ShownWeeks(history);
    var past := PastBars(Reverse(history[..n]), childId);
    PaddingBars(5 - n) + past + [Bar(ThisWeek, ChildPoints(current, childId), true)]
  }
}

/**
 * The child's task screen: the reset check it runs on entry, what a tap on a
 * task card does, and the two ways out of the verification dialog.
 */
module KidsTaskView {
  import opened Options
  import opened JsonObject
  import opened Model
  import Clock
  import Ledger
  import Resets
  import Weekly
  import Approval

  /**
   * `checkResets`: the daily reset (and a fresh daily marker) when a new day
   * has begun, then, independently, the weekly rollover to the current week
   * start when the live stats belong to another week. Both can fire at once.
   */
  function CheckResets(s: Store, now: int): (r: Store)
    ensures r == s.(completions := r.completions, lastResetDate := r.lastResetDate,
                    weeklyStats := r.weeklyStats, weeklyHistory := r.weeklyHistory)
    ensures Clock.ShouldResetDaily(s.lastResetDate, now) ==>
              && r.lastResetDate == Some(now)
              && forall e :: e in r.completions ==> Resets.OnlyRedemption(e.1)
    ensures !Clock.ShouldResetDaily(s.lastResetDate, now) ==>
              r.lastResetDate == s.lastResetDate && r.completions == s.completions
    ensures Clock.ShouldResetDaily(s.lastResetDate, now) ==>
              r.completions == Resets.ResetDailyTasks(s).completions
    ensures Clock.ShouldResetWeekly(s.weeklyStats.weekStartDate, now) ==>
              r.weeklyStats == WeekStats(Some(Clock.WeekStartDay(now)), [])
    ensures Clock.ShouldResetWeekly(s.weeklyStats.weekStartDate, now) ==>
              r.weeklyHistory == Weekly.ResetWeeklyStats(s, Clock.WeekStartDay(now)).weeklyHistory
    ensures !Clock.ShouldResetWeekly(s.weeklyStats.weekStartDate, now) ==>
              r.weeklyStats == s.weeklyStats && r.weeklyHistory == s.weeklyHistory
    ensures !Clock.ShouldResetDaily(r.lastResetDate, now) && !Clock.ShouldResetWeekly(r.weeklyStats.weekStartDate, now)
    ensures |s.weeklyHistory| <= Weekly.HistoryLimit ==> |r.weeklyHistory| <= Weekly.HistoryLimit
  {
    var daily := if Clock.ShouldResetDaily(s.lastResetDate, now)
                 then Resets.ResetDailyTasks(s).(lastResetDate := Some(now))
                 else s;
    Clock.DailyMarkerHoldsForTheDay(now, now);
    if Clock.ShouldResetWeekly(daily.weeklyStats.weekStartDate, now)
    then Weekly.ResetWeeklyStats(daily, Clock.WeekStartDay(now))
    else daily
  }

  /** Checking again later the same day changes nothing more. */
  lemma CheckResetsIdempotent(s: Store, now: int, later: int)
    requires now <= later && Clock.Day(later) == Clock.Day(now)
    ensures CheckResets(CheckResets(s, now), later) == CheckResets(s, now)
  {
    var once := CheckResets(s, now);
    Clock.DailyMarkerHoldsForTheDay(now, later);
    Clock.DayMonotone(now, later);
    assert Clock.WeekStartDay(later) == Clock.WeekStartDay(now);
    if Clock.ShouldResetDaily(s.lastResetDate, now) {
      assert !Clock.ShouldResetDaily(once.lastResetDate, later);
    } else {
      assert Clock.Day(now) <= Clock.Day(s.lastResetDate.value);
      assert !Clock.ShouldResetDaily(once.lastResetDate, later);
    }
  }

  /** What the screen does in response to a tap, besides any store change. */
  datatype TapOutcome =
    | Ignored
    | OpenVerification(task: Task)
    | Undone
    | Completed

  datatype Tapped = Tapped(store: Store, outcome: TapOutcome)

  /**
   * `handleCompleteTask`, in the source's order: an unknown task is ignored; a
   * pending task reopens verification; a done task is undone in the ledger and
   * the weekly stats; an approval task opens verification; any other task is
   * completed in the ledger and counted in the weekly stats.
   */
  function HandleCompleteTask(s: Store, childId: string, taskId: string, today: string): (r: Tapped)
    ensures FindTask(s.tasks, taskId).None? ==> r == Tapped(s, Ignored)
    ensures (r.outcome.OpenVerification? || r.outcome == Ignored) ==> r.store == s
    ensures r.outcome.OpenVerification? <==>
              FindTask(s.tasks, taskId).Some? &&
              (Approval.IsTaskPending(s, childId, taskId) ||
               (!IsCompleted(s.completions, childId, taskId) && FindTask(s.tasks, taskId).value.requiresApproval == Some(true)))
    ensures r.outcome.OpenVerification? ==> r.outcome.task == FindTask(s.tasks, taskId).value
    ensures r.outcome == Undone <==>
              FindTask(s.tasks, taskId).Some? && !Approval.IsTaskPending(s, childId, taskId) &&
              IsCompleted(s.completions, childId, taskId)
    ensures r.outcome == Undone ==>
              && r.store.completions == Ledger.RemoveCompletion(s, childId, taskId).completions
              && r.store.weeklyStats == Weekly.UpdateWeeklyStats(s.weeklyStats, childId, FindTask(s.tasks, taskId).value.points, true, today)
    ensures r.outcome == Completed ==>
              && r.store.completions == Ledger.CompleteTask(s, childId, taskId).completions
              && r.store.weeklyStats == Weekly.UpdateWeeklyStats(s.weeklyStats, childId, FindTask(s.tasks, taskId).value.points, false, today)
    ensures r.store == s.(completions := r.store.completions, weeklyStats := r.store.weeklyStats)
  {
    match FindTask(s.tasks, taskId)
    case None => Tapped(s, Ignored)
    case Some(task) =>
      if Approval.IsTaskPending(s, childId, taskId) then Tapped(s, OpenVerification(task))
      else if IsCompleted(s.completions, childId, taskId) then
        var undone := Ledger.RemoveCompletion(s, childId, taskId);
        Tapped(undone.(weeklyStats := Weekly.UpdateWeeklyStats(s.weeklyStats, childId, task.points, true, today)), Undone)
      else if task.requiresApproval == Some(true) then Tapped(s, OpenVerification(task))
      else
        var done := Ledger.CompleteTask(s, childId, taskId);
        Tapped(done.(weeklyStats := Weekly.UpdateWeeklyStats(s.weeklyStats, childId, task.points, false, today)), Completed)
  }

  /** A completing tap earns the task's points and an undoing tap takes them back. */
  lemma TapMovesPoints(s: Store, childId: string, taskId: string, today: string)
    requires WellFormedLedger(s.completions)
    ensures var r := HandleCompleteTask(s, childId, taskId, today);
            var before := Ledger.CalculatePoints(childId, s.completions, s.tasks);
            var after := Ledger.CalculatePoints(childId, r.store.completions, s.tasks);
            && (r.outcome == Completed ==> after == before + Ledger.TaskPoints(s.tasks, taskId))
            && (r.outcome == Undone ==> after == before - Ledger.TaskPoints(s.tasks, taskId))
            && (r.outcome != Completed && r.outcome != Undone ==> after == before)
  {
    var r := HandleCompleteTask(s, childId, taskId, today);
    if r.outcome == Completed {
      Ledger.CompleteTaskEarnsPoints(s, childId, taskId);
    } else if r.outcome == Undone {
      Ledger.RemoveCompletionReturnsPoints(s, childId, taskId);
    }
  }

  /**
   * Tapping a plain task twice completes it and then undoes it, restoring the
   * store, once the child's ledger object and today's stats bucket exist.
   */
  lemma DoubleTapRestores(s: Store, childId: string, taskId: string, today: string)
    requires WellFormedLedger(s.completions) && Get(s.completions, childId).Some?
    requires Lookup(s.completions, childId, taskId).None?
    requires UniqueKeys(s.weeklyStats.children) && Weekly.NonNegative(s.weeklyStats)
    requires Get(s.weeklyStats.children, childId).Some?
    requires Get(Get(s.weeklyStats.children, childId).value.dailyHistory, today).Some?
    requires FindTask(s.tasks, taskId).Some? && FindTask(s.tasks, taskId).value.requiresApproval != Some(true)
    requires !Approval.IsTaskPending(s, childId, taskId)
    ensures var once := HandleCompleteTask(s, childId, taskId, today);
            once.outcome == Completed && HandleCompleteTask(once.store, childId, taskId, today) == Tapped(s, Undone)
  {
    var task := FindTask(s.tasks, taskId).value;
    var once := HandleCompleteTask(s, childId, taskId, today);
    Ledger.CompleteThenRemove(s, childId, taskId);
    Weekly.UndoRestoresStats(s.weeklyStats, childId, task.points, today);
    var twice := HandleCompleteTask(once.store, childId, taskId, today);
    assert twice.store.completions == s.completions;
    assert twice.store.weeklyStats == s.weeklyStats;
  }

  /** `onSendToParent`: only the approval queue changes, and the task is now pending. */
  function OnSendToParent(s: Store, childId: string, task: Task): (r: Store)
    ensures r == s.(pendingApprovals := r.pendingApprovals)
    ensures Approval.IsTaskPending(r, childId, task.id)
    ensures forall t :: t != task.id ==> (Approval.IsTaskPending(r, childId, t) <==> Approval.IsTaskPending(s, childId, t))
  {
    Approval.SubmitTaskForApproval(s, childId, task.id)
  }

  /**
   * `onInstantVerify`, as written: completes the task and counts its points in
   * the weekly stats, but leaves the approval queue as it was.
   */
  function OnInstantVerify(s: Store, childId: string, task: Task, today: string): (r: Store)
    ensures r == s.(completions := r.completions, weeklyStats := r.weeklyStats)
    ensures r.pendingApprovals == s.pendingApprovals
    ensures Lookup(r.completions, childId, task.id) == Some(Ledger.NextCount(Lookup(s.completions, childId, task.id)))
    ensures r.weeklyStats == Weekly.UpdateWeeklyStats(s.weeklyStats, childId, task.points, false, today)
  {
    Ledger.CompleteTask(s, childId, task.id).(weeklyStats := Weekly.UpdateWeeklyStats(s.weeklyStats, childId, task.points, false, today))
  }

  /**
   * The dialog reopened for a pending task and confirmed with the PIN leaves the
   * task pending: the next tap reopens the dialog instead of undoing, and the
   * parent's later approval pays the task a second time.
   */
  lemma InstantVerifyLeavesPending(s: Store, childId: string, task: Task, today: string)
    requires WellFormedLedger(s.completions)
    requires FindTask(s.tasks, task.id) == Some(task) && Approval.IsTaskPending(s, childId, task.id)
    ensures var v := OnInstantVerify(s, childId, task, today);
            && Approval.IsTaskPending(v, childId, task.id)
            && HandleCompleteTask(v, childId, task.id, today) == Tapped(v, OpenVerification(task))
            && Ledger.CalculatePoints(childId, Approval.ApproveTask(v, childId, task.id, today).completions, s.tasks)
               == Ledger.CalculatePoints(childId, s.completions, s.tasks) + 2 * task.points
  {
    var v := OnInstantVerify(s, childId, task, today);
    Ledger.CompleteTaskEarnsPoints(s, childId, task.id);
    assert v.completions == Ledger.CompleteTask(s, childId, task.id).completions;
    Ledger.CompleteTaskKeepsWellFormed(s, childId, task.id);
    Approval.ApproveEarnsPoints(v, childId, task.id, today);
  }

  /**
   * `onInstantVerify` as evidently intended: the same completion, with the task
   * also taken off the child's approval queue.
   */
  function OnInstantVerifyCorrected(s: Store, childId: string, task: Task, today: string): (r: Store)
    ensures r == OnInstantVerify(s, childId, task, today).(pendingApprovals := r.pendingApprovals)
    ensures !Approval.IsTaskPending(r, childId, task.id)
    ensures forall t :: t != task.id ==> (Approval.IsTaskPending(r, childId, t) <==> Approval.IsTaskPending(s, childId, t))
  {
    OnInstantVerify(s, childId, task, today).(pendingApprovals := Approval.Dequeue(s.pendingApprovals, childId, task.id))
  }

  /** With the corrected callback, the next tap on the verified task undoes it, as for any done task. */
  lemma InstantVerifyCorrectedThenTapUndoes(s: Store, childId: string, task: Task, today: string)
    requires FindTask(s.tasks, task.id) == Some(task)
    requires Lookup(s.completions, childId, task.id).GetOr(0) >= 0
    ensures HandleCompleteTask(OnInstantVerifyCorrected(s, childId, task, today), childId, task.id, today).outcome == Undone
  {
  }
}

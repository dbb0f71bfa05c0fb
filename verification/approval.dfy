/**
 * The parent-approval queue: per child, the ids of tasks a child has sent in
 * and a parent has not yet approved or rejected.
 */
module Approval {
  import opened Options
  import opened JsonObject
  import opened Model
  import Ledger
  import Weekly

  /** `ids.filter(id => id !== t)`. */
  function Without(ids: seq<string>, t: string): (r: seq<string>)
    ensures forall x :: x in r <==> x in ids && x != t
    ensures |r| <= |ids|
    ensures t !in ids ==> r == ids
    ensures Distinct(ids) ==> Distinct(r)
  {
    if |ids| == 0 then []
    else if ids[0] == t then Without(ids[1..], t)
    else [ids[0]] + Without(ids[1..], t)
  }

  /** No id occurs twice. */
  predicate Distinct(ids: seq<string>) {
    |ids| == 0 || (ids[0] !in ids[1..] && Distinct(ids[1..]))
  }

  lemma {:induction false} DistinctAppend(ids: seq<string>, t: string)
    ensures Distinct(ids) && t !in ids ==> Distinct(ids + [t])
  {
    if |ids| > 0 && Distinct(ids) && t !in ids {
      assert (ids + [t])[1..] == ids[1..] + [t];
      DistinctAppend(ids[1..], t);
    }
  }

  /** Every child's queue lists each task at most once. */
  predicate QueuesDistinct(p: Pending) {
    forall e :: e in p ==> Distinct(e.1)
  }

  /** A child's queue, `[]` when the child has none. */
  function PendingFor(p: Pending, childId: string): seq<string> {
    Get(p, childId).GetOr([])
  }

  /** `isTaskPending`: the child has a queue and it holds the task. */
  function IsTaskPending(s: Store, childId: string, taskId: string): (r: bool)
    ensures r <==> taskId in PendingFor(s.pendingApprovals, childId)
  {
    match Get(s.pendingApprovals, childId)
    case None => false
    case Some(ids) => taskId in ids
  }

  /**
   * `submitTaskForApproval`: appends the task to the child's queue (creating
   * the queue) unless it is already there, in which case nothing changes.
   */
  function SubmitTaskForApproval(s: Store, childId: string, taskId: string): (r: Store)
    ensures r == s.(pendingApprovals := r.pendingApprovals)
    ensures IsTaskPending(r, childId, taskId)
    ensures IsTaskPending(s, childId, taskId) ==> r == s
    ensures !IsTaskPending(s, childId, taskId) ==>
              PendingFor(r.pendingApprovals, childId) == PendingFor(s.pendingApprovals, childId) + [taskId]
    ensures forall c {:trigger Get(r.pendingApprovals, c)} :: c != childId ==> Get(r.pendingApprovals, c) == Get(s.pendingApprovals, c)
    ensures QueuesDistinct(s.pendingApprovals) ==> QueuesDistinct(r.pendingApprovals)
    ensures UniqueKeys(s.pendingApprovals) ==> UniqueKeys(r.pendingApprovals)
  {
    var ids := PendingFor(s.pendingApprovals, childId);
    if taskId in ids then s
    else
      var ids' := ids + [taskId];
      PutKeepsUniqueKeys(s.pendingApprovals, childId, ids');
      PutEntries(s.pendingApprovals, childId, ids');
      DistinctAppend(ids, taskId);
      assert QueuesDistinct(s.pendingApprovals) ==> Distinct(ids) by {
        if Get(s.pendingApprovals, childId).Some? {
          assert (childId, ids) in s.pendingApprovals;
        }
      }
      s.(pendingApprovals := Put(s.pendingApprovals, childId, ids'))
  }

  /** Removes the task from the child's queue, if the child has one; shared by approve and reject. */
  function Dequeue(p: Pending, childId: string, taskId: string): (r: Pending)
    ensures taskId !in PendingFor(r, childId)
    ensures forall t :: t != taskId ==> (t in PendingFor(r, childId) <==> t in PendingFor(p, childId))
    ensures Get(p, childId).None? ==> r == p
    ensures forall c {:trigger Get(r, c)} :: c != childId ==> Get(r, c) == Get(p, c)
    ensures QueuesDistinct(p) ==> QueuesDistinct(r)
    ensures UniqueKeys(p) ==> UniqueKeys(r)
  {
    match Get(p, childId)
    case None => p
    case Some(ids) =>
      assert (childId, ids) in p;
      PutKeepsUniqueKeys(p, childId, Without(ids, taskId));
      PutEntries(p, childId, Without(ids, taskId));
      Put(p, childId, Without(ids, taskId))
  }

  /** `rejectTask`: drops the task from the child's queue and changes nothing else. */
  function RejectTask(s: Store, childId: string, taskId: string): (r: Store)
    ensures r == s.(pendingApprovals := r.pendingApprovals)
    ensures !IsTaskPending(r, childId, taskId)
    ensures forall t :: t != taskId ==> (IsTaskPending(r, childId, t) <==> IsTaskPending(s, childId, t))
    ensures forall c {:trigger Get(r.pendingApprovals, c)} :: c != childId ==> Get(r.pendingApprovals, c) == Get(s.pendingApprovals, c)
    ensures Get(s.pendingApprovals, childId).None? ==> r == s
  {
    s.(pendingApprovals := Dequeue(s.pendingApprovals, childId, taskId))
  }

  /**
   * `approveTask`: dequeues the task, adds its points to the weekly stats when
   * the task is in the catalogue, and completes it through the ledger whether
   * or not it was ever pending.
   */
  function ApproveTask(s: Store, childId: string, taskId: string, today: string): (r: Store)
    ensures r == s.(pendingApprovals := r.pendingApprovals, weeklyStats := r.weeklyStats, completions := r.completions)
    ensures r.pendingApprovals == RejectTask(s, childId, taskId).pendingApprovals
    ensures r.completions == Ledger.CompleteTask(s, childId, taskId).completions
    ensures FindTask(s.tasks, taskId).None? ==> r.weeklyStats == s.weeklyStats
    ensures FindTask(s.tasks, taskId).Some? ==>
              r.weeklyStats == Weekly.UpdateWeeklyStats(s.weeklyStats, childId, FindTask(s.tasks, taskId).value.points, false, today)
    ensures !IsTaskPending(r, childId, taskId)
  {
    var stats := match FindTask(s.tasks, taskId)
      case Some(task) => Weekly.UpdateWeeklyStats(s.weeklyStats, childId, task.points, false, today)
      case None => s.weeklyStats;
    s.(pendingApprovals := Dequeue(s.pendingApprovals, childId, taskId),
       weeklyStats := stats,
       completions := Ledger.CompleteTask(s, childId, taskId).completions)
  }

  /** Approving pays the child exactly the task's points, whether or not the task was pending. */
  lemma ApproveEarnsPoints(s: Store, childId: string, taskId: string, today: string)
    requires WellFormedLedger(s.completions)
    ensures var r := ApproveTask(s, childId, taskId, today);
            Ledger.CalculatePoints(childId, r.completions, r.tasks)
            == Ledger.CalculatePoints(childId, s.completions, s.tasks) + Ledger.TaskPoints(s.tasks, taskId)
  {
    Ledger.CompleteTaskEarnsPoints(s, childId, taskId);
  }

  /** Submitting twice is the same as submitting once. */
  lemma SubmitIdempotent(s: Store, childId: string, taskId: string)
    ensures var once := SubmitTaskForApproval(s, childId, taskId);
            SubmitTaskForApproval(once, childId, taskId) == once
  {
  }

  /** Rejecting a task just submitted to an existing queue that lacked it restores the queue. */
  lemma SubmitThenReject(s: Store, childId: string, taskId: string)
    requires Get(s.pendingApprovals, childId).Some? && !IsTaskPending(s, childId, taskId)
    ensures RejectTask(SubmitTaskForApproval(s, childId, taskId), childId, taskId) == s
  {
    var ids := Get(s.pendingApprovals, childId).value;
    WithoutAppended(ids, taskId);
    PutPut(s.pendingApprovals, childId, ids + [taskId], ids);
    PutExisting(s.pendingApprovals, childId);
  }

  lemma {:induction false} WithoutAppended(ids: seq<string>, t: string)
    requires t !in ids
    ensures Without(ids + [t], t) == ids
  {
    if |ids| == 0 {
      assert [t][1..] == [];
    } else {
      assert (ids + [t])[1..] == ids[1..] + [t];
      WithoutAppended(ids[1..], t);
    }
  }

  /** Rejecting twice is the same as rejecting once. */
  lemma RejectIdempotent(s: Store, childId: string, taskId: string)
    ensures var once := RejectTask(s, childId, taskId);
            RejectTask(once, childId, taskId) == once
  {
    var once := RejectTask(s, childId, taskId);
    match Get(once.pendingApprovals, childId)
    case None =>
    case Some(ids) =>
      assert taskId !in ids;
      PutExisting(once.pendingApprovals, childId);
  }
}

/**
 * The records the tracker keeps in its persistent store, and the store itself
 * as one immutable value holding every key the ledger, the reset engine and
 * the approval queue read and write.
 */
module Model {
  import opened Options
  import opened JsonObject
  import Catalog

  /** The reserved completion key holding a child's (normally negative) redemption total. */
  const RedemptionKey: string := "redemption"

  /** `requiresApproval` is absent on tasks created before the field existed. */
  datatype Task = Task(id: string, name: string, points: int, emoji: string, description: string,
                       requiresApproval: Option<bool>)

  datatype Reward = Reward(id: string, name: string, cost: int, emoji: string, description: string)

  datatype Child = Child(id: string, name: string, color: string, avatar: string)

  /** childId -> taskId -> count; the `redemption` key holds the spent-points accumulator. */
  type Completions = Obj<Obj<int>>

  /** One redemption log entry; `date` is the instant it was made. */
  datatype Redemption = Redemption(id: string, childId: string, rewardId: string, rewardName: string,
                                   cost: int, date: int)

  datatype DayStats = DayStats(tasks: int, points: int)

  /** A child's totals for one week; `dailyHistory` is keyed by "YYYY-MM-DD" date strings. */
  datatype ChildStats = ChildStats(tasksCompleted: int, pointsEarned: int, dailyHistory: Obj<DayStats>)

  /** A week's stats: the live record, and also the shape of each weekly-history entry. */
  datatype WeekStats = WeekStats(weekStartDate: Option<int>, children: Obj<ChildStats>)

  const EmptyWeek: WeekStats := WeekStats(None, [])

  /** childId -> task ids awaiting a parent's approval. */
  type Pending = Obj<seq<string>>

  /**
   * Every persisted key. `lastReset` is the instant of the last whole-ledger
   * reset done at app start; `lastResetDate` is the daily-reset marker.
   */
  datatype Store = Store(
    children: seq<Child>,
    tasks: seq<Task>,
    rewards: seq<Reward>,
    completions: Completions,
    redemptions: seq<Redemption>,
    lastReset: Option<int>,
    parentPassword: Option<string>,
    weeklyStats: WeekStats,
    weeklyHistory: seq<WeekStats>,
    lastResetDate: Option<int>,
    pendingApprovals: Pending)

  function TaskId(t: Task): string { t.id }
  function RewardId(r: Reward): string { r.id }
  function ChildId(c: Child): string { c.id }

  function FindTask(tasks: seq<Task>, id: string): Option<Task> {
    Catalog.FindById(tasks, id, TaskId)
  }

  function FindReward(rewards: seq<Reward>, id: string): Option<Reward> {
    Catalog.FindById(rewards, id, RewardId)
  }

  /** A child's completion object, `{}` when the child has none. */
  function ChildEntries(c: Completions, childId: string): Obj<int> {
    Get(c, childId).GetOr([])
  }

  /** `completions[childId][taskId]`, `None` when either level is missing. */
  function Lookup(c: Completions, childId: string, taskId: string): Option<int> {
    match Get(c, childId)
    case None => None
    case Some(entries) => Get(entries, taskId)
  }

  /** `completions[childId][taskId] > 0`: the task shows as done today. */
  predicate IsCompleted(c: Completions, childId: string, taskId: string) {
    Lookup(c, childId, taskId).Some? && Lookup(c, childId, taskId).value > 0
  }

  /** Every JSON object level has unique keys, as real JavaScript objects do. */
  predicate WellFormedLedger(c: Completions) {
    UniqueKeys(c) && AllUnique(c)
  }

  /** Every child's object has unique keys. */
  predicate AllUnique(c: Completions) {
    |c| == 0 || (UniqueKeys(c[0].1) && AllUnique(c[1..]))
  }
}

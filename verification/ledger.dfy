/**
 * The points ledger: balances, completing and undoing tasks, redeeming
 * rewards, and the two resets that clear completions.
 */
module Ledger {
  import opened Options
  import opened JsonObject
  import opened Model
  import Clock

  /** A key's worth per completion: the catalogue task's points, 0 for any other key. */
  function TaskPoints(tasks: seq<Task>, taskId: string): int {
    match FindTask(tasks, taskId)
    case Some(t) => t.points
    case None => 0
  }

  /** What one completion entry adds to a balance: `task.points * count`. */
  function EntryPoints(tasks: seq<Task>, taskId: string, count: int): int {
    match FindTask(tasks, taskId)
    case Some(t) => Times(t.points, count)
    case None => 0
  }

  /**
   * `p * n`, counted out one `p` at a time, so that the ledger proofs reason
   * about one step at a time rather than about products.
   */
  function Times(p: int, n: int): int
    decreases if n < 0 then -n else n
  {
    if n == 0 then 0
    else if n > 0 then Times(p, n - 1) + p
    else Times(p, n + 1) - p
  }

  lemma {:induction false} TimesIsProduct(p: int, n: int)
    ensures Times(p, n) == p * n
    decreases if n < 0 then -n else n
  {
    if n > 0 {
      TimesIsProduct(p, n - 1);
    } else if n < 0 {
      TimesIsProduct(p, n + 1);
    }
  }

  /** An entry whose key is no catalogue task adds nothing, whatever its count. */
  lemma NonTaskEntry(tasks: seq<Task>, taskId: string, count: int)
    ensures FindTask(tasks, taskId).None? ==> EntryPoints(tasks, taskId, count) == 0
  {
    TimesIsProduct(0, count);
  }

  /** An entry adds the task's points times its count, or nothing when its key is no catalogue task. */
  lemma EntryPointsIsProduct(tasks: seq<Task>, taskId: string, count: int)
    ensures EntryPoints(tasks, taskId, count) ==
              if FindTask(tasks, taskId).Some? then FindTask(tasks, taskId).value.points * count else 0
  {
    TimesIsProduct(TaskPoints(tasks, taskId), count);
  }

  lemma EntryPointsStep(tasks: seq<Task>, taskId: string, count: int)
    ensures EntryPoints(tasks, taskId, count + 1) == EntryPoints(tasks, taskId, count) + TaskPoints(tasks, taskId)
    ensures EntryPoints(tasks, taskId, 0) == 0
  {
    var p := TaskPoints(tasks, taskId);
    if count < -1 {
      assert Times(p, count) == Times(p, count + 1) - p;
    }
  }

  /** Raising one entry by one raises the sum by that key's worth. */
  lemma SumIncrement(tasks: seq<Task>, entries: Obj<int>, k: string)
    requires UniqueKeys(entries)
    ensures SumEntries(tasks, Put(entries, k, NextCount(Get(entries, k)))) == SumEntries(tasks, entries) + TaskPoints(tasks, k)
  {
    SumPut(tasks, entries, k, NextCount(Get(entries, k)));
    EntryPointsStep(tasks, k, Get(entries, k).GetOr(0));
  }

  /** Lowering a positive entry by one (deleting it at 0) lowers the sum by that key's worth. */
  lemma SumDecrement(tasks: seq<Task>, entries: Obj<int>, k: string, n: int)
    requires UniqueKeys(entries) && Get(entries, k) == Some(n) && n > 0
    ensures SumEntries(tasks, Decrement(entries, k, n)) == SumEntries(tasks, entries) - TaskPoints(tasks, k)
  {
    EntryPointsStep(tasks, k, n - 1);
    if n == 1 {
      SumDelete(tasks, entries, k);
    } else {
      SumPut(tasks, entries, k, n - 1);
    }
  }

  /** The sum of `EntryPoints` over a child's entries, in key order. */
  function SumEntries(tasks: seq<Task>, entries: Obj<int>): int {
    if |entries| == 0 then 0
    else EntryPoints(tasks, entries[0].0, entries[0].1) + SumEntries(tasks, entries[1..])
  }

  /**
   * `calculatePoints`: the sum of points times count over the child's entries
   * whose key is a catalogue task id. The `redemption` key is not a task id,
   * so, as written, it never lowers the balance.
   */
  function CalculatePoints(childId: string, completions: Completions, tasks: seq<Task>): (r: int)
    ensures Get(completions, childId).None? ==> r == 0
    ensures (forall e :: e in ChildEntries(completions, childId) ==> FindTask(tasks, e.0).None?) ==> r == 0
  {
    var entries := ChildEntries(completions, childId);
    SumNoTaskKeys(tasks, entries);
    SumEntries(tasks, entries)
  }

  lemma {:induction false} SumNoTaskKeys(tasks: seq<Task>, entries: Obj<int>)
    ensures (forall e :: e in entries ==> FindTask(tasks, e.0).None?) ==> SumEntries(tasks, entries) == 0
  {
    if |entries| > 0 {
      SumNoTaskKeys(tasks, entries[1..]);
      NonTaskEntry(tasks, entries[0].0, entries[0].1);
      assert forall e :: e in entries[1..] ==> e in entries;
    }
  }

  /**
   * Overwriting one entry changes the sum by exactly the difference of that
   * entry's contributions (an absent entry contributes as a count of 0).
   */
  lemma {:induction false} SumPut(tasks: seq<Task>, entries: Obj<int>, k: string, v: int)
    requires UniqueKeys(entries)
    ensures SumEntries(tasks, Put(entries, k, v))
         == SumEntries(tasks, entries) - EntryPoints(tasks, k, Get(entries, k).GetOr(0)) + EntryPoints(tasks, k, v)
  {
    if |entries| == 0 {
      assert SumEntries(tasks, [(k, v)]) == EntryPoints(tasks, k, v) + SumEntries(tasks, []);
    } else if entries[0].0 == k {
      assert Put(entries, k, v)[1..] == entries[1..];
    } else {
      SumPut(tasks, entries[1..], k, v);
      assert Put(entries, k, v)[1..] == Put(entries[1..], k, v);
    }
  }

  /** Deleting one entry removes exactly that entry's contribution. */
  lemma {:induction false} SumDelete(tasks: seq<Task>, entries: Obj<int>, k: string)
    requires UniqueKeys(entries)
    ensures SumEntries(tasks, Delete(entries, k))
         == SumEntries(tasks, entries) - EntryPoints(tasks, k, Get(entries, k).GetOr(0))
  {
    if |entries| > 0 {
      SumDelete(tasks, entries[1..], k);
      if entries[0].0 == k {
        assert Get(entries[1..], k).None?;
        assert Delete(entries[1..], k) == entries[1..];
      } else {
        assert Delete(entries, k)[1..] == Delete(entries[1..], k);
      }
    }
  }

  /** Writing a key that is not a catalogue task id (such as `redemption`) never changes a balance. */
  lemma PointsIgnoreNonTaskKeys(c: Completions, childId: string, tasks: seq<Task>, k: string, v: int)
    ensures WellFormedLedger(c) && FindTask(tasks, k).None? ==>
              CalculatePoints(childId, Put(c, childId, Put(ChildEntries(c, childId), k, v)), tasks)
              == CalculatePoints(childId, c, tasks)
  {
    var entries := ChildEntries(c, childId);
    if WellFormedLedger(c) && FindTask(tasks, k).None? {
      EntriesUnique(c, childId);
      SumPut(tasks, entries, k, v);
      NonTaskEntry(tasks, k, v);
      NonTaskEntry(tasks, k, Get(entries, k).GetOr(0));
    }
  }

  /** In a well-formed ledger every child's object has unique keys. */
  lemma {:induction false} EntriesUnique(c: Completions, childId: string)
    ensures AllUnique(c) ==> UniqueKeys(ChildEntries(c, childId))
  {
    if |c| > 0 && c[0].0 != childId {
      EntriesUnique(c[1..], childId);
    }
  }

  /** Replacing one child's object by one with unique keys keeps the ledger well formed. */
  lemma PutChildKeepsWellFormed(c: Completions, childId: string, entries: Obj<int>)
    ensures WellFormedLedger(c) && UniqueKeys(entries) ==> WellFormedLedger(Put(c, childId, entries))
  {
    PutKeepsUniqueKeys(c, childId, entries);
    PutKeepsAllUnique(c, childId, entries);
  }

  lemma {:induction false} PutKeepsAllUnique(c: Completions, childId: string, entries: Obj<int>)
    ensures AllUnique(c) && UniqueKeys(entries) ==> AllUnique(Put(c, childId, entries))
  {
    if |c| > 0 && AllUnique(c) && UniqueKeys(entries) {
      if c[0].0 == childId {
        assert Put(c, childId, entries)[1..] == c[1..];
      } else {
        PutKeepsAllUnique(c[1..], childId, entries);
        assert Put(c, childId, entries)[1..] == Put(c[1..], childId, entries);
      }
    }
  }

  /**
   * `(count || 0) + 1`. On a number `|| 0` only replaces 0 by 0, so this is
   * one more than the stored count, counting from 0 when there is none.
   */
  function NextCount(current: Option<int>): int {
    current.GetOr(0) + 1
  }

  /** `(total || 0) - cost`, the accumulator after spending `cost`. */
  function Lowered(current: Option<int>, cost: int): int {
    current.GetOr(0) - cost
  }

  /**
   * `completeTask`: the count becomes old + 1 (1 when absent or 0), every other
   * child/task entry is untouched, and nothing but the completions changes.
   */
  function CompleteTask(s: Store, childId: string, taskId: string): (r: Store)
    ensures r == s.(completions := r.completions)
    ensures Lookup(r.completions, childId, taskId) == Some(NextCount(Lookup(s.completions, childId, taskId)))
    ensures forall c, t {:trigger Lookup(r.completions, c, t)} :: (c != childId || t != taskId) ==> Lookup(r.completions, c, t) == Lookup(s.completions, c, t)
    ensures forall c {:trigger Get(r.completions, c)} :: c != childId ==> Get(r.completions, c) == Get(s.completions, c)
  {
    var entries := ChildEntries(s.completions, childId);
    s.(completions := Put(s.completions, childId, Put(entries, taskId, NextCount(Get(entries, taskId)))))
  }

  /** A completion keeps every object of the ledger free of duplicate keys. */
  lemma CompleteTaskKeepsWellFormed(s: Store, childId: string, taskId: string)
    ensures WellFormedLedger(s.completions) ==> WellFormedLedger(CompleteTask(s, childId, taskId).completions)
  {
    var entries := ChildEntries(s.completions, childId);
    var n := NextCount(Get(entries, taskId));
    CompleteTaskEntries(s, childId, taskId);
    EntriesUnique(s.completions, childId);
    PutKeepsUniqueKeys(entries, taskId, n);
    PutChildKeepsWellFormed(s.completions, childId, Put(entries, taskId, n));
  }

  /** A completion raises the balance by exactly the task's points, once; a non-catalogue id raises nothing. */
  lemma CompleteTaskEarnsPoints(s: Store, childId: string, taskId: string)
    requires WellFormedLedger(s.completions)
    ensures var after := CalculatePoints(childId, CompleteTask(s, childId, taskId).completions, s.tasks);
            var before := CalculatePoints(childId, s.completions, s.tasks);
            after == before + TaskPoints(s.tasks, taskId)
  {
    var entries := ChildEntries(s.completions, childId);
    EntriesUnique(s.completions, childId);
    CompleteTaskEntries(s, childId, taskId);
    SumIncrement(s.tasks, entries, taskId);
  }

  /** The child's object after a completion is the old one with the count raised by one. */
  lemma CompleteTaskEntries(s: Store, childId: string, taskId: string)
    ensures var entries := ChildEntries(s.completions, childId);
            ChildEntries(CompleteTask(s, childId, taskId).completions, childId)
            == Put(entries, taskId, NextCount(Get(entries, taskId)))
  {
  }

  /**
   * `removeCompletion`: a positive count drops by one and the key is deleted
   * when it reaches 0; an absent, zero or negative entry (such as the
   * `redemption` accumulator) leaves the store unchanged.
   */
  function RemoveCompletion(s: Store, childId: string, taskId: string): (r: Store)
    ensures r == s.(completions := r.completions)
    ensures !IsCompleted(s.completions, childId, taskId) ==> r == s
    ensures IsCompleted(s.completions, childId, taskId) ==>
              var n := Lookup(s.completions, childId, taskId).value;
              Lookup(r.completions, childId, taskId) == CountAfterUndo(n)
    ensures forall c, t {:trigger Lookup(r.completions, c, t)} :: (c != childId || t != taskId) ==> Lookup(r.completions, c, t) == Lookup(s.completions, c, t)
    ensures forall c {:trigger Get(r.completions, c)} :: c != childId ==> Get(r.completions, c) == Get(s.completions, c)
  {
    match Get(s.completions, childId)
    case None => s
    case Some(entries) =>
      match Get(entries, taskId)
      case None => s
      case Some(n) =>
        if n > 0 then s.(completions := Put(s.completions, childId, Decrement(entries, taskId, n)))
        else s
  }

  /** An undo keeps every object of the ledger free of duplicate keys. */
  lemma RemoveCompletionKeepsWellFormed(s: Store, childId: string, taskId: string)
    ensures WellFormedLedger(s.completions) ==> WellFormedLedger(RemoveCompletion(s, childId, taskId).completions)
  {
    if IsCompleted(s.completions, childId, taskId) {
      var entries := ChildEntries(s.completions, childId);
      var n := Get(entries, taskId).value;
      EntriesUnique(s.completions, childId);
      PutChildKeepsWellFormed(s.completions, childId, Decrement(entries, taskId, n));
    }
  }

  /** The entry left by one undo of a positive count `n`: deleted at 1, else `n - 1`. */
  function CountAfterUndo(n: int): Option<int> {
    if n == 1 then None else Some(n - 1)
  }

  /** `o[k]--` on a count `n`, followed by `delete o[k]` once it is no longer positive. */
  function Decrement(entries: Obj<int>, k: string, n: int): (r: Obj<int>)
    requires n > 0
    ensures Get(r, k) == CountAfterUndo(n)
    ensures forall k' {:trigger Get(r, k')} :: k' != k ==> Get(r, k') == Get(entries, k')
    ensures UniqueKeys(entries) ==> UniqueKeys(r)
  {
    if n == 1 then Delete(entries, k)
    else
      PutKeepsUniqueKeys(entries, k, n - 1);
      Put(entries, k, n - 1)
  }

  /** An undo lowers the balance by exactly the task's points when there was a completion to undo. */
  lemma RemoveCompletionReturnsPoints(s: Store, childId: string, taskId: string)
    requires WellFormedLedger(s.completions) && IsCompleted(s.completions, childId, taskId)
    ensures var after := CalculatePoints(childId, RemoveCompletion(s, childId, taskId).completions, s.tasks);
            var before := CalculatePoints(childId, s.completions, s.tasks);
            after == before - TaskPoints(s.tasks, taskId)
  {
    var entries := ChildEntries(s.completions, childId);
    EntriesUnique(s.completions, childId);
    var n := Get(entries, taskId).value;
    var after := RemoveCompletion(s, childId, taskId).completions;
    assert ChildEntries(after, childId) == Decrement(entries, taskId, n);
    SumDecrement(s.tasks, entries, taskId, n);
  }

  /** Undo after complete restores the store when the child already had an object and the entry was absent or positive. */
  lemma CompleteThenRemove(s: Store, childId: string, taskId: string)
    requires WellFormedLedger(s.completions)
    requires Get(s.completions, childId).Some?
    requires Lookup(s.completions, childId, taskId).None? || Lookup(s.completions, childId, taskId).value > 0
    ensures RemoveCompletion(CompleteTask(s, childId, taskId), childId, taskId) == s
  {
    var entries := Get(s.completions, childId).value;
    var mid := CompleteTask(s, childId, taskId);
    match Get(entries, taskId)
    case None =>
      DeleteAppended(entries, taskId, 1);
      PutPut(s.completions, childId, entries + [(taskId, 1)], entries);
      PutExisting(s.completions, childId);
    case Some(n) =>
      var m := NextCount(Get(entries, taskId));
      assert m - 1 == n;
      CompleteTaskEntries(s, childId, taskId);
      assert Decrement(Put(entries, taskId, m), taskId, m) == Put(Put(entries, taskId, m), taskId, n);
      PutPut(entries, taskId, m, n);
      PutExisting(entries, taskId);
      PutPut(s.completions, childId, Put(entries, taskId, m), entries);
      PutExisting(s.completions, childId);
  }

  /** For a child with no object yet, complete-then-undo leaves that child with an empty object. */
  lemma CompleteThenRemoveNewChild(s: Store, childId: string, taskId: string)
    requires Get(s.completions, childId).None?
    ensures RemoveCompletion(CompleteTask(s, childId, taskId), childId, taskId)
         == s.(completions := s.completions + [(childId, [])])
  {
    DeleteAppended([], taskId, 1);
    PutPut(s.completions, childId, [(taskId, 1)], []);
  }

  /** A zero entry is not restored: complete-then-undo deletes it. */
  lemma CompleteThenRemoveZero(s: Store, childId: string, taskId: string)
    requires WellFormedLedger(s.completions)
    requires Lookup(s.completions, childId, taskId) == Some(0)
    ensures Lookup(RemoveCompletion(CompleteTask(s, childId, taskId), childId, taskId).completions, childId, taskId).None?
  {
  }

  datatype Redeemed = Redeemed(store: Store, result: Option<seq<Redemption>>)

  /**
   * The write half of a redemption: lower the child's `redemption` accumulator
   * by the cost (starting from 0 when absent or 0) and append one log entry.
   */
  function ApplyRedemption(s: Store, childId: string, reward: Reward, id: string, now: int): (r: Store)
    ensures r == s.(completions := r.completions, redemptions := r.redemptions)
    ensures Lookup(r.completions, childId, RedemptionKey) == Some(RedemptionTotal(s.completions, childId) - reward.cost)
    ensures forall c, t {:trigger Lookup(r.completions, c, t)} :: (c != childId || t != RedemptionKey) ==> Lookup(r.completions, c, t) == Lookup(s.completions, c, t)
    ensures r.redemptions == s.redemptions + [Redemption(id, childId, reward.id, reward.name, reward.cost, now)]
  {
    var entries := ChildEntries(s.completions, childId);
    s.(completions := Put(s.completions, childId, Put(entries, RedemptionKey, Lowered(Get(entries, RedemptionKey), reward.cost))),
       redemptions := s.redemptions + [Redemption(id, childId, reward.id, reward.name, reward.cost, now)])
  }

  /** The child's object after a redemption: the accumulator lowered by the cost. */
  lemma ApplyRedemptionEntries(s: Store, childId: string, reward: Reward, id: string, now: int)
    ensures var entries := ChildEntries(s.completions, childId);
            ApplyRedemption(s, childId, reward, id, now).completions
            == Put(s.completions, childId, Put(entries, RedemptionKey, Lowered(Get(entries, RedemptionKey), reward.cost)))
  {
  }

  /** A redemption keeps every object of the ledger free of duplicate keys. */
  lemma ApplyRedemptionKeepsWellFormed(s: Store, childId: string, reward: Reward, id: string, now: int)
    ensures WellFormedLedger(s.completions) ==> WellFormedLedger(ApplyRedemption(s, childId, reward, id, now).completions)
  {
    var entries := ChildEntries(s.completions, childId);
    var v := Lowered(Get(entries, RedemptionKey), reward.cost);
    ApplyRedemptionEntries(s, childId, reward, id, now);
    EntriesUnique(s.completions, childId);
    PutKeepsUniqueKeys(entries, RedemptionKey, v);
    PutChildKeepsWellFormed(s.completions, childId, Put(entries, RedemptionKey, v));
  }

  /**
   * As written, the write to the `redemption` key leaves the balance as
   * `calculatePoints` computes it unchanged, since that key is no catalogue task.
   */
  lemma ApplyRedemptionKeepsPoints(s: Store, childId: string, reward: Reward, id: string, now: int)
    ensures WellFormedLedger(s.completions) && FindTask(s.tasks, RedemptionKey).None? ==>
              CalculatePoints(childId, ApplyRedemption(s, childId, reward, id, now).completions, s.tasks)
              == CalculatePoints(childId, s.completions, s.tasks)
  {
    var v := Lowered(Get(ChildEntries(s.completions, childId), RedemptionKey), reward.cost);
    ApplyRedemptionEntries(s, childId, reward, id, now);
    PointsIgnoreNonTaskKeys(s.completions, childId, s.tasks, RedemptionKey, v);
  }

  /** The spent-points total of a child: the `redemption` entry, 0 when absent. */
  function RedemptionTotal(c: Completions, childId: string): int {
    Lookup(c, childId, RedemptionKey).GetOr(0)
  }

  /**
   * `redeemReward`: declines (null, nothing written) for an unknown reward or a
   * balance below its cost; otherwise lowers the `redemption` accumulator by the
   * cost and appends exactly one log entry, returning the new log.
   */
  function RedeemReward(s: Store, childId: string, rewardId: string, id: string, now: int): (r: Redeemed)
    ensures r.result.None? ==> r.store == s
    ensures r.result.Some? <==>
              FindReward(s.rewards, rewardId).Some? &&
              CalculatePoints(childId, s.completions, s.tasks) >= FindReward(s.rewards, rewardId).value.cost
    ensures r.result.Some? ==>
              var reward := FindReward(s.rewards, rewardId).value;
              && r.store == ApplyRedemption(s, childId, reward, id, now)
              && |r.store.redemptions| == |s.redemptions| + 1
              && r.store.redemptions[|s.redemptions|].cost == reward.cost
              && r.result.value == r.store.redemptions
  {
    match FindReward(s.rewards, rewardId)
    case None => Redeemed(s, None)
    case Some(reward) =>
      if CalculatePoints(childId, s.completions, s.tasks) < reward.cost then Redeemed(s, None)
      else
        var s' := ApplyRedemption(s, childId, reward, id, now);
        Redeemed(s', Some(s'.redemptions))
  }

  /**
   * As written, a redemption does not lower the balance it was checked against
   * (unless some catalogue task has the id `redemption`), so the same reward
   * can be redeemed again and again.
   */
  lemma RedeemKeepsBalance(s: Store, childId: string, rewardId: string, id: string, now: int)
    requires WellFormedLedger(s.completions) && FindTask(s.tasks, RedemptionKey).None?
    ensures CalculatePoints(childId, RedeemReward(s, childId, rewardId, id, now).store.completions, s.tasks)
         == CalculatePoints(childId, s.completions, s.tasks)
  {
    var r := RedeemReward(s, childId, rewardId, id, now);
    if r.result.Some? {
      ApplyRedemptionKeepsPoints(s, childId, FindReward(s.rewards, rewardId).value, id, now);
    }
  }

  /** A successful redemption leaves the balance it checked unchanged, so it succeeds again right away. */
  lemma RedeemRepeatable(s: Store, childId: string, rewardId: string, id: string, id2: string, now: int)
    requires WellFormedLedger(s.completions) && FindTask(s.tasks, RedemptionKey).None?
    requires RedeemReward(s, childId, rewardId, id, now).result.Some?
    ensures RedeemReward(RedeemReward(s, childId, rewardId, id, now).store, childId, rewardId, id2, now).result.Some?
  {
    RedeemKeepsBalance(s, childId, rewardId, id, now);
  }

  /**
   * The balance the negative redemption entry is meant to produce: task points plus the (normally
   * negative) `redemption` accumulator.
   */
  function Balance(childId: string, completions: Completions, tasks: seq<Task>): int {
    CalculatePoints(childId, completions, tasks) + RedemptionTotal(completions, childId)
  }

  /** `redeemReward` with its guard checked against `Balance` rather than `calculatePoints`. */
  function RedeemRewardCorrected(s: Store, childId: string, rewardId: string, id: string, now: int): (r: Redeemed)
    ensures r.result.None? ==> r.store == s
    ensures r.result.Some? <==>
              FindReward(s.rewards, rewardId).Some? &&
              Balance(childId, s.completions, s.tasks) >= FindReward(s.rewards, rewardId).value.cost
    ensures r.result.Some? ==>
              && r.store == ApplyRedemption(s, childId, FindReward(s.rewards, rewardId).value, id, now)
              && |r.store.redemptions| == |s.redemptions| + 1
    ensures r.result.Some? && WellFormedLedger(s.completions) && FindTask(s.tasks, RedemptionKey).None? ==>
              var cost := FindReward(s.rewards, rewardId).value.cost;
              && Balance(childId, r.store.completions, r.store.tasks) == Balance(childId, s.completions, s.tasks) - cost
              && Balance(childId, r.store.completions, r.store.tasks) >= 0
  {
    match FindReward(s.rewards, rewardId)
    case None => Redeemed(s, None)
    case Some(reward) =>
      if Balance(childId, s.completions, s.tasks) < reward.cost then Redeemed(s, None)
      else
        ApplyRedemptionKeepsPoints(s, childId, reward, id, now);
        var s' := ApplyRedemption(s, childId, reward, id, now);
        Redeemed(s', Some(s'.redemptions))
  }

  /**
   * One completed 10-point task and a 10-point reward: as written the reward
   * is bought twice from the same 10 points, while the corrected guard
   * declines the second purchase.
   */
  lemma RedeemTwiceExample()
    ensures var s := Store([], [Task("t", "Dishes", 10, "", "", None)], [Reward("r", "Toy", 10, "", "")],
                           [("c", [("t", 1)])], [], None, None, EmptyWeek, [], None, []);
            var once := RedeemReward(s, "c", "r", "1", 0);
            var fixed := RedeemRewardCorrected(s, "c", "r", "1", 0);
            && once.result.Some? && RedeemReward(once.store, "c", "r", "2", 0).result.Some?
            && fixed.result.Some? && RedeemRewardCorrected(fixed.store, "c", "r", "2", 0).result.None?
  {
    var s := Store([], [Task("t", "Dishes", 10, "", "", None)], [Reward("r", "Toy", 10, "", "")],
                   [("c", [("t", 1)])], [], None, None, EmptyWeek, [], None, []);
    assert FindTask(s.tasks, "t") == Some(s.tasks[0]);
    assert FindTask(s.tasks, RedemptionKey).None?;
    assert FindReward(s.rewards, "r") == Some(s.rewards[0]);
    assert CalculatePoints("c", s.completions, s.tasks) == 10;
    var once := RedeemReward(s, "c", "r", "1", 0);
    var entries := ChildEntries(s.completions, "c");
    assert entries == [("t", 1)];
    assert Get(entries, RedemptionKey).None?;
    assert Put(entries, RedemptionKey, -10) == [("t", 1), (RedemptionKey, -10)];
    ApplyRedemptionEntries(s, "c", s.rewards[0], "1", 0);
    assert once.store.completions == [("c", [("t", 1), (RedemptionKey, -10)])];
    var after: Obj<int> := [("t", 1), (RedemptionKey, -10)];
    assert EntryPoints(s.tasks, "t", 1) == 10;
    assert EntryPoints(s.tasks, RedemptionKey, -10) == 0;
    assert SumEntries(s.tasks, after) == 10 by {
      assert after[1..] == [(RedemptionKey, -10)];
      assert |after[1..][1..]| == 0;
    }
    assert RedemptionTotal(once.store.completions, "c") == -10;
    assert Balance("c", once.store.completions, s.tasks) == 0;
  }
}

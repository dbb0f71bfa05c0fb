/**
 * The two resets that clear completions: the daily one, which keeps only each
 * child's redemption total, and the whole-ledger weekly reset done at app start.
 */
module Resets {
  import opened Options
  import opened JsonObject
  import opened Model
  import Clock
  import Ledger

  /** JavaScript's `if (entries['redemption'])`: present and non-zero. */
  predicate HasRedemption(entries: Obj<int>) {
    Get(entries, RedemptionKey).Some? && Get(entries, RedemptionKey).value != 0
  }

  /** A child object that is exactly `{redemption: r}` with r non-zero. */
  predicate OnlyRedemption(entries: Obj<int>) {
    |entries| == 1 && entries[0].0 == RedemptionKey && entries[0].1 != 0
  }

  /** The rebuilt completions of `resetDailyTasks`, children in their original order. */
  function KeepRedemptions(c: Completions): (r: Completions)
    ensures forall e :: e in r ==> OnlyRedemption(e.1)
    ensures AllUnique(r)
    ensures forall k {:trigger Has(r, k)} :: Has(r, k) ==> Has(c, k)
    ensures UniqueKeys(c) ==> UniqueKeys(r)
    ensures UniqueKeys(c) ==>
              forall k {:trigger Get(r, k)} ::
                Get(r, k) == if Get(c, k).Some? && HasRedemption(Get(c, k).value)
                             then Some([(RedemptionKey, Get(Get(c, k).value, RedemptionKey).value)])
                             else None
  {
    if |c| == 0 then []
    else
      var rest := KeepRedemptions(c[1..]);
      if HasRedemption(c[0].1) then
        var kept := [(c[0].0, [(RedemptionKey, Get(c[0].1, RedemptionKey).value)])] + rest;
        assert kept[1..] == rest;
        assert UniqueKeys(kept[0].1);
        assert Keys(kept) == [c[0].0] + Keys(rest);
        forall k | Has(kept, k) ensures Has(c, k) {
          if k != c[0].0 { assert Has(rest, k); }
        }
        kept
      else rest
  }

  /** Rebuilding from an already rebuilt ledger changes nothing. */
  lemma {:induction false} KeepRedemptionsIdempotent(c: Completions)
    ensures KeepRedemptions(KeepRedemptions(c)) == KeepRedemptions(c)
  {
    if |c| > 0 {
      KeepRedemptionsIdempotent(c[1..]);
      var rest := KeepRedemptions(c[1..]);
      if HasRedemption(c[0].1) {
        var kept := KeepRedemptions(c);
        assert kept[1..] == rest;
        assert OnlyRedemption(kept[0].1);
        assert HasRedemption(kept[0].1);
      }
    }
  }

  /**
   * `resetDailyTasks`: every child is left either absent or exactly
   * `{redemption: r}` with r non-zero, so all task counts are dropped while
   * each redemption total survives.
   */
  function ResetDailyTasks(s: Store): (r: Store)
    ensures r == s.(completions := r.completions)
    ensures forall e :: e in r.completions ==> OnlyRedemption(e.1)
    ensures forall c, t {:trigger Lookup(r.completions, c, t)} :: t != RedemptionKey ==> Lookup(r.completions, c, t).None?
    ensures UniqueKeys(s.completions) ==>
              forall c {:trigger Lookup(r.completions, c, RedemptionKey)} ::
                Lookup(r.completions, c, RedemptionKey).GetOr(0) == Lookup(s.completions, c, RedemptionKey).GetOr(0)
    ensures WellFormedLedger(s.completions) ==> WellFormedLedger(r.completions)
  {
    s.(completions := KeepRedemptions(s.completions))
  }

  /** Running the daily reset twice is the same as running it once. */
  lemma ResetDailyIdempotent(s: Store)
    ensures ResetDailyTasks(ResetDailyTasks(s)) == ResetDailyTasks(s)
  {
    KeepRedemptionsIdempotent(s.completions);
  }

  /** After the daily reset no task shows as done, and (as written) every balance is 0. */
  lemma DailyResetClearsBalances(s: Store, childId: string, taskId: string)
    requires FindTask(s.tasks, RedemptionKey).None?
    ensures !IsCompleted(ResetDailyTasks(s).completions, childId, taskId) || taskId == RedemptionKey
    ensures Ledger.CalculatePoints(childId, ResetDailyTasks(s).completions, s.tasks) == 0
  {
    var r := ResetDailyTasks(s).completions;
    assert Lookup(r, childId, taskId).None? || taskId == RedemptionKey;
    match Get(r, childId)
    case None =>
    case Some(entries) =>
      assert (childId, entries) in r;
      assert OnlyRedemption(entries);
      assert forall e :: e in entries ==> e.0 == RedemptionKey;
  }

  datatype Checked = Checked(store: Store, wasReset: bool)

  /**
   * `checkWeeklyReset`: clears all completions (redemption totals included) and
   * records `now` when at least 7 whole days have passed since the last reset,
   * or it is Sunday and the last reset was not. A missing marker reads as `now`,
   * so it never fires.
   */
  function CheckWeeklyReset(s: Store, now: int): (r: Checked)
    ensures r.wasReset <==>
              s.lastReset.Some? &&
              (now - s.lastReset.value >= 7 * Clock.MsPerDay ||
               (Clock.DayOfWeek(now) == 0 && Clock.DayOfWeek(s.lastReset.value) != 0))
    ensures r.wasReset ==> r.store == s.(completions := [], lastReset := Some(now))
    ensures !r.wasReset ==> r.store == s
  {
    var last := s.lastReset.GetOr(now);
    var daysSinceReset := (now - last) / Clock.MsPerDay;
    WholeDays(now - last);
    if daysSinceReset >= 7 || (Clock.DayOfWeek(now) == 0 && Clock.DayOfWeek(last) != 0) then
      Checked(s.(completions := [], lastReset := Some(now)), true)
    else
      Checked(s, false)
  }

  /** `Math.floor(x / day) >= 7` exactly when x spans at least seven days. */
  lemma WholeDays(x: int)
    ensures x / Clock.MsPerDay >= 7 <==> x >= 7 * Clock.MsPerDay
  {
  }

  /** Right after a weekly reset, checking again at the same instant does nothing. */
  lemma CheckWeeklyResetIdempotent(s: Store, now: int)
    ensures CheckWeeklyReset(s, now).wasReset ==>
              var once := CheckWeeklyReset(s, now).store;
              CheckWeeklyReset(once, now) == Checked(once, false)
  {
  }
}

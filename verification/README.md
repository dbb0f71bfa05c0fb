# Kids task tracker: ledger, approvals and resets in Dafny

This project models the core of a household task-and-reward tracker. Children tick off chores to earn
points ("stars") and spend them on rewards. A parent manages the task, reward and child catalogues,
and approves the tasks marked as needing approval.

The model covers four parts of the system.

- **The storage layer** (`src/utils/storage.js`):
  - the points ledger (`calculatePoints`, `completeTask`, `removeCompletion`, `redeemReward`);
  - the weekly stats and the three resets (`updateWeeklyStats`, `resetDailyTasks`, `resetWeeklyStats`,
    `checkWeeklyReset`);
  - the approval queue (`submitTaskForApproval`, `approveTask`, `rejectTask`, `isTaskPending`).
- **The calendar arithmetic** of `src/utils/timeUtils.js`. It works over an abstract integer clock of
  milliseconds on the household's civil (Pacific) scale.
- **The decision rules inside the screens.** These are the reset check and task-tap dispatch of the
  child's task view; the undo, today's list and six-week chart of the parent overview; the
  affordability guard of the rewards screen; the PIN and password rules; and the edit, add and delete
  operations of the three catalogue managers.
- **The persistent store** as one immutable `Model.Store` record. Every storage operation is a pure
  function from a store to a new store. Each one states what it changes and that nothing else changes.

Each JSON object of the store is an ordered list of `(key, value)` entries (module `JsonObject`).
Assigning to an existing key updates it in place, assigning a new key appends it, and `delete` removes
it. For keys that are not integer-like this is JavaScript's own order. JavaScript lists integer-like
keys (such as the default task ids `"1"` to `"4"`) first, in ascending numeric order, and the model
does not; see "Left out". `Model.WellFormedLedger` says every object level has unique keys,
and the ledger operations are proved to keep it. Record ids, the current instant and today's date key
are parameters, not readings of a clock.

Module layout, one file each:

- `Options`, `JsonObject`, `Catalog` and `Model`: the shared data model.
- `Clock`: the calendar arithmetic.
- `Ledger`, `Weekly`, `Resets` and `Approval`: the storage layer.
- `KidsTaskView`, `ParentOverview`, `RewardsCatalog`, `VerificationModal`, `ParentLogin`, `TaskManager`,
  `RewardManager` and `ChildProfileManager`: one per screen.

Where the code's own comments and its behaviour differ, the model follows the behaviour.

- **The balance.** The comment above the redemption write (src/utils/storage.js:231) says that points
  are deducted by recording a negative completion. But `calculatePoints` adds only entries whose key
  is a catalogue task, so redemptions never lower a balance. This is the first finding below.
- **Approval.** `approveTask` removes the task from the pending list if it is there
  (src/utils/storage.js:476-481). It then completes the task whether or not it was pending
  (`Approval.ApproveTask`, `Approval.ApproveEarnsPoints`).
- **Instant verification.** The dialog's instant-verify handler is commented as completing the task
  immediately (src/components/KidsTaskView.jsx:338). For a task that is already pending, a tap reopens
  the dialog, and confirming it there leaves the task pending. This is the second finding.
- **The daily reset.** The comments say the reset keeps the redemption deductions
  (src/utils/storage.js:380-384). The code keeps only a non-zero accumulator; a child with none, or
  with zero, is dropped (`Resets.ResetDailyTasks` states it as "the total read with 0 for absent is
  unchanged").

The screens use the storage operations as written. The corrected definitions stand beside them as the
second half of each finding.

## Model

| member | source | states |
|---|---|---|
| Clock.MidnightToday | src/utils/timeUtils.js:20-25 | today's midnight is at or before now, less than a day before it, on the same civil day, and a whole number of days |
| Clock.WeekStartDay | src/utils/timeUtils.js:31-43 | the week start is a Sunday, on or before today and fewer than 7 days before it |
| Clock.WeekStartOfSunday | src/utils/timeUtils.js:31-43 | a Sunday is the week start of an instant exactly when the instant falls in the seven days it begins |
| Clock.ShouldResetDaily | src/utils/timeUtils.js:50-57 | a missing marker is always due; otherwise the reset is due exactly when today is a later civil day than the marker's |
| Clock.DailyMarkerHoldsForTheDay | src/utils/timeUtils.js:50-57 | after the marker is stamped at `now`, a later check finds the reset not due exactly while it is still the same day |
| Clock.ShouldResetWeekly | src/utils/timeUtils.js:64-69 | a missing week start is always due; a stored Sunday is due exactly when today lies outside its seven days; a stored day that is not a Sunday is always due |
| Clock.WeeklyMarkerHoldsForTheWeek | src/utils/timeUtils.js:64-69 | once the current week start is stored, the weekly reset is not due exactly while today stays within that week |
| Clock.CurrentWeekRange | src/utils/timeUtils.js:75-84 | the range contains now, starts on a Sunday at the week start, and ends on the Saturday six days later, 7 days minus 1 ms after its start |
| Catalog.FindById | src/utils/storage.js:190 | the lookup fails exactly when no element has the id; a hit has the id and is the element at some position before which no element has the id, so it is the first match |
| Catalog.EditById | src/components/TaskManager.jsx:27-32 | the list keeps its length and order; elements with the id are patched and every other element is unchanged |
| Catalog.EditKeepsIds | src/components/TaskManager.jsx:27-32 | an edit whose patch keeps ids leaves the list's ids unchanged |
| Catalog.EditThenFind | src/components/TaskManager.jsx:27-32 | after an edit, looking up the edited id returns the patched version of what it returned before |
| Catalog.RemoveById | src/components/TaskManager.jsx:58-63 | the result holds exactly the elements without the id, is shorter by the number of elements that had it, and equals the input when none had it; a one-element list is kept or emptied by its id |
| Catalog.RemoveByIdAppend | src/components/TaskManager.jsx:58-63 | filtering a concatenation is filtering each part, in order; with the one-element case this fixes the result as the survivors in their original order and multiplicity |
| Catalog.CountIdZero | src/components/TaskManager.jsx:58-63 | no element has the id exactly when the count of elements with it is zero |
| Catalog.SaveForm | src/components/TaskManager.jsx:23-45 | while editing (non-empty id) the result is the in-place edit; otherwise it is the old list with exactly one element appended |
| Catalog.AppendedIsFound | src/components/TaskManager.jsx:35-41 | an element appended under an unused id is what a lookup of that id returns afterwards |
| Ledger.EntryPointsIsProduct | src/utils/storage.js:189-194 | one completion entry adds the task's points times its count, and nothing when its key is not a catalogue task id |
| Ledger.CalculatePoints | src/utils/storage.js:184-198 | a child with no object, or whose keys are all non-task ids, has a balance of 0 |
| Ledger.SumNoTaskKeys | src/utils/storage.js:189-194 | entries whose keys are not catalogue task ids sum to 0, whatever their counts |
| Ledger.PointsIgnoreNonTaskKeys | src/utils/storage.js:189-194 | writing any value under a key that is no catalogue task id, such as `redemption`, leaves the balance unchanged |
| Ledger.CompleteTask | src/utils/storage.js:201-216 | the count becomes one more than before (1 when absent); every other child and task entry and every other store field is unchanged |
| Ledger.CompleteTaskKeepsWellFormed | src/utils/storage.js:201-216 | a completion keeps every object in the ledger free of duplicate keys |
| Ledger.CompleteTaskEarnsPoints | src/utils/storage.js:201-216 | a completion raises the balance by exactly the task's points, and by nothing for a non-catalogue id |
| Ledger.SumIncrement | src/utils/storage.js:189-194 | raising one entry by one raises the child's sum by that key's worth |
| Ledger.RemoveCompletion | src/utils/storage.js:364-376 | a positive count drops by one and the key disappears when it reaches 0; absent, zero and negative entries (including the redemption accumulator) leave the store unchanged; every other entry is unchanged |
| Ledger.Decrement | src/utils/storage.js:368-371 | the decremented key is gone after a count of 1 and holds one less otherwise; every other key and unique keys are kept |
| Ledger.RemoveCompletionKeepsWellFormed | src/utils/storage.js:364-376 | an undo keeps every object in the ledger free of duplicate keys |
| Ledger.RemoveCompletionReturnsPoints | src/utils/storage.js:364-376 | undoing a completed task lowers the balance by exactly the task's points |
| Ledger.SumDecrement | src/utils/storage.js:368-371 | lowering a positive entry by one, deleting it at 0, lowers the sum by that key's worth |
| Ledger.CompleteThenRemove | src/utils/storage.js:201-216 | an undo right after a completion restores the store, when the child already had an object and the entry was absent or positive |
| Ledger.CompleteThenRemoveNewChild | src/utils/storage.js:204-206 | for a child with no object yet, complete then undo leaves the child with an empty object rather than no object |
| Ledger.CompleteThenRemoveZero | src/utils/storage.js:364-376 | a zero entry is not restored by complete then undo: the key is deleted |
| Ledger.ApplyRedemption | src/utils/storage.js:236-257 | the accumulator drops by exactly the cost (from 0 when absent), no other ledger entry changes, and exactly one log record with the reward's id, name and cost is appended |
| Ledger.ApplyRedemptionKeepsWellFormed | src/utils/storage.js:236-245 | a redemption keeps every object in the ledger free of duplicate keys |
| Ledger.ApplyRedemptionKeepsPoints | src/utils/storage.js:236-245 | in a well-formed ledger whose catalogue has no task named `redemption`, the accumulator write leaves the balance computed by `calculatePoints` unchanged |
| Ledger.RedeemReward | src/utils/storage.js:219-260 | the redemption succeeds exactly when the reward is known and the balance covers its cost; a declined one writes nothing; a success appends exactly one record with that cost and returns the new log |
| Ledger.RedeemKeepsBalance | src/utils/storage.js:219-260 | as written, in a well-formed ledger whose catalogue has no task named `redemption`, a redemption never lowers the balance it was checked against |
| Ledger.RedeemRepeatable | src/utils/storage.js:219-260 | as written, under the same conditions, a redemption that succeeded succeeds again at once |
| Ledger.RedeemTwiceExample | src/utils/storage.js:184-260 | with one completed 10-point task and a 10-point reward, the code buys the reward twice from the same 10 points, while the corrected guard declines the second purchase |
| Ledger.RedeemRewardCorrected | src/utils/storage.js:219-260 | with the accumulator counted in the balance, a redemption succeeds exactly when that balance covers the cost, makes the same write as the code, and declines without writing; in a well-formed ledger it lowers that balance by exactly the cost and never leaves it negative |
| Weekly.Max0 | src/utils/storage.js:338-340 | the floor at 0 is non-negative, at least its argument, and equal to it when the argument is non-negative |
| Weekly.UpdateWeeklyStats | src/utils/storage.js:324-361 | a completion adds one task and the points to the child's totals and today's bucket; an undo subtracts them, floored at 0; other children, other days and the week start are unchanged; the child and bucket exist afterwards |
| Weekly.UpdateKeepsNonNegative | src/utils/storage.js:324-361 | an undo, or a completion worth non-negative points, keeps every weekly counter non-negative |
| Weekly.UndoRestoresStats | src/utils/storage.js:324-361 | an undo right after a completion restores the weekly stats once the child and today's bucket exist |
| Weekly.UndoRestoresChild | src/utils/storage.js:337-357 | the same restoration for one child's totals and buckets |
| Weekly.TallyUndo | src/utils/storage.js:346-357 | uncounting a task just counted restores a non-negative day bucket |
| Weekly.ResetWeeklyStats | src/utils/storage.js:409-442 | the live week becomes empty with the new start; a dated live week is prepended to the history and the oldest entry dropped past 5; an undated one leaves the history unchanged |
| Weekly.HistoryStaysBounded | src/utils/storage.js:409-431 | any run of weekly resets keeps the history at 5 entries or fewer, and ends with the last start's empty week |
| Resets.KeepRedemptions | src/utils/storage.js:379-394 | every kept child is exactly `{redemption: r}` with r non-zero, only existing children are kept, and a child is kept exactly when it had a non-zero accumulator |
| Resets.KeepRedemptionsIdempotent | src/utils/storage.js:379-394 | rebuilding from an already rebuilt ledger changes nothing |
| Resets.ResetDailyTasks | src/utils/storage.js:379-394 | every task count is dropped, each child's redemption total (0 when absent) is unchanged, and well-formedness and every other store field are kept |
| Resets.ResetDailyIdempotent | src/utils/storage.js:379-394 | running the daily reset twice equals running it once |
| Resets.DailyResetClearsBalances | src/utils/storage.js:379-394 | after the daily reset no task shows as done, and the balance as computed is 0 |
| Resets.CheckWeeklyReset | src/utils/storage.js:263-278 | it fires exactly when a marker exists and either 7 whole days have passed or it is Sunday and the marker was not; firing clears all completions and stamps now; otherwise nothing changes |
| Resets.WholeDays | src/utils/storage.js:268-270 | at least 7 whole days have elapsed exactly when the elapsed time is at least 7 days |
| Resets.CheckWeeklyResetIdempotent | src/utils/storage.js:263-278 | if the first check reset the week, a second check at the same instant does nothing |
| Approval.Without | src/utils/storage.js:479 | filtering keeps exactly the other ids, keeps the list when the id is absent, and keeps ids distinct |
| Approval.DistinctAppend | src/utils/storage.js:458-472 | appending an id that is absent from a distinct list keeps it distinct |
| Approval.IsTaskPending | src/utils/storage.js:507-510 | a task is pending exactly when it is in the child's queue, which is empty when the child has none |
| Approval.SubmitTaskForApproval | src/utils/storage.js:458-472 | the task is pending afterwards; submitting a pending task changes nothing; otherwise it is appended to the child's queue; other children, other fields, distinctness and unique keys are kept |
| Approval.SubmitIdempotent | src/utils/storage.js:458-472 | submitting twice equals submitting once |
| Approval.Dequeue | src/utils/storage.js:477-481 | the task leaves the child's queue, every other task's membership and every other child are unchanged, and a child with no queue is left alone |
| Approval.RejectTask | src/utils/storage.js:496-504 | only the queue changes; the task is no longer pending and no other task or child is affected |
| Approval.RejectIdempotent | src/utils/storage.js:496-504 | rejecting twice equals rejecting once |
| Approval.SubmitThenReject | src/utils/storage.js:458-504 | rejecting a task just submitted to an existing queue that lacked it restores the store |
| Approval.ApproveTask | src/utils/storage.js:475-493 | the task leaves the queue, the weekly stats gain the task only when it is in the catalogue, and the ledger completion happens whether or not it was pending |
| Approval.ApproveEarnsPoints | src/utils/storage.js:475-493 | approving pays exactly the task's points, even for a task that was never pending |
| KidsTaskView.CheckResets | src/components/KidsTaskView.jsx:31-53 | a due daily reset stamps now and leaves exactly the completions `resetDailyTasks` keeps; a due weekly reset starts the current week and leaves the history `resetWeeklyStats` builds; a reset that is not due changes nothing it owns; both can fire; afterwards neither is due; the history stays within 5 |
| KidsTaskView.CheckResetsIdempotent | src/components/KidsTaskView.jsx:31-53 | checking again later the same day changes nothing |
| KidsTaskView.HandleCompleteTask | src/components/KidsTaskView.jsx:75-127 | an unknown task is ignored; a pending task reopens verification before the done check; a done task is undone in the ledger and the weekly stats; an approval task opens verification; any other task is completed and counted; dialog outcomes change nothing |
| KidsTaskView.TapMovesPoints | src/components/KidsTaskView.jsx:75-127 | a completing tap earns the task's points, an undoing tap takes them back, and any other tap leaves the balance alone |
| KidsTaskView.DoubleTapRestores | src/components/KidsTaskView.jsx:88-121 | tapping a plain task twice completes it and then undoes it, restoring the store |
| KidsTaskView.OnSendToParent | src/components/KidsTaskView.jsx:331-336 | only the queue changes: the task becomes pending and every other task's status is unchanged |
| KidsTaskView.OnInstantVerify | src/components/KidsTaskView.jsx:337-356 | the count rises by one and the task is counted in the weekly stats, but the approval queue is unchanged |
| KidsTaskView.InstantVerifyLeavesPending | src/components/KidsTaskView.jsx:337-356 | a pending task confirmed by PIN stays pending: the next tap reopens the dialog, and a later approval pays the task a second time |
| KidsTaskView.OnInstantVerifyCorrected | src/components/KidsTaskView.jsx:337-356 | the same completion, with the task taken off the queue and every other task's status unchanged |
| KidsTaskView.InstantVerifyCorrectedThenTapUndoes | src/components/KidsTaskView.jsx:88-101 | with the corrected callback, the next tap on the verified task undoes it |
| ParentOverview.HandleConfirmRemove | src/components/ParentOverview.jsx:71-91 | the ledger undo always runs; the weekly-stats undo runs only when the task is still in the catalogue |
| ParentOverview.ConfirmRemoveReturnsPoints | src/components/ParentOverview.jsx:71-91 | removing a listed completion takes exactly the task's points back |
| ParentOverview.ConfirmRemoveOfUndoneTaskStillUndoesStats | src/components/ParentOverview.jsx:71-80 | confirming a stale removal leaves the ledger alone but still lowers the week's task count |
| ParentOverview.TodaysCompleted | src/components/ParentOverview.jsx:222-238 | a key is listed exactly when it is one of the child's keys, is not `redemption`, is a catalogue task and has a positive count |
| ParentOverview.Shown | src/components/ParentOverview.jsx:229-238 | the same filter over a suffix of the child's keys |
| ParentOverview.TodaysCompletedEmptyAfterReset | src/components/ParentOverview.jsx:222-238 | after a daily reset the list is empty for every child |
| ParentOverview.ChildPoints | src/components/ParentOverview.jsx:104-106 | a week's points for the child, 0 when the child has no stats that week |
| ParentOverview.ShownWeeks | src/components/ParentOverview.jsx:328 | the chart shows five past weeks, or the whole history when it is shorter |
| ParentOverview.Reverse | src/components/ParentOverview.jsx:328 | the reversed list has the same length, and its element i is the input's element counted from the end |
| ParentOverview.PastBars | src/components/ParentOverview.jsx:330-344 | one non-current bar per past week, captioned with its start, holding the child's points that week |
| ParentOverview.PaddingBars | src/components/ParentOverview.jsx:355-362 | exactly n placeholder bars worth 0 |
| ParentOverview.ChartSeries | src/components/ParentOverview.jsx:321-374 | exactly 6 bars: placeholders first, then the shown past weeks oldest first, then the live week, the only current one |
| RewardsCatalog.HandleRedeem | src/components/RewardsCatalog.jsx:9-27 | a shown balance below the cost only alerts with the positive shortfall; the confetti appears exactly when the ledger redemption succeeded, with one record added; otherwise the store is unchanged |
| RewardsCatalog.CardClick | src/components/RewardsCatalog.jsx:130-136 | a card the child cannot afford does nothing; a click never raises the shortfall alert; a celebrated click was affordable |
| RewardsCatalog.FreshClickCelebratesIffAffordable | src/components/RewardsCatalog.jsx:130-136 | with the ledger's balance shown and the catalogue's reward clicked, a click celebrates exactly when the card is affordable |
| VerificationModal.HandlePinSubmit | src/components/VerificationModal.jsx:11-22 | with no (or an empty) password any PIN passes; otherwise exactly the password passes; a rejected PIN empties the field and sets the error |
| VerificationModal.OnPinChange | src/components/VerificationModal.jsx:92-95 | typing replaces the PIN and clears the error |
| VerificationModal.OnlyThePasswordPasses | src/components/VerificationModal.jsx:11-22 | with a password set, a PIN passes exactly when it is the password |
| VerificationModal.RetryAfterRejection | src/components/VerificationModal.jsx:11-22 | after a rejection, typing the password and submitting passes with no error left |
| VerificationModal.ConfirmWithPin | src/components/VerificationModal.jsx:11-22 | an accepted PIN runs the instant verification; a rejected one leaves the store unchanged |
| ParentLogin.OpenLogin | src/components/ParentLogin.jsx:7 | the screen opens in setup mode exactly when no (or an empty) password is stored, with every field empty |
| ParentLogin.HandleSubmit | src/components/ParentLogin.jsx:10-38 | setup logs in exactly for a password of at least 4 characters that matches its confirmation, checking the length first; login succeeds exactly when a non-empty password is stored and the entry equals it (`getParentPassword` reads an empty one as null), so an empty stored value accepts nothing, and a failure clears the entry; only a successful setup changes the stored password; a failure always shows an error |
| ParentLogin.SetupThenLogin | src/components/ParentLogin.jsx:10-38 | after a successful setup the screen reopens in login mode and accepts exactly the chosen password |
| TaskManager.HandleSubmit | src/components/TaskManager.jsx:23-45 | while editing, only tasks with the edited id take the form's fields, keeping their ids and order; otherwise exactly one task with the new id is appended; the form is reset either way |
| TaskManager.AddedTaskIsFound | src/components/TaskManager.jsx:35-41 | a task added under an unused id is found under that id afterwards |
| TaskManager.EditedTaskIsFound | src/components/TaskManager.jsx:27-32 | after an edit, the edited id finds the form's fields |
| TaskManager.HandleEdit | src/components/TaskManager.jsx:47-56 | the editor holds the task's id and fields, and a missing approval flag shows as unchecked |
| TaskManager.EditUnchangedIsNoOp | src/components/TaskManager.jsx:23-56 | opening a task and saving it unchanged leaves the store unchanged, given unique ids |
| TaskManager.HandleDelete | src/components/TaskManager.jsx:58-64 | a confirmed delete removes exactly the tasks with the id and keeps the others in order (`Catalog.RemoveById`); an unconfirmed one changes nothing |
| RewardManager.HandleSubmit | src/components/RewardManager.jsx:24-46 | while editing, only rewards with the edited id take the form's fields in place; otherwise exactly one reward with the new id is appended; the form is reset to cost 30 either way |
| RewardManager.AddedRewardIsFound | src/components/RewardManager.jsx:35-43 | a reward added under an unused id is found under that id afterwards |
| RewardManager.EditedRewardIsFound | src/components/RewardManager.jsx:27-33 | after an edit, the edited id finds the form's fields |
| RewardManager.HandleEdit | src/components/RewardManager.jsx:48-56 | the editor holds the reward's id and all of its fields |
| RewardManager.EditUnchangedIsNoOp | src/components/RewardManager.jsx:24-56 | opening a reward and saving it unchanged leaves the store unchanged, given unique ids |
| RewardManager.HandleDelete | src/components/RewardManager.jsx:58-64 | a confirmed delete removes exactly the rewards with the id and keeps the others in order (`Catalog.RemoveById`); an unconfirmed one changes nothing |
| ChildProfileManager.ResetForm | src/components/ChildProfileManager.jsx:74-81 | nothing is being edited and the fields are blank, pink and a unicorn; the delete dialog is left as it was |
| ChildProfileManager.HandleSubmit | src/components/ChildProfileManager.jsx:24-46 | while editing, only children with the edited id take the form's fields in place; otherwise exactly one child with the new id is appended; the form is reset either way |
| ChildProfileManager.AddedChildIsFound | src/components/ChildProfileManager.jsx:34-43 | a child added under an unused id is found under that id afterwards |
| ChildProfileManager.HandleEdit | src/components/ChildProfileManager.jsx:48-55 | the editor holds the child's id and all of its fields |
| ChildProfileManager.HandleDelete | src/components/ChildProfileManager.jsx:57-59 | asking to delete only opens the dialog for that child |
| ChildProfileManager.ConfirmDelete | src/components/ChildProfileManager.jsx:61-68 | with a child in the dialog, exactly the children with that id are removed, the others keep their order (`Catalog.RemoveById`), and the dialog closes; completions and stats are untouched; with none, nothing changes |
| ChildProfileManager.CancelDelete | src/components/ChildProfileManager.jsx:70-72 | the dialog closes and the list and form are unchanged |
| ChildProfileManager.DeleteThenConfirm | src/components/ChildProfileManager.jsx:57-68 | asking and then confirming removes exactly that child, and the child's ledger entries survive |
| ChildProfileManager.DeleteThenCancel | src/components/ChildProfileManager.jsx:57-72 | asking and then cancelling leaves the store unchanged |

## Left out

- Remote sync: the initial load, pushing to the server, polling and the sync-in-progress flag in `src/utils/storage.js`, plus `server.js`. These are network and file I/O with timers and async interleaving.
- `localStorage`, JSON encoding and decoding, the default-data fallbacks of the getters, `exportData` and `importData`. These are persistence plumbing; the store is one record instead.
- Time zones: the Pacific conversion through `toLocaleString`, the UTC `toISOString` date keys and the host-local `getDay()` in `checkWeeklyReset`. These depend on a time-zone database. The code mixes scales: the daily marker is a real UTC instant, but it is compared with a Pacific midnight re-read as host-local time. Week-start strings and `getCurrentWeekRange` pass through UTC and host-local conversions as well. The model puts every instant on one Pacific wall-clock scale, so the shifts of up to a day that these conversions cause on some hosts are not modelled. The dailyHistory date key is the `today` parameter.
- `Clock.WeekStartDay`: the `YYYY-MM-DD` week-start string is modelled as its day index, so comparing strings becomes comparing integers.
- Wall-clock readings (`new Date()`, `Date.now()`): the current instant, record ids and timestamps are parameters. So is the daily marker, which the code stores as an ISO string.
- `getWeekRangeDisplay` and `getTodayDateString`: text formatting only.
- `WeeklyChart.jsx` and all markup and styling: floating-point bar scaling and presentation.
- `ParentOverview.ChartSeries`: a past week's `M/D` label is kept as the week's start date, the `...` label is a placeholder value, and the live week's label is "This Week". Date formatting is not modelled.
- `KidsTaskView.HandleCompleteTask`: the done check reads the screen's copy of the completions. The model takes that copy to be the stored ledger.
- `setTimeout` animations, the 3-second auto-cancel of a removal confirmation, `confirm()` and `alert()`, and `window` events. These are timers and dialogs. A `confirm()` answer is the `confirmed` parameter; an alert is an outcome value.
- `RewardsCatalog.HandleRedeem`: `points` is the balance the screen was opened with. The model does not track React state going stale between renders.
- `ParentLogin.HandleSubmit`: JavaScript measures a password's length in UTF-16 code units, but the model counts characters. The two differ only for characters outside the Basic Multilingual Plane.
- `TaskManager.HandleSubmit`: `parseInt` on the points field, and `NaN` for text that is not a number, are not modelled. The form holds an integer.
- `RewardManager.HandleSubmit`: `parseInt` on the cost field, and `NaN` for text that is not a number, are not modelled. The form holds an integer.
- `JsonObject.Put`: a new key is appended. JavaScript lists integer-like keys first, in ascending numeric order, so the model's key order can differ from the code's. Only the order of the parent overview's list of today's completions (`src/components/ParentOverview.jsx:229`) depends on it; balances and lookups do not.
- Ledger counts are integers. Non-integer or non-numeric values in a hand-edited store are not modelled.

## Findings

| source | as written | input that shows it | evidently intended | confidence | as-written member | corrected member |
|---|---|---|---|---|---|---|
| src/utils/storage.js:184-198 | `calculatePoints` adds only entries whose key is a catalogue task, so the negative `redemption` total written by `redeemReward` (lines 236-245) never lowers the balance the redemption guard checks | a child with one completed 10-point task and a 10-point reward: the first redemption succeeds, and the second succeeds too, because the balance is still 10 | the balance is the task points plus the redemption total, so a reward can only be bought while that balance covers it | high, not executed | Ledger.RedeemTwiceExample | Ledger.RedeemRewardCorrected |
| src/components/KidsTaskView.jsx:337-356 | `onInstantVerify` completes the task but does not take it off the approval queue; a pending task's tap reopens the dialog (lines 81-86), whose PIN path then calls it | a task sent to the parent, then tapped again and confirmed with the PIN: it stays pending, the next tap reopens the dialog instead of undoing, and the parent's approval pays it a second time | a task verified on the spot is no longer waiting for approval | medium, not executed | KidsTaskView.InstantVerifyLeavesPending | KidsTaskView.OnInstantVerifyCorrected |

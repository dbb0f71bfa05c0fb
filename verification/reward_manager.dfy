/**
 * The parent's reward editor: the same edit-or-add form as for tasks, over the
 * reward catalogue.
 */
module RewardManager {
  import opened Options
  import opened Model
  import Catalog

  datatype RewardForm = RewardForm(name: string, cost: int, emoji: string, description: string)

  /** The form plus `isEditing`, the id of the reward being edited, if any. */
  datatype RewardEditor = RewardEditor(editing: Option<string>, form: RewardForm)

  /** `resetForm`: nothing being edited, a blank name and description, cost 30, a gift. */
  const BlankForm: RewardEditor := RewardEditor(None, RewardForm("", 30, "\U{1F381}", ""))

  /** `{ ...reward, ...formData }`: the reward's id with the form's fields. */
  function Patched(form: RewardForm): Reward -> Reward {
    (w: Reward) => Reward(w.id, form.name, form.cost, form.emoji, form.description)
  }

  /** `{ id, ...formData }`. */
  function NewReward(id: string, form: RewardForm): Reward {
    Reward(id, form.name, form.cost, form.emoji, form.description)
  }

  datatype Screen = Screen(store: Store, editor: RewardEditor)

  /**
   * `handleSubmit`: while editing, the rewards with the edited id take the
   * form's fields in place; otherwise one reward with the fresh id `newId` is
   * appended. Either way the form is then reset.
   */
  function HandleSubmit(s: Store, ed: RewardEditor, newId: string): (r: Screen)
    ensures r.store == s.(rewards := r.store.rewards)
    ensures r.editor == BlankForm
    ensures Truthy(ed.editing) ==>
              && |r.store.rewards| == |s.rewards|
              && forall i :: 0 <= i < |s.rewards| ==>
                   r.store.rewards[i].id == s.rewards[i].id &&
                   r.store.rewards[i] == if s.rewards[i].id == ed.editing.value then NewReward(s.rewards[i].id, ed.form) else s.rewards[i]
    ensures !Truthy(ed.editing) ==>
              && |r.store.rewards| == |s.rewards| + 1
              && r.store.rewards[..|s.rewards|] == s.rewards
              && r.store.rewards[|s.rewards|] == NewReward(newId, ed.form)
  {
    var rewards := Catalog.SaveForm(s.rewards, ed.editing, RewardId, Patched(ed.form), NewReward(newId, ed.form));
    Screen(s.(rewards := rewards), BlankForm)
  }

  /** An added reward under an unused id is the one found, and so redeemable, under that id. */
  lemma AddedRewardIsFound(s: Store, ed: RewardEditor, newId: string)
    requires !Truthy(ed.editing) && FindReward(s.rewards, newId).None?
    ensures FindReward(HandleSubmit(s, ed, newId).store.rewards, newId) == Some(NewReward(newId, ed.form))
  {
    Catalog.AppendedIsFound(s.rewards, NewReward(newId, ed.form), RewardId);
  }

  /** After an edit, the edited id finds the form's fields, so the next redemption charges the new cost. */
  lemma EditedRewardIsFound(s: Store, ed: RewardEditor, newId: string)
    requires Truthy(ed.editing)
    ensures var id := ed.editing.value;
            var after := FindReward(HandleSubmit(s, ed, newId).store.rewards, id);
            after == if FindReward(s.rewards, id).Some? then Some(NewReward(id, ed.form)) else None
  {
    Catalog.EditThenFind(s.rewards, ed.editing.value, RewardId, Patched(ed.form));
  }

  /** `handleEdit`: the reward's id goes into `isEditing` and its fields into the form. */
  function HandleEdit(reward: Reward): (r: RewardEditor)
    ensures r.editing == Some(reward.id)
    ensures NewReward(reward.id, r.form) == reward
  {
    RewardEditor(Some(reward.id), RewardForm(reward.name, reward.cost, reward.emoji, reward.description))
  }

  /** Opening a reward in the editor and saving without changes leaves the catalogue as it was, when ids are unique. */
  lemma EditUnchangedIsNoOp(s: Store, i: int, newId: string)
    requires 0 <= i < |s.rewards| && s.rewards[i].id != ""
    requires Catalog.UniqueIds(s.rewards, RewardId)
    ensures HandleSubmit(s, HandleEdit(s.rewards[i]), newId).store == s
  {
    var r := HandleSubmit(s, HandleEdit(s.rewards[i]), newId).store.rewards;
    assert forall j :: 0 <= j < |s.rewards| ==> r[j] == s.rewards[j] by {
      forall j | 0 <= j < |s.rewards|
        ensures r[j] == s.rewards[j]
      {
        if s.rewards[j].id == s.rewards[i].id {
          assert j == i;
        }
      }
    }
  }

  /** `handleDelete`: when the parent confirms, every reward with the id is dropped; otherwise nothing changes. */
  function HandleDelete(s: Store, rewardId: string, confirmed: bool): (r: Store)
    ensures r == s.(rewards := r.rewards)
    ensures !confirmed ==> r == s
    ensures confirmed ==> forall w :: w in r.rewards <==> w in s.rewards && w.id != rewardId
    ensures confirmed ==> FindReward(r.rewards, rewardId).None?
    ensures confirmed ==> |r.rewards| == |s.rewards| - Catalog.CountId(s.rewards, rewardId, RewardId)
    ensures confirmed ==> r.rewards == Catalog.RemoveById(s.rewards, rewardId, RewardId)
  {
    if confirmed then s.(rewards := Catalog.RemoveById(s.rewards, rewardId, RewardId)) else s
  }
}

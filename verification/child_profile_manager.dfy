/**
 * The parent's child-profile editor: the edit-or-add form, and deletion
 * through an in-page confirmation dialog.
 */
module ChildProfileManager {
  import opened Options
  import opened Model
  import Catalog

  datatype ChildForm = ChildForm(name: string, color: string, avatar: string)

  /** The form, `isEditing`, and `deleteConfirmId`, the child the dialog asks about. */
  datatype ChildEditor = ChildEditor(editing: Option<string>, deleteConfirmId: Option<string>, form: ChildForm)

  /** The fields `resetForm` restores: a blank name, pink, a unicorn. */
  const BlankChild: ChildForm := ChildForm("", "#FF6B9D", "\U{1F984}")

  /** `resetForm`: nothing being edited and the blank fields; the delete dialog is left as it is. */
  function ResetForm(ed: ChildEditor): (r: ChildEditor)
    ensures r.editing.None? && r.form == BlankChild && r.deleteConfirmId == ed.deleteConfirmId
  {
    ed.(editing := None, form := BlankChild)
  }

  /** `{ ...child, ...formData }`: the child's id with the form's fields. */
  function Patched(form: ChildForm): Child -> Child {
    (c: Child) => Child(c.id, form.name, form.color, form.avatar)
  }

  /** `{ id, ...formData }`. */
  function NewChild(id: string, form: ChildForm): Child {
    Child(id, form.name, form.color, form.avatar)
  }

  datatype Screen = Screen(store: Store, editor: ChildEditor)

  /**
   * `handleSubmit`: while editing, the children with the edited id take the
   * form's fields in place; otherwise one child with the fresh id `newId` is
   * appended. Either way the form is then reset.
   */
  function HandleSubmit(s: Store, ed: ChildEditor, newId: string): (r: Screen)
    ensures r.store == s.(children := r.store.children)
    ensures r.editor == ResetForm(ed)
    ensures Truthy(ed.editing) ==>
              && |r.store.children| == |s.children|
              && forall i :: 0 <= i < |s.children| ==>
                   r.store.children[i].id == s.children[i].id &&
                   r.store.children[i] == if s.children[i].id == ed.editing.value then NewChild(s.children[i].id, ed.form) else s.children[i]
    ensures !Truthy(ed.editing) ==>
              && |r.store.children| == |s.children| + 1
              && r.store.children[..|s.children|] == s.children
              && r.store.children[|s.children|] == NewChild(newId, ed.form)
  {
    var children := Catalog.SaveForm(s.children, ed.editing, ChildId, Patched(ed.form), NewChild(newId, ed.form));
    Screen(s.(children := children), ResetForm(ed))
  }

  /** An added child under an unused id is the one found under that id afterwards. */
  lemma AddedChildIsFound(s: Store, ed: ChildEditor, newId: string)
    requires !Truthy(ed.editing) && Catalog.FindById(s.children, newId, ChildId).None?
    ensures Catalog.FindById(HandleSubmit(s, ed, newId).store.children, newId, ChildId) == Some(NewChild(newId, ed.form))
  {
    Catalog.AppendedIsFound(s.children, NewChild(newId, ed.form), ChildId);
  }

  /** `handleEdit`: the child's id goes into `isEditing` and its fields into the form. */
  function HandleEdit(ed: ChildEditor, child: Child): (r: ChildEditor)
    ensures r.editing == Some(child.id) && r.deleteConfirmId == ed.deleteConfirmId
    ensures NewChild(child.id, r.form) == child
  {
    ed.(editing := Some(child.id), form := ChildForm(child.name, child.color, child.avatar))
  }

  /** `handleDelete`: only opens the dialog for the child. */
  function HandleDelete(ed: ChildEditor, childId: string): (r: ChildEditor)
    ensures r == ed.(deleteConfirmId := Some(childId))
  {
    ed.(deleteConfirmId := Some(childId))
  }

  /**
   * `confirmDelete`: with a child in the dialog, drops every child with that id
   * and closes the dialog; with none, does nothing. Only the children list is
   * written: the child's completions, stats and queue stay behind.
   */
  function ConfirmDelete(s: Store, ed: ChildEditor): (r: Screen)
    ensures r.store == s.(children := r.store.children)
    ensures r.store.completions == s.completions && r.store.weeklyStats == s.weeklyStats
    ensures !Truthy(ed.deleteConfirmId) ==> r == Screen(s, ed)
    ensures Truthy(ed.deleteConfirmId) ==>
              && r.editor == ed.(deleteConfirmId := None)
              && (forall c :: c in r.store.children <==> c in s.children && c.id != ed.deleteConfirmId.value)
              && Catalog.FindById(r.store.children, ed.deleteConfirmId.value, ChildId).None?
              && r.store.children == Catalog.RemoveById(s.children, ed.deleteConfirmId.value, ChildId)
  {
    if Truthy(ed.deleteConfirmId) then
      Screen(s.(children := Catalog.RemoveById(s.children, ed.deleteConfirmId.value, ChildId)), ed.(deleteConfirmId := None))
    else Screen(s, ed)
  }

  /** `cancelDelete`: closes the dialog and changes nothing else. */
  function CancelDelete(s: Store, ed: ChildEditor): (r: Screen)
    ensures r.store == s && r.editor.deleteConfirmId.None?
    ensures r.editor.editing == ed.editing && r.editor.form == ed.form
  {
    Screen(s, ed.(deleteConfirmId := None))
  }

  /** Asking to delete and then confirming removes exactly that child, whose ledger entries survive. */
  lemma DeleteThenConfirm(s: Store, ed: ChildEditor, childId: string)
    requires childId != ""
    ensures var r := ConfirmDelete(s, HandleDelete(ed, childId));
            && Catalog.FindById(r.store.children, childId, ChildId).None?
            && (forall c :: c in r.store.children <==> c in s.children && c.id != childId)
            && Lookup(r.store.completions, childId, RedemptionKey) == Lookup(s.completions, childId, RedemptionKey)
            && r.editor.deleteConfirmId.None?
  {
  }

  /** Asking to delete and then cancelling leaves the store as it was. */
  lemma DeleteThenCancel(s: Store, ed: ChildEditor, childId: string)
    ensures CancelDelete(s, HandleDelete(ed, childId)).store == s
  {
  }
}

/**
 * The parent's task editor: one form that either edits the task being edited
 * or adds a new one, plus deletion behind a confirmation.
 */
module TaskManager {
  import opened Options
  import opened Model
  import Catalog

  /** The form's fields; a stored task's missing `requiresApproval` shows as unchecked. */
  datatype TaskForm = TaskForm(name: string, points: int, emoji: string, description: string, requiresApproval: bool)

  /** The form plus `isEditing`, the id of the task being edited, if any. */
  datatype TaskEditor = TaskEditor(editing: Option<string>, form: TaskForm)

  /** `resetForm`: nothing being edited, a blank name, 10 points, a star, no approval. */
  const BlankForm: TaskEditor := TaskEditor(None, TaskForm("", 10, "\U{2B50}", "", false))

  /** `{ ...task, ...formData }`: the task's id with the form's fields. */
  function Patched(form: TaskForm): Task -> Task {
    (t: Task) => Task(t.id, form.name, form.points, form.emoji, form.description, Some(form.requiresApproval))
  }

  /** `{ id, ...formData }`. */
  function NewTask(id: string, form: TaskForm): Task {
    Task(id, form.name, form.points, form.emoji, form.description, Some(form.requiresApproval))
  }

  datatype Screen = Screen(store: Store, editor: TaskEditor)

  /**
   * `handleSubmit`: while editing, every task with the edited id takes the
   * form's fields and keeps its id and position; otherwise one task with the
   * fresh id `newId` is appended. Either way the form is then reset.
   */
  function HandleSubmit(s: Store, ed: TaskEditor, newId: string): (r: Screen)
    ensures r.store == s.(tasks := r.store.tasks)
    ensures r.editor == BlankForm
    ensures Truthy(ed.editing) ==>
              && |r.store.tasks| == |s.tasks|
              && forall i :: 0 <= i < |s.tasks| ==>
                   r.store.tasks[i].id == s.tasks[i].id &&
                   r.store.tasks[i] == if s.tasks[i].id == ed.editing.value then NewTask(s.tasks[i].id, ed.form) else s.tasks[i]
    ensures !Truthy(ed.editing) ==>
              && |r.store.tasks| == |s.tasks| + 1
              && r.store.tasks[..|s.tasks|] == s.tasks
              && r.store.tasks[|s.tasks|] == NewTask(newId, ed.form)
  {
    var tasks := Catalog.SaveForm(s.tasks, ed.editing, TaskId, Patched(ed.form), NewTask(newId, ed.form));
    Screen(s.(tasks := tasks), BlankForm)
  }

  /** An added task under an unused id is the one found under that id afterwards. */
  lemma AddedTaskIsFound(s: Store, ed: TaskEditor, newId: string)
    requires !Truthy(ed.editing) && FindTask(s.tasks, newId).None?
    ensures FindTask(HandleSubmit(s, ed, newId).store.tasks, newId) == Some(NewTask(newId, ed.form))
  {
    Catalog.AppendedIsFound(s.tasks, NewTask(newId, ed.form), TaskId);
  }

  /** After an edit, the edited id finds the form's fields (when it found a task before). */
  lemma EditedTaskIsFound(s: Store, ed: TaskEditor, newId: string)
    requires Truthy(ed.editing)
    ensures var id := ed.editing.value;
            var after := FindTask(HandleSubmit(s, ed, newId).store.tasks, id);
            after == if FindTask(s.tasks, id).Some? then Some(NewTask(id, ed.form)) else None
  {
    Catalog.EditThenFind(s.tasks, ed.editing.value, TaskId, Patched(ed.form));
  }

  /** `handleEdit`: the task's id goes into `isEditing` and its fields into the form. */
  function HandleEdit(task: Task): (r: TaskEditor)
    ensures r.editing == Some(task.id)
    ensures r.form.requiresApproval <==> task.requiresApproval == Some(true)
    ensures NewTask(task.id, r.form) == task.(requiresApproval := Some(task.requiresApproval == Some(true)))
  {
    TaskEditor(Some(task.id), TaskForm(task.name, task.points, task.emoji, task.description, task.requiresApproval.GetOr(false)))
  }

  /**
   * Opening a task in the editor and saving without changes leaves the list as
   * it was, when ids are unique and the task already had its approval flag.
   */
  lemma EditUnchangedIsNoOp(s: Store, i: int, newId: string)
    requires 0 <= i < |s.tasks| && s.tasks[i].id != "" && s.tasks[i].requiresApproval.Some?
    requires Catalog.UniqueIds(s.tasks, TaskId)
    ensures HandleSubmit(s, HandleEdit(s.tasks[i]), newId).store == s
  {
    var r := HandleSubmit(s, HandleEdit(s.tasks[i]), newId).store.tasks;
    assert forall j :: 0 <= j < |s.tasks| ==> r[j] == s.tasks[j] by {
      forall j | 0 <= j < |s.tasks|
        ensures r[j] == s.tasks[j]
      {
        if s.tasks[j].id == s.tasks[i].id {
          assert j == i;
        }
      }
    }
  }

  /** `handleDelete`: when the parent confirms, every task with the id is dropped; otherwise nothing changes. */
  function HandleDelete(s: Store, taskId: string, confirmed: bool): (r: Store)
    ensures r == s.(tasks := r.tasks)
    ensures !confirmed ==> r == s
    ensures confirmed ==> forall t :: t in r.tasks <==> t in s.tasks && t.id != taskId
    ensures confirmed ==> FindTask(r.tasks, taskId).None?
    ensures confirmed ==> |r.tasks| == |s.tasks| - Catalog.CountId(s.tasks, taskId, TaskId)
    ensures confirmed ==> r.tasks == Catalog.RemoveById(s.tasks, taskId, TaskId)
  {
    if confirmed then s.(tasks := Catalog.RemoveById(s.tasks, taskId, TaskId)) else s
  }
}

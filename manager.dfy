/**
  The `TaskManager` object without its DOM work: the ordered task list in the
  field `tasks`, the view selector in the field `filter`, and the operations
  that reassign them.
*/
module Manager {
  import opened Seqs
  import opened Text
  import opened Tasks
  import opened Reorder

  datatype Option<T> = None | Some(value: T)

  class TaskManager {
    var tasks: seq<Task>
    var filter: string

    /** The intended shape of the list (unique ids, trimmed non-empty texts).
        The source does not enforce it; each operation below states when it
        keeps it. */
    ghost predicate Valid()
      reads this
    {
      WellFormed(tasks)
    }

    /** `tasks` holds what was read back from storage, or the empty list when
        nothing was stored (`|| []`); the filter starts as "all". */
    constructor (stored: Option<seq<Task>>)
      ensures tasks == (if stored.Some? then stored.value else [])
      ensures filter == "all"
    {
      tasks := if stored.Some? then stored.value else [];
      filter := "all";
    }

    /** Blank text is ignored; otherwise one uncompleted task with the trimmed
        text and the given id is pushed onto the end. */
    method AddTask(text: string, id: int)
      modifies this
      ensures Trim(text) == [] ==> tasks == old(tasks)
      ensures Trim(text) != [] ==> tasks == old(tasks) + [Task(id, Trim(text), false)]
      ensures filter == old(filter)
      ensures old(Valid()) && id !in old(IdsOf(tasks)) ==> Valid()
    {
      if Trim(text) == [] {
        return;
      }
      if Valid() && id !in IdsOf(tasks) {
        TrimIdempotent(text);
        AppendKeepsWellFormed(tasks, Task(id, Trim(text), false));
      }
      tasks := tasks + [Task(id, Trim(text), false)];
    }

    /** Keeps the tasks whose id differs from `id`. */
    method DeleteTask(id: int)
      modifies this
      ensures tasks == Deleted(old(tasks), id)
      ensures filter == old(filter)
      ensures old(Valid()) ==> Valid()
    {
      if Valid() {
        DeleteKeepsWellFormed(tasks, id);
      }
      tasks := Deleted(tasks, id);
    }

    /** Flips `completed` on the tasks carrying `id`. */
    method ToggleTask(id: int)
      modifies this
      ensures tasks == Toggled(old(tasks), id)
      ensures filter == old(filter)
      ensures old(Valid()) ==> Valid()
    {
      if Valid() {
        ToggleKeepsWellFormed(tasks, id);
      }
      tasks := Toggled(tasks, id);
    }

    /** Replaces the text of the tasks carrying `id` by `newText`, unchecked. */
    method EditTask(id: int, newText: string)
      modifies this
      ensures tasks == Edited(old(tasks), id, newText)
      ensures filter == old(filter)
      ensures old(Valid()) && newText != [] && IsTrimmed(newText) ==> Valid()
    {
      if Valid() && newText != [] && IsTrimmed(newText) {
        EditKeepsWellFormed(tasks, id, newText);
      }
      tasks := Edited(tasks, id, newText);
    }

    /** A filter control sets the selector; the tasks stay as they are. */
    method SetFilter(f: string)
      modifies this
      ensures filter == f && tasks == old(tasks)
    {
      filter := f;
    }

    /** Sorts the tasks in place by the position of their ids in `ids`, the
        order read back from the rendered list. */
    method ReorderTasks(ids: seq<int>)
      modifies this
      ensures tasks == SortBy(KeyOf(ids), old(tasks))
      ensures filter == old(filter)
      ensures old(Valid()) ==> Valid()
    {
      if Valid() {
        SortKeepsWellFormed(KeyOf(ids), tasks);
      }
      tasks := SortBy(KeyOf(ids), tasks);
    }

    /** `getFilteredTasks` on the current state. */
    function GetFilteredTasks(): (r: seq<Task>)
      reads this
      ensures IsSubsequence(r, tasks)
      ensures forall i :: 0 <= i < |r| ==>
        && r[i] in tasks
        && (filter == "active" ==> !r[i].completed)
        && (filter == "completed" ==> r[i].completed)
      ensures forall i :: 0 <= i < |tasks| ==>
        && (filter == "active" && !tasks[i].completed ==> tasks[i] in r)
        && (filter == "completed" && tasks[i].completed ==> tasks[i] in r)
      ensures filter != "active" && filter != "completed" ==> r == tasks
    {
      FilteredView(tasks, filter)
    }

    /** The counts `updateStats` computes from the current state. */
    function Counts(): (st: Stats)
      reads this
      ensures st.total == |tasks|
      ensures st.active + st.completed == st.total
      ensures st.active == |FilteredView(tasks, "active")|
      ensures st.completed == |FilteredView(tasks, "completed")|
    {
      ViewsPartition(tasks);
      StatsOf(tasks)
    }
  }

  /** A fresh manager, one task with a non-blank text added, toggled and
      deleted: the counts go from one active task to one completed task to
      nothing. */
  method AddToggleDeleteScenario(text: string, id: int) returns (afterAdd: Stats, afterToggle: Stats, afterDelete: Stats)
    requires !IsBlank(text)
    ensures afterAdd == Stats(1, 1, 0)
    ensures afterToggle == Stats(1, 0, 1)
    ensures afterDelete == Stats(0, 0, 0)
  {
    var m := new TaskManager(None);
    m.AddTask(text, id);
    var t := Task(id, Trim(text), false);
    assert m.tasks == [t];
    afterAdd := m.Counts();
    m.ToggleTask(id);
    assert m.tasks == [t.(completed := true)];
    afterToggle := m.Counts();
    m.DeleteTask(id);
    assert m.tasks == [];
    afterDelete := m.Counts();
  }
}

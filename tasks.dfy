/**
  The task records of `TaskManager` and the pure parts of its operations:
  the `filter`/`map` expressions of `deleteTask`, `toggleTask` and `editTask`,
  the filtered view of `getFilteredTasks` and the counts of `updateStats`.
*/
module Tasks {
  import opened Seqs
  import opened Text

  /** One entry of the list, the record `{id, text, completed}`. */
  datatype Task = Task(id: int, text: string, completed: bool)

  /** The counts `updateStats` shows. */
  datatype Stats = Stats(total: int, active: int, completed: int)

  /** The ids of `s`, in order. */
  function IdsOf(s: seq<Task>): (r: seq<int>)
    ensures |r| == |s| && forall i :: 0 <= i < |s| ==> r[i] == s[i].id
  {
    seq(|s|, i requires 0 <= i < |s| => s[i].id)
  }

  lemma IdsOfConcat(a: seq<Task>, b: seq<Task>)
    ensures IdsOf(a + b) == IdsOf(a) + IdsOf(b)
  {
  }

  /** Permuting the tasks permutes their ids. */
  lemma {:induction false} PermutedIds(a: seq<Task>, b: seq<Task>)
    requires multiset(a) == multiset(b)
    ensures multiset(IdsOf(a)) == multiset(IdsOf(b))
    decreases |a|
  {
    if a == [] {
      assert |b| == |multiset(b)| == 0;
    } else {
      assert a[0] in multiset(b);
      var j :| 0 <= j < |b| && b[j] == a[0];
      var rest := b[..j] + b[j + 1..];
      assert multiset(a[1..]) == multiset(rest) by {
        MultisetCons(a);
        MultisetRemove(b, j);
        MultisetCancel(a[0], multiset(a[1..]), multiset(rest));
      }
      PermutedIds(a[1..], rest);
      assert multiset(IdsOf(a)) == multiset(IdsOf(a[1..])) + multiset{a[0].id} by {
        assert IdsOf(a) == [a[0].id] + IdsOf(a[1..]);
        MultisetCons(IdsOf(a));
      }
      assert multiset(IdsOf(b)) == multiset(IdsOf(rest)) + multiset{a[0].id} by {
        IdsOfRemove(b, j);
      }
    }
  }

  /** Removing the task at index `j` removes one occurrence of its id. */
  lemma IdsOfRemove(b: seq<Task>, j: int)
    requires 0 <= j < |b|
    ensures multiset(IdsOf(b)) == multiset(IdsOf(b[..j] + b[j + 1..])) + multiset{b[j].id}
  {
    var ids := IdsOf(b);
    assert IdsOf(b[..j] + b[j + 1..]) == ids[..j] + ids[j + 1..];
    MultisetRemove(ids, j);
  }

  /** The shape the list is meant to keep: ids are unique and every text is
      non-empty and trimmed. */
  ghost predicate WellFormed(s: seq<Task>) {
    && NoDup(IdsOf(s))
    && forall i :: 0 <= i < |s| ==> s[i].text != [] && IsTrimmed(s[i].text)
  }

  /** The callbacks passed to `filter`. */
  const IsActive: Task -> bool := (t: Task) => !t.completed
  const IsCompleted: Task -> bool := (t: Task) => t.completed

  function HasOtherId(id: int): Task -> bool {
    (t: Task) => t.id != id
  }

  // ---------------------------------------------------------------- delete

  /** `tasks.filter(t => t.id !== id)`: every task with that id is gone and the
      others stay, in order; an absent id changes nothing. */
  function Deleted(s: seq<Task>, id: int): (r: seq<Task>)
    ensures forall i :: 0 <= i < |r| ==> r[i].id != id && r[i] in s
    ensures forall i :: 0 <= i < |s| && s[i].id != id ==> s[i] in r
    ensures IsSubsequence(r, s)
  {
    FilterIsSubsequence(HasOtherId(id), s);
    Filter(HasOtherId(id), s)
  }

  /** Deleting an id that no task carries changes nothing. */
  lemma DeleteAbsent(s: seq<Task>, id: int)
    requires forall i :: 0 <= i < |s| ==> s[i].id != id
    ensures Deleted(s, id) == s
  {
    FilterKeepsAll(HasOtherId(id), s);
  }

  /** Deleting the same id twice is deleting it once. */
  lemma DeleteIdempotent(s: seq<Task>, id: int)
    ensures Deleted(Deleted(s, id), id) == Deleted(s, id)
  {
    FilterIdempotent(HasOtherId(id), s);
  }

  /** Deleting removes exactly the tasks carrying the id: in a list with unique
      ids that is one task when the id is present, and none when it is absent. */
  lemma {:induction false} DeleteCount(s: seq<Task>, id: int)
    ensures |Deleted(s, id)| == |s| - multiset(IdsOf(s))[id]
    ensures NoDup(IdsOf(s)) && id in IdsOf(s) ==> |Deleted(s, id)| == |s| - 1
    ensures id !in IdsOf(s) ==> |Deleted(s, id)| == |s|
  {
    NoDupCount(IdsOf(s));
    if s != [] {
      DeleteCount(s[1..], id);
      assert IdsOf(s) == [s[0].id] + IdsOf(s[1..]);
    }
  }

  /** The ids left after a delete are among the ids before it, none more often. */
  lemma {:induction false} DeletedIds(s: seq<Task>, id: int)
    ensures multiset(IdsOf(Deleted(s, id))) <= multiset(IdsOf(s))
  {
    if s != [] {
      DeletedIds(s[1..], id);
      var head := if s[0].id != id then [s[0]] else [];
      FilterCons(HasOtherId(id), s);
      assert Deleted(s, id) == head + Deleted(s[1..], id);
      IdsOfConcat(head, Deleted(s[1..], id));
      assert s == [s[0]] + s[1..];
      IdsOfConcat([s[0]], s[1..]);
    }
  }

  /** Deleting keeps the list well formed. */
  lemma DeleteKeepsWellFormed(s: seq<Task>, id: int)
    requires WellFormed(s)
    ensures WellFormed(Deleted(s, id))
  {
    var r := Deleted(s, id);
    DeletedIds(s, id);
    NoDupCount(IdsOf(s));
    NoDupCount(IdsOf(r));
    forall i | 0 <= i < |r| ensures r[i].text != [] && IsTrimmed(r[i].text) {
      var j :| 0 <= j < |s| && s[j] == r[i];
    }
  }

  // ---------------------------------------------------------------- toggle

  /** `tasks.map(t => t.id === id ? {...t, completed: !t.completed} : t)`. */
  function Toggled(s: seq<Task>, id: int): (r: seq<Task>)
    ensures |r| == |s|
    ensures forall i :: 0 <= i < |s| ==>
      r[i].id == s[i].id && r[i].text == s[i].text
      && r[i].completed == (if s[i].id == id then !s[i].completed else s[i].completed)
  {
    seq(|s|, i requires 0 <= i < |s| =>
      if s[i].id == id then s[i].(completed := !s[i].completed) else s[i])
  }

  /** Toggling the same id twice restores the list. */
  lemma ToggleTwice(s: seq<Task>, id: int)
    ensures Toggled(Toggled(s, id), id) == s
  {
  }

  /** Toggling an id that no task carries changes nothing. */
  lemma ToggleAbsent(s: seq<Task>, id: int)
    requires forall i :: 0 <= i < |s| ==> s[i].id != id
    ensures Toggled(s, id) == s
  {
  }

  /** Toggling keeps the list well formed. */
  lemma ToggleKeepsWellFormed(s: seq<Task>, id: int)
    requires WellFormed(s)
    ensures WellFormed(Toggled(s, id))
  {
    assert IdsOf(Toggled(s, id)) == IdsOf(s);
  }

  // ---------------------------------------------------------------- edit

  /** `tasks.map(t => t.id === id ? {...t, text: newText} : t)`; the text is
      taken as given, without a check. */
  function Edited(s: seq<Task>, id: int, newText: string): (r: seq<Task>)
    ensures |r| == |s|
    ensures forall i :: 0 <= i < |s| ==>
      r[i].id == s[i].id && r[i].completed == s[i].completed
      && r[i].text == (if s[i].id == id then newText else s[i].text)
  {
    seq(|s|, i requires 0 <= i < |s| =>
      if s[i].id == id then s[i].(text := newText) else s[i])
  }

  /** Editing an id that no task carries changes nothing. */
  lemma EditAbsent(s: seq<Task>, id: int, newText: string)
    requires forall i :: 0 <= i < |s| ==> s[i].id != id
    ensures Edited(s, id, newText) == s
  {
  }

  /** The last edit of an id wins. */
  lemma EditLastWins(s: seq<Task>, id: int, a: string, b: string)
    ensures Edited(Edited(s, id, a), id, b) == Edited(s, id, b)
  {
  }

  /** Editing keeps the list well formed when the new text is non-empty and
      trimmed, which is what the caller of `editTask` passes. */
  lemma EditKeepsWellFormed(s: seq<Task>, id: int, newText: string)
    requires WellFormed(s)
    requires newText != [] && IsTrimmed(newText)
    ensures WellFormed(Edited(s, id, newText))
  {
    assert IdsOf(Edited(s, id, newText)) == IdsOf(s);
  }

  /** Editing changes no count. */
  lemma EditKeepsStats(s: seq<Task>, id: int, newText: string)
    ensures StatsOf(Edited(s, id, newText)) == StatsOf(s)
  {
    FilterAligned(IsCompleted, Edited(s, id, newText), s);
  }

  // ---------------------------------------------------------------- add

  /** Appending a task with a fresh id and a valid text keeps the list well
      formed. */
  lemma AppendKeepsWellFormed(s: seq<Task>, t: Task)
    requires WellFormed(s)
    requires t.id !in IdsOf(s)
    requires t.text != [] && IsTrimmed(t.text)
    ensures WellFormed(s + [t])
  {
    assert IdsOf(s + [t]) == IdsOf(s) + [t.id];
  }

  /** Appending a new, uncompleted task adds one to the total and to the active
      count, and leaves the completed count alone. */
  lemma AppendActiveStats(s: seq<Task>, id: int, text: string)
    ensures var st, st' := StatsOf(s), StatsOf(s + [Task(id, text, false)]);
      st' == Stats(st.total + 1, st.active + 1, st.completed)
  {
    FilterConcat(IsCompleted, s, [Task(id, text, false)]);
  }

  // ---------------------------------------------------------------- views

  /** `getFilteredTasks`: "active" gives exactly the uncompleted tasks,
      "completed" exactly the completed ones, both in store order; any other
      filter value gives the whole list. */
  function FilteredView(s: seq<Task>, filter: string): (r: seq<Task>)
    ensures IsSubsequence(r, s)
    ensures filter == "active" ==>
      && (forall i :: 0 <= i < |r| ==> !r[i].completed && r[i] in s)
      && (forall i :: 0 <= i < |s| && !s[i].completed ==> s[i] in r)
    ensures filter == "completed" ==>
      && (forall i :: 0 <= i < |r| ==> r[i].completed && r[i] in s)
      && (forall i :: 0 <= i < |s| && s[i].completed ==> s[i] in r)
    ensures filter != "active" && filter != "completed" ==> r == s
  {
    FilterIsSubsequence(IsActive, s);
    FilterIsSubsequence(IsCompleted, s);
    SubsequenceReflexive(s);
    if filter == "active" then Filter(IsActive, s)
    else if filter == "completed" then Filter(IsCompleted, s)
    else s
  }

  /** The "active" and "completed" views split the list: together they hold
      each task exactly as often as the list does, so their lengths add up to
      its length. */
  lemma ViewsPartition(s: seq<Task>)
    ensures multiset(FilteredView(s, "active")) + multiset(FilteredView(s, "completed")) == multiset(s)
    ensures |FilteredView(s, "active")| + |FilteredView(s, "completed")| == |s|
  {
    FilterPartition(IsActive, IsCompleted, s);
  }

  /** The "active" view is the longest subsequence of the list holding only
      uncompleted tasks, and the only one of that length; likewise the
      "completed" view for completed tasks. */
  lemma ViewsAreLongest(s: seq<Task>, r: seq<Task>)
    requires IsSubsequence(r, s)
    ensures (forall i :: 0 <= i < |r| ==> !r[i].completed) ==>
      |r| <= |FilteredView(s, "active")| && (|r| == |FilteredView(s, "active")| ==> r == FilteredView(s, "active"))
    ensures (forall i :: 0 <= i < |r| ==> r[i].completed) ==>
      |r| <= |FilteredView(s, "completed")| && (|r| == |FilteredView(s, "completed")| ==> r == FilteredView(s, "completed"))
  {
    if forall i :: 0 <= i < |r| ==> !r[i].completed {
      FilterIsLongest(IsActive, r, s);
    }
    if forall i :: 0 <= i < |r| ==> r[i].completed {
      FilterIsLongest(IsCompleted, r, s);
    }
  }

  // ---------------------------------------------------------------- stats

  /** The counts of `updateStats`: `total` is the length, `completed` the number
      of completed tasks and `active` their difference, which is the number of
      uncompleted tasks. */
  function StatsOf(s: seq<Task>): (st: Stats)
    ensures st.total == |s|
    ensures st.completed == |FilteredView(s, "completed")|
    ensures st.active == |FilteredView(s, "active")|
    ensures 0 <= st.completed <= st.total && 0 <= st.active <= st.total
  {
    ViewsPartition(s);
    var completed := |Filter(IsCompleted, s)|;
    Stats(|s|, |s| - completed, completed)
  }
}

# Task list model

A Dafny model of the in-memory task list behind the browser to-do page in
`script.js`. A `TaskManager` object holds its tasks in an ordered array `tasks`
of records `{id, text, completed}` and a view selector `filter`. Users add,
delete, toggle, edit and drag tasks into a new order. The page shows the tasks
that pass the filter, plus three counts. The model keeps the object's state and
leaves out all DOM work.

Files and modules:

- `text.dfy` (`Text`): ECMAScript's `String.prototype.trim`, with the
  whitespace set that `trim` strips.
- `seqs.dfy` (`Seqs`): `Array.prototype.filter` as `Filter`, subsequences,
  and duplicate-free sequences, with generic lemmas.
- `tasks.dfy` (`Tasks`): the `Task` record and the pure parts of the
  operations. These are the `filter`/`map` expressions of `deleteTask`,
  `toggleTask` and `editTask`, the view of `getFilteredTasks`, and the counts
  of `updateStats`.
- `reorder.dfy` (`Reorder`): `indexOf` and the sort step of `reorderTasks`.
  The step is a stable sort by each id's position in the id list read back from
  the page. The sort is written once, as an insertion sort over any key
  function (`SortBy`), and proved to be the only result a stable sort can give.
  `KeyOf(ids)` is the key that `reorderTasks` uses.
- `manager.dfy` (`Manager`): the class `TaskManager`. Its fields are
  `tasks: seq<Task>` and `filter: string`, and each mutator is a method with
  `modifies this`.

What the model says about behaviour:

- Ids are parameters. The source takes them from `Date.now()`, which can
  collide, so the source never guarantees unique ids. `Valid()` states the
  intended shape: unique ids and trimmed, non-empty texts. Each method states
  the conditions under which it keeps that shape. For `AddTask`, the condition
  is a fresh id.
- `reorderTasks` sorts by `ids.indexOf(t.id)`. An id missing from `ids` gets
  key -1 and so sorts first, not last, keeping its relative order
  (`Reorder.UnlistedFirst`). The page renders only the filtered view. So, when
  ids are unique, a drag made while a filter other than "all" is active puts
  every hidden task in front of the shown ones, as `UnlistedFirst` states. A
  hidden task that shares an id with a shown one takes that task's key.
- `editTask` stores any text. Only its caller (`script.js:118-119`) rejects
  blank text, and it passes trimmed, non-empty text. `EditKeepsWellFormed`
  assumes exactly that.
- `deleteTask` removes every task with the id, not just one (`DeleteCount`).
- Corrupt stored JSON makes `JSON.parse` throw (see Left out).

## Model

| member | source | states |
|---|---|---|
| `Text.IsWhitespace` | script.js:54 | the code points `trim` strips, ECMAScript's WhiteSpace and LineTerminator; each is a single UTF-16 code unit |
| `Text.SkipLeading` | script.js:54 | the index of the first character that is not whitespace, with only whitespace before it |
| `Text.SkipTrailing` | script.js:54 | the end of the last character that is not whitespace, with only whitespace after it |
| `Text.Trim` | script.js:54 | the trimmed text starts and ends with a non-whitespace character; it is empty exactly when the input is all whitespace (the guard of `addTask`); it is an infix of the input with only whitespace on either side |
| `Text.TrimIdempotent` | script.js:58 | trimming a stored (already trimmed) text changes nothing |
| `Text.TrimFixesTrimmed` | script.js:119 | a text without leading or trailing whitespace is its own trim |
| `Seqs.Filter` | script.js:67 | `filter` keeps exactly the elements that pass the callback, never adds one, and is never longer than its input |
| `Seqs.FilterIsSubsequence` | script.js:67 | `filter` keeps input order: its result is a subsequence of the input |
| `Seqs.FilterIsLongest` | script.js:90-91 | an independent definition of `filter`: the longest subsequence whose elements all pass, and the only one of that length |
| `Seqs.FilterPartition` | script.js:164 | filtering by a predicate and by its negation splits the input: the two results hold each element exactly as often as the input does |
| `Seqs.FilterIdempotent` | script.js:67 | filtering twice with the same callback equals filtering once |
| `Tasks.Deleted` | script.js:66-67 | `deleteTask`'s filter: no task with the id is left, every other task stays, and order is kept (a subsequence) |
| `Tasks.DeleteAbsent` | script.js:67 | deleting an id that no task carries changes nothing |
| `Tasks.DeleteIdempotent` | script.js:67 | deleting the same id twice equals deleting it once |
| `Tasks.DeleteCount` | script.js:67 | a delete shortens the list by the number of tasks with that id: by one in a list with unique ids where the id is present, and by none when the id is absent |
| `Tasks.DeletedIds` | script.js:67 | the ids left after a delete are among the earlier ids, none more often |
| `Tasks.DeleteKeepsWellFormed` | script.js:67 | a delete keeps ids unique and texts valid |
| `Tasks.Toggled` | script.js:72-75 | `toggleTask`'s map: length, ids, texts and order are kept; `completed` flips exactly on the tasks with the id |
| `Tasks.ToggleTwice` | script.js:73-75 | toggling the same id twice restores the original list |
| `Tasks.ToggleAbsent` | script.js:73-75 | toggling an id that no task carries changes nothing |
| `Tasks.ToggleKeepsWellFormed` | script.js:73-75 | a toggle keeps ids unique and texts valid |
| `Tasks.Edited` | script.js:80-83 | `editTask`'s map: length, ids, `completed` and order are kept; the text is replaced exactly on the tasks with the id |
| `Tasks.EditAbsent` | script.js:81-83 | editing an id that no task carries changes nothing |
| `Tasks.EditLastWins` | script.js:81-83 | two edits of the same id equal the second edit alone |
| `Tasks.EditKeepsWellFormed` | script.js:117-119 | an edit with the trimmed, non-empty text that the `editTask` caller passes keeps the list well formed |
| `Tasks.EditKeepsStats` | script.js:81-83 | an edit changes none of the three counts |
| `Tasks.AppendKeepsWellFormed` | script.js:56-60 | pushing a task with a fresh id and a trimmed, non-empty text keeps the list well formed |
| `Tasks.AppendActiveStats` | script.js:56-60 | pushing a new uncompleted task increases the total and the active count by one and leaves the completed count unchanged |
| `Tasks.FilteredView` | script.js:89-93 | "active" gives exactly the uncompleted tasks, and "completed" exactly the completed ones, each as a subsequence in store order; any other filter value gives the whole list |
| `Tasks.ViewsPartition` | script.js:90-91 | the "active" and "completed" views together hold each task exactly as often as the list does, so their lengths add up to the list's length |
| `Tasks.ViewsAreLongest` | script.js:90-91 | each view is the longest subsequence of the list whose tasks all match that view, and the only one of that length |
| `Tasks.StatsOf` | script.js:162-168 | `total` is the length and `completed` the length of the completed view; `active` (their difference) equals the length of the active view; `0 <= completed <= total` |
| `Reorder.IndexOf` | script.js:157 | `indexOf` gives -1 exactly when the id is absent; otherwise it gives the first index holding the id |
| `Reorder.KeyOf` | script.js:157 | the comparator's key `ids.indexOf(t.id)`: -1 exactly for an id missing from `ids`, otherwise the first position of the id |
| `Reorder.InsertBy` | script.js:157 | inserting adds the element to the multiset of elements and nothing else |
| `Reorder.InsertKeepsSorted` | script.js:157 | inserting into a list sorted by key keeps it sorted |
| `Reorder.InsertClasses` | script.js:157 | inserting puts the task at the front of its own key class and leaves every other key class unchanged |
| `Reorder.SortBy` | script.js:157 | the sort's result is a permutation of its input and is sorted by key; `reorderTasks` uses the key `KeyOf(ids)`, that is `ids.indexOf(t.id)` |
| `Reorder.SortIsStable` | script.js:157 | stability: for every key, the tasks with that key appear in the same order as before the sort |
| `Reorder.LeastKeyPrefix` | script.js:157 | in a list sorted by key, the elements of the least possible key form a prefix, and every later element has a larger key |
| `Reorder.UnlistedFirst` | script.js:157 | tasks whose ids are missing from `ids` come first, in their original order; every later task has a listed id |
| `Reorder.SortIsUnique` | script.js:157 | any list sorted by key whose key classes keep the original order equals the sort's result, so the model fixes what any stable sort returns |
| `Reorder.SameClassesEqual` | script.js:157 | two lists sorted by key with the same key classes are equal |
| `Tasks.PermutedIds` | script.js:157 | permuting tasks permutes their ids: equal multisets of tasks have equal multisets of ids |
| `Reorder.SortIds` | script.js:157 | the sort moves the ids with their tasks |
| `Reorder.SortFollowsIds` | script.js:156-157 | when `ids` lists each task id exactly once, the ids of the sorted list are `ids`, in order |
| `Reorder.SortKeepsWellFormed` | script.js:157 | the sort keeps ids unique and texts valid |
| `Manager.TaskManager.constructor` | script.js:2-4 | the tasks are what storage held, or empty when nothing was stored; the filter starts as "all" |
| `Manager.TaskManager.AddTask` | script.js:53-60 | blank text leaves the tasks unchanged; otherwise the new tasks are the old tasks plus one uncompleted task with the trimmed text; a fresh id keeps the list well formed |
| `Manager.TaskManager.DeleteTask` | script.js:66-67 | the new tasks are the filter of the old ones by `id !== id`; the filter is unchanged; the list stays well formed |
| `Manager.TaskManager.ToggleTask` | script.js:72-75 | the new tasks are the toggle map of the old ones; the filter is unchanged; the list stays well formed |
| `Manager.TaskManager.EditTask` | script.js:80-83 | the new tasks are the edit map of the old ones; the filter is unchanged; a valid new text keeps the list well formed |
| `Manager.TaskManager.SetFilter` | script.js:39 | a filter control sets `filter` and leaves the tasks unchanged |
| `Manager.TaskManager.GetFilteredTasks` | script.js:89-93 | on the manager's state: the tasks in store order, only uncompleted ones and all of them for "active", only completed ones and all of them for "completed", the whole list for any other filter |
| `Manager.TaskManager.Counts` | script.js:162-168 | on the manager's state: the total is the number of tasks, active plus completed is the total, and each is the length of its view |
| `Manager.TaskManager.ReorderTasks` | script.js:155-157 | the new tasks are the stable sort of the old ones by position in `ids`; the filter is unchanged; the list stays well formed |
| `Manager.AddToggleDeleteScenario` | script.js:53-78 | starting empty, adding one task with non-blank text, toggling it and deleting it give counts (1, 1, 0), then (1, 0, 1), then (0, 0, 0) |

## Left out

- DOM work is not modelled: `cacheDOM`, `bindEvents` (except the filter assignment at `script.js:39`, which `SetFilter` models), `render`, `addDragEvents` with its `insertBefore` moves, the theme toggle and the button classes. It is presentation only.
- Persistence is not modelled: `save` and `localStorage`. The constructor takes the already parsed stored value as a parameter (`None` for a missing item). Corrupt JSON, which makes `JSON.parse` throw, and the save/load round trip are not modelled, because both belong to the browser and its JSON library.
- Ids from `Date.now()` are method parameters, because the source reads a clock. The ids that `reorderTasks` reads from the rendered list (`script.js:156`) are the parameter `ids`.
- Prompt-based editing (`script.js:116-121`) is not modelled; it is UI. `EditKeepsWellFormed` states what its guard guarantees.
- Aliasing is not modelled: for any filter other than "active" or "completed", `getFilteredTasks` returns the `tasks` array itself. The model returns the same sequence as a value.
- The engine's own sort algorithm is not modelled. The model uses an insertion sort. `SortIsUnique` shows that every stable sort by these keys gives the same result.
- Dynamic typing is not modelled: stored records of another shape, `Number` conversion of the DOM ids (`NaN` included), and `trim` on a value that is not a string. Task records have the fixed shape `{id: int, text: string, completed: bool}`.
- Strings are sequences of Unicode scalar values, whereas JavaScript strings are UTF-16 code units, so a text holding a lone surrogate cannot be represented. Every code point `trim` strips is a single code unit (`IsWhitespace`), so trimming is unaffected.
- The `new TaskManager()` bootstrap (`script.js:173`) is not modelled; it is page start-up.

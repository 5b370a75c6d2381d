# Task-list store — a Dafny model

This project models the task store of a browser to-do list (`script.js`). The
store holds two things: the list `todos`, newest task first, and the current
view filter. Each task has a numeric id, a text, a completion flag and a creation
timestamp.

User actions call five mutators:

- add a task from the input field;
- delete a task by id;
- toggle a task's completion flag;
- clear all completed tasks, after a confirmation;
- choose a filter.

After each change to the list, the view (the tasks the filter shows) and the
counters (total, active, completed) are computed again from it. After a filter
change only the view is (script.js:191). The counters do not depend on the
filter.

The model has four modules:

- `Seqs` — `Select`, the order-preserving filter that stands for JavaScript's
  `Array.prototype.filter`. It has lemmas on order, membership, partition and
  counting.
- `Text` — `Trim`, JavaScript's `String.prototype.trim`, over the ECMAScript
  WhiteSpace and LineTerminator characters.
- `Tasks` — the `Task` record and the pure list operations: deleting by id,
  finding the first task with an id, toggling it, and the active/completed
  selections. It also holds the lemmas about them: delete twice, toggle twice,
  the partition, and how the counts move.
- `Store` — the class `TodoStore`. It holds `todos`, `currentFilter`, and
  `saved`, the value last written to the storage slot `todos`. Its methods are
  the mutators. Its functions `FilteredTodos` and `Stats` are the derived
  views. The invariant `Valid` says the in-memory list and the stored list never
  diverge, given that every storage write succeeds (see "## Left out").

The browser's services are modelled as follows:

- The clock value `Date.now()`, which becomes the new id, is a parameter.
- The ISO timestamp is a parameter, kept as an opaque string.
- The raw text of the input field is a parameter.
- The answer to `confirm` is a `bool` parameter.
- The two `alert`s become status values that the methods return (`AddStatus`,
  `ClearStatus`).

`setFilter` stores whatever value it receives (script.js:180), and the `switch`
in `getFilteredTodos` shows the whole list for every value other than "active"
and "completed" (script.js:95-102). So the filter is a `string`, and
`Tasks.Shows` treats every other value as "all".

## Model

| member | source | states |
|---|---|---|
| `Seqs.Select` | script.js:59 | the result holds only elements of the list that satisfy the predicate, and every such element; it is no longer than the list |
| `Seqs.SelectInOrder` | script.js:97-99 | the k-th selected element is the element at the k-th satisfying position of the list, so a filter is an order-preserving subsequence |
| `Seqs.SelectKeepsAll` | script.js:59 | filtering leaves the list unchanged exactly when every element satisfies the predicate |
| `Seqs.SelectCons` | script.js:46 | filtering a list with a new element in front gives that element first, if it satisfies the predicate, followed by the filtered rest |
| `Seqs.SelectPartition` | script.js:163-164 | selecting by a predicate and by its negation gives counts adding up to the length and multisets adding up to the list's multiset |
| `Seqs.SelectUpdateCount` | script.js:69 | replacing one element changes the selected count only by what the old and the new element contribute |
| `Text.TrimStart` | script.js:32 | the result is a suffix of the input, does not start with whitespace, and everything removed is whitespace |
| `Text.TrimEnd` | script.js:32 | the result is a prefix of the input, does not end with whitespace, and everything removed is whitespace |
| `Text.Trim` | script.js:32 | the result is empty exactly when the input is all whitespace; otherwise it neither starts nor ends with whitespace; it is a contiguous piece of the input surrounded only by whitespace |
| `Tasks.Without` | script.js:59 | after deleting an id, the list is the order-preserving selection of the tasks with another id (so `Seqs.SelectInOrder` fixes their order and multiplicity); it holds exactly those tasks; it is unchanged exactly when no task has that id |
| `Tasks.WithoutTwice` | script.js:58-59 | deleting the same id a second time changes nothing |
| `Tasks.FirstIndexOf` | script.js:67 | returns the position of the first task with the id, or None exactly when no task has it |
| `Tasks.Toggled` | script.js:66-73 | the length is kept; only the first task with the id changes, and it changes only its completion flag; an absent id leaves the list unchanged |
| `Tasks.ToggledTwice` | script.js:66-73 | toggling the same id twice restores the original list |
| `Tasks.ToggledCounts` | script.js:69 | toggling moves exactly one task between the active and the completed counts |
| `Tasks.ActiveDonePartition` | script.js:161-164 | active and completed tasks together are the whole list, each task once, so active + completed = total |
| `Tasks.ActiveOnlyActive` | script.js:86 | after clearing, no completed task is left, every active task remains, and as many remain as were active |
| `Tasks.PrependActiveCounts` | script.js:46 | prepending a new open task puts it first among the active tasks and leaves the completed tasks as they were |
| `Store.TodoStore.constructor` | script.js:12-23 | the filter starts at "all"; the stored list, if any, becomes the list; otherwise the list is empty |
| `Store.TodoStore.AddTodo` | script.js:31-55 | all-whitespace input returns the validation status and changes neither the list nor the storage; otherwise the new task (given id, trimmed text, not completed, given timestamp) is prepended before the unchanged old list, the list is stored, and the total and active counts each grow by one |
| `Store.TodoStore.DeleteTodo` | script.js:58-63 | the list becomes exactly the tasks with another id, in order, and is stored |
| `Store.TodoStore.ToggleTodo` | script.js:66-74 | the list becomes the toggled list; it is stored only if the id was found; the counters move by one between active and completed |
| `Store.TodoStore.ClearCompleted` | script.js:77-91 | with nothing completed it returns the no-items status and changes nothing; if the user declines, nothing changes; if the user confirms, exactly the active tasks remain in order, the list is stored, the status carries the completed count that the confirmation prompt showed (which is the number removed), and completed becomes 0 |
| `Store.TodoStore.SetFilter` | script.js:179-192 | only the filter changes, to the given value; the list and the storage are untouched, so the store invariant is kept |
| `Store.TodoStore.FilteredTodos` | script.js:94-103 | the view is the order-preserving selection of the tasks the current filter shows: open tasks for "active", completed tasks for "completed", and all tasks for any other value |
| `Store.TodoStore.Stats` | script.js:161-169 | total is the list length, active + completed = total over the whole list whatever the filter, and each counter is zero exactly when every task is of the other kind |

## Left out

- DOM access, rendering, the empty-state messages and event wiring (script.js:1-9, 105-158, 194-209): these are display plumbing with no state of the store.
- `escapeHtml` (script.js:171-176): its result depends on how the browser serialises `textContent` as `innerHTML`, which is not part of this model.
- Failing storage writes: every write to the storage slot is assumed to succeed. In the code the list is changed before `saveTodos` runs (script.js:46-49, 59-60, 69-70, 86-87), so a throwing `localStorage.setItem` (quota exceeded, storage disabled) would leave `todos` changed and the stored slot stale, a state `Valid` excludes.
- JSON serialisation in `loadTodos`/`saveTodos`: the storage slot holds the list value itself. So a parse failure on malformed stored data is not modelled (the code would throw), and neither is the serialise/parse round trip.
- Clearing and focusing the input field after a successful add (script.js:47, 54): these are DOM effects.
- The marking of the active filter button in `setFilter` (script.js:183-189): this is a DOM effect.
- `parseInt` of the `data-id` attributes (script.js:147, 154): this is DOM glue. Ids reach the model as integers.
- Text.Trim: it works on Unicode scalar values, not on UTF-16 code units as JavaScript strings do. The two agree because every trimmed character is a single code unit.
- Unique ids: the code does not guarantee them (two adds in the same millisecond share an id), so the model does not assume them. Deleting removes every task with the id; toggling changes only the first.
- Tasks are values, not shared objects. Nothing in the store keeps a reference to a task across mutations, so in-place update and replacing the task at its position cannot be told apart.

/** The task store of script.js: the global `todos` list and `currentFilter`,
    the mutators that user actions call, and the views derived from them.
    Browser services become parameters: the clock value used as the new id, the
    ISO timestamp, the raw text of the input field and the answer to the
    confirmation prompt; the alerts become returned status values. The storage
    slot 'todos' is kept as the value last written to it. */
module Store {
  import opened Seqs
  import opened Text
  import opened Tasks

  /** Outcome of `addTodo`: the new task was added, or the "please enter a task"
      alert was shown. */
  datatype AddStatus = Added | EmptyText

  /** Outcome of `clearCompleted`: the "no completed items" alert was shown,
      the user declined the prompt, or the completed tasks were deleted;
      `removed` is the count the confirmation prompt showed before the answer
      (the source reports nothing after deleting). */
  datatype ClearStatus = NoneCompleted | Declined | Cleared(removed: nat)

  class TodoStore {
    var todos: seq<Task>
    var currentFilter: string
    /** The content of the storage slot 'todos', None while nothing is stored. */
    var saved: Option<seq<Task>>

    /** With every storage write succeeding, the in-memory list and the stored
        list never diverge: either the list is what was last stored, or nothing
        is stored and the list is empty. */
    ghost predicate Valid()
      reads this
    {
      saved == Some(todos) || (saved == None && todos == [])
    }

    /** Page load: the filter starts at "all"; a stored list, if any, becomes
        the in-memory list (`loadTodos`). */
    constructor (stored: Option<seq<Task>>)
      ensures Valid()
      ensures currentFilter == "all" && saved == stored
      ensures todos == if stored.Some? then stored.value else []
    {
      currentFilter := "all";
      saved := stored;
      todos := if stored.Some? then stored.value else [];
    }

    /** `addTodo`: whitespace-only input changes nothing; otherwise a new open
        task with the trimmed text is put in front of the old list, which is
        stored, and the counters gain one total and one active task. */
    method AddTodo(input: string, now: int, timestamp: string) returns (status: AddStatus)
      requires Valid()
      modifies this`todos, this`saved
      ensures Valid()
      ensures status == EmptyText <==> forall i :: 0 <= i < |input| ==> IsSpace(input[i])
      ensures status == EmptyText ==> todos == old(todos) && saved == old(saved)
      ensures status == Added ==>
                todos == [Task(now, Trim(input), false, timestamp)] + old(todos) &&
                todos[1..] == old(todos) && saved == Some(todos) &&
                Stats() == Counts(old(Stats()).total + 1, old(Stats()).active + 1, old(Stats()).completed)
    {
      var text := Trim(input);
      if text == [] {
        return EmptyText;
      }
      var task := Task(now, text, false, timestamp);
      PrependActiveCounts(task, todos);
      ghost var before := Stats();
      todos := [task] + todos;
      assert |Active(todos)| == before.active + 1 && |Done(todos)| == before.completed;
      saved := Some(todos);
      status := Added;
    }

    /** `deleteTodo`: keeps exactly the tasks with another id, in their order,
        and stores the result. */
    method DeleteTodo(id: int)
      requires Valid()
      modifies this`todos, this`saved
      ensures Valid()
      ensures todos == Without(old(todos), id) && saved == Some(todos)
    {
      todos := Without(todos, id);
      saved := Some(todos);
    }

    /** `toggleTodo`: inverts the completion flag of the first task with `id` and
        stores the list, moving that task between the active and completed
        counters; an absent id changes nothing and stores nothing. */
    method ToggleTodo(id: int)
      requires Valid()
      modifies this`todos, this`saved
      ensures Valid()
      ensures todos == Toggled(old(todos), id)
      ensures saved == if FirstIndexOf(old(todos), id).Some? then Some(todos) else old(saved)
      ensures FirstIndexOf(old(todos), id).Some? ==>
                var was := old(Stats());
                Stats() == if old(todos)[FirstIndexOf(old(todos), id).value].completed
                           then Counts(was.total, was.active + 1, was.completed - 1)
                           else Counts(was.total, was.active - 1, was.completed + 1)
    {
      var found := FirstIndexOf(todos, id);
      if found.Some? {
        var k := found.value;
        ToggledCounts(todos, id, k);
        todos := todos[k := Flip(todos[k])];
        saved := Some(todos);
      }
    }

    /** `clearCompleted`: with nothing completed the alert is shown and nothing
        changes; otherwise, when the user confirms, exactly the active tasks stay,
        in order, and are stored; when the user declines, nothing changes. */
    method ClearCompleted(confirmed: bool) returns (status: ClearStatus)
      requires Valid()
      modifies this`todos, this`saved
      ensures Valid()
      ensures Done(old(todos)) == [] ==>
                status == NoneCompleted && todos == old(todos) && saved == old(saved)
      ensures Done(old(todos)) != [] && !confirmed ==>
                status == Declined && todos == old(todos) && saved == old(saved)
      ensures Done(old(todos)) != [] && confirmed ==>
                status == Cleared(|Done(old(todos))|) &&
                todos == Active(old(todos)) && saved == Some(todos) &&
                Stats() == Counts(old(Stats()).active, old(Stats()).active, 0)
    {
      var completed := Done(todos);
      if |completed| == 0 {
        return NoneCompleted;
      }
      if !confirmed {
        return Declined;
      }
      ActiveOnlyActive(todos);
      todos := Active(todos);
      saved := Some(todos);
      status := Cleared(|completed|);
    }

    /** `setFilter`: only the filter changes; the list and the storage do not. */
    method SetFilter(filter: string)
      requires Valid()
      modifies this`currentFilter
      ensures Valid()
      ensures currentFilter == filter
      ensures todos == old(todos) && saved == old(saved)
    {
      currentFilter := filter;
    }

    /** `getFilteredTodos`: the tasks the current filter shows, in list order. */
    function FilteredTodos(): (r: seq<Task>)
      reads this
      ensures var f := currentFilter; r == Select(todos, (t: Task) => Shows(f, t))
      ensures forall t :: t in r ==> t in todos && Shows(currentFilter, t)
      ensures forall t :: t in todos && Shows(currentFilter, t) ==> t in r
    {
      var f := currentFilter;
      if f == "active" then
        SelectExt(todos, IsActive, (t: Task) => Shows(f, t));
        Active(todos)
      else if f == "completed" then
        SelectExt(todos, IsDone, (t: Task) => Shows(f, t));
        Done(todos)
      else
        SelectKeepsAll(todos, (t: Task) => Shows(f, t));
        todos
    }

    /** The counters of `updateStats`, always over the whole list: active and
        completed add up to the total, and each is zero exactly when every task
        is of the other kind. */
    function Stats(): (c: Counts)
      reads this
      ensures c.total == |todos| && c.active + c.completed == c.total
      ensures c.completed == 0 <==> forall t :: t in todos ==> !t.completed
      ensures c.active == 0 <==> forall t :: t in todos ==> t.completed
    {
      ActiveDonePartition(todos);
      assert |Active(todos)| > 0 ==> Active(todos)[0] in Active(todos);
      assert |Done(todos)| > 0 ==> Done(todos)[0] in Done(todos);
      Counts(|todos|, |Active(todos)|, |Done(todos)|)
    }
  }
}

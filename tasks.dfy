/** The task record and the pure operations on the task list that the store's
    mutators and views are built from (script.js). */
module Tasks {
  import opened Seqs

  datatype Option<T> = None | Some(value: T)

  /** One entry of the list: `id` comes from the clock at creation, `createdAt`
      is an opaque timestamp string that nothing reads back. */
  datatype Task = Task(id: int, text: string, completed: bool, createdAt: string)

  /** The three counters shown under the list. */
  datatype Counts = Counts(total: nat, active: nat, completed: nat)

  predicate IsActive(t: Task) { !t.completed }

  predicate IsDone(t: Task) { t.completed }

  /** The tasks not yet completed (`todos.filter(todo => !todo.completed)`). */
  function Active(ts: seq<Task>): (r: seq<Task>)
  {
    Select(ts, IsActive)
  }

  /** The completed tasks (`todos.filter(todo => todo.completed)`). */
  function Done(ts: seq<Task>): (r: seq<Task>)
  {
    Select(ts, IsDone)
  }

  /** Whether a task belongs to the view selected by `filter`: the source's
      `switch` treats every value other than "active" and "completed" as "all". */
  predicate Shows(filter: string, t: Task)
  {
    if filter == "active" then !t.completed
    else if filter == "completed" then t.completed
    else true
  }

  /** The list after deleting `id`: every task with another id, in the same order;
      nothing changes exactly when no task has that id. */
  function Without(ts: seq<Task>, id: int): (r: seq<Task>)
    ensures r == Select(ts, (t: Task) => t.id != id)
    ensures forall t :: t in r ==> t in ts && t.id != id
    ensures forall t :: t in ts && t.id != id ==> t in r
    ensures r == ts <==> forall t :: t in ts ==> t.id != id
  {
    var keep := (t: Task) => t.id != id;
    SelectKeepsAll(ts, keep);
    Select(ts, keep)
  }

  /** Deleting the same id a second time changes nothing. */
  lemma {:induction false} WithoutTwice(ts: seq<Task>, id: int)
    ensures Without(Without(ts, id), id) == Without(ts, id)
  {
    var once := Without(ts, id);
    assert forall t :: t in once ==> t.id != id;
  }

  /** Position `j` holds the first task of `ts` whose id is `id`. */
  predicate IsFirstWithId(ts: seq<Task>, id: int, j: int)
  {
    0 <= j < |ts| && ts[j].id == id && forall i :: 0 <= i < j ==> ts[i].id != id
  }

  /** The position of the first task with `id` (`todos.find`), or None. */
  function FirstIndexOf(ts: seq<Task>, id: int): (r: Option<nat>)
    ensures r.Some? ==> IsFirstWithId(ts, id, r.value)
    ensures r.None? <==> forall j :: 0 <= j < |ts| ==> ts[j].id != id
    decreases |ts|
  {
    if ts == [] then None
    else if ts[0].id == id then Some(0)
    else match FirstIndexOf(ts[1..], id)
      case None => None
      case Some(k) => Some(k + 1)
  }

  /** The same task with its completion flag inverted. */
  function Flip(t: Task): (r: Task)
  {
    t.(completed := !t.completed)
  }

  /** The list after toggling `id`: the first task with that id has its
      completion flag inverted and its other fields kept; every other position is
      untouched; an absent id leaves the list as it was. */
  function Toggled(ts: seq<Task>, id: int): (r: seq<Task>)
    ensures |r| == |ts|
    ensures forall j :: 0 <= j < |ts| ==>
              r[j] == if IsFirstWithId(ts, id, j) then Flip(ts[j]) else ts[j]
    ensures (forall t :: t in ts ==> t.id != id) ==> r == ts
  {
    match FirstIndexOf(ts, id)
    case None => ts
    case Some(k) => ts[k := Flip(ts[k])]
  }

  /** Toggling the same id twice gives back the original list. */
  lemma {:induction false} ToggledTwice(ts: seq<Task>, id: int)
    ensures Toggled(Toggled(ts, id), id) == ts
  {
    var once := Toggled(ts, id);
    assert forall j :: 0 <= j < |ts| ==> once[j].id == ts[j].id;
    forall j | 0 <= j < |ts|
      ensures IsFirstWithId(once, id, j) == IsFirstWithId(ts, id, j)
    {
    }
  }

  /** Toggling the first task with `id` moves it between the active and the
      completed counts and keeps the total. */
  lemma {:induction false} ToggledCounts(ts: seq<Task>, id: int, k: nat)
    requires IsFirstWithId(ts, id, k)
    ensures |Toggled(ts, id)| == |ts|
    ensures ts[k].completed ==>
              |Active(Toggled(ts, id))| == |Active(ts)| + 1 &&
              |Done(Toggled(ts, id))| == |Done(ts)| - 1
    ensures !ts[k].completed ==>
              |Active(Toggled(ts, id))| == |Active(ts)| - 1 &&
              |Done(Toggled(ts, id))| == |Done(ts)| + 1
  {
    assert Toggled(ts, id) == ts[k := Flip(ts[k])];
    SelectUpdateCount(ts, k, Flip(ts[k]), IsActive);
    SelectUpdateCount(ts, k, Flip(ts[k]), IsDone);
  }

  /** The active and the completed tasks split the list: together they hold every
      task exactly once, so their counts add up to the total. */
  lemma {:induction false} ActiveDonePartition(ts: seq<Task>)
    ensures |Active(ts)| + |Done(ts)| == |ts|
    ensures multiset(Active(ts)) + multiset(Done(ts)) == multiset(ts)
  {
    SelectPartition(ts, IsActive, IsDone);
  }

  /** What clearing the completed tasks leaves: no completed task, every active
      task, and as many tasks as were active. */
  lemma {:induction false} ActiveOnlyActive(ts: seq<Task>)
    ensures Done(Active(ts)) == []
    ensures Active(Active(ts)) == Active(ts)
    ensures |Active(ts)| == |ts| - |Done(ts)|
  {
    var kept := Active(ts);
    assert forall t :: t in kept ==> !t.completed;
    SelectKeepsAll(kept, IsActive);
    ActiveDonePartition(kept);
    ActiveDonePartition(ts);
  }

  /** Putting a new active task in front adds one to the total and to the active
      count and leaves the completed tasks as they were. */
  lemma {:induction false} PrependActiveCounts(t: Task, ts: seq<Task>)
    requires !t.completed
    ensures Active([t] + ts) == [t] + Active(ts)
    ensures Done([t] + ts) == Done(ts)
  {
    SelectCons(t, ts, IsActive);
    SelectCons(t, ts, IsDone);
  }
}

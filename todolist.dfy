/**
 * The task list: an ordered list of task objects that the menu adds to,
 * completes (and then removes) and edits, always choosing a task by its
 * 1-based number in the filtered, priority-sorted view of one kind of task.
 */
module ToDoLists {
  import opened Input
  import opened Dates
  import opened Tasks
  import opened TaskView

  /** The states of the given task objects, in order. */
  function Values(ts: seq<Task>): (r: seq<TaskValue>)
    reads ts
    ensures |r| == |ts| && forall k :: 0 <= k < |ts| ==> r[k] == ts[k].Value()
  {
    seq(|ts|, k reads ts requires 0 <= k < |ts| => ts[k].Value())
  }

  /**
   * When every object but `held[j]` still has its state from `before`, the
   * states of the list without position `j` are `before` without position `j`.
   */
  lemma SnapshotWithout(held: seq<Task>, before: seq<TaskValue>, j: nat)
    requires j < |held| == |before|
    requires forall k :: 0 <= k < |held| && k != j ==> held[k].Value() == before[k]
    ensures Values(held[..j] + held[j + 1..]) == before[..j] + before[j + 1..]
  {
    var rest := held[..j] + held[j + 1..];
    var now := Values(rest);
    forall k | 0 <= k < j
      ensures now[k] == before[k]
    {
      assert rest[k] == held[k];
    }
    forall k | j <= k < |now|
      ensures now[k] == before[k + 1]
    {
      assert rest[k] == held[k + 1];
    }
  }

  /** No task object is held twice. */
  predicate Distinct(ts: seq<Task>) {
    forall i, j :: 0 <= i < j < |ts| ==> ts[i] != ts[j]
  }

  /** Appending an object keeps the objects distinct exactly when it was not there yet. */
  lemma DistinctAppend(ts: seq<Task>, t: Task)
    ensures Distinct(ts + [t]) <==> Distinct(ts) && t !in ts
  {
    var ext := ts + [t];
    if t in ts {
      var i :| 0 <= i < |ts| && ts[i] == t;
      assert ext[i] == ext[|ts|];
    }
    if Distinct(ext) {
      forall i, j | 0 <= i < j < |ts|
        ensures ts[i] != ts[j]
      {
        assert ext[i] == ts[i] && ext[j] == ts[j];
      }
    }
  }

  /** Taking one object out keeps the rest distinct. */
  lemma DistinctWithout(ts: seq<Task>, j: nat)
    requires Distinct(ts) && j < |ts|
    ensures Distinct(ts[..j] + ts[j + 1..])
  {
    var rest := ts[..j] + ts[j + 1..];
    forall a, b | 0 <= a < b < |rest|
      ensures rest[a] != rest[b]
    {
      var a', b' := if a < j then a else a + 1, if b < j then b else b + 1;
      assert rest[a] == ts[a'] && rest[b] == ts[b'];
    }
  }

  /** Where `List<Task>.Remove` finds its argument: the first position holding that very object. */
  function IndexOf(ts: seq<Task>, t: Task): (r: nat)
    requires t in ts
    ensures r < |ts| && ts[r] == t
    ensures forall k :: 0 <= k < r ==> ts[k] != t
  {
    if ts[0] == t then 0 else 1 + IndexOf(ts[1..], t)
  }

  /** In a list that holds each object once, `Remove` takes out exactly the position it was given. */
  lemma IndexOfDistinct(ts: seq<Task>, p: nat)
    requires Distinct(ts) && p < |ts|
    ensures IndexOf(ts, ts[p]) == p
  {
  }

  /** The number the user types is a position in a view of `count` tasks. */
  predicate ValidSelection(selection: Option<int>, count: nat): (r: bool)
    ensures r ==> selection.Some? && 0 <= selection.value - 1 < count
    ensures selection.None? || selection.value < 1 || count < selection.value ==> !r
  {
    selection.Some? && 1 <= selection.value <= count
  }

  /** One line of the listing: the number shown to the user and the task's fields. */
  datatype Row = Row(number: nat, description: string, priority: int, kind: Kind)

  datatype Listing = NoTasksListed | Listed(rows: seq<Row>)

  /** What the list reports back to the menu. */
  datatype Outcome =
    | NoTasksFound
    | InvalidTaskNumber
    | InvalidInput
    | TaskCompleted
    | TaskUpdated(dueDateKept: bool)

  class ToDoList {
    var tasks: seq<Task>

    function Snapshot(): seq<TaskValue>
      reads this, tasks
    {
      Values(tasks)
    }

    /** The list owns its task objects: none of them appears twice. */
    ghost predicate Valid()
      reads this
    {
      Distinct(tasks)
    }

    constructor ()
      ensures tasks == [] && Valid()
    {
      tasks := [];
    }

    /** Appends; the states of the tasks already there are untouched. */
    method AddTask(task: Task)
      modifies this
      ensures tasks == old(tasks) + [task]
      ensures Snapshot() == old(Snapshot()) + [task.Value()]
      ensures Valid() <==> old(Valid()) && task !in old(tasks)
    {
      DistinctAppend(tasks, task);
      tasks := tasks + [task];
    }

    /**
     * Completes the task the user numbered in the view of one kind and takes
     * it out of the list with `List.Remove`, which drops the first position
     * holding that object.
     */
    method CompleteTask(isWorkTask: bool, selection: Option<int>) returns (outcome: Outcome)
      modifies this, tasks
      ensures var view := old(View(Snapshot(), isWorkTask));
        outcome == if |view| == 0 then NoTasksFound
                   else if ValidSelection(selection, |view|) then TaskCompleted
                   else InvalidTaskNumber
      ensures outcome != TaskCompleted ==> tasks == old(tasks) && Snapshot() == old(Snapshot())
      ensures outcome == TaskCompleted ==>
        var chosen := old(tasks)[old(View(Snapshot(), isWorkTask))[selection.value - 1]];
        var j := IndexOf(old(tasks), chosen);
        && tasks == old(tasks)[..j] + old(tasks)[j + 1..]
        && chosen.Value() == Completed(old(chosen.Value()))
        && forall t :: t in old(tasks) && t != chosen ==> t.Value() == old(t.Value())
      ensures old(Valid()) && outcome == TaskCompleted ==>
        var j := old(View(Snapshot(), isWorkTask))[selection.value - 1];
        && Valid()
        && Snapshot() == old(Snapshot())[..j] + old(Snapshot())[j + 1..]
    {
      var view := View(Snapshot(), isWorkTask);
      if |view| == 0 {
        return NoTasksFound;
      }
      if ValidSelection(selection, |view|) {
        ghost var held := tasks;
        var p := view[selection.value - 1];
        CompleteAndRemove(p);
        assert IndexOf(old(tasks), old(tasks)[p]) == IndexOf(held, held[p]);
        outcome := TaskCompleted;
      } else {
        outcome := InvalidTaskNumber;
      }
    }

    /**
     * Completes the task at position `p` and then removes that object with
     * `List.Remove`, which drops the first position holding it.
     */
    method CompleteAndRemove(p: nat)
      requires p < |tasks|
      modifies this, tasks
      ensures
        var chosen := old(tasks)[p];
        var j := IndexOf(old(tasks), chosen);
        && tasks == old(tasks)[..j] + old(tasks)[j + 1..]
        && chosen.Value() == Completed(old(chosen.Value()))
        && forall t :: t in old(tasks) && t != chosen ==> t.Value() == old(t.Value())
      ensures old(Valid()) ==> Valid() && Snapshot() == old(Snapshot())[..p] + old(Snapshot())[p + 1..]
    {
      ghost var before, held := Snapshot(), tasks;
      var chosen := tasks[p];
      chosen.CompleteTask();
      var j := IndexOf(tasks, chosen);
      if Distinct(held) {
        IndexOfDistinct(held, p);
        forall k | 0 <= k < |held| && k != j
          ensures held[k].Value() == before[k]
        {
          assert held[k] != chosen;
        }
        DistinctWithout(held, j);
        SnapshotWithout(held, before, j);
      }
      tasks := tasks[..j] + tasks[j + 1..];
    }

    /**
     * Edits the task the user numbered in the view of one kind, provided the
     * new description is not blank and the new priority is an integer.
     */
    method EditTask(isWorkTask: bool, selection: Option<int>, description: string, priority: Option<int>, due: DateInput)
      returns (outcome: Outcome)
      modifies tasks
      ensures tasks == old(tasks)
      ensures var view := old(View(Snapshot(), isWorkTask));
        outcome == if |view| == 0 then NoTasksFound
                   else if !ValidSelection(selection, |view|) then InvalidTaskNumber
                   else if IsBlank(description) || priority.None? then InvalidInput
                   else TaskUpdated(old(tasks[view[selection.value - 1]].kind).Work? && ParseDate(due).None?)
      ensures !outcome.TaskUpdated? ==> Snapshot() == old(Snapshot())
      ensures outcome.TaskUpdated? ==>
        var chosen := tasks[old(View(Snapshot(), isWorkTask))[selection.value - 1]];
        && chosen.Value() == Edited(old(chosen.Value()), description, priority.value, due)
        && forall t :: t in tasks && t != chosen ==> t.Value() == old(t.Value())
      ensures old(Valid()) && outcome.TaskUpdated? ==>
        var j := old(View(Snapshot(), isWorkTask))[selection.value - 1];
        Snapshot() == old(Snapshot())[j := Edited(old(Snapshot())[j], description, priority.value, due)]
    {
      var view := View(Snapshot(), isWorkTask);
      if |view| == 0 {
        return NoTasksFound;
      }
      if !ValidSelection(selection, |view|) {
        return InvalidTaskNumber;
      }
      var chosen := tasks[view[selection.value - 1]];
      if IsBlank(description) || priority.None? {
        return InvalidInput;
      }
      var dueDateKept := chosen.EditTask(description, priority.value, due);
      outcome := TaskUpdated(dueDateKept);
    }

    /** The rows `DisplayTasks` prints, one per task of the view, numbered from 1. */
    method DisplayTasks(isWorkTask: bool) returns (listing: Listing)
      ensures var view := View(Snapshot(), isWorkTask);
        && (listing.NoTasksListed? <==> |view| == 0)
        && (listing.Listed? ==>
              && |listing.rows| == |view|
              && forall k :: 0 <= k < |view| ==>
                   var t := Snapshot()[view[k]];
                   listing.rows[k] == Row(k + 1, t.description, t.priority, t.kind))
    {
      var view := View(Snapshot(), isWorkTask);
      if |view| == 0 {
        return NoTasksListed;
      }
      var rows := [];
      for i := 0 to |view|
        invariant |rows| == i
        invariant forall k :: 0 <= k < i ==>
          var t := Snapshot()[view[k]];
          rows[k] == Row(k + 1, t.description, t.priority, t.kind)
      {
        var task := tasks[view[i]];
        rows := rows + [Row(i + 1, task.description, task.priority, task.kind)];
      }
      listing := Listed(rows);
    }
  }
}

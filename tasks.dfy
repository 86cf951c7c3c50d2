/**
 * One to-do item.  The source's `Task` base class with its `WorkTask` and
 * `PersonalTask` subclasses is one class here whose `kind` field says which
 * of the two it is; the due date of a work task lives in that field.  The
 * overridden `CompleteTask` and `EditTask` become a `match` on `kind`.
 */
module Tasks {
  import opened Input
  import opened Dates

  datatype Kind = Work(dueDate: Date) | Personal

  /** The state of one task object at one moment. */
  datatype TaskValue = TaskValue(description: string, priority: int, isComplete: bool, kind: Kind)

  /** What completing a task turns its state into. */
  function Completed(t: TaskValue): (r: TaskValue)
    ensures r.isComplete
    ensures r.description == t.description && r.priority == t.priority && r.kind == t.kind
  {
    t.(isComplete := true)
  }

  /**
   * What editing a task turns its state into: description and priority are
   * overwritten whatever the date answers were; a work task takes the new due
   * date only when the answers form a valid date and otherwise keeps its old one.
   */
  function Edited(t: TaskValue, description: string, priority: int, due: DateInput): (r: TaskValue)
    ensures r.description == description && r.priority == priority
    ensures r.isComplete == t.isComplete
    ensures r.kind.Work? == t.kind.Work?
    ensures t.kind.Work? && ParseDate(due).Some? ==> r.kind == Work(ParseDate(due).value)
    ensures t.kind.Work? && ParseDate(due).None? ==> r.kind == t.kind
  {
    var kind := match t.kind
      case Work(old_due) => Work(match ParseDate(due) case Some(d) => d case None => old_due)
      case Personal => Personal;
    TaskValue(description, priority, t.isComplete, kind)
  }

  class Task {
    var description: string
    var priority: int
    var isComplete: bool
    var kind: Kind

    function Value(): TaskValue
      reads this
    {
      TaskValue(description, priority, isComplete, kind)
    }

    /** `new WorkTask(description, priority, dueDate)` or `new PersonalTask(description, priority)`. */
    constructor (description: string, priority: int, kind: Kind)
      ensures Value() == TaskValue(description, priority, false, kind)
    {
      this.description := description;
      this.priority := priority;
      this.isComplete := false;
      this.kind := kind;
    }

    /** Marks the task done; allowed, and the same, on a task that is already done. */
    method CompleteTask()
      modifies this
      ensures Value() == Completed(old(Value()))
    {
      isComplete := true;
    }

    /**
     * Overwrites description and priority, then, for a work task, tries the
     * three date answers; `dueDateKept` reports the warning a work task gives
     * when it keeps its old due date.
     */
    method EditTask(description: string, priority: int, due: DateInput) returns (dueDateKept: bool)
      modifies this
      ensures Value() == Edited(old(Value()), description, priority, due)
      ensures dueDateKept <==> old(kind).Work? && ParseDate(due).None?
    {
      this.description := description;
      this.priority := priority;
      dueDateKept := false;
      match kind
      case Work(_) =>
        var parsed := ParseDate(due);
        if parsed.Some? {
          kind := Work(parsed.value);
        } else {
          dueDateKept := true;
        }
      case Personal =>
    }
  }
}

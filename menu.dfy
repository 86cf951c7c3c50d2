/**
 * The checks that menu options 1 and 2 make before a task is created and
 * added: a blank description, a priority that is not an integer and, for a
 * work task, due-date answers that do not form a date each refuse the add.
 * The menu loop, the prompts and the console are not modelled.
 */
module Menu {
  import opened Input
  import opened Dates
  import opened Tasks
  import opened ToDoLists

  /** Which warning the add was refused with; the checks run in this order. */
  datatype AddError = DescriptionEmpty | InvalidPriority | InvalidDate

  datatype AddCheck = Accepted(task: TaskValue) | Rejected(error: AddError)

  /** Option 1: the work task the answers describe, or the first check that fails. */
  function CheckWorkTask(description: string, priority: Option<int>, due: DateInput): (r: AddCheck)
    ensures r.Accepted? <==> !IsBlank(description) && priority.Some? && ParseDate(due).Some?
    ensures r.Accepted? ==>
      && r.task.description == description && r.task.priority == priority.value
      && !r.task.isComplete
      && r.task.kind == Work(ParseDate(due).value)
      && ValidDate(r.task.kind.dueDate)
    ensures r.Rejected? ==>
      r.error == if IsBlank(description) then DescriptionEmpty
                 else if priority.None? then InvalidPriority
                 else InvalidDate
  {
    if IsBlank(description) then Rejected(DescriptionEmpty)
    else if priority.None? then Rejected(InvalidPriority)
    else match ParseDate(due)
      case None => Rejected(InvalidDate)
      case Some(date) => Accepted(TaskValue(description, priority.value, false, Work(date)))
  }

  /** Option 2: the personal task the answers describe, or the first check that fails. */
  function CheckPersonalTask(description: string, priority: Option<int>): (r: AddCheck)
    ensures r.Accepted? <==> !IsBlank(description) && priority.Some?
    ensures r.Accepted? ==>
      && r.task.description == description && r.task.priority == priority.value
      && !r.task.isComplete
      && r.task.kind == Personal
    ensures r.Rejected? ==>
      r.error == if IsBlank(description) then DescriptionEmpty else InvalidPriority
  {
    if IsBlank(description) then Rejected(DescriptionEmpty)
    else if priority.None? then Rejected(InvalidPriority)
    else Accepted(TaskValue(description, priority.value, false, Personal))
  }

  /** Option 1 after the answers have been read: check, create, append. */
  method AddWorkTask(list: ToDoList, description: string, priority: Option<int>, due: DateInput)
    returns (r: AddCheck)
    modifies list
    ensures r == CheckWorkTask(description, priority, due)
    ensures r.Rejected? ==> list.tasks == old(list.tasks)
    ensures r.Accepted? ==>
      && |list.tasks| == |old(list.tasks)| + 1
      && list.tasks[..|old(list.tasks)|] == old(list.tasks)
      && fresh(list.tasks[|old(list.tasks)|])
      && list.Snapshot() == old(list.Snapshot()) + [r.task]
    ensures old(list.Valid()) ==> list.Valid()
  {
    if IsBlank(description) {
      return Rejected(DescriptionEmpty);
    }
    if priority.None? {
      return Rejected(InvalidPriority);
    }
    var date := ParseDate(due);
    if date.None? {
      return Rejected(InvalidDate);
    }
    var task := new Task(description, priority.value, Work(date.value));
    list.AddTask(task);
    r := Accepted(task.Value());
  }

  /** Option 2 after the answers have been read: check, create, append. */
  method AddPersonalTask(list: ToDoList, description: string, priority: Option<int>)
    returns (r: AddCheck)
    modifies list
    ensures r == CheckPersonalTask(description, priority)
    ensures r.Rejected? ==> list.tasks == old(list.tasks)
    ensures r.Accepted? ==>
      && |list.tasks| == |old(list.tasks)| + 1
      && list.tasks[..|old(list.tasks)|] == old(list.tasks)
      && fresh(list.tasks[|old(list.tasks)|])
      && list.Snapshot() == old(list.Snapshot()) + [r.task]
    ensures old(list.Valid()) ==> list.Valid()
  {
    if IsBlank(description) {
      return Rejected(DescriptionEmpty);
    }
    if priority.None? {
      return Rejected(InvalidPriority);
    }
    var task := new Task(description, priority.value, Personal);
    list.AddTask(task);
    r := Accepted(task.Value());
  }
}

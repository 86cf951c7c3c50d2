/**
 * Clients that use only the contracts above: short sessions on a list that
 * holds a work task due on 10 March 2025 followed by a personal task.
 */
module Scenarios {
  import opened Input
  import opened Dates
  import opened Tasks
  import opened TaskView
  import opened ToDoLists

  /** The list every session below starts from. */
  predicate TwoTasks(list: ToDoList, report: Task, yoga: Task)
    reads list, report, yoga
  {
    && list.tasks == [report, yoga] && report != yoga
    && report.Value() == TaskValue("Ship report", 2, false, Work(Date(2025, 3, 10)))
    && yoga.Value() == TaskValue("Yoga", 1, false, Personal)
  }

  method TwoTaskList() returns (list: ToDoList, report: Task, yoga: Task)
    ensures fresh(list) && fresh(report) && fresh(yoga)
    ensures TwoTasks(list, report, yoga) && list.Valid()
  {
    list := new ToDoList();
    report := new Task("Ship report", 2, Work(Date(2025, 3, 10)));
    yoga := new Task("Yoga", 1, Personal);
    list.AddTask(report);
    list.AddTask(yoga);
  }

  /** Personal task number 99 does not exist: nothing changes. */
  method RejectSession(list: ToDoList, report: Task, yoga: Task)
    requires TwoTasks(list, report, yoga)
    modifies list, list.tasks
  {
    ViewCharacterized(list.Snapshot(), false, [1]);
    var outcome := list.CompleteTask(false, Some(99));
    assert outcome == InvalidTaskNumber && list.tasks == [report, yoga];
    assert TwoTasks(list, report, yoga);
  }

  /** Personal task number 1 is completed and leaves the list. */
  method CompleteSession(list: ToDoList, report: Task, yoga: Task)
    requires TwoTasks(list, report, yoga)
    modifies list, list.tasks
  {
    ViewCharacterized(list.Snapshot(), false, [1]);
    var outcome := list.CompleteTask(false, Some(1));
    assert outcome == TaskCompleted && list.tasks == [report];
    assert yoga.isComplete && !report.isComplete;
  }

  /** Editing work task number 1 with the 31st of February keeps its due date. */
  method EditSession(list: ToDoList, report: Task, yoga: Task)
    requires TwoTasks(list, report, yoga)
    modifies list.tasks
  {
    ViewCharacterized(list.Snapshot(), true, [0]);
    assert !IsBlank("Plan") by {
      assert !IsWhiteSpace("Plan"[0]);
    }
    var february31 := DateInput(Some(31), Some(2), Some(2025));
    assert ParseDate(february31).None?;
    var outcome := list.EditTask(true, Some(1), "Plan", Some(1), february31);
    assert outcome == TaskUpdated(true);
    assert report.Value() == TaskValue("Plan", 1, false, Work(Date(2025, 3, 10)));
    assert yoga.Value() == TaskValue("Yoga", 1, false, Personal);
  }

  /** The sessions run on a list built with the constructors and `AddTask`. */
  method Sessions() {
    var list, report, yoga := TwoTaskList();
    EditSession(list, report, yoga);
    list, report, yoga := TwoTaskList();
    RejectSession(list, report, yoga);
    list, report, yoga := TwoTaskList();
    CompleteSession(list, report, yoga);
  }
}

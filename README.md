# ToDoList — a Dafny model of the task list

This project models the core of the console to-do list in
`ToDoList/Program.cs`, which is its task objects, the in-memory list that owns them, and
the checks the menu makes before it adds a task.

- **Tasks** (`tasks.dfy`). The C# `Task` base class and its `WorkTask` and
  `PersonalTask` subclasses are one Dafny class `Task`. Its fields
  `description`, `priority` and `isComplete` are updated in place. The field
  `kind` (`Work(dueDate)` or `Personal`) says which subclass the object is, and
  no method ever changes the variant. Completing sets `isComplete`. Editing
  overwrites the description and the priority. A work task then takes the new
  due date only when the three date answers form a valid date, and otherwise
  keeps its old one.
- **The view** (`view.dfy`). Completing, editing and displaying all work on
  the tasks of one kind, sorted by priority with a stable sort (LINQ `Where`
  then `OrderBy`). The view is a pure function `View` that returns positions
  in the list. `IsStableView` states what it is: exactly the tasks of that
  kind, in ascending priority, with equal priorities kept in list order.
  `ViewCharacterized` proves that `View` is the one sequence with that
  property.
- **The list** (`todolist.dfy`). `ToDoList` is a class that holds a
  `seq<Task>` of references.
  - `AddTask` appends.
  - `CompleteTask` completes the k-th task of the view and then removes it
    with `List.Remove`, which takes out the first position holding that very
    object.
  - `EditTask` edits the k-th task of the view.
  - `DisplayTasks` builds the numbered rows it prints.
  - Every bad answer (no tasks, a number out of range, a blank description,
    a priority that is not an integer) leaves the list and the tasks unchanged.
  - `Valid` says that no task object appears twice. Under it, `Remove` takes
    out exactly the selected position.
- **Input** (`input.dfy`, `dates.dfy`, `menu.dfy`). A console answer reaches
  the model already parsed:
  - `int.TryParse` gives an `Option<int>`;
  - `string.IsNullOrWhiteSpace` is `IsBlank`, over the .NET white-space set;
  - the day, month and year prompts together are one `DateInput`.

  `ParseDate` accepts exactly the proleptic Gregorian dates with years 1 to
  9999, the range `DateTime` can hold. `Menu` has the checks of menu options 1
  and 2, in their order. `scenarios.dfy` has short client sessions that use
  the contracts alone.

Completing a task always removes it from the list
(`ToDoList/Program.cs:120`), and the list has no separate remove operation.
The listing never shows whether a task is complete (`ToDoList/Program.cs:181`),
since no complete task stays in the list.

## Model

| member | source | states |
|---|---|---|
| Dates.DaysInMonth | ToDoList/Program.cs:63 | a month has 28 to 31 days: 29 exactly for February of a leap year, 28 for February of a common year, 30 exactly for April, June, September and November |
| Dates.ValidDate | ToDoList/Program.cs:63 | a day `DateTime` can hold: day 1 to 31 and month 1 to 12, 29 February only in a leap year, years outside 1 to 9999 never, and days 1 to 28 of any month of years 1 to 9999 always |
| Dates.ParseDate | ToDoList/Program.cs:60-63 | the answers give a date exactly when all three are integers and form a valid calendar date, and any date it gives is valid |
| Dates.ParseDateRoundTrip | ToDoList/Program.cs:237-240 | typing the day, month and year of any valid date gives back that same date |
| Tasks.Completed | ToDoList/Program.cs:20-24 | a completed task is marked complete and keeps its description, priority and variant |
| Tasks.Edited | ToDoList/Program.cs:49-71 | an edit sets the description and the priority and keeps the completion flag and the variant. A work task takes the parsed due date when the answers are valid and keeps its old one otherwise |
| Tasks.Task.constructor | ToDoList/Program.cs:13-18 | a new work or personal task has the given description, priority and variant and starts incomplete |
| Tasks.Task.CompleteTask | ToDoList/Program.cs:20-24 | the object's new state is its old state completed |
| Tasks.Task.EditTask | ToDoList/Program.cs:49-71 | the object's new state is its old state edited. The warning is given exactly when a work task's date answers do not form a date |
| TaskView.Filter | ToDoList/Program.cs:101 | the filtered tasks are no more than the list and all have the requested variant |
| TaskView.MatchingIndices | ToDoList/Program.cs:101 | the positions of the tasks of the requested variant, each exactly once, in increasing list order |
| TaskView.Insert | ToDoList/Program.cs:101 | inserting a position adds exactly that position to the sequence |
| TaskView.SortByPriority | ToDoList/Program.cs:101 | the sort only rearranges the positions it is given |
| TaskView.InsertOrdered | ToDoList/Program.cs:101 | inserting a position that is earlier than all others keeps the sequence ordered by priority, with ties in list order |
| TaskView.SortOrdered | ToDoList/Program.cs:101 | sorting increasing positions yields them ordered by priority, with ties in list order (the sort is stable) |
| TaskView.OrderedUnique | ToDoList/Program.cs:101 | two such ordered sequences with the same members are equal |
| TaskView.View | ToDoList/Program.cs:101 | the `Where`-then-`OrderBy` view as positions in the list: in bounds and a permutation of the matching positions. `ViewIsStable` and `ViewCharacterized` give its full meaning |
| TaskView.ViewIsStable | ToDoList/Program.cs:101 | the view holds exactly the tasks of the requested variant, sorted by priority, with ties in list order, and is a permutation of the matching positions |
| TaskView.ViewCharacterized | ToDoList/Program.cs:101 | a sequence is the view if and only if it is a stable priority sort of exactly the matching tasks |
| TaskView.InsertPermutesTasks | ToDoList/Program.cs:101 | the tasks at the inserted positions are the tasks before plus the inserted one |
| TaskView.SortPermutesTasks | ToDoList/Program.cs:101 | the tasks at the sorted positions are a permutation of the tasks at the given positions |
| TaskView.MatchingIndicesFilter | ToDoList/Program.cs:101 | the tasks at the matching positions are exactly the filtered tasks, in list order |
| TaskView.ViewPermutesFilter | ToDoList/Program.cs:101 | the tasks the view shows are a permutation of the filtered tasks |
| Input.IsBlank | ToDoList/Program.cs:154 | `string.IsNullOrWhiteSpace`: the empty (or unread) line is blank, and a line is blank exactly when every character in it is .NET white space |
| ToDoLists.ValidSelection | ToDoList/Program.cs:116 | an accepted task number is an integer whose 0-based index lies in the view. A non-integer, a number below 1 or a number above the count is refused |
| ToDoLists.DistinctAppend | ToDoList/Program.cs:94-97 | appending keeps every object held once if and only if the new object was not in the list yet |
| ToDoLists.IndexOf | ToDoList/Program.cs:120 | `List.Remove` finds the first position that holds the given object |
| ToDoLists.IndexOfDistinct | ToDoList/Program.cs:120 | when every object is held once, `Remove` of the object at a position finds that position |
| ToDoLists.DistinctWithout | ToDoList/Program.cs:120 | taking out one position keeps every object held once |
| ToDoLists.SnapshotWithout | ToDoList/Program.cs:118-120 | after one object changes and is taken out, the states of the rest are the old states without that position |
| ToDoLists.ToDoList.constructor | ToDoList/Program.cs:89-92 | a new list is empty, and so trivially holds each object once |
| ToDoLists.ToDoList.AddTask | ToDoList/Program.cs:94-97 | the task is appended and no other task changes. The list still holds each object once exactly when the task was new |
| ToDoLists.ToDoList.CompleteTask | ToDoList/Program.cs:99-126 | no tasks of the kind gives "no tasks found", a number outside 1..count gives "invalid task number", and both change nothing. Otherwise the k-th task of the view is completed and the first occurrence of that object is removed, with the other tasks untouched. With each object held once, the new states are the old ones without position `view[k-1]` |
| ToDoLists.ToDoList.CompleteAndRemove | ToDoList/Program.cs:118-120 | the object at the position is completed and its first occurrence removed. With each object held once, exactly that position leaves the list |
| ToDoLists.ToDoList.EditTask | ToDoList/Program.cs:128-168 | the outcomes are "no tasks found", "invalid task number" and "invalid input" (blank description or non-integer priority), checked in that order, and each changes nothing. Otherwise only the k-th task of the view is edited, and the outcome reports whether its due date was kept |
| ToDoLists.ToDoList.DisplayTasks | ToDoList/Program.cs:170-188 | "no tasks found" exactly when the view is empty. Otherwise row k is numbered k+1 and shows the description, priority and variant (with its due date) of the k-th task of the view |
| Menu.CheckWorkTask | ToDoList/Program.cs:211-246 | a work task is accepted exactly when the description is not blank, the priority is an integer and the date answers form a date. It is then incomplete with those fields and a valid due date. Otherwise the first failing check names the error |
| Menu.CheckPersonalTask | ToDoList/Program.cs:250-269 | a personal task is accepted exactly when the description is not blank and the priority is an integer. It is then incomplete with those fields. Otherwise the first failing check names the error |
| Menu.AddWorkTask | ToDoList/Program.cs:211-248 | a rejected answer leaves the list as it was. An accepted one appends one fresh work task with the checked state and keeps the list's ownership invariant |
| Menu.AddPersonalTask | ToDoList/Program.cs:250-271 | a rejected answer leaves the list as it was. An accepted one appends one fresh personal task with the checked state and keeps the list's ownership invariant |

## Left out

- The menu loop (lines 197-328), the choice of task type ("1" or "2") and the "Invalid option" branches are left out. They only choose which operation runs with `isWorkTask` true or false.
- All console output is left out: prompts, warnings, the "Task completed!" and celebration lines, the listing that complete and edit print before asking for a number, `Console.Clear`, and the pauses on `Console.ReadLine`. The outcome values stand for the messages.
- The text layout of the listing is left out: `GetType().Name` appears as the row's variant, and the `dd-MM-yyyy` date format is not modelled.
- Console input is not modelled. Each answer is a parameter that has already been through `int.TryParse` or `string.IsNullOrWhiteSpace`, and a line that could not be read counts as blank.
- ParseDate: `DateTime.TryParse` depends on the culture and reads the string `year-month-day` it is given. The model reads the three integers directly as year, month and day. When the year answer has fewer than three digits the string is no longer year-first, and .NET may read all three answers in the culture's own order (day 2025, month 3, year 10 gives `10-3-2025`, which the model rejects and .NET may accept). The model does not capture those readings.
- Priorities are unbounded `int`s, not 32-bit. `int.TryParse` already limits them, and the code does no arithmetic on them, so nothing can wrap.

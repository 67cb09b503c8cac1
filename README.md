# MediTask core in Dafny

MediTask is a small Java desktop application for assigning tasks to
employees. This project models its logic and proves
properties of that model. The logic has four parts:

- **The employee directory** (`EmployeeController`, `Employee`). The
  employee CSV file arrives here as a sequence of lines. The first line is a
  header. Each data line is split on commas, with empty fields kept, and
  every column is trimmed; a missing column reads as empty. A line needs six
  non-empty columns: username, password, first name, last name, department
  and role. An admitted line becomes an `Employee`. The employee is put
  under its username into `employees`. It also goes into `managers` or
  `laborers` when its role matches "Manager" or "Laborer", ignoring case.
  `validateLogin` answers -1, 0 or 1.
- **The shared domain model** (`Task`, `Group`, `TaskController`,
  `GroupController`). These are small mutable objects and lists that are
  only appended to. The status list starts as Open, In-Progress, Complete.
  The group list starts with `Admins`, whose members are the managers in
  username order.
- **The manager dashboard** (`ManagerPanel`). It has a second model of its
  own:
  - status names, with add, remove and "next status";
  - a name-keyed map of groups whose members are sets of usernames;
  - tasks numbered by a counter, each with a single text assignee.

  Each button listener is a method over that state. What the user selected
  or typed, and the answer to the confirmation dialog, are parameters.
- **The laborer dashboard** (`LaborerPanel`). The "my tasks" dropdown keeps
  the tasks whose assignee is the current user, or whose group lists the
  user. Both tests compare object references. `handleUpdateStatus` changes
  the status of the selected task.

Modules:

| module | contents |
|---|---|
| `Wrappers` | `Option` |
| `Strings` | Java's `trim`, `split(",", -1)`, `equalsIgnoreCase` and `Integer.parseInt` |
| `Order` | `String.compareTo` and the key order of a `TreeMap` |
| `Lists` | `List.indexOf` and `List.remove` |
| `Employees` | `Employee` |
| `EmployeeDirectory` | `EmployeeController` |
| `Groups` | `Group` |
| `Tasks` | `Task` and `TaskStatus` |
| `TaskRegistry` | `TaskController` |
| `GroupRegistry` | `GroupController` |
| `ManagerDashboard` | `ManagerPanel` and its inner `Task` and `Group` |
| `LaborerDashboard` | `LaborerPanel` |

Classes model the objects the code updates in place. Immutable things are
values or constant fields.

Some behaviour of the code worth knowing:

- `TaskController.addStatus` and `GroupController.createGroup`
  (`src/controller/TaskController.java:27-31`,
  `src/controller/GroupController.java:21-25`) add without checking for
  duplicates.
- The duplicate check of the manager dashboard's Add status
  (`src/view/panels/ManagerPanel.java:347`) is exact, including case.
- The comments on `managers` and `laborers`
  (`src/controller/EmployeeController.java:12-13`) call the two maps
  distinct. They are not when a username repeats: a Manager line followed
  by a Laborer line for the same username leaves the name in both maps, as
  `RepeatedUsernameInBothIndexes` shows.
- The comment in Mark Complete (`src/view/panels/ManagerPanel.java:284`)
  says "last status if present, otherwise Complete". The code at lines
  285-286 does the opposite: Complete when it is present, otherwise the
  last status. The model follows the code.
- The Create Task status combo (`src/view/panels/ManagerPanel.java:206-207`)
  is filled once, with the statuses present when the form is built, and is
  never refreshed, so it does not follow Add status or Remove status.
- Next Status on a status that is no longer in the list
  (`src/view/panels/ManagerPanel.java:246-248`) does not go to the first
  status: `indexOf` gives -1 and the next index is `statuses[1 % n]`.

Stand-ins:

- `getManagers()` is called but not defined. It is modelled as the values of
  `managers` in key order (`EmployeeController.GetManagers`).
- `getCurrentUser()` is called but not defined. The laborer's current user
  is a parameter, null when nobody is known.
- `TaskStatus.java` is not part of this model. A status is the value of its
  name.
- The frame object the panels and `GroupController` receive is replaced by
  the controllers it would hand out.

## Model

| member | source | states |
|---|---|---|
| Strings.LeadingSpacesRun | src/controller/EmployeeController.java:97 | the leading run trim() cuts is made of characters up to U+0020, and the character after it is not one |
| Strings.TrailingSpacesRun | src/controller/EmployeeController.java:97 | the trailing run trim() cuts is made of characters up to U+0020, and the character before it is not one |
| Strings.TrimInfix | src/controller/EmployeeController.java:97 | the result is the infix of the input left once the runs of characters up to U+0020 are cut from both ends: what is cut is all such characters, and the result neither starts nor ends with one; the result is empty exactly when every character is one |
| Strings.TrimIdempotent | src/controller/EmployeeController.java:97 | trimming a trimmed column changes nothing |
| Strings.Split | src/controller/EmployeeController.java:30 | split(",", -1) gives at least one field, even for an empty line |
| Strings.SplitFields | src/controller/EmployeeController.java:30 | no field of the split holds a comma, and joining the fields with commas gives the line back |
| Strings.SplitJoin | src/controller/EmployeeController.java:30 | splitting a comma-join of comma-free fields gives those fields back, empty ones included |
| Strings.BlankHasNoComma | src/controller/EmployeeController.java:28-30 | a line that trims to empty holds no comma, so it would split into a single field |
| Strings.EqualsIgnoreCasePositionwise | src/controller/EmployeeController.java:62-67 | equalsIgnoreCase holds exactly when the lengths agree and the characters at each position are equal once ASCII case is folded |
| Strings.ParseInt | src/controller/EmployeeController.java:101 | Integer.parseInt succeeds only when at least one decimal digit follows the optional sign and nothing else does, and only with a value in the 32-bit range; a '-' gives a value at most 0, no '-' a value at least 0 |
| Strings.ParseIntSafe | src/controller/EmployeeController.java:100-103 | parseIntSafe always gives a Java int: the parsed value when parsing succeeds, 0 when it would throw |
| Strings.ParseIntSafeRoundTrip | src/controller/EmployeeController.java:100-103 | every 32-bit int is read back from its own decimal text |
| Strings.ParseIntSafeOutOfRange | src/controller/EmployeeController.java:100-103 | the decimal text of a number outside the 32-bit range makes parseIntSafe give 0 |
| Strings.ParseIntSafeNoDigits | src/controller/EmployeeController.java:100-103 | the empty text, a bare '-' and a bare '+' make parseIntSafe give 0 |
| Strings.ParseIntSafePlusSign | src/controller/EmployeeController.java:100-103 | a '+' in front of a string of digits does not change what parseIntSafe gives |
| Strings.DigitsValueLeadingZero | src/controller/EmployeeController.java:101 | a leading '0' adds nothing to the value of a string of digits |
| Strings.ParseIntSafeLeadingZero | src/controller/EmployeeController.java:100-103 | a '0' in front of a string of digits does not change what parseIntSafe gives |
| Strings.ParseIntSafeNegativeLeadingZero | src/controller/EmployeeController.java:100-103 | after a '-', a '0' in front of a non-empty string of digits does not change what parseIntSafe gives, and "-0" gives 0 |
| Strings.ParseIntSafeRejectsNonDigit | src/controller/EmployeeController.java:100-103 | any character other than a digit, after an optional leading sign, makes parseIntSafe give 0 |
| Order.Compare | src/model/Employee.java:23 | String.compareTo is zero exactly on equal strings, negative exactly when the first is lexicographically before the second, and positive exactly when it is after |
| Order.CompareAntisymmetric | src/model/Employee.java:23 | swapping the arguments of compareTo negates the result |
| Order.LessIrreflexive | src/model/Employee.java:22-24 | no username is before itself |
| Order.LessTransitive | src/model/Employee.java:22-24 | username order is transitive |
| Order.LessTotal | src/model/Employee.java:22-24 | of two different usernames, one is before the other |
| Order.LessAsymmetric | src/model/Employee.java:22-24 | two usernames are never each before the other |
| Order.Insert | src/view/panels/ManagerPanel.java:502 | inserting a new key into a sorted key list keeps it strictly sorted, adds exactly that key, and grows it by one |
| Order.SortedKeys | src/view/panels/ManagerPanel.java:498-503 | the keys of a map as a strictly ascending list holding each key exactly once |
| Order.SortedUnique | src/view/panels/ManagerPanel.java:498-503 | two strictly sorted lists of the same keys are equal, so the sorted key list is unique |
| Lists.IndexOf | src/view/panels/ManagerPanel.java:246 | List.indexOf gives -1 exactly when the value is absent, and otherwise the first position that holds it |
| Lists.IndexOfDistinct | src/view/panels/ManagerPanel.java:246 | in a list without repetitions, indexOf finds each element at its own position |
| Lists.RemoveFirst | src/view/panels/ManagerPanel.java:364 | List.remove(Object) leaves an absent value's list unchanged; otherwise it cuts out the first position holding the value, keeping the elements before and after it in order, so one occurrence fewer and one element fewer |
| Lists.RemoveFirstDistinct | src/view/panels/ManagerPanel.java:364 | on a list without repetitions, remove keeps it so, removes the value entirely, and keeps every other element |
| Employees.Employee.constructor | src/model/Employee.java:26-41 | the record of the new employee holds exactly the fourteen constructor arguments, which the getters return, and which are constants since there are no setters |
| Employees.Employee.CompareTo | src/model/Employee.java:22-24 | compareTo is zero exactly when the usernames are equal, negative exactly when this username is first, and the negation of the reverse comparison |
| Employees.Employee.ToString | src/model/Employee.java:59-62 | toString is the first name, a space, the last name, then " - " and the department |
| EmployeeDirectory.ClassifyIgnoresCase | src/controller/EmployeeController.java:62-67 | a role is Manager exactly when it equalsIgnoreCase "Manager", and Laborer exactly when it equalsIgnoreCase "Laborer", so never both |
| EmployeeDirectory.ParseLineAdmits | src/controller/EmployeeController.java:28-56 | a line is admitted exactly when its six required columns (0, 1, 3, 4, 12, 13) are non-empty after trimming; the record holds the trimmed columns and the id from parseIntSafe |
| EmployeeDirectory.LineRecordHasRequiredFields | src/controller/EmployeeController.java:40-43 | a record made from a line has all six required fields non-empty |
| EmployeeDirectory.AdmittedAppend | src/controller/EmployeeController.java:26-68 | lines are handled one at a time: the records admitted from two runs of lines are those of the first run, then those of the second |
| EmployeeDirectory.SkippedLineIsDropped | src/controller/EmployeeController.java:28-43 | a rejected line contributes nothing, and the lines after it still load |
| EmployeeDirectory.HeaderIgnored | src/controller/EmployeeController.java:23-24 | the first line is never read as a record, whatever it says |
| EmployeeDirectory.AdmittedFromLines | src/controller/EmployeeController.java:26-59 | every admitted record comes from some data line and has all required fields |
| EmployeeDirectory.OfKind | src/controller/EmployeeController.java:62-67 | the records picked for a sub-map are admitted records whose role is of that kind |
| EmployeeDirectory.PutAllAppend | src/controller/EmployeeController.java:59 | putting two runs of records is putting the first run, then the second |
| EmployeeDirectory.OfKindAppend | src/controller/EmployeeController.java:62-67 | the records of a role in two runs are those of the first run, then those of the second |
| EmployeeDirectory.PutAllKeys | src/controller/EmployeeController.java:59 | after loading, the keys are the earlier keys plus the usernames of the loaded records |
| EmployeeDirectory.PutAllLastWins | src/controller/EmployeeController.java:59 | a username is bound to the last record that carries it: a later line replaces an earlier one |
| EmployeeDirectory.PutAllUntouched | src/controller/EmployeeController.java:59 | a username no loaded record carries keeps its earlier binding, or stays absent |
| EmployeeDirectory.SubIndexKeys | src/controller/EmployeeController.java:59-67 | every key of managers or laborers is a key of employees |
| EmployeeDirectory.ManagersAndLaborersDisjoint | src/controller/EmployeeController.java:12-13 | with unique usernames, no one is in both managers and laborers |
| EmployeeDirectory.RepeatedUsernameInBothIndexes | src/controller/EmployeeController.java:12-13 | a Manager line and then a Laborer line with one username leave it in both sub-maps, while employees holds the laborer |
| EmployeeDirectory.Records | src/controller/EmployeeController.java:11-13 | the field values of a map of employees have the same keys |
| EmployeeDirectory.RecordsPut | src/controller/EmployeeController.java:59 | putting an employee puts its field values |
| EmployeeDirectory.ValuesInUsernameOrder | src/controller/GroupController.java:15 | the employees of a username-keyed map, taken key by key in ascending key order, are each employee once in username order |
| EmployeeDirectory.UsernameOrderUnique | src/controller/GroupController.java:15 | only one list gives the managers in username order |
| EmployeeDirectory.PutKeepsSubIndex | src/controller/EmployeeController.java:59-67 | putting an employee into employees, and into a sub-map when its role is that sub-map's, keeps the sub-map holding exactly the employees of its role |
| EmployeeDirectory.PutKeepsConsistent | src/controller/EmployeeController.java:59-67 | putting an employee into employees, and by role into managers or laborers, keeps the three maps consistent |
| EmployeeDirectory.LoadOne | src/controller/EmployeeController.java:59-67 | loading one record binds its username to it, in the sub-map its role selects |
| EmployeeDirectory.PutRecords | src/controller/EmployeeController.java:59-67 | after one put, each map's field values are those of loading that single record |
| EmployeeDirectory.LoadedStep | src/controller/EmployeeController.java:26-67 | putting more records after the records already loaded loads the two runs one after the other, in every map |
| EmployeeDirectory.LoadedNextLine | src/controller/EmployeeController.java:26-67 | loading one more data line after the lines before it extends what all three maps have loaded by that line's record |
| EmployeeDirectory.AdmittedStep | src/controller/EmployeeController.java:26 | reading one more line appends what that line contributes |
| EmployeeDirectory.LineBuildsRecord | src/controller/EmployeeController.java:46-56 | a line with its required columns yields the record of its trimmed columns |
| EmployeeDirectory.LineSkipped | src/controller/EmployeeController.java:28-43 | a blank line, or one missing a required column, yields nothing |
| EmployeeDirectory.EmployeeController.constructor | src/controller/EmployeeController.java:15-17 | the controller loads the lines into empty maps, which are then exactly the loads of the admitted records |
| EmployeeDirectory.EmployeeController.Put | src/controller/EmployeeController.java:59-67 | employees gains the employee under its username; managers gains it exactly when the role is Manager and laborers exactly when it is Laborer; consistency is kept |
| EmployeeDirectory.EmployeeController.LoadLine | src/controller/EmployeeController.java:28-67 | one pass of the loop body: each map's field values become those after loading what the line contributes |
| EmployeeDirectory.EmployeeController.LoadEmployees | src/controller/EmployeeController.java:19-74 | after loading, employees holds the earlier entries overwritten in file order by every admitted record, and managers and laborers the same for the records of their role; the maps stay consistent |
| EmployeeDirectory.EmployeeController.ValidateLogin | src/controller/EmployeeController.java:77-92 | the code is -1, 0 or 1; it is 0 exactly for a known username with the exact password and a Manager role, and 1 exactly for one with a Laborer role, in any case; as a function it changes no map |
| EmployeeDirectory.EmployeeController.GetManagers | src/controller/GroupController.java:15 | the managers, each once, in strictly ascending username order |
| EmployeeDirectory.LoginAfterLoad | src/controller/EmployeeController.java:77-92 | after loading, a username logs in as the last line that carries it: 0 or 1 exactly when the password and role of that line match |
| EmployeeDirectory.UnknownUserCannotLogin | src/controller/EmployeeController.java:79-80 | a username no admitted line carries always gets -1 |
| Groups.Group.constructor | src/model/Group.java:10-12 | a new group has the given name and no members |
| Groups.Group.SetName | src/model/Group.java:18 | setName changes nothing, so getName and toString keep the constructor's name |
| Groups.Group.AddEmployee | src/model/Group.java:20 | the employee is appended at the end, even when already a member, and the member count grows by one |
| Tasks.Task.constructor | src/model/Task.java:10-14 | a new task has the given title, description and status, and no assignee or group |
| Tasks.Task.AssignEmployee | src/model/Task.java:16 | only the assignee changes; group and status keep their values |
| Tasks.Task.AssignGroup | src/model/Task.java:17 | only the group changes; an assignee already set stays, so both can be set at once |
| Tasks.Task.SetStatus | src/model/Task.java:18 | only the status changes; assignee and group keep their values |
| Tasks.Task.ToString | src/model/Task.java:23-26 | toString is the title, then the status name in parentheses |
| TaskRegistry.TaskController.constructor | src/controller/TaskController.java:12-16 | the statuses are Open, In-Progress, Complete in that order, and there are no tasks |
| TaskRegistry.TaskController.CreateTask | src/controller/TaskController.java:18-22 | a new task with the given fields and no assignee or group is appended and returned; the earlier tasks and the statuses stay |
| TaskRegistry.TaskController.AddStatus | src/controller/TaskController.java:27-31 | a status with the given name is appended and returned, with no duplicate check; the tasks stay |
| GroupRegistry.GroupController.constructor | src/controller/GroupController.java:13-19 | the list is a single new group, Admins, whose members are the directory's managers in ascending username order |
| GroupRegistry.GroupController.NewAdmins | src/controller/GroupController.java:14-17 | the loop of the constructor: a new group named Admins whose members are the given managers, in order |
| GroupRegistry.GroupController.CreateGroup | src/controller/GroupController.java:21-25 | a new empty group with the given name is appended and returned, with no duplicate check; Admins stays at the head |
| ManagerDashboard.Task.constructor | src/view/panels/ManagerPanel.java:549-561 | the panel's task holds the given id, title, description, assignee and status |
| ManagerDashboard.Group.constructor | src/view/panels/ManagerPanel.java:570-576 | the panel's group has the given name and an empty set of members |
| ManagerDashboard.Inc32 | src/view/panels/ManagerPanel.java:228 | nextTaskId++ is the 32-bit two's-complement successor, n + 1 taken modulo 2^32 into the Java int range, and so stays a Java int |
| ManagerDashboard.NextStatusName | src/view/panels/ManagerPanel.java:245-249 | with a non-empty list the next status is one of the listed statuses; with an empty list there is none |
| ManagerDashboard.NextStatusAdvances | src/view/panels/ManagerPanel.java:245-249 | with no repeated status, the status at position i moves to position i + 1, and the last one to position 0 |
| ManagerDashboard.NextStatusWraps | src/view/panels/ManagerPanel.java:248 | the last status moves to the first |
| ManagerDashboard.NextStatusOfUnknown | src/view/panels/ManagerPanel.java:246-248 | a status that is not in the list moves to statuses[1 % n], not to the first |
| ManagerDashboard.StepsAdvance | src/view/panels/ManagerPanel.java:245-249 | k presses from position i, with k at most the list length, reach position i + k, counted round the end |
| ManagerDashboard.CycleReturns | src/view/panels/ManagerPanel.java:245-249 | as many presses as there are statuses bring a task back to its status |
| ManagerDashboard.CompletionStatus | src/view/panels/ManagerPanel.java:285-286 | Mark Complete gives a listed status: "Complete" when the list holds it, otherwise the last status; with an empty list it gives none |
| ManagerDashboard.CompletionOfDefaults | src/view/panels/ManagerPanel.java:285-286 | on the default list, Complete is both the named status and the last one, so the code and its comment agree there |
| ManagerDashboard.CompleteIsFinalOnlyAlone | src/view/panels/ManagerPanel.java:245-249 | Next Status leaves a completed task at Complete exactly when Complete is the only status |
| ManagerDashboard.AddedStatusesDistinct | src/view/panels/ManagerPanel.java:345-353 | Add status keeps the list free of repetitions, and afterwards the list holds exactly the old names plus the non-empty trimmed text |
| ManagerDashboard.AddStatusIdempotent | src/view/panels/ManagerPanel.java:345-353 | adding the same text twice is adding it once |
| ManagerDashboard.RemovedStatuses | src/view/panels/ManagerPanel.java:357-365 | with no selection, or with a default (matched ignoring case) and the dialog declined, the list is unchanged; otherwise one occurrence of the selection is removed, and when it is present that is its first position, with the other names kept in order |
| ManagerDashboard.RemovedStatusesDistinct | src/view/panels/ManagerPanel.java:357-365 | on a list without repetitions, a removal that goes ahead leaves every other name and no trace of the selection |
| ManagerDashboard.CustomStatusRemovedUnconfirmed | src/view/panels/ManagerPanel.java:359-363 | a status other than the defaults is removed without asking |
| ManagerDashboard.ManagerPanel.constructor | src/view/panels/ManagerPanel.java:52-75 | the panel starts with the default statuses, a single empty Admins group, no tasks and the counter at 1, and lists the directory's usernames in ascending order |
| ManagerDashboard.ManagerPanel.LoadEmployees | src/view/panels/ManagerPanel.java:485-513 | the employee list becomes the directory's usernames, each once, in strictly ascending order; with no controller it is empty |
| ManagerDashboard.ManagerPanel.CreateTask | src/view/panels/ManagerPanel.java:216-235 | an empty trimmed title changes nothing; otherwise one task is appended with the counter's id, the trimmed texts and the selected status (or "Open"), and the counter advances; ids keep increasing while the counter does not wrap |
| ManagerDashboard.ManagerPanel.NextStatus | src/view/panels/ManagerPanel.java:239-251 | the selected task takes the next status of its current one; with an empty list it keeps its status |
| ManagerDashboard.ManagerPanel.MarkComplete | src/view/panels/ManagerPanel.java:278-288 | the selected task takes the completion status; with an empty list it keeps its status |
| ManagerDashboard.ManagerPanel.AssignToEmployee | src/view/panels/ManagerPanel.java:254-263 | with a task and an employee selected, the username replaces the single assignee |
| ManagerDashboard.ManagerPanel.AssignToGroup | src/view/panels/ManagerPanel.java:266-275 | with a task and a group selected, "group:" and the group name replace the single assignee |
| ManagerDashboard.ManagerPanel.AddStatus | src/view/panels/ManagerPanel.java:344-354 | the trimmed text is appended unless it is empty or already listed, compared exactly; the list stays free of repetitions |
| ManagerDashboard.ManagerPanel.RemoveStatus | src/view/panels/ManagerPanel.java:356-366 | the list becomes the removal of the selection, given the answer to the confirmation dialog |
| ManagerDashboard.ManagerPanel.CreateGroup | src/view/panels/ManagerPanel.java:393-404 | a non-empty trimmed name that is not yet a group gets a new group with no members; an empty or existing name changes nothing |
| ManagerDashboard.ManagerPanel.DeleteGroup | src/view/panels/ManagerPanel.java:407-416 | Admins is never removed; any other selected group's name is removed from the map |
| ManagerDashboard.ManagerPanel.AddMember | src/view/panels/ManagerPanel.java:420-431 | the selected username joins the selected group's set, so adding twice is adding once |
| ManagerDashboard.ManagerPanel.RemoveMember | src/view/panels/ManagerPanel.java:433-442 | the selected username leaves the selected group's set; an absent one changes nothing |
| ManagerDashboard.ManagerPanel.PromoteToAdmins | src/view/panels/ManagerPanel.java:463-474 | the selected username joins Admins' set, so promoting twice is promoting once |
| LaborerDashboard.MyTasks | src/view/panels/LaborerPanel.java:111-118 | the filter keeps exactly the tasks of the list that are assigned to the user, and no more tasks than the list has |
| LaborerDashboard.MyTasksAppend | src/view/panels/LaborerPanel.java:111-118 | the filter keeps list order: filtering two runs of tasks is filtering the first, then the second |
| LaborerDashboard.MyTasksSnoc | src/view/panels/LaborerPanel.java:112-117 | one more task is added exactly when its assignee is the user, or its group lists the user, compared by reference |
| LaborerDashboard.Picks | src/view/panels/LaborerPanel.java:116 | each task becomes one dropdown item, in order |
| LaborerDashboard.DropdownStep | src/view/panels/LaborerPanel.java:111-118 | one more loop pass adds that task's item exactly when the task is the user's |
| LaborerDashboard.DropdownItems | src/view/panels/LaborerPanel.java:106-119 | the dropdown is the placeholder, then the user's tasks in their original order |
| LaborerDashboard.LaborerPanel.constructor | src/view/panels/LaborerPanel.java:23-27 | a new panel has been refreshed: all statuses, the user's tasks after the placeholder, and the flag clear |
| LaborerDashboard.LaborerPanel.RefreshData | src/view/panels/LaborerPanel.java:97-122 | the statuses are loaded only into an empty box, so refreshing again adds none; the dropdown is the placeholder and then the user's tasks, or the placeholder alone with no user; the flag is false at the end |
| LaborerDashboard.LaborerPanel.HandleUpdateStatus | src/view/panels/LaborerPanel.java:124-145 | with no task, the placeholder, or no status selected, nothing changes; otherwise only the selected task's status becomes the chosen one |

## Left out

- The Swing user interface is left out: layout, renderers, dialogs, list repaints, card switching, `ManagementFrame` and `LoginPanel`. The dialogs' answers are parameters.
- The list models `statusListModel` and `groupListModel` only mirror the panel state and are left out. Selections from them are parameters.
- ManagerDashboard.ManagerPanel.CreateTask: the Create Task `statusCombo` is left out, and the method takes its selection as an unconstrained parameter. The combo is filled once, with the default statuses, when the form is built (`src/view/panels/ManagerPanel.java:206-207`), and it is never refreshed. So the model allows more selections than the code can produce: a status added later, a default removed later, and no selection at all. In the code the `"Open"` fallback for no selection (`src/view/panels/ManagerPanel.java:228`) never runs, because the combo is never empty.
- File reading in `loadEmployees` and its catch-all are left out. The input is the file's lines. An unreadable file would give no lines.
- `parseDoubleSafe` and the `double` salary are left out because they are floating point. The salary is kept as its trimmed column text.
- The reflection in the manager dashboard is left out. It is modelled as direct reads of the directory's `employees` keys.
- `showSelectedEmployeeDetails` and `showSelectedTaskDetails` are left out. They only display text.
- `refreshPanels`, which rebuilds the panels and so resets the manager dashboard's state, is UI lifecycle and is left out.
- Logging to `System.out` and `System.err` is left out.
- `Strings.EqualsIgnoreCase` folds only ASCII letters. Java's Unicode case tables are not modelled.
- `Strings.ParseInt` accepts only ASCII digits. Java also accepts other Unicode decimal digits.
- Characters are Dafny code points, not UTF-16 units. `Order.Compare` returns the difference of code points where Java returns the difference of UTF-16 units. The two agree for characters of the Basic Multilingual Plane.
- Java nulls for strings are not modelled. Nullable selections are `Option` values or nullable references.
- ManagerDashboard.ManagerPanel.NextStatus and MarkComplete: with an empty status list, the source throws from the listener. The model leaves the task unchanged, which is the state the exception leaves.
- ManagerDashboard.Task: `toString` is display text and is left out.
- Tasks.Task.ToString requires a status: with a null status the source throws, and that case is not modelled.
- ManagerDashboard.ManagerPanel.CreateTask states id growth only while the counter does not wrap. After 2^32 tasks the ids repeat, as Java `int` arithmetic makes them.

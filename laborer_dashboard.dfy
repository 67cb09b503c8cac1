/**
 * The laborer dashboard's logic (src/view/panels/LaborerPanel.java): the
 * "my tasks" dropdown built from the shared task store and the status
 * update of the selected task. The logged-in user is a parameter, null
 * when nobody is known.
 */
module LaborerDashboard {
  import opened Wrappers
  import opened Employees
  import opened Groups
  import opened Tasks
  import opened TaskRegistry

  /** An item of the task dropdown: the placeholder, or a task. */
  datatype Choice = Placeholder | Pick(task: Task)

  /**
   * The task is the user's: its assignee is that very employee object, or
   * its group lists that object among its members. Employee does not
   * override equals, so both tests compare references.
   */
  predicate AssignedTo(t: Task, user: Employee)
    reads t, t.group
  {
    (t.assignee != null && t.assignee == user) ||
    (t.group != null && user in t.group.members)
  }

  /** The tasks of the list assigned to the user, in list order. */
  function MyTasks(tasks: seq<Task>, user: Employee): (r: seq<Task>)
    reads set t | t in tasks
    reads set t | t in tasks && t.group != null :: t.group
    ensures |r| <= |tasks|
    ensures forall i :: 0 <= i < |r| ==> r[i] in tasks && AssignedTo(r[i], user)
    ensures forall i :: 0 <= i < |tasks| && AssignedTo(tasks[i], user) ==> tasks[i] in r
  {
    if |tasks| == 0 then []
    else
      var last := tasks[|tasks| - 1];
      var prefix := MyTasks(tasks[..|tasks| - 1], user);
      assert forall i :: 0 <= i < |tasks| - 1 ==> tasks[i] == tasks[..|tasks| - 1][i];
      if AssignedTo(last, user) then prefix + [last] else prefix
  }

  /** The filter works task by task: filtering a + b is filtering a, then b. */
  lemma {:induction false} MyTasksAppend(a: seq<Task>, b: seq<Task>, user: Employee)
    ensures MyTasks(a + b, user) == MyTasks(a, user) + MyTasks(b, user)
    decreases |b|
  {
    if |b| == 0 {
      assert a + b == a;
    } else {
      assert (a + b)[..|a + b| - 1] == a + b[..|b| - 1];
      MyTasksAppend(a, b[..|b| - 1], user);
    }
  }

  /** One more task at the end is kept exactly when it is assigned to the user. */
  lemma MyTasksSnoc(tasks: seq<Task>, t: Task, user: Employee)
    ensures MyTasks(tasks + [t], user) == if AssignedTo(t, user) then MyTasks(tasks, user) + [t] else MyTasks(tasks, user)
  {
    assert (tasks + [t])[..|tasks|] == tasks;
  }

  /** The dropdown items for some tasks, in order. */
  function Picks(tasks: seq<Task>): (r: seq<Choice>)
    ensures |r| == |tasks|
    ensures forall i :: 0 <= i < |r| ==> r[i] == Pick(tasks[i])
  {
    if |tasks| == 0 then [] else Picks(tasks[..|tasks| - 1]) + [Pick(tasks[|tasks| - 1])]
  }

  /** The dropdown over one more task gains that task exactly when it is assigned to the user. */
  lemma DropdownStep(tasks: seq<Task>, i: nat, user: Employee)
    requires i < |tasks|
    ensures [Placeholder] + Picks(MyTasks(tasks[..i + 1], user)) ==
      [Placeholder] + Picks(MyTasks(tasks[..i], user)) +
      (if AssignedTo(tasks[i], user) then [Pick(tasks[i])] else [])
  {
    var t := tasks[i];
    var before := MyTasks(tasks[..i], user);
    assert tasks[..i + 1] == tasks[..i] + [t];
    MyTasksSnoc(tasks[..i], t, user);
    if AssignedTo(t, user) {
      assert (before + [t])[..|before|] == before;
      assert Picks(before + [t]) == Picks(before) + [Pick(t)];
    }
  }

  /**
   * The loop of refreshData over the tasks: the placeholder, then each
   * task assigned to the user, directly or through its group, in order.
   */
  method DropdownItems(tasks: seq<Task>, user: Employee) returns (items: seq<Choice>)
    ensures items == [Placeholder] + Picks(MyTasks(tasks, user))
  {
    items := [Placeholder];
    for i := 0 to |tasks|
      invariant items == [Placeholder] + Picks(MyTasks(tasks[..i], user))
    {
      var t := tasks[i];
      var isAssignedDirectly := t.assignee != null && t.assignee == user;
      var isAssignedToGroup := t.group != null && user in t.group.members;
      DropdownStep(tasks, i, user);
      if isAssignedDirectly || isAssignedToGroup {
        items := items + [Pick(t)];
      }
    }
    assert tasks[..|tasks|] == tasks;
  }

  class LaborerPanel {
    /** The items of the update-status box. */
    var statusBox: seq<TaskStatus>
    /** The items of the task dropdown. */
    var taskDropdown: seq<Choice>
    /** Set while the dropdown is being rebuilt. */
    var updatingTaskDropdown: bool

    /** The panel is built empty and then refreshed. */
    constructor (tc: TaskController, currentUser: Employee?)
      ensures statusBox == tc.statuses
      ensures currentUser == null ==> taskDropdown == [Placeholder]
      ensures currentUser != null ==> taskDropdown == [Placeholder] + Picks(MyTasks(tc.tasks, currentUser))
      ensures !updatingTaskDropdown
    {
      statusBox := [];
      taskDropdown := [];
      updatingTaskDropdown := false;
      new;
      RefreshData(tc, currentUser);
    }

    /**
     * refreshData: the status box is filled from the controller only
     * while it is empty; the dropdown becomes the placeholder followed by
     * the user's tasks in list order, or the placeholder alone with no
     * user; the flag is clear again at the end.
     */
    method RefreshData(tc: TaskController, currentUser: Employee?)
      modifies this
      ensures statusBox == if old(statusBox) == [] then tc.statuses else old(statusBox)
      ensures currentUser == null ==> taskDropdown == [Placeholder]
      ensures currentUser != null ==> taskDropdown == [Placeholder] + Picks(MyTasks(tc.tasks, currentUser))
      ensures !updatingTaskDropdown
    {
      updatingTaskDropdown := true;
      if statusBox == [] {
        statusBox := tc.statuses;
      }
      var items := [Placeholder];
      if currentUser != null {
        items := DropdownItems(tc.tasks, currentUser);
      }
      taskDropdown := items;
      updatingTaskDropdown := false;
    }

    /**
     * handleUpdateStatus: with no selection, the placeholder selected or
     * no status chosen, nothing changes; otherwise the selected task, and
     * no other object, takes the chosen status.
     */
    method HandleUpdateStatus(selected: Option<Choice>, newStatus: Option<TaskStatus>)
      modifies if selected.Some? && selected.value.Pick? then {selected.value.task} else {}
      ensures selected.Some? && selected.value.Pick? ==>
        var t := selected.value.task;
        t.assignee == old(t.assignee) && t.group == old(t.group) &&
        t.status == if newStatus.Some? then newStatus else old(t.status)
    {
      if selected.None? || selected.value.Placeholder? {
        return;
      }
      if newStatus.None? {
        return;
      }
      selected.value.task.SetStatus(newStatus);
    }
  }
}

/**
 * The model the manager dashboard keeps to itself
 * (src/view/panels/ManagerPanel.java), apart from the shared controllers:
 * status names in a list, groups of usernames in a name-keyed map with a
 * protected Admins group, and tasks numbered by a counter whose single
 * assignee is a username or "group:" and a group name. Each button
 * listener is a method; what the user selected or typed, and the answer
 * to the confirmation dialog, are its parameters.
 */
module ManagerDashboard {
  import opened Wrappers
  import opened Strings
  import opened Lists
  import Order
  import opened EmployeeDirectory

  /** The statuses the panel starts with, in order. */
  const DefaultStatuses: seq<string> := ["Open", "In-Progress", "Complete"]
  /** The group the panel starts with, which cannot be deleted. */
  const AdminsName: string := "Admins"
  /** What a group assignment writes in front of the group name. */
  const GroupPrefix: string := "group:"

  /** The panel's own task: id, title and description are set once. */
  class Task {
    const id: int
    const title: string
    const description: string
    /** A username, "group:" and a group name, or "" for unassigned. */
    var assignee: string
    var status: string

    constructor (id: int, title: string, description: string, assignee: string, status: string)
      ensures this.id == id && this.title == title && this.description == description
      ensures this.assignee == assignee && this.status == status
    {
      this.id := id;
      this.title := title;
      this.description := description;
      this.assignee := assignee;
      this.status := status;
    }
  }

  /** The panel's own group: a name and a sorted set of usernames. */
  class Group {
    const name: string
    var members: set<string>

    constructor (name: string)
      ensures this.name == name && members == {}
    {
      this.name := name;
      members := {};
    }
  }

  // ---------------------------------------------------------------------
  // The task id counter
  // ---------------------------------------------------------------------

  /** nextTaskId++ on a Java int: one more, and the largest int wraps to the smallest. */
  function Inc32(n: int): (r: int)
    requires IsInt32(n)
    ensures IsInt32(r)
    ensures r == (n - MinInt32 + 1) % 0x1_0000_0000 + MinInt32
    ensures n < MaxInt32 ==> r == n + 1
    ensures n == MaxInt32 ==> r == MinInt32
  {
    if n == MaxInt32 then MinInt32 else n + 1
  }

  // ---------------------------------------------------------------------
  // Next Status and Mark Complete
  // ---------------------------------------------------------------------

  /**
   * The status Next Status moves a task to: the one after its current
   * status, the last wrapping to the first, and statuses[1 % n] when the
   * current status is not in the list. None when the list is empty, where
   * the source divides by zero and the task keeps its status.
   */
  function NextStatusName(statuses: seq<string>, current: string): (r: Option<string>)
    ensures r.None? <==> |statuses| == 0
    ensures r.Some? ==> r.value in statuses
  {
    if |statuses| == 0 then None
    else
      var found := IndexOf(statuses, current);
      var idx := if found < 0 then 0 else found;
      Some(statuses[(idx + 1) % |statuses|])
  }

  /** With i a position of a list of length n, (i + 1) % n is the next position, or 0 after the last. */
  lemma SuccMod(i: int, n: int)
    requires 0 <= i < n
    ensures (i + 1) % n == if i + 1 < n then i + 1 else 0
  {
    if i + 1 == n {
      assert (i + 1) % n == 0;
    }
  }

  /** A status at position i moves to position i + 1, and the last one to position 0. */
  lemma NextStatusAdvances(statuses: seq<string>, i: nat)
    requires Distinct(statuses) && i < |statuses|
    ensures NextStatusName(statuses, statuses[i]) ==
      Some(statuses[if i + 1 < |statuses| then i + 1 else 0])
  {
    IndexOfDistinct(statuses, i);
    SuccMod(i, |statuses|);
  }

  /** The last status moves to the first. */
  lemma NextStatusWraps(statuses: seq<string>)
    requires Distinct(statuses) && |statuses| > 0
    ensures NextStatusName(statuses, statuses[|statuses| - 1]) == Some(statuses[0])
  {
    NextStatusAdvances(statuses, |statuses| - 1);
  }

  /** A status that is no longer in the list is treated as the first, so it moves to the second. */
  lemma NextStatusOfUnknown(statuses: seq<string>, current: string)
    requires current !in statuses && |statuses| > 0
    ensures NextStatusName(statuses, current) == Some(statuses[1 % |statuses|])
  {
  }

  /** Pressing Next Status k times, starting from current. */
  function StatusAfterSteps(statuses: seq<string>, current: string, k: nat): string
    requires |statuses| > 0
  {
    if k == 0 then current else NextStatusName(statuses, StatusAfterSteps(statuses, current, k - 1)).value
  }

  /** From position i, k presses, at most one round, reach position i + k, counted round the end. */
  lemma {:induction false} StepsAdvance(statuses: seq<string>, i: nat, k: nat)
    requires Distinct(statuses) && i < |statuses| && k <= |statuses|
    ensures StatusAfterSteps(statuses, statuses[i], k) ==
      statuses[if i + k < |statuses| then i + k else i + k - |statuses|]
  {
    if k > 0 {
      var n := |statuses|;
      var p := if i + k - 1 < n then i + k - 1 else i + k - 1 - n;
      StepsAdvance(statuses, i, k - 1);
      assert StatusAfterSteps(statuses, statuses[i], k - 1) == statuses[p];
      NextStatusAdvances(statuses, p);
      assert StatusAfterSteps(statuses, statuses[i], k) == NextStatusName(statuses, statuses[p]).value;
    }
  }

  /** Over a list without repetitions, as many presses as there are statuses come back to the start. */
  lemma CycleReturns(statuses: seq<string>, i: nat)
    requires Distinct(statuses) && i < |statuses|
    ensures StatusAfterSteps(statuses, statuses[i], |statuses|) == statuses[i]
  {
    StepsAdvance(statuses, i, |statuses|);
  }

  /**
   * The status Mark Complete sets: "Complete" when the list holds it,
   * otherwise the last status. None when the list is empty, where the
   * source indexes at -1 and the task keeps its status.
   */
  function CompletionStatus(statuses: seq<string>): (r: Option<string>)
    ensures r.None? <==> |statuses| == 0
    ensures r.Some? ==> r.value in statuses
    ensures r.Some? ==> r.value == "Complete" || ("Complete" !in statuses && r.value == statuses[|statuses| - 1])
  {
    if "Complete" in statuses then Some("Complete")
    else if |statuses| == 0 then None
    else Some(statuses[|statuses| - 1])
  }

  /** On the default list, Complete is both the named status and the last one. */
  lemma CompletionOfDefaults()
    ensures CompletionStatus(DefaultStatuses) == Some(DefaultStatuses[|DefaultStatuses| - 1])
  {
    assert "Complete" in DefaultStatuses by {
      assert DefaultStatuses[2] == "Complete";
    }
  }

  /** A completed task stays put under Next Status only when Complete is the sole status. */
  lemma CompleteIsFinalOnlyAlone(statuses: seq<string>)
    requires Distinct(statuses) && "Complete" in statuses
    ensures NextStatusName(statuses, "Complete") == Some("Complete") <==> statuses == ["Complete"]
  {
    var i := IndexOf(statuses, "Complete");
    NextStatusAdvances(statuses, i);
    var n := |statuses|;
    if n > 1 {
      var j := if i + 1 < n then i + 1 else 0;
      assert statuses[j] != statuses[i];
    } else {
      assert statuses == [statuses[0]];
    }
  }

  // ---------------------------------------------------------------------
  // Add and Remove status
  // ---------------------------------------------------------------------

  /**
   * The list after Add status: the trimmed text appended unless it is
   * empty or already in the list, compared exactly.
   */
  function AddedStatuses(statuses: seq<string>, text: string): seq<string> {
    var s := Trim(text);
    if s == "" || s in statuses then statuses else statuses + [s]
  }

  /**
   * Add status keeps a list without repetitions so, and afterwards the
   * list holds exactly the old names and the non-empty trimmed text.
   */
  lemma AddedStatusesDistinct(statuses: seq<string>, text: string)
    requires Distinct(statuses)
    ensures Distinct(AddedStatuses(statuses, text))
    ensures forall x :: x in AddedStatuses(statuses, text) <==>
      x in statuses || (x == Trim(text) && Trim(text) != "")
  {
    var s := Trim(text);
    if s != "" && s !in statuses {
      var r := statuses + [s];
      forall i, j | 0 <= i < j < |r|
        ensures r[i] != r[j]
      {
        if j == |statuses| {
          assert r[i] in statuses;
        }
      }
    }
  }

  /** Adding the same text twice is adding it once. */
  lemma AddStatusIdempotent(statuses: seq<string>, text: string)
    ensures AddedStatuses(AddedStatuses(statuses, text), text) == AddedStatuses(statuses, text)
  {
    var s := Trim(text);
    if s != "" && s !in statuses {
      assert s in statuses + [s];
    }
  }

  /** The default statuses, which removal asks to confirm; matched ignoring case. */
  predicate IsDefaultStatus(s: string) {
    EqualsIgnoreCase(s, "Open") || EqualsIgnoreCase(s, "In-Progress") || EqualsIgnoreCase(s, "Complete")
  }

  /**
   * The list after Remove status: with nothing selected, or with a default
   * selected and the dialog declined, it is unchanged; otherwise the first
   * occurrence of the selection is taken out.
   */
  function RemovedStatuses(statuses: seq<string>, selected: Option<string>, confirmed: bool): (r: seq<string>)
    ensures selected.None? || (IsDefaultStatus(selected.value) && !confirmed) ==> r == statuses
    ensures selected.Some? && (!IsDefaultStatus(selected.value) || confirmed) ==>
      multiset(r) == multiset(statuses) - multiset{selected.value}
    ensures selected.Some? && (!IsDefaultStatus(selected.value) || confirmed) && selected.value in statuses ==>
      exists i :: 0 <= i < |statuses| && statuses[i] == selected.value && selected.value !in statuses[..i] &&
        r == statuses[..i] + statuses[i + 1..]
  {
    match selected
    case None => statuses
    case Some(s) => if IsDefaultStatus(s) && !confirmed then statuses else RemoveFirst(statuses, s)
  }

  /**
   * On a list without repetitions, a removal that goes ahead leaves every
   * other name and no trace of the selection, and no repetition.
   */
  lemma RemovedStatusesDistinct(statuses: seq<string>, selected: Option<string>, confirmed: bool)
    requires Distinct(statuses)
    ensures Distinct(RemovedStatuses(statuses, selected, confirmed))
    ensures selected.Some? && (!IsDefaultStatus(selected.value) || confirmed) ==>
      forall x :: x in RemovedStatuses(statuses, selected, confirmed) <==> x in statuses && x != selected.value
  {
    if selected.Some? {
      RemoveFirstDistinct(statuses, selected.value);
    }
  }

  /** A status that is not one of the defaults needs no confirmation. */
  lemma CustomStatusRemovedUnconfirmed(statuses: seq<string>, s: string)
    requires !IsDefaultStatus(s)
    ensures RemovedStatuses(statuses, Some(s), false) == RemovedStatuses(statuses, Some(s), true)
  {
  }

  // ---------------------------------------------------------------------
  // The panel
  // ---------------------------------------------------------------------

  class ManagerPanel {
    /** The employee list: the usernames of the directory, sorted. */
    var employeeNames: seq<string>
    /** The task list, in creation order. */
    var tasks: seq<Task>
    var statuses: seq<string>
    /** The TreeMap of groups, keyed by group name. */
    var groups: map<string, Group>
    var nextTaskId: int

    /**
     * Admins is always a group, every group sits under its own name, no
     * status name repeats and the counter is a Java int.
     */
    ghost predicate Valid()
      reads this
    {
      AdminsName in groups &&
      (forall k :: k in groups ==> groups[k].name == k) &&
      Distinct(statuses) &&
      IsInt32(nextTaskId)
    }

    /**
     * Task ids strictly increase along the list and stay below the
     * counter. Create Task keeps this as long as the counter does not wrap.
     */
    ghost predicate IdsIncreasing()
      reads this
    {
      (forall i, j :: 0 <= i < j < |tasks| ==> tasks[i].id < tasks[j].id) &&
      (forall i :: 0 <= i < |tasks| ==> tasks[i].id < nextTaskId)
    }

    /**
     * initModels, then the employee list: the default statuses, an empty
     * Admins group, no tasks and the counter at 1.
     */
    constructor (directory: EmployeeController?)
      ensures Valid() && IdsIncreasing()
      ensures statuses == DefaultStatuses && tasks == [] && nextTaskId == 1
      ensures groups.Keys == {AdminsName} && fresh(groups[AdminsName]) && groups[AdminsName].members == {}
      ensures directory == null ==> employeeNames == []
      ensures directory != null ==>
        Order.StrictlySorted(employeeNames) && |employeeNames| == |directory.employees| &&
        forall u :: u in employeeNames <==> u in directory.employees
    {
      var admins := new Group(AdminsName);
      statuses := DefaultStatuses;
      groups := map[AdminsName := admins];
      tasks := [];
      nextTaskId := 1;
      employeeNames := [];
      new;
      LoadEmployees(directory);
    }

    /**
     * loadEmployeesFromController: the list is cleared, then filled with
     * the usernames of the directory in ascending order; with no
     * controller it stays empty.
     */
    method LoadEmployees(directory: EmployeeController?)
      modifies this`employeeNames
      ensures directory == null ==> employeeNames == []
      ensures directory != null ==>
        Order.StrictlySorted(employeeNames) && |employeeNames| == |directory.employees| &&
        forall u :: u in employeeNames <==> u in directory.employees
    {
      employeeNames := [];
      if directory == null {
        return;
      }
      employeeNames := Order.SortedKeys(directory.employees);
    }

    /**
     * Create Task: an empty trimmed title changes nothing. Otherwise a task
     * with the counter's id, the trimmed texts and the selected status (or
     * "Open" when none is selected) is appended, and the counter advances.
     */
    method CreateTask(titleText: string, descText: string, assigneeText: string, selectedStatus: Option<string>)
      requires Valid()
      modifies this`tasks, this`nextTaskId
      ensures Valid()
      ensures Trim(titleText) == "" ==> tasks == old(tasks) && nextTaskId == old(nextTaskId)
      ensures Trim(titleText) != "" ==>
        |tasks| == |old(tasks)| + 1 && tasks[..|old(tasks)|] == old(tasks) &&
        fresh(tasks[|tasks| - 1]) &&
        tasks[|tasks| - 1].id == old(nextTaskId) &&
        tasks[|tasks| - 1].title == Trim(titleText) &&
        tasks[|tasks| - 1].description == Trim(descText) &&
        tasks[|tasks| - 1].assignee == Trim(assigneeText) &&
        tasks[|tasks| - 1].status == (if selectedStatus.None? then "Open" else selectedStatus.value) &&
        nextTaskId == Inc32(old(nextTaskId))
      ensures old(IdsIncreasing()) && old(nextTaskId) < MaxInt32 ==> IdsIncreasing()
    {
      var title := Trim(titleText);
      var desc := Trim(descText);
      var assignee := Trim(assigneeText);
      if title == "" {
        return;
      }
      var status := if selectedStatus.None? then "Open" else selectedStatus.value;
      var t := new Task(nextTaskId, title, desc, assignee, status);
      nextTaskId := Inc32(nextTaskId);
      tasks := tasks + [t];
    }

    /** Next Status: the selected task moves to NextStatusName of its status. */
    method NextStatus(sel: Task?)
      modifies sel
      ensures sel != null ==> sel.assignee == old(sel.assignee)
      ensures sel != null && |statuses| > 0 ==> sel.status == NextStatusName(statuses, old(sel.status)).value
      ensures sel != null && |statuses| == 0 ==> sel.status == old(sel.status)
    {
      if sel == null {
        return;
      }
      var idx := IndexOf(statuses, sel.status);
      if idx < 0 {
        idx := 0;
      }
      if |statuses| == 0 {
        return;
      }
      idx := (idx + 1) % |statuses|;
      sel.status := statuses[idx];
    }

    /** Mark Complete: the selected task takes CompletionStatus of the list. */
    method MarkComplete(sel: Task?)
      modifies sel
      ensures sel != null ==> sel.assignee == old(sel.assignee)
      ensures sel != null && |statuses| > 0 ==> sel.status == CompletionStatus(statuses).value
      ensures sel != null && |statuses| == 0 ==> sel.status == old(sel.status)
    {
      if sel == null {
        return;
      }
      if "Complete" in statuses {
        sel.status := "Complete";
      } else if |statuses| > 0 {
        sel.status := statuses[|statuses| - 1];
      }
    }

    /** Assign to employee: the selected username replaces the assignee. */
    method AssignToEmployee(selTask: Task?, selEmployee: Option<string>)
      modifies selTask
      ensures selTask != null ==> selTask.status == old(selTask.status)
      ensures selTask != null && selEmployee.Some? ==> selTask.assignee == selEmployee.value
      ensures selTask != null && selEmployee.None? ==> selTask.assignee == old(selTask.assignee)
    {
      if selTask == null || selEmployee.None? {
        return;
      }
      selTask.assignee := selEmployee.value;
    }

    /** Assign to group: "group:" and the group name replace the assignee. */
    method AssignToGroup(selTask: Task?, selGroup: Group?)
      modifies selTask
      ensures selTask != null ==> selTask.status == old(selTask.status)
      ensures selTask != null && selGroup != null ==>
        selTask.assignee == GroupPrefix + selGroup.name &&
        selTask.assignee[..|GroupPrefix|] == GroupPrefix && selTask.assignee[|GroupPrefix|..] == selGroup.name
      ensures selTask != null && selGroup == null ==> selTask.assignee == old(selTask.assignee)
    {
      if selTask == null || selGroup == null {
        return;
      }
      selTask.assignee := GroupPrefix + selGroup.name;
    }

    /** Add status: the list becomes AddedStatuses of the typed text. */
    method AddStatus(text: string)
      requires Valid()
      modifies this`statuses
      ensures Valid()
      ensures statuses == AddedStatuses(old(statuses), text)
    {
      var s := Trim(text);
      if s == "" {
        return;
      }
      if s !in statuses {
        AddedStatusesDistinct(statuses, text);
        statuses := statuses + [s];
      }
    }

    /** Remove status: the list becomes RemovedStatuses of the selection and the dialog's answer. */
    method RemoveStatus(selected: Option<string>, confirmed: bool)
      requires Valid()
      modifies this`statuses
      ensures Valid()
      ensures statuses == RemovedStatuses(old(statuses), selected, confirmed)
    {
      if selected.None? {
        return;
      }
      var sel := selected.value;
      if IsDefaultStatus(sel) {
        if !confirmed {
          return;
        }
      }
      RemovedStatusesDistinct(statuses, selected, confirmed);
      ghost var after := RemovedStatuses(statuses, selected, confirmed);
      assert after == RemoveFirst(statuses, sel);
      statuses := RemoveFirst(statuses, sel);
    }

    /**
     * Create Group: a non-empty trimmed name that is not yet a group gets a
     * new group without members; an empty or existing name changes nothing.
     */
    method CreateGroup(text: string)
      requires Valid()
      modifies this`groups
      ensures Valid()
      ensures var name := Trim(text);
        if name == "" || name in old(groups) then groups == old(groups)
        else name in groups && fresh(groups[name]) && groups[name].members == {} &&
             groups == old(groups)[name := groups[name]]
    {
      var name := Trim(text);
      if name == "" {
        return;
      }
      if name in groups {
        return;
      }
      var g := new Group(name);
      groups := groups[name := g];
    }

    /** Delete Group: the selected group's name is removed, unless it is Admins. */
    method DeleteGroup(sel: Group?)
      requires Valid()
      modifies this`groups
      ensures Valid()
      ensures groups[AdminsName] == old(groups[AdminsName])
      ensures sel == null || sel.name == AdminsName ==> groups == old(groups)
      ensures sel != null && sel.name != AdminsName ==> groups == old(groups) - {sel.name}
    {
      if sel == null {
        return;
      }
      if sel.name == AdminsName {
        return;
      }
      groups := groups - {sel.name};
    }

    /** Add Selected Employee: the username joins the selected group; a member already there stays once. */
    method AddMember(sel: Group?, emp: Option<string>)
      modifies sel
      ensures sel != null && emp.Some? ==> sel.members == old(sel.members) + {emp.value}
      ensures sel != null && emp.None? ==> sel.members == old(sel.members)
    {
      if sel == null || emp.None? {
        return;
      }
      if emp.value !in sel.members {
        sel.members := sel.members + {emp.value};
      }
    }

    /** Remove Selected Employee: the username leaves the selected group, if it was there. */
    method RemoveMember(sel: Group?, emp: Option<string>)
      modifies sel
      ensures sel != null && emp.Some? ==> sel.members == old(sel.members) - {emp.value}
      ensures sel != null && emp.None? ==> sel.members == old(sel.members)
    {
      if sel == null || emp.None? {
        return;
      }
      sel.members := sel.members - {emp.value};
    }

    /** Add selected emp -> Admins: the username joins Admins; one already there stays once. */
    method PromoteToAdmins(emp: Option<string>)
      requires Valid()
      modifies groups[AdminsName]
      ensures emp.Some? ==> groups[AdminsName].members == old(groups[AdminsName].members) + {emp.value}
      ensures emp.None? ==> groups[AdminsName].members == old(groups[AdminsName].members)
    {
      if emp.None? {
        return;
      }
      var admins := groups[AdminsName];
      if emp.value !in admins.members {
        admins.members := admins.members + {emp.value};
      }
    }
  }
}

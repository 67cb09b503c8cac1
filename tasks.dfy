/**
 * A task of the shared model (src/model/Task.java): a title and a
 * description fixed at construction, and three fields that setters replace
 * one at a time. Nothing keeps the assignee and the group exclusive.
 */
module Tasks {
  import opened Wrappers
  import opened Employees
  import opened Groups

  /**
   * A task status; only its name is used. TaskStatus.java is not part of
   * this model, so a status is the value of its name.
   */
  datatype TaskStatus = TaskStatus(name: string)

  class Task {
    const title: string
    const description: string
    /** The employee the task is assigned to, or null. */
    var assignee: Employee?
    /** The group the task is assigned to, or null. */
    var group: Group?
    /** The status; None stands for a null status. */
    var status: Option<TaskStatus>

    /** A new task has the given title, description and status, and no assignee or group. */
    constructor (title: string, description: string, status: Option<TaskStatus>)
      ensures this.title == title && this.description == description && this.status == status
      ensures assignee == null && group == null
    {
      this.title := title;
      this.description := description;
      this.status := status;
      assignee := null;
      group := null;
    }

    /** assignEmployee: only the assignee changes. */
    method AssignEmployee(e: Employee?)
      modifies this`assignee
      ensures assignee == e
      ensures group == old(group) && status == old(status)
    {
      assignee := e;
    }

    /** assignGroup: only the group changes; an assignee already set stays. */
    method AssignGroup(g: Group?)
      modifies this`group
      ensures group == g
      ensures assignee == old(assignee) && status == old(status)
    {
      group := g;
    }

    /** setStatus: only the status changes. */
    method SetStatus(s: Option<TaskStatus>)
      modifies this`status
      ensures status == s
      ensures assignee == old(assignee) && group == old(group)
    {
      status := s;
    }

    /**
     * toString: the title, then the status name in parentheses. A null
     * status makes the source throw, so a status is required.
     */
    function ToString(): (s: string)
      reads this
      requires status.Some?
      ensures |s| == |title| + |status.value.name| + 3
      ensures s[..|title|] == title
      ensures s[|title|..|title| + 2] == " ("
      ensures s[|title| + 2..|s| - 1] == status.value.name
      ensures s[|s| - 1] == ')'
    {
      title + " (" + status.value.name + ")"
    }
  }
}

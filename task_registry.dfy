/**
 * The shared task store (src/controller/TaskController.java): a list of
 * tasks and a list of statuses, both only ever appended to.
 */
module TaskRegistry {
  import opened Wrappers
  import opened Tasks

  /** The three statuses every controller starts with, in order. */
  const DefaultStatuses: seq<TaskStatus> :=
    [TaskStatus("Open"), TaskStatus("In-Progress"), TaskStatus("Complete")]

  class TaskController {
    /** getTasks(): in creation order. */
    var tasks: seq<Task>
    /** getStatuses(): the defaults, then each added status in turn. */
    var statuses: seq<TaskStatus>

    /** The statuses start as Open, In-Progress, Complete; there are no tasks. */
    constructor ()
      ensures statuses == DefaultStatuses
      ensures tasks == []
    {
      statuses := DefaultStatuses;
      tasks := [];
    }

    /**
     * createTask: a new task, with no assignee and no group, appended at
     * the end and returned. The earlier tasks and the statuses stay.
     */
    method CreateTask(title: string, desc: string, status: Option<TaskStatus>) returns (t: Task)
      modifies this
      ensures fresh(t)
      ensures t.title == title && t.description == desc && t.status == status
      ensures t.assignee == null && t.group == null
      ensures tasks == old(tasks) + [t]
      ensures statuses == old(statuses)
    {
      t := new Task(title, desc, status);
      tasks := tasks + [t];
    }

    /**
     * addStatus: a status with the given name appended at the end and
     * returned, even when one with that name is already there.
     */
    method AddStatus(name: string) returns (s: TaskStatus)
      modifies this
      ensures s.name == name
      ensures statuses == old(statuses) + [s]
      ensures tasks == old(tasks)
    {
      s := TaskStatus(name);
      statuses := statuses + [s];
    }
  }
}

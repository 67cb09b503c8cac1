/**
 * A named group of employees (src/model/Group.java). The name is fixed at
 * construction, since setName does nothing; the member list only grows by
 * appending and may hold the same employee more than once.
 */
module Groups {
  import opened Employees

  class Group {
    /** getName() and toString() both return this. */
    const name: string
    /** getMembers(): in the order they were added. */
    var members: seq<Employee>

    /** A new group has the given name and no members. */
    constructor (name: string)
      ensures this.name == name
      ensures members == []
    {
      this.name := name;
      members := [];
    }

    /** setName ignores its argument: nothing changes. */
    method SetName(name: string)
      ensures unchanged(this)
    {
    }

    /** addEmployee: e goes at the end, whether or not it is already a member. */
    method AddEmployee(e: Employee)
      modifies this
      ensures members == old(members) + [e]
      ensures |members| == |old(members)| + 1
    {
      members := members + [e];
    }
  }
}

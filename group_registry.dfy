/**
 * The shared group store (src/controller/GroupController.java): a list of
 * groups whose first entry is Admins, seeded with the managers.
 */
module GroupRegistry {
  import opened Employees
  import opened Groups
  import opened EmployeeDirectory

  class GroupController {
    /** getGroups(): Admins first, then each created group in turn. */
    var groups: seq<Group>

    /** Admins is at the head of the list; nothing removes it. */
    ghost predicate Valid()
      reads this
    {
      |groups| >= 1 && groups[0].name == "Admins"
    }

    /**
     * The list holds one group, Admins, whose members are the managers of
     * the directory in ascending username order. The frame's employee
     * controller is the parameter.
     */
    constructor (directory: EmployeeController)
      requires directory.Valid()
      ensures Valid()
      ensures |groups| == 1 && fresh(groups[0])
      ensures InUsernameOrder(groups[0].members, directory.managers)
    {
      var managers := directory.GetManagers();
      var admins := NewAdmins(managers);
      groups := [admins];
    }

    /** The loop of the constructor: a new Admins group, each manager added in turn. */
    static method NewAdmins(managers: seq<Employee>) returns (admins: Group)
      ensures fresh(admins) && admins.name == "Admins" && admins.members == managers
    {
      admins := new Group("Admins");
      for i := 0 to |managers|
        invariant admins.members == managers[..i]
      {
        admins.AddEmployee(managers[i]);
      }
      assert managers[..|managers|] == managers;
    }

    /**
     * createGroup: a new empty group with the given name appended and
     * returned, even when the name is taken; the earlier groups stay.
     */
    method CreateGroup(name: string) returns (g: Group)
      requires Valid()
      modifies this
      ensures Valid()
      ensures fresh(g) && g.name == name && g.members == []
      ensures groups == old(groups) + [g]
    {
      g := new Group(name);
      groups := groups + [g];
    }
  }
}

/**
 * An employee record (src/model/Employee.java). Every field is set once by
 * the constructor and there are no setters, so the fields are constants;
 * an employee is still an object, compared by reference wherever the code
 * uses equals or contains on it.
 */
module Employees {
  import Order

  /** The fourteen constructor arguments as one value. */
  datatype EmployeeRecord = EmployeeRecord(
    username: string, password: string, id: int,
    firstName: string, lastName: string,
    streetAddress: string, city: string, state: string, country: string,
    salary: string, hireDate: string, birthDate: string,
    department: string, role: string)

  class Employee {
    // The getters of the source are these constant fields.
    const username: string
    const password: string
    const id: int
    const firstName: string
    const lastName: string
    const streetAddress: string
    const city: string
    const state: string
    const country: string
    /** The salary column as text; its conversion to a double is not modelled. */
    const salary: string
    const hireDate: string
    const birthDate: string
    const department: string
    const role: string

    constructor (username: string, password: string, id: int, firstName: string, lastName: string,
                 streetAddress: string, city: string, state: string, country: string, salary: string,
                 hireDate: string, birthDate: string, department: string, role: string)
      ensures Record() == EmployeeRecord(username, password, id, firstName, lastName,
                                         streetAddress, city, state, country, salary,
                                         hireDate, birthDate, department, role)
    {
      this.username := username;
      this.password := password;
      this.id := id;
      this.firstName := firstName;
      this.lastName := lastName;
      this.streetAddress := streetAddress;
      this.city := city;
      this.state := state;
      this.country := country;
      this.salary := salary;
      this.hireDate := hireDate;
      this.birthDate := birthDate;
      this.department := department;
      this.role := role;
    }

    /** The values of all fields. */
    function Record(): EmployeeRecord {
      EmployeeRecord(username, password, id, firstName, lastName, streetAddress, city, state,
                     country, salary, hireDate, birthDate, department, role)
    }

    /**
     * compareTo: by username alone. Zero exactly when the usernames are
     * equal, negative exactly when this username comes first.
     */
    function CompareTo(other: Employee): (c: int)
      ensures c == 0 <==> username == other.username
      ensures c < 0 <==> Order.Less(username, other.username)
      ensures c == -Order.Compare(other.username, username)
    {
      Order.CompareAntisymmetric(username, other.username);
      Order.Compare(username, other.username)
    }

    /** toString: "first last - department". */
    function ToString(): (s: string)
      ensures |s| == |firstName| + |lastName| + |department| + 4
      ensures s[..|firstName|] == firstName
      ensures s[|firstName|] == ' '
      ensures s[|firstName| + 1..|firstName| + 1 + |lastName|] == lastName
      ensures s[|s| - |department| - 3..] == " - " + department
    {
      firstName + " " + lastName + " - " + department
    }
  }
}

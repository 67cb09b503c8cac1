/**
 * The employee directory (src/controller/EmployeeController.java): three
 * username-keyed maps filled from the lines of the employee CSV file, and
 * the login check over them. The file itself is replaced by its lines.
 */
module EmployeeDirectory {
  import opened Wrappers
  import opened Strings
  import Order
  import opened Employees

  /** The two roles the directory recognises. */
  datatype Role = Manager | Laborer

  /**
   * Manager when the role text equalsIgnoreCase "Manager", else Laborer
   * when it equalsIgnoreCase "Laborer", else neither. No text is both.
   */
  function Classify(role: string): Option<Role> {
    if EqualsIgnoreCase(role, "Manager") then Some(Manager)
    else if EqualsIgnoreCase(role, "Laborer") then Some(Laborer)
    else None
  }

  /** A role is Manager or Laborer exactly when it equalsIgnoreCase that name, and never both. */
  lemma ClassifyIgnoresCase(role: string)
    ensures Classify(role) == Some(Manager) <==> EqualsIgnoreCase(role, "Manager")
    ensures Classify(role) == Some(Laborer) <==> EqualsIgnoreCase(role, "Laborer")
  {
    assert EqualsIgnoreCase(role, "Manager") ==> ToUpperAscii(role[0]) == 'M';
    assert EqualsIgnoreCase(role, "Laborer") ==> ToUpperAscii(role[0]) == 'L';
  }

  // ---------------------------------------------------------------------
  // One line of the file
  // ---------------------------------------------------------------------

  /** safe(cols, i): column i trimmed; a column past the end of the row is "". */
  function Column(cols: seq<string>, i: nat): string {
    if i < |cols| then Trim(cols[i]) else ""
  }

  /** Username, password, first and last name, department and role, all non-empty. */
  predicate HasRequiredFields(cols: seq<string>) {
    Column(cols, 0) != "" && Column(cols, 1) != "" && Column(cols, 3) != "" &&
    Column(cols, 4) != "" && Column(cols, 12) != "" && Column(cols, 13) != ""
  }

  /** The record a data line yields; None when the line is skipped. */
  function ParseLine(line: string): Option<EmployeeRecord> {
    if Trim(line) == "" then None
    else
      var cols := Split(line);
      var username := Column(cols, 0);
      var password := Column(cols, 1);
      var firstName := Column(cols, 3);
      var lastName := Column(cols, 4);
      var department := Column(cols, 12);
      var role := Column(cols, 13);
      if username == "" || password == "" || firstName == "" || lastName == "" ||
         department == "" || role == "" then None
      else
        Some(EmployeeRecord(username, password, ParseIntSafe(Column(cols, 2)), firstName, lastName,
                            Column(cols, 5), Column(cols, 6), Column(cols, 7), Column(cols, 8),
                            Column(cols, 9), Column(cols, 10), Column(cols, 11), department, role))
  }

  /**
   * A line is admitted exactly when its six required columns are non-empty
   * once trimmed (a blank line never is), and the record holds the trimmed
   * columns, with the id parsed as an int.
   */
  lemma ParseLineAdmits(line: string)
    ensures ParseLine(line).Some? <==> HasRequiredFields(Split(line))
    ensures ParseLine(line).Some? ==>
      var r, cols := ParseLine(line).value, Split(line);
      r.username == Column(cols, 0) && r.password == Column(cols, 1) &&
      r.id == ParseIntSafe(Column(cols, 2)) &&
      r.firstName == Column(cols, 3) && r.lastName == Column(cols, 4) &&
      r.department == Column(cols, 12) && r.role == Column(cols, 13)
  {
    if Trim(line) == "" {
      BlankHasNoComma(line);
      SplitJoin([line]);
      assert Split(line) == [line];
    }
  }

  // ---------------------------------------------------------------------
  // The whole file
  // ---------------------------------------------------------------------

  /** What one data line contributes: its record, or nothing. */
  function LineRecords(line: string): seq<EmployeeRecord> {
    match ParseLine(line)
    case Some(r) => [r]
    case None => []
  }

  /** The records admitted from the data lines, in file order. */
  function Admitted(body: seq<string>): seq<EmployeeRecord> {
    if |body| == 0 then [] else Admitted(body[..|body| - 1]) + LineRecords(body[|body| - 1])
  }

  /** The first line is the header and is never read as a record. */
  function AdmittedFromFile(lines: seq<string>): seq<EmployeeRecord> {
    if |lines| == 0 then [] else Admitted(lines[1..])
  }

  /** Lines are handled one by one: the admitted records of a concatenation are concatenated. */
  lemma {:induction false} AdmittedAppend(a: seq<string>, b: seq<string>)
    ensures Admitted(a + b) == Admitted(a) + Admitted(b)
    decreases |b|
  {
    if |b| > 0 {
      var b' := b[..|b| - 1];
      assert (a + b)[..|a + b| - 1] == a + b';
      assert (a + b)[|a + b| - 1] == b[|b| - 1];
      AdmittedAppend(a, b');
    } else {
      assert a + b == a;
    }
  }

  /** A rejected line drops out and the lines after it still load. */
  lemma SkippedLineIsDropped(before: seq<string>, bad: string, after: seq<string>)
    requires ParseLine(bad).None?
    ensures Admitted(before + [bad] + after) == Admitted(before) + Admitted(after)
  {
    assert LineRecords(bad) == [];
    assert Admitted([bad]) == [] by {
      assert [bad][..0] == [];
    }
    AdmittedAppend(before, [bad]);
    assert Admitted(before + [bad]) == Admitted(before);
    AdmittedAppend(before + [bad], after);
  }

  /** Whatever the header says, it contributes nothing. */
  lemma HeaderIgnored(header1: string, header2: string, body: seq<string>)
    ensures AdmittedFromFile([header1] + body) == AdmittedFromFile([header2] + body) == Admitted(body)
  {
    assert ([header1] + body)[1..] == body;
    assert ([header2] + body)[1..] == body;
  }

  /** A record a line yields has all six required fields. */
  lemma LineRecordHasRequiredFields(line: string)
    ensures forall r :: r in LineRecords(line) ==>
      r.username != "" && r.password != "" && r.firstName != "" && r.lastName != "" &&
      r.department != "" && r.role != ""
  {
  }

  /** Every admitted record came from some data line, and has all required fields. */
  lemma {:induction false} AdmittedFromLines(body: seq<string>)
    ensures forall r :: r in Admitted(body) ==> exists k :: 0 <= k < |body| && r in LineRecords(body[k])
    ensures forall r :: r in Admitted(body) ==>
      r.username != "" && r.password != "" && r.firstName != "" && r.lastName != "" &&
      r.department != "" && r.role != ""
  {
    if |body| > 0 {
      var prefix := body[..|body| - 1];
      var last := body[|body| - 1];
      AdmittedFromLines(prefix);
      LineRecordHasRequiredFields(last);
      forall r | r in Admitted(body)
        ensures exists k :: 0 <= k < |body| && r in LineRecords(body[k])
      {
        if r in Admitted(prefix) {
          var k :| 0 <= k < |prefix| && r in LineRecords(prefix[k]);
          assert body[k] == prefix[k];
        } else {
          assert r in LineRecords(body[|body| - 1]);
        }
      }
    }
  }

  // ---------------------------------------------------------------------
  // The three indexes
  // ---------------------------------------------------------------------

  /** The records of the given role, in order. */
  function OfKind(rows: seq<EmployeeRecord>, kind: Role): (r: seq<EmployeeRecord>)
    ensures forall x :: x in r ==> x in rows && Classify(x.role) == Some(kind)
  {
    if |rows| == 0 then []
    else
      var last := rows[|rows| - 1];
      var prefix := OfKind(rows[..|rows| - 1], kind);
      if Classify(last.role) == Some(kind) then prefix + [last] else prefix
  }

  /** map.put(username, record) for each record in turn: a later record with the same username replaces an earlier one. */
  function PutAll(m: map<string, EmployeeRecord>, rows: seq<EmployeeRecord>): map<string, EmployeeRecord> {
    if |rows| == 0 then m
    else PutAll(m, rows[..|rows| - 1])[rows[|rows| - 1].username := rows[|rows| - 1]]
  }

  /** Loading a + b is loading a, then b. */
  lemma {:induction false} PutAllAppend(m: map<string, EmployeeRecord>, a: seq<EmployeeRecord>, b: seq<EmployeeRecord>)
    ensures PutAll(m, a + b) == PutAll(PutAll(m, a), b)
    decreases |b|
  {
    if |b| == 0 {
      assert a + b == a;
    } else {
      assert (a + b)[..|a + b| - 1] == a + b[..|b| - 1];
      PutAllAppend(m, a, b[..|b| - 1]);
    }
  }

  /** The records of one role in a + b are those of a, then those of b. */
  lemma {:induction false} OfKindAppend(a: seq<EmployeeRecord>, b: seq<EmployeeRecord>, kind: Role)
    ensures OfKind(a + b, kind) == OfKind(a, kind) + OfKind(b, kind)
    decreases |b|
  {
    if |b| == 0 {
      assert a + b == a;
    } else {
      assert (a + b)[..|a + b| - 1] == a + b[..|b| - 1];
      OfKindAppend(a, b[..|b| - 1], kind);
    }
  }

  /** The usernames of some records. */
  function Usernames(rows: seq<EmployeeRecord>): set<string> {
    set r | r in rows :: r.username
  }

  /** The keys after loading are the keys before and the loaded usernames. */
  lemma {:induction false} PutAllKeys(m: map<string, EmployeeRecord>, rows: seq<EmployeeRecord>)
    ensures PutAll(m, rows).Keys == m.Keys + Usernames(rows)
  {
    if |rows| > 0 {
      var prefix := rows[..|rows| - 1];
      PutAllKeys(m, prefix);
      assert rows == prefix + [rows[|rows| - 1]];
      assert Usernames(rows) == Usernames(prefix) + {rows[|rows| - 1].username};
    }
  }

  /** A username is bound to the last record that carries it. */
  lemma {:induction false} PutAllLastWins(m: map<string, EmployeeRecord>, rows: seq<EmployeeRecord>, j: nat)
    requires j < |rows|
    requires forall k :: j < k < |rows| ==> rows[k].username != rows[j].username
    ensures rows[j].username in PutAll(m, rows)
    ensures PutAll(m, rows)[rows[j].username] == rows[j]
  {
    if j < |rows| - 1 {
      PutAllLastWins(m, rows[..|rows| - 1], j);
    }
  }

  /** A username no record carries keeps its earlier binding. */
  lemma {:induction false} PutAllUntouched(m: map<string, EmployeeRecord>, rows: seq<EmployeeRecord>, u: string)
    requires u !in Usernames(rows)
    ensures u in PutAll(m, rows) <==> u in m
    ensures u in m ==> PutAll(m, rows)[u] == m[u]
  {
    if |rows| > 0 {
      var prefix := rows[..|rows| - 1];
      assert Usernames(prefix) <= Usernames(rows) by {
        forall x | x in Usernames(prefix) ensures x in Usernames(rows) {
          var r :| r in prefix && r.username == x;
          assert r in rows;
        }
      }
      assert rows[|rows| - 1] in rows;
      PutAllUntouched(m, prefix, u);
    }
  }

  /** The manager and laborer indexes only hold usernames the main index holds. */
  lemma SubIndexKeys(rows: seq<EmployeeRecord>, kind: Role)
    ensures PutAll(map[], OfKind(rows, kind)).Keys <= PutAll(map[], rows).Keys
  {
    PutAllKeys(map[], rows);
    PutAllKeys(map[], OfKind(rows, kind));
  }

  /**
   * With unique usernames no one is both a manager and a laborer. A
   * username that repeats can, as RepeatedUsernameInBothIndexes shows.
   */
  lemma ManagersAndLaborersDisjoint(rows: seq<EmployeeRecord>)
    requires forall i, j :: 0 <= i < j < |rows| ==> rows[i].username != rows[j].username
    ensures PutAll(map[], OfKind(rows, Manager)).Keys !! PutAll(map[], OfKind(rows, Laborer)).Keys
  {
    PutAllKeys(map[], OfKind(rows, Manager));
    PutAllKeys(map[], OfKind(rows, Laborer));
    forall u | u in Usernames(OfKind(rows, Manager))
      ensures u !in Usernames(OfKind(rows, Laborer))
    {
      var a :| a in OfKind(rows, Manager) && a.username == u;
      forall b | b in OfKind(rows, Laborer)
        ensures b.username != u
      {
        var i :| 0 <= i < |rows| && rows[i] == a;
        var j :| 0 <= j < |rows| && rows[j] == b;
        assert a != b;
        assert i != j;
      }
    }
  }

  /**
   * A manager row followed by a laborer row for the same username leaves the
   * username in both sub-indexes, while the main index holds the laborer.
   */
  lemma RepeatedUsernameInBothIndexes(a: EmployeeRecord, b: EmployeeRecord)
    requires a.username == b.username
    requires Classify(a.role) == Some(Manager) && Classify(b.role) == Some(Laborer)
    ensures a.username in PutAll(map[], OfKind([a, b], Manager))
    ensures a.username in PutAll(map[], OfKind([a, b], Laborer))
    ensures PutAll(map[], [a, b])[a.username] == b
  {
    assert [a, b][..1] == [a];
    assert [a][..0] == [];
  }

  // ---------------------------------------------------------------------
  // The controller
  // ---------------------------------------------------------------------

  /** The field values of the employees in an index. */
  function Records(m: map<string, Employee>): (r: map<string, EmployeeRecord>)
    ensures r.Keys == m.Keys
  {
    map u | u in m :: m[u].Record()
  }

  lemma RecordsPut(m: map<string, Employee>, u: string, e: Employee)
    ensures Records(m[u := e]) == Records(m)[u := e.Record()]
  {
  }

  /**
   * Employees of m, one for each key, in ascending username order: what
   * iterating the values of a TreeMap keyed by username yields.
   */
  ghost predicate InUsernameOrder(vals: seq<Employee>, m: map<string, Employee>) {
    |vals| == |m| &&
    (forall i :: 0 <= i < |vals| ==> vals[i].username in m && m[vals[i].username] == vals[i]) &&
    (forall i, j :: 0 <= i < j < |vals| ==> Order.Less(vals[i].username, vals[j].username)) &&
    (forall u :: u in m ==> m[u] in vals)
  }

  /** The employees of m listed key by key, the keys ascending, are in username order. */
  lemma ValuesInUsernameOrder(m: map<string, Employee>, keys: seq<string>, vals: seq<Employee>)
    requires forall u :: u in m ==> m[u].username == u
    requires Order.StrictlySorted(keys) && (forall k :: k in keys <==> k in m) && |keys| == |m|
    requires |vals| == |keys| && forall i :: 0 <= i < |keys| ==> vals[i] == m[keys[i]]
    ensures InUsernameOrder(vals, m)
  {
    forall u | u in m
      ensures m[u] in vals
    {
      var i :| 0 <= i < |keys| && keys[i] == u;
      assert vals[i] == m[u];
    }
  }

  /** Only one sequence lists a username-keyed index in username order. */
  lemma UsernameOrderUnique(v1: seq<Employee>, v2: seq<Employee>, m: map<string, Employee>)
    requires forall u :: u in m ==> m[u].username == u
    requires InUsernameOrder(v1, m) && InUsernameOrder(v2, m)
    ensures v1 == v2
  {
    var n1 := seq(|v1|, i requires 0 <= i < |v1| => v1[i].username);
    var n2 := seq(|v2|, i requires 0 <= i < |v2| => v2[i].username);
    forall x
      ensures x in n1 <==> x in n2
    {
      if x in n1 {
        var i :| 0 <= i < |n1| && n1[i] == x;
        var j :| 0 <= j < |v2| && v2[j] == m[x];
        assert n2[j] == x;
      }
      if x in n2 {
        var i :| 0 <= i < |n2| && n2[i] == x;
        var j :| 0 <= j < |v1| && v1[j] == m[x];
        assert n1[j] == x;
      }
    }
    Order.SortedUnique(n1, n2);
    forall i | 0 <= i < |v1|
      ensures v1[i] == v2[i]
    {
      assert n1[i] == n2[i];
    }
  }

  /** Every employee of m is filed under its own username. */
  ghost predicate KeyedByUsername(m: map<string, Employee>) {
    forall u :: u in m ==> m[u].username == u
  }

  /**
   * sub only holds employees of role kind whose username is in the main
   * index, each under its username, and every employee of the main index
   * with that role is the one sub holds.
   */
  ghost predicate SubIndexOf(employees: map<string, Employee>, sub: map<string, Employee>, kind: Role) {
    (forall u :: u in sub ==> u in employees && sub[u].username == u && Classify(sub[u].role) == Some(kind)) &&
    (forall u :: u in employees && Classify(employees[u].role) == Some(kind) ==> u in sub && sub[u] == employees[u])
  }

  /** The main index and its two sub-indexes, managers and laborers, agree. */
  ghost predicate Consistent(employees: map<string, Employee>, managers: map<string, Employee>,
                             laborers: map<string, Employee>)
  {
    KeyedByUsername(employees) && SubIndexOf(employees, managers, Manager) && SubIndexOf(employees, laborers, Laborer)
  }

  /** Putting an employee into the main index, and into sub when its role is kind, keeps sub a sub-index. */
  lemma PutKeepsSubIndex(employees: map<string, Employee>, sub: map<string, Employee>, e: Employee, kind: Role)
    requires SubIndexOf(employees, sub, kind)
    ensures SubIndexOf(employees[e.username := e], if Classify(e.role) == Some(kind) then sub[e.username := e] else sub, kind)
  {
    var E := employees[e.username := e];
    var S := if Classify(e.role) == Some(kind) then sub[e.username := e] else sub;
    forall u | u in S
      ensures u in E && S[u].username == u && Classify(S[u].role) == Some(kind)
    {
      if u != e.username {
        assert S[u] == sub[u];
      }
    }
    forall u | u in E && Classify(E[u].role) == Some(kind)
      ensures u in S && S[u] == E[u]
    {
      if u != e.username {
        assert E[u] == employees[u];
      }
    }
  }

  /** Putting one employee into the main index and, by role, into a sub-index keeps the indexes consistent. */
  lemma PutKeepsConsistent(employees: map<string, Employee>, managers: map<string, Employee>,
                           laborers: map<string, Employee>, e: Employee)
    requires Consistent(employees, managers, laborers)
    ensures Consistent(employees[e.username := e],
                       if Classify(e.role) == Some(Manager) then managers[e.username := e] else managers,
                       if Classify(e.role) == Some(Laborer) then laborers[e.username := e] else laborers)
  {
    PutKeepsSubIndex(employees, managers, e, Manager);
    PutKeepsSubIndex(employees, laborers, e, Laborer);
  }

  /** Loading one record puts it under its username, in every index its role selects. */
  lemma LoadOne(m: map<string, EmployeeRecord>, r: EmployeeRecord, kind: Role)
    ensures PutAll(m, [r]) == m[r.username := r]
    ensures OfKind([r], kind) == if Classify(r.role) == Some(kind) then [r] else []
  {
    assert [r][..0] == [];
  }

  /**
   * The field values after putting e, whose fields are r, in the main index
   * and by role in a sub-index: each index has loaded the single record r.
   */
  lemma PutRecords(E: map<string, Employee>, M: map<string, Employee>, L: map<string, Employee>,
                   e: Employee, r: EmployeeRecord)
    requires e.Record() == r
    ensures Records(E[e.username := e]) == PutAll(Records(E), [r])
    ensures Records(if Classify(e.role) == Some(Manager) then M[e.username := e] else M) ==
      PutAll(Records(M), OfKind([r], Manager))
    ensures Records(if Classify(e.role) == Some(Laborer) then L[e.username := e] else L) ==
      PutAll(Records(L), OfKind([r], Laborer))
  {
    LoadOne(Records(E), r, Manager);
    LoadOne(Records(M), r, Manager);
    LoadOne(Records(L), r, Laborer);
    RecordsPut(E, e.username, e);
    RecordsPut(M, e.username, e);
    RecordsPut(L, e.username, e);
  }

  /**
   * The three indexes hold, over the starting contents e0, m0 and l0, the
   * records of rows put in order: every row into E, the Manager rows into M
   * and the Laborer rows into L.
   */
  ghost predicate Loaded(e0: map<string, EmployeeRecord>, m0: map<string, EmployeeRecord>, l0: map<string, EmployeeRecord>,
                         E: map<string, Employee>, M: map<string, Employee>, L: map<string, Employee>,
                         rows: seq<EmployeeRecord>)
  {
    && Records(E) == PutAll(e0, rows)
    && Records(M) == PutAll(m0, OfKind(rows, Manager))
    && Records(L) == PutAll(l0, OfKind(rows, Laborer))
  }

  /** Putting more rows after the rows already loaded loads their concatenation. */
  lemma LoadedStep(e0: map<string, EmployeeRecord>, m0: map<string, EmployeeRecord>, l0: map<string, EmployeeRecord>,
                   E: map<string, Employee>, M: map<string, Employee>, L: map<string, Employee>,
                   E': map<string, Employee>, M': map<string, Employee>, L': map<string, Employee>,
                   done: seq<EmployeeRecord>, more: seq<EmployeeRecord>)
    requires Loaded(e0, m0, l0, E, M, L, done)
    requires Records(E') == PutAll(Records(E), more)
    requires Records(M') == PutAll(Records(M), OfKind(more, Manager))
    requires Records(L') == PutAll(Records(L), OfKind(more, Laborer))
    ensures Loaded(e0, m0, l0, E', M', L', done + more)
  {
    PutAllAppend(e0, done, more);
    OfKindAppend(done, more, Manager);
    OfKindAppend(done, more, Laborer);
    PutAllAppend(m0, OfKind(done, Manager), OfKind(more, Manager));
    PutAllAppend(l0, OfKind(done, Laborer), OfKind(more, Laborer));
  }

  /** Loading data line i after lines 1 to i - 1 have been loaded loads lines 1 to i. */
  lemma LoadedNextLine(e0: map<string, EmployeeRecord>, m0: map<string, EmployeeRecord>, l0: map<string, EmployeeRecord>,
                       E: map<string, Employee>, M: map<string, Employee>, L: map<string, Employee>,
                       E': map<string, Employee>, M': map<string, Employee>, L': map<string, Employee>,
                       lines: seq<string>, i: nat)
    requires 1 <= i < |lines|
    requires Loaded(e0, m0, l0, E, M, L, Admitted(lines[1..i]))
    requires Records(E') == PutAll(Records(E), LineRecords(lines[i]))
    requires Records(M') == PutAll(Records(M), OfKind(LineRecords(lines[i]), Manager))
    requires Records(L') == PutAll(Records(L), OfKind(LineRecords(lines[i]), Laborer))
    ensures Loaded(e0, m0, l0, E', M', L', Admitted(lines[1..i + 1]))
  {
    LoadedStep(e0, m0, l0, E, M, L, E', M', L', Admitted(lines[1..i]), LineRecords(lines[i]));
    AdmittedStep(lines, i);
  }

  /** The data lines read so far, one line further on. */
  lemma AdmittedStep(lines: seq<string>, i: nat)
    requires 1 <= i < |lines|
    ensures Admitted(lines[1..i + 1]) == Admitted(lines[1..i]) + LineRecords(lines[i])
  {
    var body := lines[1..i + 1];
    assert body[..|body| - 1] == lines[1..i];
    assert body[|body| - 1] == lines[i];
  }

  /** A line whose required columns are present yields the record of its trimmed columns. */
  lemma LineBuildsRecord(line: string)
    requires Trim(line) != ""
    requires HasRequiredFields(Split(line))
    ensures var cols := Split(line);
      LineRecords(line) ==
      [EmployeeRecord(Column(cols, 0), Column(cols, 1), ParseIntSafe(Column(cols, 2)),
                      Column(cols, 3), Column(cols, 4), Column(cols, 5), Column(cols, 6),
                      Column(cols, 7), Column(cols, 8), Column(cols, 9), Column(cols, 10),
                      Column(cols, 11), Column(cols, 12), Column(cols, 13))]
  {
  }

  /** A blank line or one that lacks a required column yields nothing. */
  lemma LineSkipped(line: string)
    requires Trim(line) == "" || !HasRequiredFields(Split(line))
    ensures LineRecords(line) == []
  {
  }

  class EmployeeController {
    var employees: map<string, Employee>
    /** The employees whose role is Manager; a subset of employees. */
    var managers: map<string, Employee>
    /** The employees whose role is Laborer; a subset of employees. */
    var laborers: map<string, Employee>

    /**
     * Every index is keyed by username, the sub-indexes only hold employees
     * of their role whose username is in the main index, and an employee of
     * the main index with a recognised role is the one its sub-index holds.
     */
    ghost predicate Valid()
      reads this
    {
      Consistent(employees, managers, laborers)
    }

    /** The controller loads the file once, into empty indexes. */
    constructor (lines: seq<string>)
      ensures Valid()
      ensures Records(employees) == PutAll(map[], AdmittedFromFile(lines))
      ensures Records(managers) == PutAll(map[], OfKind(AdmittedFromFile(lines), Manager))
      ensures Records(laborers) == PutAll(map[], OfKind(AdmittedFromFile(lines), Laborer))
    {
      employees, managers, laborers := map[], map[], map[];
      new;
      LoadEmployees(lines);
    }

    /**
     * One admitted employee: employees.put(username, e), then managers.put
     * or laborers.put when the role equalsIgnoreCase "Manager" or "Laborer".
     */
    method Put(e: Employee)
      requires Valid()
      modifies this
      ensures Valid()
      ensures employees == old(employees)[e.username := e]
      ensures managers == if Classify(e.role) == Some(Manager) then old(managers)[e.username := e] else old(managers)
      ensures laborers == if Classify(e.role) == Some(Laborer) then old(laborers)[e.username := e] else old(laborers)
    {
      PutKeepsConsistent(employees, managers, laborers, e);
      employees := employees[e.username := e];
      if EqualsIgnoreCase(e.role, "Manager") {
        managers := managers[e.username := e];
      } else if EqualsIgnoreCase(e.role, "Laborer") {
        laborers := laborers[e.username := e];
      }
    }

    /**
     * The body of the loop in loadEmployees, for one data line: a blank
     * line or one missing a required column is skipped; otherwise the
     * employee of the trimmed columns is put under its username.
     */
    method LoadLine(line: string)
      requires Valid()
      modifies this
      ensures Valid()
      ensures Records(employees) == PutAll(old(Records(employees)), LineRecords(line))
      ensures Records(managers) == PutAll(old(Records(managers)), OfKind(LineRecords(line), Manager))
      ensures Records(laborers) == PutAll(old(Records(laborers)), OfKind(LineRecords(line), Laborer))
    {
      var parsed := ParseLine(line);
      if parsed.None? {
        assert LineRecords(line) == [];
        return;
      }
      var r := parsed.value;
      assert LineRecords(line) == [r];
      var e := new Employee(r.username, r.password, r.id, r.firstName, r.lastName,
                            r.streetAddress, r.city, r.state, r.country, r.salary,
                            r.hireDate, r.birthDate, r.department, r.role);
      ghost var E, M, L := employees, managers, laborers;
      Put(e);
      PutRecords(E, M, L, e, r);
    }

    /**
     * loadEmployees over the lines of the file: the header is skipped, then
     * each admitted line is put into employees under its username and, by
     * role, into managers or laborers.
     */
    method LoadEmployees(lines: seq<string>)
      requires Valid()
      modifies this
      ensures Valid()
      ensures Records(employees) == PutAll(old(Records(employees)), AdmittedFromFile(lines))
      ensures Records(managers) == PutAll(old(Records(managers)), OfKind(AdmittedFromFile(lines), Manager))
      ensures Records(laborers) == PutAll(old(Records(laborers)), OfKind(AdmittedFromFile(lines), Laborer))
    {
      if |lines| == 0 {
        return;
      }
      ghost var e0, m0, l0 := Records(employees), Records(managers), Records(laborers);
      var i := 1;
      while i < |lines|
        invariant 1 <= i <= |lines|
        invariant Valid()
        invariant Loaded(e0, m0, l0, employees, managers, laborers, Admitted(lines[1..i]))
      {
        ghost var E, M, L := employees, managers, laborers;
        LoadLine(lines[i]);
        LoadedNextLine(e0, m0, l0, E, M, L, employees, managers, laborers, lines, i);
        i := i + 1;
      }
      assert lines[1..i] == lines[1..];
    }

    /**
     * validateLogin: -1 for an unknown username or a password that differs;
     * otherwise 0 for a Manager, 1 for a Laborer (any case), -1 for any
     * other role. It only reads the directory.
     */
    function ValidateLogin(username: string, password: string): (code: int)
      reads this
      ensures code in {-1, 0, 1}
      ensures code == 0 <==>
        username in employees && employees[username].password == password &&
        EqualsIgnoreCase(employees[username].role, "Manager")
      ensures code == 1 <==>
        username in employees && employees[username].password == password &&
        EqualsIgnoreCase(employees[username].role, "Laborer")
    {
      if username !in employees then -1
      else if employees[username].password != password then -1
      else
        ClassifyIgnoresCase(employees[username].role);
        match Classify(employees[username].role)
        case Some(Manager) => 0
        case Some(Laborer) => 1
        case None => -1
    }

    /** getManagers().values(): the managers in ascending username order. */
    method GetManagers() returns (vals: seq<Employee>)
      requires Valid()
      ensures InUsernameOrder(vals, managers)
    {
      var ms := managers;
      var keys := Order.SortedKeys(ms);
      vals := seq(|keys|, i requires 0 <= i < |keys| => ms[keys[i]]);
      ValuesInUsernameOrder(ms, keys, vals);
    }
  }

  /**
   * Logging in after a load answers from the last admitted line that
   * carries the username: 0 or 1 exactly when the password matches it and
   * its role is Manager or Laborer.
   */
  lemma LoginAfterLoad(c: EmployeeController, lines: seq<string>, j: nat, password: string)
    requires Records(c.employees) == PutAll(map[], AdmittedFromFile(lines))
    requires j < |AdmittedFromFile(lines)|
    requires forall k :: j < k < |AdmittedFromFile(lines)| ==>
      AdmittedFromFile(lines)[k].username != AdmittedFromFile(lines)[j].username
    ensures var r := AdmittedFromFile(lines)[j];
      (c.ValidateLogin(r.username, password) == 0 <==>
         password == r.password && EqualsIgnoreCase(r.role, "Manager")) &&
      (c.ValidateLogin(r.username, password) == 1 <==>
         password == r.password && EqualsIgnoreCase(r.role, "Laborer"))
  {
    var rows := AdmittedFromFile(lines);
    PutAllLastWins(map[], rows, j);
    assert c.employees[rows[j].username].Record() == rows[j];
  }

  /** A username that no admitted line carries cannot log in. */
  lemma UnknownUserCannotLogin(c: EmployeeController, lines: seq<string>, username: string, password: string)
    requires Records(c.employees) == PutAll(map[], AdmittedFromFile(lines))
    requires username !in Usernames(AdmittedFromFile(lines))
    ensures c.ValidateLogin(username, password) == -1
  {
    PutAllUntouched(map[], AdmittedFromFile(lines), username);
  }
}

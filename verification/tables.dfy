/**
 The ordering logic of the frontend's assignment, employee and project tables:
 a sort state of one field and one direction, the header-click rule that
 changes it, and the sorted rows each table displays. Sorting works on a copy
 of the rows; in this model every sequence is an immutable value, so the
 caller's rows cannot change.
 */
module Tables {
  import opened Ordering
  import opened Models
  import RecordStore
  import AssignmentRoutes
  import EmployeeRoutes

  /** The field the table is sorted by and the direction. */
  datatype SortState = SortState(field: string, dir: Direction)

  const ASSIGNMENT_INITIAL: SortState := SortState("start_date", Desc)
  const EMPLOYEE_INITIAL: SortState := SortState("employee_id", Asc)
  const PROJECT_INITIAL: SortState := SortState("project_code", Asc)

  /** The assignment table shows only the first rows of the sorted list. */
  const ASSIGNMENT_ROW_LIMIT: nat := 5

  /** A click on the header of `field`: the same field flips the direction,
      another field becomes the sort field in ascending order. */
  function HandleSort(st: SortState, field: string): (r: SortState)
    ensures r.field == field
    ensures field == st.field ==> r.dir != st.dir
    ensures field != st.field ==> r.dir == Asc
  {
    if field == st.field then SortState(st.field, Flip(st.dir))
    else SortState(field, Asc)
  }

  /** The state after a sequence of header clicks. */
  function Clicks(st: SortState, fields: seq<string>): SortState
    decreases |fields|
  {
    if |fields| == 0 then st else Clicks(HandleSort(st, fields[0]), fields[1..])
  }

  /** Two clicks on the current field restore the state. */
  lemma HandleSortTwice(st: SortState)
    ensures HandleSort(HandleSort(st, st.field), st.field) == st
  {
  }

  /** `n` clicks on the current field keep the field and flip the direction
      once per click. */
  lemma {:induction false} RepeatedClicks(st: SortState, n: nat)
    ensures Clicks(st, seq(n, _ => st.field)) == SortState(st.field, if n % 2 == 0 then st.dir else Flip(st.dir))
    decreases n
  {
    if n > 0 {
      var next := HandleSort(st, st.field);
      assert seq(n, _ => st.field)[1..] == seq(n - 1, _ => next.field);
      RepeatedClicks(next, n - 1);
      assert Flip(Flip(st.dir)) == st.dir;
    }
  }

  /** The value the assignment comparator reads for `field`. */
  function AssignmentKey(field: string, a: AssignmentRoutes.AssignmentView): Key {
    if field == "employee_id" then Text(a.employeeId)
    else if field == "project_code" then Text(a.projectCode)
    else if field == "employee_name" then Text(a.employeeName)
    else if field == "project_name" then Text(a.projectName)
    else if field == "start_date" then Instant(a.startDate)
    else Blank
  }

  function AssignmentKeyOf(field: string): AssignmentRoutes.AssignmentView -> Key {
    a => AssignmentKey(field, a)
  }

  /** The value the employee comparator reads for `field`. Rows carry no
      creation timestamps here, so `createdAt` reads blank. */
  function EmployeeKey(field: string, e: EmployeeRoutes.EmployeeView): Key {
    if field == "employee_id" then Text(e.employeeId)
    else if field == "full_name" then Text(e.fullName)
    else if field == "email" then Text(e.email)
    else Blank
  }

  function EmployeeKeyOf(field: string): EmployeeRoutes.EmployeeView -> Key {
    e => EmployeeKey(field, e)
  }

  /** The value the project comparator reads for `field`. Rows carry no
      creation timestamps here, so `createdAt` reads blank. */
  function ProjectKey(field: string, p: Project): Key {
    if field == "project_code" then Text(p.projectCode)
    else if field == "project_name" then Text(p.projectName)
    else if field == "project_description" then Text(p.projectDescription)
    else Blank
  }

  function ProjectKeyOf(field: string): Project -> Key {
    p => ProjectKey(field, p)
  }

  /** The rows the assignment table displays: the rows sorted by the state,
      then cut to the first five. */
  function SortedAssignments(rows: seq<AssignmentRoutes.AssignmentView>, st: SortState)
    : (r: seq<AssignmentRoutes.AssignmentView>)
    ensures |r| == if |rows| < ASSIGNMENT_ROW_LIMIT then |rows| else ASSIGNMENT_ROW_LIMIT
    ensures multiset(r) <= multiset(rows)
    ensures Sorted(AssignmentKeyOf(st.field), st.dir, r)
    ensures forall i, x :: 0 <= i < |r| && multiset(rows)[x] > multiset(r)[x] ==>
      Precedes(AssignmentKeyOf(st.field), st.dir, r[i], x)
    ensures st.field == "start_date" && st.dir == Asc ==>
      forall i, j :: 0 <= i < j < |r| ==> r[i].startDate <= r[j].startDate
    ensures st.field == "start_date" && st.dir == Desc ==>
      forall i, j :: 0 <= i < j < |r| ==> r[i].startDate >= r[j].startDate
    ensures st.field == "employee_id" ==>
      forall i, j :: 0 <= i < j < |r| ==> Directed(st.dir, CompareText(r[i].employeeId, r[j].employeeId)) <= 0
    ensures st.field == "employee_name" ==>
      forall i, j :: 0 <= i < j < |r| ==> Directed(st.dir, CompareText(r[i].employeeName, r[j].employeeName)) <= 0
    ensures st.field == "project_code" ==>
      forall i, j :: 0 <= i < j < |r| ==> Directed(st.dir, CompareText(r[i].projectCode, r[j].projectCode)) <= 0
    ensures st.field == "project_name" ==>
      forall i, j :: 0 <= i < j < |r| ==> Directed(st.dir, CompareText(r[i].projectName, r[j].projectName)) <= 0
  {
    var key := AssignmentKeyOf(st.field);
    var full := SortBy(key, st.dir, rows);
    var r := Take(full, ASSIGNMENT_ROW_LIMIT);
    TakeSorted(key, st.dir, full, ASSIGNMENT_ROW_LIMIT);
    AssignmentFieldOrder(st.field, st.dir, r);
    r
  }

  /** Rows ordered on one of the assignment table's columns are ordered by that
      column's value: timestamps for `start_date`, the string comparison for the others. */
  lemma AssignmentFieldOrder(field: string, dir: Direction, r: seq<AssignmentRoutes.AssignmentView>)
    requires Sorted(AssignmentKeyOf(field), dir, r)
    ensures field == "start_date" && dir == Asc ==>
      forall i, j :: 0 <= i < j < |r| ==> r[i].startDate <= r[j].startDate
    ensures field == "start_date" && dir == Desc ==>
      forall i, j :: 0 <= i < j < |r| ==> r[i].startDate >= r[j].startDate
    ensures field == "employee_id" ==>
      forall i, j :: 0 <= i < j < |r| ==> Directed(dir, CompareText(r[i].employeeId, r[j].employeeId)) <= 0
    ensures field == "employee_name" ==>
      forall i, j :: 0 <= i < j < |r| ==> Directed(dir, CompareText(r[i].employeeName, r[j].employeeName)) <= 0
    ensures field == "project_code" ==>
      forall i, j :: 0 <= i < j < |r| ==> Directed(dir, CompareText(r[i].projectCode, r[j].projectCode)) <= 0
    ensures field == "project_name" ==>
      forall i, j :: 0 <= i < j < |r| ==> Directed(dir, CompareText(r[i].projectName, r[j].projectName)) <= 0
  {
    forall i, j | 0 <= i < j < |r|
      ensures field == "start_date" && dir == Asc ==> r[i].startDate <= r[j].startDate
      ensures field == "start_date" && dir == Desc ==> r[i].startDate >= r[j].startDate
      ensures field == "employee_id" ==> Directed(dir, CompareText(r[i].employeeId, r[j].employeeId)) <= 0
      ensures field == "employee_name" ==> Directed(dir, CompareText(r[i].employeeName, r[j].employeeName)) <= 0
      ensures field == "project_code" ==> Directed(dir, CompareText(r[i].projectCode, r[j].projectCode)) <= 0
      ensures field == "project_name" ==> Directed(dir, CompareText(r[i].projectName, r[j].projectName)) <= 0
    {
      assert Precedes(AssignmentKeyOf(field), dir, r[i], r[j]);
    }
  }

  /** The rows the employee table displays: all of them, sorted by the state. */
  function SortedEmployees(rows: seq<EmployeeRoutes.EmployeeView>, st: SortState)
    : (r: seq<EmployeeRoutes.EmployeeView>)
    ensures |r| == |rows|
    ensures multiset(r) == multiset(rows)
    ensures Sorted(EmployeeKeyOf(st.field), st.dir, r)
    ensures st.field == "employee_id" ==>
      forall i, j :: 0 <= i < j < |r| ==> Directed(st.dir, CompareText(r[i].employeeId, r[j].employeeId)) <= 0
    ensures st.field == "full_name" ==>
      forall i, j :: 0 <= i < j < |r| ==> Directed(st.dir, CompareText(r[i].fullName, r[j].fullName)) <= 0
    ensures st.field == "email" ==>
      forall i, j :: 0 <= i < j < |r| ==> Directed(st.dir, CompareText(r[i].email, r[j].email)) <= 0
    ensures st.field !in ["employee_id", "full_name", "email", "createdAt"] ==> r == rows
  {
    var key := EmployeeKeyOf(st.field);
    SortByBlankKeepsOrder(key, st.dir, rows);
    var r := SortBy(key, st.dir, rows);
    EmployeeFieldOrder(st.field, st.dir, r);
    r
  }

  /** Rows ordered on one of the employee table's columns are ordered by the
      string comparison of that column. */
  lemma EmployeeFieldOrder(field: string, dir: Direction, r: seq<EmployeeRoutes.EmployeeView>)
    requires Sorted(EmployeeKeyOf(field), dir, r)
    ensures field == "employee_id" ==>
      forall i, j :: 0 <= i < j < |r| ==> Directed(dir, CompareText(r[i].employeeId, r[j].employeeId)) <= 0
    ensures field == "full_name" ==>
      forall i, j :: 0 <= i < j < |r| ==> Directed(dir, CompareText(r[i].fullName, r[j].fullName)) <= 0
    ensures field == "email" ==>
      forall i, j :: 0 <= i < j < |r| ==> Directed(dir, CompareText(r[i].email, r[j].email)) <= 0
  {
    forall i, j | 0 <= i < j < |r|
      ensures field == "employee_id" ==> Directed(dir, CompareText(r[i].employeeId, r[j].employeeId)) <= 0
      ensures field == "full_name" ==> Directed(dir, CompareText(r[i].fullName, r[j].fullName)) <= 0
      ensures field == "email" ==> Directed(dir, CompareText(r[i].email, r[j].email)) <= 0
    {
      assert Precedes(EmployeeKeyOf(field), dir, r[i], r[j]);
    }
  }

  /** The rows the project table displays: all of them, sorted by the state. */
  function SortedProjects(rows: seq<Project>, st: SortState): (r: seq<Project>)
    ensures |r| == |rows|
    ensures multiset(r) == multiset(rows)
    ensures Sorted(ProjectKeyOf(st.field), st.dir, r)
    ensures st.field == "project_code" ==>
      forall i, j :: 0 <= i < j < |r| ==> Directed(st.dir, CompareText(r[i].projectCode, r[j].projectCode)) <= 0
    ensures st.field == "project_name" ==>
      forall i, j :: 0 <= i < j < |r| ==> Directed(st.dir, CompareText(r[i].projectName, r[j].projectName)) <= 0
    ensures st.field == "project_description" ==>
      forall i, j :: 0 <= i < j < |r| ==> Directed(st.dir, CompareText(r[i].projectDescription, r[j].projectDescription)) <= 0
    ensures st.field !in ["project_code", "project_name", "project_description", "createdAt"] ==> r == rows
  {
    var key := ProjectKeyOf(st.field);
    SortByBlankKeepsOrder(key, st.dir, rows);
    var r := SortBy(key, st.dir, rows);
    ProjectFieldOrder(st.field, st.dir, r);
    r
  }

  /** Rows ordered on one of the project table's columns are ordered by the
      string comparison of that column. */
  lemma ProjectFieldOrder(field: string, dir: Direction, r: seq<Project>)
    requires Sorted(ProjectKeyOf(field), dir, r)
    ensures field == "project_code" ==>
      forall i, j :: 0 <= i < j < |r| ==> Directed(dir, CompareText(r[i].projectCode, r[j].projectCode)) <= 0
    ensures field == "project_name" ==>
      forall i, j :: 0 <= i < j < |r| ==> Directed(dir, CompareText(r[i].projectName, r[j].projectName)) <= 0
    ensures field == "project_description" ==>
      forall i, j :: 0 <= i < j < |r| ==> Directed(dir, CompareText(r[i].projectDescription, r[j].projectDescription)) <= 0
  {
    forall i, j | 0 <= i < j < |r|
      ensures field == "project_code" ==> Directed(dir, CompareText(r[i].projectCode, r[j].projectCode)) <= 0
      ensures field == "project_name" ==> Directed(dir, CompareText(r[i].projectName, r[j].projectName)) <= 0
      ensures field == "project_description" ==> Directed(dir, CompareText(r[i].projectDescription, r[j].projectDescription)) <= 0
    {
      assert Precedes(ProjectKeyOf(field), dir, r[i], r[j]);
    }
  }

  /** In its initial state the assignment table shows the first five rows of
      the backend's list in the order the backend sent them, as that list is
      already ordered by latest `start_date`. */
  lemma InitialAssignmentView(s: RecordStore.Store)
    ensures var listed := AssignmentRoutes.List(s).body;
      SortedAssignments(listed, ASSIGNMENT_INITIAL) == Take(listed, ASSIGNMENT_ROW_LIMIT)
  {
    var listed := AssignmentRoutes.List(s).body;
    var key := AssignmentKeyOf("start_date");
    forall i, j | 0 <= i < j < |listed|
      ensures Precedes(key, Desc, listed[i], listed[j])
    {
      assert listed[i].startDate >= listed[j].startDate;
    }
    SortBySortedKeepsOrder(key, Desc, listed);
  }
}

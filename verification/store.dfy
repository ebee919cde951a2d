/**
 The record store the handlers read and write: three collections kept in
 insertion order, and a counter standing for the generator of fresh
 assignment identifiers. Point lookups return the first matching record,
 as a single-document query does.
 */
module RecordStore {
  import opened Common
  import opened Models

  datatype Store = Store(employees: seq<Employee>, projects: seq<Project>, assignments: seq<Assignment>, nextId: nat)

  /** A handler's result: its reply and the store after the request. */
  datatype Step<+T> = Step(reply: Reply<T>, store: Store)

  const Empty: Store := Store([], [], [], 0)

  function EmployeeIndex(es: seq<Employee>, id: string): (r: Option<nat>)
    ensures r.Some? ==> r.value < |es| && es[r.value].employeeId == id
    ensures r.Some? ==> forall j :: 0 <= j < r.value ==> es[j].employeeId != id
    ensures r.None? <==> forall j :: 0 <= j < |es| ==> es[j].employeeId != id
  {
    IndexOf(es, (e: Employee) => e.employeeId == id)
  }

  function ProjectIndex(ps: seq<Project>, code: string): (r: Option<nat>)
    ensures r.Some? ==> r.value < |ps| && ps[r.value].projectCode == code
    ensures r.Some? ==> forall j :: 0 <= j < r.value ==> ps[j].projectCode != code
    ensures r.None? <==> forall j :: 0 <= j < |ps| ==> ps[j].projectCode != code
  {
    IndexOf(ps, (p: Project) => p.projectCode == code)
  }

  function AssignmentIndex(rows: seq<Assignment>, id: nat): (r: Option<nat>)
    ensures r.Some? ==> r.value < |rows| && rows[r.value].id == id
    ensures r.None? <==> forall j :: 0 <= j < |rows| ==> rows[j].id != id
  {
    IndexOf(rows, (a: Assignment) => a.id == id)
  }

  /** `findOne({ employee_id: id })` */
  function EmployeeById(s: Store, id: string): (r: Option<Employee>)
    ensures r.Some? ==> r.value in s.employees && r.value.employeeId == id
    ensures r.None? <==> forall j :: 0 <= j < |s.employees| ==> s.employees[j].employeeId != id
  {
    match EmployeeIndex(s.employees, id)
    case None => None
    case Some(i) => Some(s.employees[i])
  }

  /** `findOne({ email: email })` */
  function EmployeeByEmail(s: Store, email: string): (r: Option<Employee>)
    ensures r.Some? ==> r.value in s.employees && r.value.email == email
    ensures r.None? <==> forall j :: 0 <= j < |s.employees| ==> s.employees[j].email != email
  {
    match IndexOf(s.employees, (e: Employee) => e.email == email)
    case None => None
    case Some(i) => Some(s.employees[i])
  }

  /** `findOne({ project_code: code })` */
  function ProjectByCode(s: Store, code: string): (r: Option<Project>)
    ensures r.Some? ==> r.value in s.projects && r.value.projectCode == code
    ensures r.None? <==> forall j :: 0 <= j < |s.projects| ==> s.projects[j].projectCode != code
  {
    match ProjectIndex(s.projects, code)
    case None => None
    case Some(i) => Some(s.projects[i])
  }

  /** A query on a body key the client left out matches no record, because
      every stored record has the key. */
  function EmployeeByIdKey(s: Store, id: Option<string>): (r: Option<Employee>)
    ensures r.Some? <==> id.Some? && EmployeeById(s, id.value).Some?
    ensures r.Some? ==> r == EmployeeById(s, id.value)
  {
    if id.None? then None else EmployeeById(s, id.value)
  }

  function EmployeeByEmailKey(s: Store, email: Option<string>): (r: Option<Employee>)
    ensures r.Some? <==> email.Some? && EmployeeByEmail(s, email.value).Some?
    ensures r.Some? ==> r == EmployeeByEmail(s, email.value)
  {
    if email.None? then None else EmployeeByEmail(s, email.value)
  }

  function ProjectByCodeKey(s: Store, code: Option<string>): (r: Option<Project>)
    ensures r.Some? <==> code.Some? && ProjectByCode(s, code.value).Some?
    ensures r.Some? ==> r == ProjectByCode(s, code.value)
  {
    if code.None? then None else ProjectByCode(s, code.value)
  }

  predicate UniqueEmployeeIds(es: seq<Employee>) {
    forall i, j :: 0 <= i < j < |es| ==> es[i].employeeId != es[j].employeeId
  }

  predicate UniqueEmails(es: seq<Employee>) {
    forall i, j :: 0 <= i < j < |es| ==> es[i].email != es[j].email
  }

  predicate UniqueProjectCodes(ps: seq<Project>) {
    forall i, j :: 0 <= i < j < |ps| ==> ps[i].projectCode != ps[j].projectCode
  }

  /** Assignment identifiers are distinct and all below the next one to be issued. */
  predicate FreshIds(rows: seq<Assignment>, nextId: nat) {
    && (forall i :: 0 <= i < |rows| ==> rows[i].id < nextId)
    && (forall i, j :: 0 <= i < j < |rows| ==> rows[i].id != rows[j].id)
  }

  /** The store invariant: the schemas' unique and required constraints hold of
      every stored record. Nothing relates assignments to the other collections:
      a reference may dangle once its target is deleted. */
  predicate Valid(s: Store) {
    && UniqueEmployeeIds(s.employees)
    && UniqueEmails(s.employees)
    && UniqueProjectCodes(s.projects)
    && FreshIds(s.assignments, s.nextId)
    && (forall i :: 0 <= i < |s.employees| ==> EmployeeComplete(s.employees[i]))
    && (forall i :: 0 <= i < |s.projects| ==> ProjectComplete(s.projects[i]))
    && (forall i :: 0 <= i < |s.assignments| ==> AssignmentComplete(s.assignments[i]))
  }

  /** Appending a complete employee whose id and email are both new keeps the invariant. */
  lemma AddEmployeeValid(s: Store, e: Employee)
    requires EmployeeComplete(e)
    requires EmployeeById(s, e.employeeId).None? && EmployeeByEmail(s, e.email).None?
    ensures Valid(s) ==> Valid(s.(employees := s.employees + [e]))
  {
  }

  lemma AddProjectValid(s: Store, p: Project)
    requires ProjectComplete(p)
    requires ProjectByCode(s, p.projectCode).None?
    ensures Valid(s) ==> Valid(s.(projects := s.projects + [p]))
  {
  }

  /** Appending an assignment under the next identifier, and advancing the
      counter, keeps the invariant. */
  lemma AddAssignmentValid(s: Store, a: Assignment)
    requires AssignmentComplete(a) && a.id == s.nextId
    ensures Valid(s) ==> Valid(s.(assignments := s.assignments + [a], nextId := s.nextId + 1))
  {
  }

  lemma RemoveEmployeeValid(s: Store, k: nat)
    requires k < |s.employees|
    ensures Valid(s) ==> Valid(s.(employees := RemoveAt(s.employees, k)))
  {
    if Valid(s) {
      DistinctAfterRemove(s.employees, (e: Employee) => e.employeeId, k);
      DistinctAfterRemove(s.employees, (e: Employee) => e.email, k);
    }
  }

  lemma RemoveProjectValid(s: Store, k: nat)
    requires k < |s.projects|
    ensures Valid(s) ==> Valid(s.(projects := RemoveAt(s.projects, k)))
  {
    if Valid(s) {
      DistinctAfterRemove(s.projects, (p: Project) => p.projectCode, k);
    }
  }

  lemma RemoveAssignmentValid(s: Store, k: nat)
    requires k < |s.assignments|
    ensures Valid(s) ==> Valid(s.(assignments := RemoveAt(s.assignments, k)))
  {
    if Valid(s) {
      DistinctAfterRemove(s.assignments, (a: Assignment) => a.id, k);
    }
  }
}

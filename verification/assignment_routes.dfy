/**
 The assignment handlers (backend/routes/assignmentRoutes.js): the list with
 its enrichment join, the create with its reference checks, and the delete
 by generated identifier.
 */
module AssignmentRoutes {
  import opened Common
  import opened Models
  import opened RecordStore
  import opened Ordering

  /** An assignment as callers see it: the stored fields together with the
      referenced employee's and project's display names. */
  datatype AssignmentView = AssignmentView(
    id: nat, employeeId: string, employeeName: string,
    projectCode: string, projectName: string, startDate: int)

  /** The name shown for a reference that resolves to no record. */
  const UNKNOWN: string := "Unknown"
  const NO_EMPLOYEE: string := "Employee does not exist"
  const NO_PROJECT: string := "Project does not exist"
  const ASSIGNMENT_NOT_FOUND: string := "Assignment not found"
  const ASSIGNMENT_DELETED: string := "Assignment deleted successfully"

  /** The display name for an employee reference, resolved against `s`. */
  function EmployeeName(s: Store, id: string): (r: string)
    ensures (forall j :: 0 <= j < |s.employees| ==> s.employees[j].employeeId != id) ==> r == UNKNOWN
    ensures (exists j :: 0 <= j < |s.employees| && s.employees[j].employeeId == id) ==>
      exists e :: e in s.employees && e.employeeId == id && r == e.fullName
  {
    match EmployeeById(s, id)
    case None => UNKNOWN
    case Some(e) => e.fullName
  }

  /** The display name for a project reference, resolved against `s`. */
  function ProjectName(s: Store, code: string): (r: string)
    ensures (forall j :: 0 <= j < |s.projects| ==> s.projects[j].projectCode != code) ==> r == UNKNOWN
    ensures (exists j :: 0 <= j < |s.projects| && s.projects[j].projectCode == code) ==>
      exists p :: p in s.projects && p.projectCode == code && r == p.projectName
  {
    match ProjectByCode(s, code)
    case None => UNKNOWN
    case Some(p) => p.projectName
  }

  /** The stored assignment a view was built from: the view without its names. */
  function Base(v: AssignmentView): Assignment {
    Assignment(v.id, v.employeeId, v.projectCode, v.startDate)
  }

  function Bases(vs: seq<AssignmentView>): (r: seq<Assignment>)
    ensures |r| == |vs|
    ensures forall i :: 0 <= i < |vs| ==> r[i] == Base(vs[i])
  {
    seq(|vs|, i requires 0 <= i < |vs| => Base(vs[i]))
  }

  /** The enrichment join: one view per assignment, in the same order, each
      resolving its references against the same store. */
  function Enrich(s: Store, rows: seq<Assignment>): (r: seq<AssignmentView>)
    ensures |r| == |rows|
    ensures Bases(r) == rows
    ensures forall i :: 0 <= i < |r| ==>
      && r[i].employeeName == EmployeeName(s, rows[i].employeeId)
      && r[i].projectName == ProjectName(s, rows[i].projectCode)
  {
    var r := seq(|rows|, i requires 0 <= i < |rows| =>
      var a := rows[i];
      AssignmentView(a.id, a.employeeId, EmployeeName(s, a.employeeId),
                     a.projectCode, ProjectName(s, a.projectCode), a.startDate));
    assert Bases(r) == rows;
    r
  }

  /** The sort key of the list query: `start_date`. */
  function StartKey(a: Assignment): Key {
    Instant(a.startDate)
  }

  /** GET / : all assignments, latest `start_date` first, enriched. The order
      among equal start dates is not promised. */
  function List(s: Store): (r: Reply<seq<AssignmentView>>)
    ensures r.Ok? && r.status == OK
    ensures |r.body| == |s.assignments|
    ensures multiset(Bases(r.body)) == multiset(s.assignments)
    ensures forall i, j :: 0 <= i < j < |r.body| ==> r.body[i].startDate >= r.body[j].startDate
    ensures forall i :: 0 <= i < |r.body| ==>
      && r.body[i].employeeName == EmployeeName(s, r.body[i].employeeId)
      && r.body[i].projectName == ProjectName(s, r.body[i].projectCode)
  {
    var sorted := SortBy(StartKey, Desc, s.assignments);
    var views := Enrich(s, sorted);
    LatestFirst(sorted, views);
    Ok(OK, views)
  }

  /** Views that keep the stored rows' start dates keep their latest-first order. */
  lemma LatestFirst(rows: seq<Assignment>, views: seq<AssignmentView>)
    requires Sorted(StartKey, Desc, rows)
    requires Bases(views) == rows
    ensures forall i, j :: 0 <= i < j < |views| ==> views[i].startDate >= views[j].startDate
  {
    forall i, j | 0 <= i < j < |views|
      ensures views[i].startDate >= views[j].startDate
    {
      assert Bases(views)[i] == rows[i] && Bases(views)[j] == rows[j];
      assert Precedes(StartKey, Desc, rows[i], rows[j]);
    }
  }

  /** The body's employee reference resolves to no stored employee. */
  predicate EmployeeMissing(s: Store, b: AssignmentBody) {
    EmployeeByIdKey(s, b.employeeId).None?
  }

  /** The body's project reference resolves to no stored project. */
  predicate ProjectMissing(s: Store, b: AssignmentBody) {
    ProjectByCodeKey(s, b.projectCode).None?
  }

  /** POST / : the employee check, then the project check, then the save under
      the next identifier at time `now`. Every failure is a 400 and leaves the
      store as it was. The reply carries the names of the records found by the checks. */
  function Create(s: Store, b: AssignmentBody, now: int): (r: Step<AssignmentView>)
    ensures r.reply.Fail? ==> r.reply.status == BAD_REQUEST && r.store == s
    ensures EmployeeMissing(s, b) ==> r.reply == Fail(BAD_REQUEST, Message(NO_EMPLOYEE))
    ensures !EmployeeMissing(s, b) && ProjectMissing(s, b) ==> r.reply == Fail(BAD_REQUEST, Message(NO_PROJECT))
    ensures !EmployeeMissing(s, b) && !ProjectMissing(s, b) ==>
      (r.reply.Ok? <==> ValidateAssignment(b, s.nextId, now).Accepted?) &&
      (r.reply.Fail? ==> r.reply.error == ValidateAssignment(b, s.nextId, now).error)
    ensures Valid(s) && !EmployeeMissing(s, b) && !ProjectMissing(s, b) ==>
      (r.reply.Ok? <==> !b.startDate.Unparseable? && !b.startDate.NullDate?)
    ensures r.reply.Ok? ==>
      && r.reply.status == CREATED
      && b.employeeId.Some? && b.projectCode.Some?
      && r.store.assignments == s.assignments + [Base(r.reply.body)]
      && r.store.nextId == s.nextId + 1
      && r.store.employees == s.employees
      && r.store.projects == s.projects
      && r.reply.body.id == s.nextId
      && Some(r.reply.body.employeeId) == b.employeeId
      && Some(r.reply.body.projectCode) == b.projectCode
      && r.reply.body.startDate == (if b.startDate.Given? then b.startDate.t else now)
      && r.reply.body.employeeName == EmployeeById(s, b.employeeId.value).value.fullName
      && r.reply.body.projectName == ProjectByCode(s, b.projectCode.value).value.projectName
    ensures Valid(s) ==> Valid(r.store)
  {
    match EmployeeByIdKey(s, b.employeeId)
    case None => Step(Fail(BAD_REQUEST, Message(NO_EMPLOYEE)), s)
    case Some(e) =>
      match ProjectByCodeKey(s, b.projectCode)
      case None => Step(Fail(BAD_REQUEST, Message(NO_PROJECT)), s)
      case Some(p) =>
        match ValidateAssignment(b, s.nextId, now)
        case Rejected(err) => Step(Fail(BAD_REQUEST, err), s)
        case Accepted(a) =>
          var view := AssignmentView(a.id, a.employeeId, e.fullName, a.projectCode, p.projectName, a.startDate);
          var s' := s.(assignments := s.assignments + [a], nextId := s.nextId + 1);
          AddAssignmentValid(s, a);
          Step(Ok(CREATED, view), s')
  }

  /** DELETE /:id : removes the assignment with that identifier, or 404. */
  function Delete(s: Store, id: nat): (r: Step<string>)
    ensures r.store.employees == s.employees && r.store.projects == s.projects
    ensures r.store.nextId == s.nextId
    ensures r.reply.Fail? <==> forall j :: 0 <= j < |s.assignments| ==> s.assignments[j].id != id
    ensures r.reply.Fail? ==> r.reply == Fail(NOT_FOUND, Message(ASSIGNMENT_NOT_FOUND)) && r.store == s
    ensures r.reply.Ok? ==>
      && r.reply == Ok(OK, ASSIGNMENT_DELETED)
      && |r.store.assignments| == |s.assignments| - 1
      && multiset(r.store.assignments) <= multiset(s.assignments)
      && (forall a :: a in s.assignments && a.id != id ==> a in r.store.assignments)
    ensures Valid(s) ==> Valid(r.store)
    ensures Valid(s) ==> forall j :: 0 <= j < |r.store.assignments| ==> r.store.assignments[j].id != id
  {
    match AssignmentIndex(s.assignments, id)
    case None => Step(Fail(NOT_FOUND, Message(ASSIGNMENT_NOT_FOUND)), s)
    case Some(k) =>
      var s' := s.(assignments := RemoveAt(s.assignments, k));
      RemoveAssignmentValid(s, k);
      Step(Ok(OK, ASSIGNMENT_DELETED), s')
  }
}

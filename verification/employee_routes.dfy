/**
 The employee handlers (backend/routes/employeeRoutes.js): list, create,
 get one and delete, each a transition from a store and a request to a
 reply and the next store. Replies never carry the password hash.
 */
module EmployeeRoutes {
  import opened Common
  import opened Models
  import opened RecordStore

  /** An employee as callers see it: every field except the password hash. */
  datatype EmployeeView = EmployeeView(employeeId: string, fullName: string, email: string)

  const EMPLOYEE_ID_TAKEN: string := "Employee ID already exists"
  const EMAIL_TAKEN: string := "Email already exists"
  const EMPLOYEE_NOT_FOUND: string := "Employee not found"
  const EMPLOYEE_DELETED: string := "Employee deleted successfully"

  /** The employee with its password hash left out. */
  function Public(e: Employee): EmployeeView {
    EmployeeView(e.employeeId, e.fullName, e.email)
  }

  /** GET / : every stored employee, in store order, without its password hash. */
  function List(s: Store): (r: Reply<seq<EmployeeView>>)
    ensures r.Ok? && r.status == OK
    ensures |r.body| == |s.employees|
    ensures forall i :: 0 <= i < |r.body| ==>
      && r.body[i].employeeId == s.employees[i].employeeId
      && r.body[i].fullName == s.employees[i].fullName
      && r.body[i].email == s.employees[i].email
  {
    Ok(OK, seq(|s.employees|, i requires 0 <= i < |s.employees| => Public(s.employees[i])))
  }

  /** The body's `employee_id` is already used by a stored employee. */
  predicate IdTaken(s: Store, b: EmployeeBody) {
    EmployeeByIdKey(s, b.employeeId).Some?
  }

  /** The body's `email` is already used by a stored employee. */
  predicate EmailTaken(s: Store, b: EmployeeBody) {
    EmployeeByEmailKey(s, b.email).Some?
  }

  /** POST /createEmployee : the id check, then the email check, then the save
      (schema validation, then hashing of the password). Every failure is a 400
      and leaves the store as it was. */
  function Create(s: Store, b: EmployeeBody, hash: string -> Option<string>): (r: Step<EmployeeView>)
    ensures r.reply.Fail? ==> r.reply.status == BAD_REQUEST && r.store == s
    ensures IdTaken(s, b) ==> r.reply == Fail(BAD_REQUEST, Message(EMPLOYEE_ID_TAKEN))
    ensures !IdTaken(s, b) && EmailTaken(s, b) ==> r.reply == Fail(BAD_REQUEST, Message(EMAIL_TAKEN))
    ensures !IdTaken(s, b) && !EmailTaken(s, b) ==>
      (r.reply.Ok? <==> NewEmployee(b, hash).Accepted?) &&
      (r.reply.Fail? ==> r.reply.error == NewEmployee(b, hash).error)
    ensures r.reply.Ok? ==>
      && r.reply.status == CREATED
      && b.hashedPassword.Some?
      && |r.store.employees| == |s.employees| + 1
      && r.store.employees[..|s.employees|] == s.employees
      && r.store.projects == s.projects
      && r.store.assignments == s.assignments
      && r.store.nextId == s.nextId
      && var e := r.store.employees[|s.employees|];
         && Some(e.employeeId) == b.employeeId && Some(e.fullName) == b.fullName
         && Some(e.email) == b.email && Some(e.hashedPassword) == hash(b.hashedPassword.value)
         && r.reply.body == EmployeeView(e.employeeId, e.fullName, e.email)
    ensures Valid(s) ==> Valid(r.store)
  {
    if IdTaken(s, b) then Step(Fail(BAD_REQUEST, Message(EMPLOYEE_ID_TAKEN)), s)
    else if EmailTaken(s, b) then Step(Fail(BAD_REQUEST, Message(EMAIL_TAKEN)), s)
    else
      match NewEmployee(b, hash)
      case Rejected(err) => Step(Fail(BAD_REQUEST, err), s)
      case Accepted(e) =>
        var s' := s.(employees := s.employees + [e]);
        assert s'.employees[..|s.employees|] == s.employees;
        AddEmployeeValid(s, e);
        Step(Ok(CREATED, Public(e)), s')
  }

  /** GET /:id : the employee with that id without its password hash, or 404. */
  function GetOne(s: Store, id: string): (r: Reply<EmployeeView>)
    ensures r.Ok? <==> exists j :: 0 <= j < |s.employees| && s.employees[j].employeeId == id
    ensures r.Ok? ==> r.status == OK && r.body.employeeId == id
    ensures r.Ok? ==> exists e :: e in s.employees && e.employeeId == id && r.body == Public(e)
    ensures r.Fail? ==> r == Fail(NOT_FOUND, Message(EMPLOYEE_NOT_FOUND))
  {
    match EmployeeById(s, id)
    case None => Fail(NOT_FOUND, Message(EMPLOYEE_NOT_FOUND))
    case Some(e) => Ok(OK, Public(e))
  }

  /** DELETE /:id : removes the first employee with that id, or 404. Projects and
      assignments are never touched, so assignments may be left referring to an
      employee that no longer exists. */
  function Delete(s: Store, id: string): (r: Step<string>)
    ensures r.store.projects == s.projects && r.store.assignments == s.assignments
    ensures r.store.nextId == s.nextId
    ensures r.reply.Fail? <==> forall j :: 0 <= j < |s.employees| ==> s.employees[j].employeeId != id
    ensures r.reply.Fail? ==> r.reply == Fail(NOT_FOUND, Message(EMPLOYEE_NOT_FOUND)) && r.store == s
    ensures r.reply.Ok? ==>
      && r.reply == Ok(OK, EMPLOYEE_DELETED)
      && |r.store.employees| == |s.employees| - 1
      && multiset(r.store.employees) <= multiset(s.employees)
      && (forall e :: e in s.employees && e.employeeId != id ==> e in r.store.employees)
    ensures Valid(s) ==> Valid(r.store)
    ensures Valid(s) ==> forall j :: 0 <= j < |r.store.employees| ==> r.store.employees[j].employeeId != id
  {
    match EmployeeIndex(s.employees, id)
    case None => Step(Fail(NOT_FOUND, Message(EMPLOYEE_NOT_FOUND)), s)
    case Some(k) =>
      var s' := s.(employees := RemoveAt(s.employees, k));
      RemoveEmployeeValid(s, k);
      Step(Ok(OK, EMPLOYEE_DELETED), s')
  }

  /** A created employee is found by its id, without its password hash. */
  lemma CreateThenGetOne(s: Store, b: EmployeeBody, hash: string -> Option<string>)
    requires Create(s, b, hash).reply.Ok?
    ensures GetOne(Create(s, b, hash).store, b.employeeId.value) == Ok(OK, Create(s, b, hash).reply.body)
  {
    var s' := Create(s, b, hash).store;
    var id := b.employeeId.value;
    assert EmployeeById(s, id).None?;
    assert EmployeeIndex(s'.employees, id) == Some(|s.employees|) by {
      assert forall j :: 0 <= j < |s.employees| ==> s'.employees[j] == s.employees[j];
    }
  }

  /** Deleting a just-created employee by its id gives back the store as it was. */
  lemma CreateThenDeleteRestores(s: Store, b: EmployeeBody, hash: string -> Option<string>)
    requires Create(s, b, hash).reply.Ok?
    ensures Delete(Create(s, b, hash).store, b.employeeId.value) == Step(Ok(OK, EMPLOYEE_DELETED), s)
  {
    var s' := Create(s, b, hash).store;
    var id := b.employeeId.value;
    assert EmployeeById(s, id).None?;
    assert EmployeeIndex(s'.employees, id) == Some(|s.employees|) by {
      assert forall j :: 0 <= j < |s.employees| ==> s'.employees[j] == s.employees[j];
    }
    assert RemoveAt(s'.employees, |s.employees|) == s.employees;
  }
}

/**
 The backend as one state machine: every request is a transition of the
 record store. Properties that relate several handlers live here: the store
 invariant holds along any sequence of requests, deletes leave dangling
 references that the list shows as "Unknown", and a created assignment
 appears in the list exactly as its create reply described it.
 */
module Backend {
  import opened Common
  import opened Models
  import opened RecordStore
  import EmployeeRoutes
  import ProjectRoutes
  import AssignmentRoutes

  /** One request. A create carries what the environment supplies with it:
      the password hasher for an employee, the clock reading for an assignment. */
  datatype Request =
    | ListEmployees
    | CreateEmployee(employee: EmployeeBody, hash: string -> Option<string>)
    | GetEmployee(employeeId: string)
    | DeleteEmployee(employeeId: string)
    | ListProjects
    | CreateProject(project: ProjectBody)
    | GetProject(projectCode: string)
    | DeleteProject(projectCode: string)
    | ListAssignments
    | CreateAssignment(assignment: AssignmentBody, now: int)
    | DeleteAssignment(id: nat)

  /** The store after one request; the handlers' replies are described in their own modules. */
  function Next(s: Store, req: Request): (r: Store)
    ensures Valid(s) ==> Valid(r)
    ensures req.ListEmployees? || req.GetEmployee? || req.ListProjects? || req.GetProject? || req.ListAssignments? ==> r == s
    ensures |r.assignments| <= |s.assignments| + 1
    ensures !req.DeleteAssignment? ==> s.assignments <= r.assignments
  {
    match req
    case ListEmployees => s
    case CreateEmployee(b, hash) => EmployeeRoutes.Create(s, b, hash).store
    case GetEmployee(_) => s
    case DeleteEmployee(id) => EmployeeRoutes.Delete(s, id).store
    case ListProjects => s
    case CreateProject(b) => ProjectRoutes.Create(s, b).store
    case GetProject(_) => s
    case DeleteProject(code) => ProjectRoutes.Delete(s, code).store
    case ListAssignments => s
    case CreateAssignment(b, now) => AssignmentRoutes.Create(s, b, now).store
    case DeleteAssignment(id) => AssignmentRoutes.Delete(s, id).store
  }

  /** The store after a sequence of requests, handled one after another. */
  function Run(s: Store, reqs: seq<Request>): Store
    decreases |reqs|
  {
    if |reqs| == 0 then s else Run(Next(s, reqs[0]), reqs[1..])
  }

  /** Every sequence of requests keeps the store invariant. */
  lemma {:induction false} RunKeepsValid(s: Store, reqs: seq<Request>)
    requires Valid(s)
    ensures Valid(Run(s, reqs))
    decreases |reqs|
  {
    if |reqs| > 0 {
      RunKeepsValid(Next(s, reqs[0]), reqs[1..]);
    }
  }

  /** From an empty store, whatever was requested, no two employees share an
      `employee_id` or an `email`, and no two projects share a `project_code`. */
  lemma ReachableStoresUnique(reqs: seq<Request>)
    ensures var s := Run(Empty, reqs);
      && UniqueEmployeeIds(s.employees)
      && UniqueEmails(s.employees)
      && UniqueProjectCodes(s.projects)
  {
    RunKeepsValid(Empty, reqs);
  }

  /** After an employee is deleted, every assignment is still listed, and those
      that referred to it show the name "Unknown". */
  lemma DeletedEmployeeListsUnknown(s: Store, id: string)
    requires Valid(s)
    requires EmployeeRoutes.Delete(s, id).reply.Ok?
    ensures var listed := AssignmentRoutes.List(EmployeeRoutes.Delete(s, id).store).body;
      && |listed| == |s.assignments|
      && multiset(AssignmentRoutes.Bases(listed)) == multiset(s.assignments)
      && forall i :: 0 <= i < |listed| && listed[i].employeeId == id ==>
           listed[i].employeeName == AssignmentRoutes.UNKNOWN
  {
    var s' := EmployeeRoutes.Delete(s, id).store;
    assert forall j :: 0 <= j < |s'.employees| ==> s'.employees[j].employeeId != id;
  }

  /** After a project is deleted, every assignment is still listed, and those
      that referred to it show the name "Unknown". */
  lemma DeletedProjectListsUnknown(s: Store, code: string)
    requires Valid(s)
    requires ProjectRoutes.Delete(s, code).reply.Ok?
    ensures var listed := AssignmentRoutes.List(ProjectRoutes.Delete(s, code).store).body;
      && |listed| == |s.assignments|
      && multiset(AssignmentRoutes.Bases(listed)) == multiset(s.assignments)
      && forall i :: 0 <= i < |listed| && listed[i].projectCode == code ==>
           listed[i].projectName == AssignmentRoutes.UNKNOWN
  {
    var s' := ProjectRoutes.Delete(s, code).store;
    assert forall j :: 0 <= j < |s'.projects| ==> s'.projects[j].projectCode != code;
  }

  /** The reply of a successful assignment create is one of the rows the list
      returns right afterwards: the names captured by the checks are the names
      the join resolves. */
  lemma CreatedAssignmentIsListed(s: Store, b: AssignmentBody, now: int)
    requires AssignmentRoutes.Create(s, b, now).reply.Ok?
    ensures AssignmentRoutes.Create(s, b, now).reply.body in AssignmentRoutes.List(AssignmentRoutes.Create(s, b, now).store).body
  {
    var r := AssignmentRoutes.Create(s, b, now);
    var v := r.reply.body;
    var listed := AssignmentRoutes.List(r.store).body;
    var a := AssignmentRoutes.Base(v);
    assert a == r.store.assignments[|s.assignments|];
    assert a in multiset(r.store.assignments);
    assert a in multiset(AssignmentRoutes.Bases(listed));
    var i :| 0 <= i < |listed| && AssignmentRoutes.Bases(listed)[i] == a;
    assert AssignmentRoutes.Base(listed[i]) == a;
    assert EmployeeById(r.store, a.employeeId) == EmployeeById(s, a.employeeId);
    assert ProjectByCode(r.store, a.projectCode) == ProjectByCode(s, a.projectCode);
    assert listed[i] == v;
  }

  /** Nothing makes an (employee, project) pair unique: the same body can be
      accepted twice, giving two assignments with distinct identifiers. */
  lemma SamePairAssignedTwice(s: Store, b: AssignmentBody, now: int, later: int)
    requires Valid(s)
    requires AssignmentRoutes.Create(s, b, now).reply.Ok?
    ensures var first := AssignmentRoutes.Create(s, b, now);
      var second := AssignmentRoutes.Create(first.store, b, later);
      && second.reply.Ok?
      && second.reply.body.employeeId == first.reply.body.employeeId
      && second.reply.body.projectCode == first.reply.body.projectCode
      && second.reply.body.id != first.reply.body.id
      && |second.store.assignments| == |s.assignments| + 2
  {
    var first := AssignmentRoutes.Create(s, b, now);
    assert EmployeeById(first.store, b.employeeId.value) == EmployeeById(s, b.employeeId.value);
    assert ProjectByCode(first.store, b.projectCode.value) == ProjectByCode(s, b.projectCode.value);
  }

  /** Deleting a just-created assignment by its identifier gives back the store
      as it was, except that the identifier stays used. */
  lemma CreateThenDeleteAssignment(s: Store, b: AssignmentBody, now: int)
    requires Valid(s)
    requires AssignmentRoutes.Create(s, b, now).reply.Ok?
    ensures var created := AssignmentRoutes.Create(s, b, now);
      AssignmentRoutes.Delete(created.store, created.reply.body.id)
        == Step(Ok(OK, AssignmentRoutes.ASSIGNMENT_DELETED), s.(nextId := s.nextId + 1))
  {
    var created := AssignmentRoutes.Create(s, b, now);
    var rows := created.store.assignments;
    var n := |s.assignments|;
    assert forall j :: 0 <= j < n ==> rows[j] == s.assignments[j] && rows[j].id < s.nextId;
    assert AssignmentIndex(rows, s.nextId) == Some(n) by {
      assert rows[n].id == s.nextId;
    }
    assert RemoveAt(rows, n) == s.assignments;
  }

  /** A worked run: an employee, a project and an assignment between them are
      created, then the project is deleted. The create reply names both records;
      the list afterwards still holds the assignment, with project name "Unknown".
      The start date 2023-01-15 is written as its millisecond timestamp. */
  lemma OrphanedProjectScenario(hash: string -> Option<string>)
    requires hash("pw").Some?
    ensures
      var e := EmployeeRoutes.Create(Empty, EmployeeBody(Some("E001"), Some("John Doe"), Some("john@example.com"), Some("pw")), hash);
      var p := ProjectRoutes.Create(e.store, ProjectBody(Some("P001"), Some("Website Redesign"), Some("New company website")));
      var a := AssignmentRoutes.Create(p.store, AssignmentBody(Some("E001"), Some("P001"), Given(1673740800000)), 1700000000000);
      var d := ProjectRoutes.Delete(a.store, "P001");
      && e.reply == Ok(CREATED, EmployeeRoutes.EmployeeView("E001", "John Doe", "john@example.com"))
      && p.reply.Ok?
      && a.reply == Ok(CREATED, AssignmentRoutes.AssignmentView(0, "E001", "John Doe", "P001", "Website Redesign", 1673740800000))
      && d.reply.Ok?
      && AssignmentRoutes.List(d.store).body
         == [AssignmentRoutes.AssignmentView(0, "E001", "John Doe", "P001", "Unknown", 1673740800000)]
  {
    var emp := Employee("E001", "John Doe", "john@example.com", hash("pw").value);
    var proj := Project("P001", "Website Redesign", "New company website");
    var asg := Assignment(0, "E001", "P001", 1673740800000);
    ScenarioEmployeeStep(hash);
    ScenarioProjectStep(Store([emp], [], [], 0));
    ScenarioAssignmentStep(Store([emp], [proj], [], 0));
    ScenarioDeleteStep(Store([emp], [proj], [asg], 1));
  }

  /** The first request of the worked run: the employee is created. */
  lemma ScenarioEmployeeStep(hash: string -> Option<string>)
    requires hash("pw").Some?
    ensures var e := EmployeeRoutes.Create(Empty, EmployeeBody(Some("E001"), Some("John Doe"), Some("john@example.com"), Some("pw")), hash);
      && e.reply == Ok(CREATED, EmployeeRoutes.EmployeeView("E001", "John Doe", "john@example.com"))
      && e.store == Store([Employee("E001", "John Doe", "john@example.com", hash("pw").value)], [], [], 0)
  {
    var eb := EmployeeBody(Some("E001"), Some("John Doe"), Some("john@example.com"), Some("pw"));
    var emp := Employee("E001", "John Doe", "john@example.com", hash("pw").value);
    var e := EmployeeRoutes.Create(Empty, eb, hash);
    assert !EmployeeRoutes.IdTaken(Empty, eb) && !EmployeeRoutes.EmailTaken(Empty, eb);
    assert e.reply.Ok?;
    assert e.store.employees == [emp];
  }

  /** The second request of the worked run: the project is created. */
  lemma ScenarioProjectStep(s: Store)
    requires s.projects == []
    ensures var p := ProjectRoutes.Create(s, ProjectBody(Some("P001"), Some("Website Redesign"), Some("New company website")));
      && p.reply == Ok(CREATED, Project("P001", "Website Redesign", "New company website"))
      && p.store == s.(projects := [Project("P001", "Website Redesign", "New company website")])
  {
    var pb := ProjectBody(Some("P001"), Some("Website Redesign"), Some("New company website"));
    assert !ProjectRoutes.CodeTaken(s, pb);
  }

  /** The third request of the worked run: the assignment is created, naming both records. */
  lemma ScenarioAssignmentStep(s: Store)
    requires |s.employees| == 1 && s.employees[0].employeeId == "E001" && s.employees[0].fullName == "John Doe"
    requires s.projects == [Project("P001", "Website Redesign", "New company website")]
    requires s.assignments == [] && s.nextId == 0
    ensures var a := AssignmentRoutes.Create(s, AssignmentBody(Some("E001"), Some("P001"), Given(1673740800000)), 1700000000000);
      && a.reply == Ok(CREATED, AssignmentRoutes.AssignmentView(0, "E001", "John Doe", "P001", "Website Redesign", 1673740800000))
      && a.store == s.(assignments := [Assignment(0, "E001", "P001", 1673740800000)], nextId := 1)
  {
    assert EmployeeById(s, "E001") == Some(s.employees[0]);
    assert ProjectByCode(s, "P001") == Some(s.projects[0]);
  }

  /** The last request of the worked run: the project is deleted, and the list
      still shows the assignment, with project name "Unknown". */
  lemma ScenarioDeleteStep(s: Store)
    requires |s.employees| == 1 && s.employees[0].employeeId == "E001" && s.employees[0].fullName == "John Doe"
    requires s.projects == [Project("P001", "Website Redesign", "New company website")]
    requires s.assignments == [Assignment(0, "E001", "P001", 1673740800000)]
    ensures var d := ProjectRoutes.Delete(s, "P001");
      && d.reply.Ok?
      && AssignmentRoutes.List(d.store).body
         == [AssignmentRoutes.AssignmentView(0, "E001", "John Doe", "P001", "Unknown", 1673740800000)]
  {
    var asg := s.assignments[0];
    var d := ProjectRoutes.Delete(s, "P001");
    assert ProjectIndex(s.projects, "P001") == Some(0);
    assert d.store == s.(projects := []);
    var listed := AssignmentRoutes.List(d.store).body;
    assert |listed| == 1;
    assert multiset(AssignmentRoutes.Bases(listed)) == multiset{asg};
    assert AssignmentRoutes.Bases(listed)[0] in multiset(AssignmentRoutes.Bases(listed));
    assert AssignmentRoutes.Base(listed[0]) == asg;
    assert AssignmentRoutes.EmployeeName(d.store, "E001") == "John Doe";
    assert AssignmentRoutes.ProjectName(d.store, "P001") == AssignmentRoutes.UNKNOWN;
  }
}

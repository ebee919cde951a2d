/**
 The three record schemas (backend/models): their shapes, the `required`
 rule checked when a new document is saved, the `start_date` default, and
 the employee's pre-save hook that replaces the password with its hash.

 A request body is modelled with optional string fields, since a client may
 omit any key. The document library's `required` rule on a string path
 accepts only a present, non-empty value.
 */
module Models {
  import opened Common

  datatype Employee = Employee(employeeId: string, fullName: string, email: string, hashedPassword: string)

  datatype Project = Project(projectCode: string, projectName: string, projectDescription: string)

  /** `id` stands for the generated document identifier `_id`. */
  datatype Assignment = Assignment(id: nat, employeeId: string, projectCode: string, startDate: int)

  /** The body of a create request; `hashedPassword` holds the plaintext, as the form sends it. */
  datatype EmployeeBody = EmployeeBody(
    employeeId: Option<string>, fullName: Option<string>, email: Option<string>, hashedPassword: Option<string>)

  datatype ProjectBody = ProjectBody(
    projectCode: Option<string>, projectName: Option<string>, projectDescription: Option<string>)

  /** A body's `start_date`: omitted, a date (as a timestamp), a value that
      casts to no date (an empty string or `null`), or a value that is not a date.
      The default applies only to an omitted value. */
  datatype DateInput = Omitted | Given(t: int) | NullDate | Unparseable

  datatype AssignmentBody = AssignmentBody(employeeId: Option<string>, projectCode: Option<string>, startDate: DateInput)

  /** The outcome of building a document from a body: the document, or why it cannot be saved. */
  datatype Checked<+T> = Accepted(value: T) | Rejected(error: Error)

  /** One required string path of a schema and the value the body gives it. */
  datatype Field = Field(path: string, value: Option<string>)

  /** The required paths whose value is missing or empty, in schema order. */
  function MissingPaths(fs: seq<Field>): (r: seq<string>)
    ensures |r| <= |fs|
    ensures |r| == 0 <==> forall i :: 0 <= i < |fs| ==> Filled(fs[i].value)
    ensures forall i :: 0 <= i < |fs| && !Filled(fs[i].value) ==> fs[i].path in r
    ensures forall p :: p in r ==> exists i :: 0 <= i < |fs| && fs[i].path == p && !Filled(fs[i].value)
  {
    if |fs| == 0 then []
    else
      var rest := MissingPaths(fs[1..]);
      assert forall i :: 1 <= i < |fs| ==> fs[i] == fs[1..][i - 1];
      if Filled(fs[0].value) then rest else [fs[0].path] + rest
  }

  /** With distinct paths, a path is reported exactly when its value is missing. */
  lemma MissingPathsExact(fs: seq<Field>, i: nat)
    requires i < |fs|
    requires forall j :: 0 <= j < |fs| && j != i ==> fs[j].path != fs[i].path
    ensures fs[i].path in MissingPaths(fs) <==> !Filled(fs[i].value)
  {
  }

  function EmployeeFields(b: EmployeeBody): seq<Field> {
    [Field("employee_id", b.employeeId), Field("full_name", b.fullName),
     Field("email", b.email), Field("hashed_password", b.hashedPassword)]
  }

  function ProjectFields(b: ProjectBody): seq<Field> {
    [Field("project_code", b.projectCode), Field("project_name", b.projectName),
     Field("project_description", b.projectDescription)]
  }

  function AssignmentFields(b: AssignmentBody): seq<Field> {
    [Field("employee_id", b.employeeId), Field("project_code", b.projectCode)]
  }

  /** The required assignment paths that are missing, in schema order: the two
      string references, then `start_date` when it cast to no date. */
  function AssignmentMissingPaths(b: AssignmentBody): (r: seq<string>)
    ensures |r| == 0 <==> Filled(b.employeeId) && Filled(b.projectCode) && !b.startDate.NullDate?
    ensures "employee_id" in r <==> !Filled(b.employeeId)
    ensures "project_code" in r <==> !Filled(b.projectCode)
    ensures "start_date" in r <==> b.startDate.NullDate?
    ensures forall p :: p in r ==> p in ["employee_id", "project_code", "start_date"]
  {
    var fs := AssignmentFields(b);
    MissingPathsExact(fs, 0);
    MissingPathsExact(fs, 1);
    MissingPaths(fs) + (if b.startDate.NullDate? then ["start_date"] else [])
  }

  /** Each required employee path is reported exactly when its value is missing. */
  lemma EmployeeMissingPaths(b: EmployeeBody)
    ensures var m := MissingPaths(EmployeeFields(b));
      && ("employee_id" in m <==> !Filled(b.employeeId))
      && ("full_name" in m <==> !Filled(b.fullName))
      && ("email" in m <==> !Filled(b.email))
      && ("hashed_password" in m <==> !Filled(b.hashedPassword))
  {
    var fs := EmployeeFields(b);
    MissingPathsExact(fs, 0);
    MissingPathsExact(fs, 1);
    MissingPathsExact(fs, 2);
    MissingPathsExact(fs, 3);
  }

  /** Schema validation of a new employee document. */
  function ValidateEmployee(b: EmployeeBody): (r: Checked<Employee>)
    ensures r.Accepted? <==> Filled(b.employeeId) && Filled(b.fullName) && Filled(b.email) && Filled(b.hashedPassword)
    ensures r.Accepted? ==>
      && Some(r.value.employeeId) == b.employeeId && Some(r.value.fullName) == b.fullName
      && Some(r.value.email) == b.email && Some(r.value.hashedPassword) == b.hashedPassword
    ensures r.Rejected? ==> r.error.RequiredMissing? && r.error.model == "Employee"
    ensures r.Rejected? ==> r.error.paths == MissingPaths(EmployeeFields(b))
    ensures r.Rejected? ==> ("employee_id" in r.error.paths <==> !Filled(b.employeeId))
    ensures r.Rejected? ==> ("full_name" in r.error.paths <==> !Filled(b.fullName))
    ensures r.Rejected? ==> ("email" in r.error.paths <==> !Filled(b.email))
    ensures r.Rejected? ==> ("hashed_password" in r.error.paths <==> !Filled(b.hashedPassword))
  {
    var missing := MissingPaths(EmployeeFields(b));
    EmployeeMissingPaths(b);
    if |missing| == 0 then
      Accepted(Employee(b.employeeId.value, b.fullName.value, b.email.value, b.hashedPassword.value))
    else
      Rejected(RequiredMissing("Employee", missing))
  }

  /** Schema validation of a new project document. */
  function ValidateProject(b: ProjectBody): (r: Checked<Project>)
    ensures r.Accepted? <==> Filled(b.projectCode) && Filled(b.projectName) && Filled(b.projectDescription)
    ensures r.Accepted? ==>
      && Some(r.value.projectCode) == b.projectCode && Some(r.value.projectName) == b.projectName
      && Some(r.value.projectDescription) == b.projectDescription
    ensures r.Rejected? ==> r.error.RequiredMissing? && r.error.model == "Project"
    ensures r.Rejected? ==> r.error.paths == MissingPaths(ProjectFields(b))
    ensures r.Rejected? ==> ("project_code" in r.error.paths <==> !Filled(b.projectCode))
    ensures r.Rejected? ==> ("project_name" in r.error.paths <==> !Filled(b.projectName))
    ensures r.Rejected? ==> ("project_description" in r.error.paths <==> !Filled(b.projectDescription))
  {
    var fs := ProjectFields(b);
    MissingPathsExact(fs, 0);
    MissingPathsExact(fs, 1);
    MissingPathsExact(fs, 2);
    var missing := MissingPaths(fs);
    if |missing| == 0 then
      Accepted(Project(b.projectCode.value, b.projectName.value, b.projectDescription.value))
    else
      Rejected(RequiredMissing("Project", missing))
  }

  /** Schema validation of a new assignment document with identifier `id`, created
      at time `now`. An omitted `start_date` takes the creation time; one that
      casts to no date at all counts as missing, like an empty string path; a
      value that is not a date is rejected with a cast error. */
  function ValidateAssignment(b: AssignmentBody, id: nat, now: int): (r: Checked<Assignment>)
    ensures r.Accepted? <==>
      Filled(b.employeeId) && Filled(b.projectCode) && !b.startDate.NullDate? && !b.startDate.Unparseable?
    ensures r.Accepted? ==>
      && r.value.id == id
      && Some(r.value.employeeId) == b.employeeId && Some(r.value.projectCode) == b.projectCode
      && r.value.startDate == (if b.startDate.Given? then b.startDate.t else now)
    ensures r.Rejected? && !(Filled(b.employeeId) && Filled(b.projectCode) && !b.startDate.NullDate?) ==>
      && r.error.RequiredMissing? && r.error.model == "ProjectAssignment"
      && r.error.paths == AssignmentMissingPaths(b)
    ensures r.Rejected? && Filled(b.employeeId) && Filled(b.projectCode) && !b.startDate.NullDate? ==>
      r.error == CastFailed("start_date")
  {
    var missing := AssignmentMissingPaths(b);
    if |missing| != 0 then
      Rejected(RequiredMissing("ProjectAssignment", missing))
    else if b.startDate.Unparseable? then
      Rejected(CastFailed("start_date"))
    else if b.startDate.Given? then
      Accepted(Assignment(id, b.employeeId.value, b.projectCode.value, b.startDate.t))
    else
      Accepted(Assignment(id, b.employeeId.value, b.projectCode.value, now))
  }

  /** The pre-save hook. When the password path was modified it is replaced by
      `hash` of its value; a failing hash aborts the save. `hash` stands for the
      salted one-way hash and returns `None` when hashing fails. */
  function HashOnSave(e: Employee, passwordModified: bool, hash: string -> Option<string>): (r: Checked<Employee>)
    ensures r.Accepted? ==> r.value.(hashedPassword := e.hashedPassword) == e
    ensures !passwordModified ==> r == Accepted(e)
    ensures passwordModified ==> (r.Accepted? <==> hash(e.hashedPassword).Some?)
    ensures passwordModified && r.Accepted? ==> Some(r.value.hashedPassword) == hash(e.hashedPassword)
    ensures r.Rejected? ==> r.error == HashFailed
  {
    if !passwordModified then Accepted(e)
    else
      match hash(e.hashedPassword)
      case None => Rejected(HashFailed)
      case Some(h) => Accepted(e.(hashedPassword := h))
  }

  /** Saving a new employee document: schema validation runs first, then the
      hook; every path of a new document counts as modified. */
  function NewEmployee(b: EmployeeBody, hash: string -> Option<string>): (r: Checked<Employee>)
    ensures r.Accepted? <==>
      && Filled(b.employeeId) && Filled(b.fullName) && Filled(b.email) && Filled(b.hashedPassword)
      && hash(b.hashedPassword.value).Some?
    ensures r.Accepted? ==>
      && Some(r.value.employeeId) == b.employeeId && Some(r.value.fullName) == b.fullName
      && Some(r.value.email) == b.email && Some(r.value.hashedPassword) == hash(b.hashedPassword.value)
    ensures r.Rejected? && ValidateEmployee(b).Accepted? ==> r.error == HashFailed
    ensures ValidateEmployee(b).Rejected? ==> r == ValidateEmployee(b)
  {
    match ValidateEmployee(b)
    case Rejected(err) => Rejected(err)
    case Accepted(e) => HashOnSave(e, true, hash)
  }

  /** The `required` constraints, as every stored document satisfies them. The
      stored password is the hash output, which is not validated again. */
  predicate EmployeeComplete(e: Employee) {
    |e.employeeId| > 0 && |e.fullName| > 0 && |e.email| > 0
  }

  predicate ProjectComplete(p: Project) {
    |p.projectCode| > 0 && |p.projectName| > 0 && |p.projectDescription| > 0
  }

  predicate AssignmentComplete(a: Assignment) {
    |a.employeeId| > 0 && |a.projectCode| > 0
  }
}

/**
 The project handlers (backend/routes/projectRoutes.js): list, create, get
 one and delete, keyed by `project_code`.
 */
module ProjectRoutes {
  import opened Common
  import opened Models
  import opened RecordStore

  const CODE_TAKEN: string := "Project code already exists"
  const PROJECT_NOT_FOUND: string := "Project not found"
  const PROJECT_DELETED: string := "Project deleted successfully"

  /** GET / : every stored project, in store order. */
  function List(s: Store): (r: Reply<seq<Project>>)
    ensures r.Ok? && r.status == OK
    ensures |r.body| == |s.projects|
    ensures forall i :: 0 <= i < |r.body| ==> r.body[i] == s.projects[i]
  {
    Ok(OK, s.projects)
  }

  /** The body's `project_code` is already used by a stored project. */
  predicate CodeTaken(s: Store, b: ProjectBody) {
    ProjectByCodeKey(s, b.projectCode).Some?
  }

  /** POST /createProject : the code check, then the save (schema validation).
      Every failure is a 400 and leaves the store as it was. */
  function Create(s: Store, b: ProjectBody): (r: Step<Project>)
    ensures r.reply.Fail? ==> r.reply.status == BAD_REQUEST && r.store == s
    ensures CodeTaken(s, b) ==> r.reply == Fail(BAD_REQUEST, Message(CODE_TAKEN))
    ensures !CodeTaken(s, b) ==>
      (r.reply.Ok? <==> ValidateProject(b).Accepted?) &&
      (r.reply.Fail? ==> r.reply.error == ValidateProject(b).error)
    ensures r.reply.Ok? ==>
      && r.reply.status == CREATED
      && r.store.projects == s.projects + [r.reply.body]
      && r.store.employees == s.employees
      && r.store.assignments == s.assignments
      && r.store.nextId == s.nextId
      && Some(r.reply.body.projectCode) == b.projectCode
      && Some(r.reply.body.projectName) == b.projectName
      && Some(r.reply.body.projectDescription) == b.projectDescription
    ensures Valid(s) ==> Valid(r.store)
  {
    if CodeTaken(s, b) then Step(Fail(BAD_REQUEST, Message(CODE_TAKEN)), s)
    else
      match ValidateProject(b)
      case Rejected(err) => Step(Fail(BAD_REQUEST, err), s)
      case Accepted(p) =>
        var s' := s.(projects := s.projects + [p]);
        AddProjectValid(s, p);
        Step(Ok(CREATED, p), s')
  }

  /** GET /:code : the project with that code, or 404. */
  function GetOne(s: Store, code: string): (r: Reply<Project>)
    ensures r.Ok? <==> exists j :: 0 <= j < |s.projects| && s.projects[j].projectCode == code
    ensures r.Ok? ==> r.status == OK && r.body in s.projects && r.body.projectCode == code
    ensures r.Fail? ==> r == Fail(NOT_FOUND, Message(PROJECT_NOT_FOUND))
  {
    match ProjectByCode(s, code)
    case None => Fail(NOT_FOUND, Message(PROJECT_NOT_FOUND))
    case Some(p) => Ok(OK, p)
  }

  /** DELETE /:code : removes the first project with that code, or 404.
      Assignments referring to it are left in place. */
  function Delete(s: Store, code: string): (r: Step<string>)
    ensures r.store.employees == s.employees && r.store.assignments == s.assignments
    ensures r.store.nextId == s.nextId
    ensures r.reply.Fail? <==> forall j :: 0 <= j < |s.projects| ==> s.projects[j].projectCode != code
    ensures r.reply.Fail? ==> r.reply == Fail(NOT_FOUND, Message(PROJECT_NOT_FOUND)) && r.store == s
    ensures r.reply.Ok? ==>
      && r.reply == Ok(OK, PROJECT_DELETED)
      && |r.store.projects| == |s.projects| - 1
      && multiset(r.store.projects) <= multiset(s.projects)
      && (forall p :: p in s.projects && p.projectCode != code ==> p in r.store.projects)
    ensures Valid(s) ==> Valid(r.store)
    ensures Valid(s) ==> forall j :: 0 <= j < |r.store.projects| ==> r.store.projects[j].projectCode != code
  {
    match ProjectIndex(s.projects, code)
    case None => Step(Fail(NOT_FOUND, Message(PROJECT_NOT_FOUND)), s)
    case Some(k) =>
      var s' := s.(projects := RemoveAt(s.projects, k));
      RemoveProjectValid(s, k);
      Step(Ok(OK, PROJECT_DELETED), s')
  }

  /** Creating a project and then fetching it by its code gives back the same
      field values that were sent. */
  lemma CreateThenGetOne(s: Store, b: ProjectBody)
    requires Create(s, b).reply.Ok?
    ensures var r := GetOne(Create(s, b).store, b.projectCode.value);
      && r.Ok?
      && Some(r.body.projectCode) == b.projectCode
      && Some(r.body.projectName) == b.projectName
      && Some(r.body.projectDescription) == b.projectDescription
  {
    var s' := Create(s, b).store;
    var code := b.projectCode.value;
    assert ProjectByCode(s, code).None?;
    assert ProjectIndex(s'.projects, code) == Some(|s.projects|) by {
      assert s'.projects == s.projects + [Create(s, b).reply.body];
      assert s'.projects[|s.projects|].projectCode == code;
      assert forall j :: 0 <= j < |s.projects| ==> s'.projects[j] == s.projects[j];
    }
  }

  /** Deleting a just-created project by its code gives back the store as it was. */
  lemma CreateThenDeleteRestores(s: Store, b: ProjectBody)
    requires Create(s, b).reply.Ok?
    ensures Delete(Create(s, b).store, b.projectCode.value) == Step(Ok(OK, PROJECT_DELETED), s)
  {
    var s' := Create(s, b).store;
    var code := b.projectCode.value;
    assert ProjectByCode(s, code).None?;
    assert ProjectIndex(s'.projects, code) == Some(|s.projects|) by {
      assert s'.projects == s.projects + [Create(s, b).reply.body];
      assert s'.projects[|s.projects|].projectCode == code;
      assert forall j :: 0 <= j < |s.projects| ==> s'.projects[j] == s.projects[j];
    }
    assert RemoveAt(s'.projects, |s.projects|) == s.projects;
  }
}

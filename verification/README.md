# Employee / project / assignment records — a Dafny model

This project models the core of a small record-keeping web application.
The application stores employees, projects and assignments of employees to
projects, and has two parts:

- **The backend request handlers.** They form a state machine over a record
  store. Employees are keyed by `employee_id`, projects by `project_code`, and
  assignments by a generated `_id`. Each handler is a pure function from a
  store and a request to a reply and the next store. A reply is a success
  status with a payload, or an error status with an error.
  - Employee create checks that `employee_id` is new and then that `email` is
    new. It then validates the schema and replaces the password by its hash.
  - Project create checks that `project_code` is new.
  - Assignment create checks that the employee exists and then that the
    project exists, stopping at the first miss.
  - The assignment list sorts by `start_date`, latest first. It then joins in
    each referenced employee's `full_name` and project's `project_name`. A
    reference that resolves to nothing shows as `"Unknown"`.
  - A delete removes one record by key or answers 404. It never touches
    other collections, so assignments can refer to deleted records.
- **The frontend table ordering.** Each table has a sort state
  (field, direction) and a header-click rule. It shows a sorted copy of its
  rows. The assignment table shows only the first five rows. The initial
  states are (`start_date`, desc) for assignments, (`employee_id`, asc) for
  employees and (`project_code`, asc) for projects. They are the constants
  `Tables.ASSIGNMENT_INITIAL`, `Tables.EMPLOYEE_INITIAL` and
  `Tables.PROJECT_INITIAL`.

Modules, one per source file or component:

| file | module | models |
|---|---|---|
| `common.dfy` | `Common` | option, reply and error shapes, HTTP status constants, first-match search, removal by position |
| `models.dfy` | `Models` | the three schemas, their `required` rules, the `start_date` default, the pre-save hash hook |
| `store.dfy` | `RecordStore` | the store, point lookups, the store invariant (uniqueness and required fields) |
| `employee_routes.dfy` | `EmployeeRoutes` | `backend/routes/employeeRoutes.js` |
| `project_routes.dfy` | `ProjectRoutes` | `backend/routes/projectRoutes.js` |
| `assignment_routes.dfy` | `AssignmentRoutes` | `backend/routes/assignmentRoutes.js` and the enrichment join |
| `ordering.dfy` | `Ordering` | the field comparator, its direction, a stable sort, `slice(0, n)` |
| `tables.dfy` | `Tables` | the three `*Table.jsx` sort states and displayed rows |
| `backend.dfy` | `Backend` | all requests as one transition, and properties across handlers |

Modelling choices:

- The store keeps each collection as a sequence in insertion order.
  Lookups return the first match, as a single-document query does.
  The generated `_id` of an assignment is a natural number taken from a
  counter in the store.
- Request bodies have optional string fields, because a client may omit any
  key. A `required` string path accepts only a present, non-empty value. A
  query on an omitted key matches no record, because every stored record has
  that key.
- Schema validation of a new document runs before the pre-save hook. The
  hook hashes the password only when that path was modified, and every path
  of a new document counts as modified. The hash function is a parameter
  `hash: string -> Option<string>`, where `None` means hashing failed.
- The clock reading for the `start_date` default is a parameter `now`.
- `localeCompare` is modelled as lexicographic order on character codes, and
  dates are modelled as integer timestamps.
- The `Promise.all` lookups of the assignment list are modelled one after
  another against a single store state.
- The create routes are `/createEmployee` and `/createProject`, and the
  password field is `hashed_password`.

## Model

| member | source | states |
|---|---|---|
| `Models.ValidateEmployee` | backend/models/Employee.js:4-23 | a new employee is accepted exactly when `employee_id`, `full_name`, `email` and `hashed_password` are all present and non-empty; the accepted record copies them; a rejection names each missing path and only those |
| `Models.ValidateProject` | backend/models/Project.js:3-17 | a new project is accepted exactly when `project_code`, `project_name` and `project_description` are present and non-empty; a rejection names exactly the missing paths |
| `Models.AssignmentMissingPaths` | backend/models/ProjectAssignment.js:3-19 | `employee_id`, `project_code` and `start_date` are each reported exactly when missing, and no other path is reported |
| `Models.ValidateAssignment` | backend/models/ProjectAssignment.js:3-19 | an assignment is accepted exactly when `employee_id` and `project_code` are present and non-empty and `start_date` is omitted or a date; an omitted `start_date` becomes the creation time and a given one is kept; a `start_date` that casts to no date (an empty string) is a missing required path, reported with the other missing paths; a value that is not a date is a cast error |
| `Models.HashOnSave` | backend/models/Employee.js:26-36 | an unmodified password is kept as stored; a modified one becomes its hash; a hashing failure aborts the save; no other field changes |
| `Models.NewEmployee` | backend/routes/employeeRoutes.js:30-31 | saving a new employee succeeds exactly when validation passes and hashing succeeds; the stored password is the hash of the plaintext sent |
| `RecordStore.EmployeeById` | backend/routes/employeeRoutes.js:44 | the lookup by `employee_id` returns a stored employee with that id, or nothing exactly when no stored employee has it |
| `RecordStore.EmployeeByEmail` | backend/routes/employeeRoutes.js:25 | the lookup by `email` returns a stored employee with that email, or nothing exactly when none has it |
| `RecordStore.ProjectByCode` | backend/routes/projectRoutes.js:35 | the lookup by `project_code` returns a stored project with that code, or nothing exactly when none has it |
| `RecordStore.EmployeeByIdKey` | backend/routes/assignmentRoutes.js:38 | a lookup on an omitted `employee_id` finds nothing; a present one behaves as the lookup by id |
| `RecordStore.EmployeeByEmailKey` | backend/routes/employeeRoutes.js:25 | a lookup on an omitted `email` finds nothing; a present one behaves as the lookup by email |
| `RecordStore.ProjectByCodeKey` | backend/routes/assignmentRoutes.js:44 | a lookup on an omitted `project_code` finds nothing; a present one behaves as the lookup by code |
| `RecordStore.AddEmployeeValid` | backend/models/Employee.js:5-18 | adding a complete employee whose id and email are both unused keeps `employee_id` and `email` unique |
| `RecordStore.AddProjectValid` | backend/models/Project.js:4-8 | adding a complete project with an unused code keeps `project_code` unique |
| `RecordStore.AddAssignmentValid` | backend/models/ProjectAssignment.js:3-19 | adding an assignment under the next identifier keeps identifiers distinct and issued |
| `RecordStore.RemoveEmployeeValid` | backend/routes/employeeRoutes.js:57 | removing one employee keeps the store invariant |
| `RecordStore.RemoveProjectValid` | backend/routes/projectRoutes.js:48 | removing one project keeps the store invariant |
| `RecordStore.RemoveAssignmentValid` | backend/routes/assignmentRoutes.js:68 | removing one assignment keeps the store invariant |
| `EmployeeRoutes.List` | backend/routes/employeeRoutes.js:6-13 | one row per stored employee, in store order, carrying id, name and email and no password hash |
| `EmployeeRoutes.Create` | backend/routes/employeeRoutes.js:16-39 | a used id gives 400 "Employee ID already exists"; otherwise a used email gives 400 "Email already exists"; otherwise a validation or hashing failure gives 400; every failure leaves the store unchanged; a success appends exactly one employee built from the body with the hashed password, returns 201 without the hash, and keeps ids and emails unique |
| `EmployeeRoutes.GetOne` | backend/routes/employeeRoutes.js:42-52 | 200 with the matching employee minus its hash exactly when one exists, else 404 "Employee not found" |
| `EmployeeRoutes.Delete` | backend/routes/employeeRoutes.js:55-65 | 404 "Employee not found" with the store unchanged exactly when no employee has the id; otherwise exactly one employee is removed and all others stay; projects and assignments are never touched |
| `EmployeeRoutes.CreateThenGetOne` | backend/routes/employeeRoutes.js:16-52 | an employee fetched right after its creation is the one the create returned |
| `EmployeeRoutes.CreateThenDeleteRestores` | backend/routes/employeeRoutes.js:16-65 | deleting a just-created employee restores the earlier store |
| `ProjectRoutes.List` | backend/routes/projectRoutes.js:6-13 | every stored project, in store order |
| `ProjectRoutes.Create` | backend/routes/projectRoutes.js:16-30 | a used code gives 400 "Project code already exists"; otherwise a validation failure gives 400; failures leave the store unchanged; a success appends exactly the project built from the body, returns 201 and keeps codes unique |
| `ProjectRoutes.GetOne` | backend/routes/projectRoutes.js:33-43 | 200 with a stored project of that code exactly when one exists, else 404 "Project not found" |
| `ProjectRoutes.Delete` | backend/routes/projectRoutes.js:46-56 | 404 with the store unchanged exactly when no project has the code; otherwise exactly one project is removed; employees and assignments are never touched |
| `ProjectRoutes.CreateThenGetOne` | backend/routes/projectRoutes.js:16-43 | creating a project and fetching it by code gives back the field values sent |
| `ProjectRoutes.CreateThenDeleteRestores` | backend/routes/projectRoutes.js:16-56 | deleting a just-created project restores the earlier store |
| `AssignmentRoutes.EmployeeName` | backend/routes/assignmentRoutes.js:15-21 | the name is the `full_name` of a stored employee with the id, or exactly "Unknown" when there is none |
| `AssignmentRoutes.ProjectName` | backend/routes/assignmentRoutes.js:16-23 | the name is the `project_name` of a stored project with the code, or exactly "Unknown" when there is none |
| `AssignmentRoutes.Enrich` | backend/routes/assignmentRoutes.js:14-26 | one view per assignment in the same order; forgetting the names gives back the input (`_id`, `employee_id`, `project_code`, `start_date` copied); names resolved against the store |
| `AssignmentRoutes.List` | backend/routes/assignmentRoutes.js:8-32 | the views are a permutation of the stored assignments, ordered by `start_date` latest first, each with resolved names |
| `AssignmentRoutes.Create` | backend/routes/assignmentRoutes.js:35-63 | a missing employee gives 400 "Employee does not exist" whatever the project; otherwise a missing project gives 400 "Project does not exist"; otherwise a failed save gives 400 with the validation error; failures leave the store unchanged; a success appends exactly one assignment under a fresh id and returns 201 with the names of the records the checks found |
| `AssignmentRoutes.Delete` | backend/routes/assignmentRoutes.js:66-76 | 404 "Assignment not found" with the store unchanged exactly when no assignment has the id; otherwise only that assignment is removed |
| `Ordering.CompareText` | frontend/src/components/AssignmentTable.jsx:14-17 | the string comparison returns -1, 0 or 1, and 0 exactly for equal strings |
| `Ordering.CompareTextFlip` | frontend/src/components/EmployeeTable.jsx:14-17 | swapping the strings negates the comparison |
| `Ordering.CompareTextTransitive` | frontend/src/components/ProjectTable.jsx:14-17 | the string comparison is transitive |
| `Ordering.CompareKeys` | frontend/src/components/AssignmentTable.jsx:12-20 | the field comparison is 0 exactly on equal values, orders dates by time and strings by the string comparison |
| `Ordering.PrecedesTransitive` | frontend/src/components/AssignmentTable.jsx:22 | the directed comparison, negated for desc, stays transitive |
| `Ordering.InsertSorted` | frontend/src/components/EmployeeTable.jsx:11-22 | inserting a row into ordered rows keeps them ordered |
| `Ordering.SortBy` | frontend/src/components/AssignmentTable.jsx:11-22 | the sorted copy is a permutation of the rows and ordered by the directed comparison |
| `Ordering.SortByBlankKeepsOrder` | frontend/src/components/ProjectTable.jsx:12-22 | when the comparator never distinguishes rows, the copy keeps the input order |
| `Ordering.SortBySortedKeepsOrder` | frontend/src/components/AssignmentTable.jsx:11-22 | rows already in order come out unchanged |
| `Ordering.Take` | frontend/src/components/AssignmentTable.jsx:23 | `slice(0, n)` keeps the first min(n, length) rows |
| `Ordering.TakeSorted` | frontend/src/components/AssignmentTable.jsx:23 | the first rows of an ordered list are ordered, are drawn from it, and rank no later than any row left out |
| `Tables.HandleSort` | frontend/src/components/AssignmentTable.jsx:25-32 | the clicked field becomes the sort field; the same field flips the direction; a new field sorts ascending |
| `Tables.HandleSortTwice` | frontend/src/components/AssignmentTable.jsx:26-27 | two clicks on the current field restore the state |
| `Tables.RepeatedClicks` | frontend/src/components/EmployeeTable.jsx:25-32 | n clicks on the current field keep it and flip the direction n times |
| `Tables.SortedAssignments` | frontend/src/components/AssignmentTable.jsx:11-23 | at most five rows and at most the input length, drawn from the input, ordered by the state, ranking no later than any row left out; by `start_date` the timestamps ascend or descend, and by `employee_id`, `employee_name`, `project_code` or `project_name` the string comparison in the chosen direction orders the rows |
| `Tables.AssignmentFieldOrder` | frontend/src/components/AssignmentTable.jsx:14-22 | rows ordered on an assignment column are ordered by that column's value in the chosen direction |
| `Tables.SortedEmployees` | frontend/src/components/EmployeeTable.jsx:11-23 | a permutation of the rows with no truncation, ordered by the selected field and direction: by `employee_id`, `full_name` or `email`, the string comparison of that field orders the rows; an unrecognised field keeps the input order |
| `Tables.EmployeeFieldOrder` | frontend/src/components/EmployeeTable.jsx:14-22 | rows ordered on an employee column are ordered by the string comparison of that column |
| `Tables.SortedProjects` | frontend/src/components/ProjectTable.jsx:11-23 | a permutation of the rows with no truncation, ordered by the selected field and direction: by `project_code`, `project_name` or `project_description`, the string comparison of that field orders the rows; an unrecognised field keeps the input order |
| `Tables.ProjectFieldOrder` | frontend/src/components/ProjectTable.jsx:14-22 | rows ordered on a project column are ordered by the string comparison of that column |
| `Tables.InitialAssignmentView` | frontend/src/components/AssignmentTable.jsx:6-23 | in its initial state the assignment table shows the first five rows of the backend list in the backend's order |
| `Backend.RunKeepsValid` | backend/routes/employeeRoutes.js:16-65 | any sequence of requests to the employee handlers cited, and likewise to the project handlers (backend/routes/projectRoutes.js:16-56) and the assignment handlers (backend/routes/assignmentRoutes.js:35-76), keeps ids, emails and project codes unique, keeps every stored record complete, and keeps assignment identifiers fresh |
| `Backend.ReachableStoresUnique` | backend/routes/employeeRoutes.js:19-28 | in every store reachable from the empty one, ids, emails and project codes are unique |
| `Backend.DeletedEmployeeListsUnknown` | backend/routes/assignmentRoutes.js:15-21 | after an employee is deleted, every assignment is still listed, and those referring to it show "Unknown" |
| `Backend.DeletedProjectListsUnknown` | backend/routes/assignmentRoutes.js:16-23 | after a project is deleted, every assignment is still listed, and those referring to it show "Unknown" |
| `Backend.CreatedAssignmentIsListed` | backend/routes/assignmentRoutes.js:53-57 | the create reply is exactly one of the rows the list returns right afterwards |
| `Backend.SamePairAssignedTwice` | backend/models/ProjectAssignment.js:3-19 | the same employee and project can be assigned twice, under distinct ids |
| `Backend.CreateThenDeleteAssignment` | backend/routes/assignmentRoutes.js:66-72 | deleting a just-created assignment restores the store, except that its id stays used |
| `Backend.OrphanedProjectScenario` | backend/routes/projectRoutes.js:46-56 | in a worked run, an assignment to a project that is then deleted is still listed, with project name "Unknown" |

## Left out

- Store failures: every 500 reply and every store error caught in a handler. The store here cannot fail.
- HTTP routing, request parsing and JSON serialisation. Statuses appear only as numbers in replies.
- The exact text of the document library's validation, cast and hash errors. The model keeps a structured error instead.
- `Models.ValidateAssignment`: when both a required path is missing and `start_date` is not a date, the library reports both errors in one validation error. The model reports only the missing paths.
- A client-supplied `_id` in a create body. The library keeps it, and a malformed or duplicate one makes the save fail with 400. The model always assigns a fresh identifier.
- Values of a type other than string in a request body, and the casts the library would apply to them.
- An assignment `_id` that is not a valid identifier. It makes the delete answer 500. Identifiers here are natural numbers.
- The library's unique indexes. The handlers' own checks run first, so these indexes never reject a save in a sequential run.
- `createdAt`, `updatedAt`, `__v`, and the `_id` of employees and projects. The library sets them. Table rows carry no timestamps, so the tables' `createdAt` comparator branch reads every row as equal. No header selects that field.
- bcrypt's salt and algorithm. They are folded into the `hash` parameter. Seed-time hashing is not part of this model.
- `Models.HashOnSave`: its branch for an unmodified password is stated, but no handler reaches it, because no handler saves an existing employee.
- `Tables.SortedEmployees`: the `createdAt` branch of the comparator is modelled as blank, so that field keeps the input order instead of ordering by creation time. No header selects it.
- `Tables.SortedProjects`: the `createdAt` branch is modelled as blank in the same way.
- Concurrent interleaving of the list's per-row lookups with other requests.
- Locale rules of `localeCompare`, and parsing of date strings in the tables.
- `AssignmentRoutes.List`: the order among equal start dates is not stated. The database does not promise one. The model's stable sort happens to keep insertion order.
- `Ordering.SortBy`: stability is not stated as a contract.
- Rendering, date formatting, the delete buttons and confirmation dialogs of the tables, the form components, the application shell, the HTTP client wrappers, the seed script and the server bootstrap.

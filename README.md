# Graduation project backend: membership, capacity and progress

The backend lets students form graduation-project teams under a supervisor and follow the
team's tasks. This model covers its core rules:

- **Membership.** A student creates a project, becomes its leader and gets a fresh team code.
  Other students join with that code until the team has four members.
- **One project per student.** Nobody may lead or belong to two projects.
- **Supervisor capacity.** Each supervisor counts the projects they supervise. They turn
  'full' when the count reaches their maximum, or when they set the status by hand. A
  capacity update never clears a 'full' set by hand.
- **Progress aggregation.** A project's tasks are counted per status. The counts give a
  completion percentage rounded like `Math.round`. The team is "Needs Attention" when more
  than half of its tasks are overdue.
- **Views.** The dashboard chooses its data by role, and an administrator's view wins unless the student's part throws first. A
  supervisor sees their students, their teams and their teams' tasks.
- **Task table.** An older task controller keeps a table of tasks. Only a task's owner may
  list, rename or delete it.

The database is replaced by in-memory collections:

- users: a `map` from id to `User`;
- projects: a `seq<Project>` in insertion order, where a project's id is its position;
- tasks: a `seq<Task>`.

Time is an integer timestamp passed in as a parameter. The team-code generator is an
oracle: the sequence of codes it would produce.

Layout:

- `common.dfy` holds ids, `Option`, `Result` and the error kinds with their HTTP codes.
- `models.dfy` holds the three schemas, their defaults and their constraints.
- `queries.dfy` holds `findOne`, `find` and `countDocuments` over a collection, with their
  counting lemmas.
- `recency.dfy` models `.sort({ key: -1 }).limit(n)`.
- `progress.dfy` holds the pure aggregations of the project controller.
- `membership.dfy` holds the `Store` class. Its methods change users and projects in place:
  create, join, schedule, supervisor status and capacity. Its invariant `Valid()` says:
  - usernames and emails are unique;
  - teams have one to four distinct members, with the leader first;
  - a team is 'full' exactly when it has four members;
  - team codes are unique;
  - each user is in at most one project;
  - every supervisor's `currentProjects` equals the number of projects naming them.
- `supervision.dfy` holds the supervisor controller's read side.
- `dashboard.dfy` holds the role-based dashboard.
- `owned_tasks.dfy` holds the `TaskTable` class of the owner-scoped task controller.

Behaviour of the code that the model keeps as written:

- `setFinalPresentation` lets any caller schedule any project. Its check that the caller
  supervises the project is commented out.
- The dashboard gives a supervisor and an administrator plain project lists, without
  summaries, counts, upcoming discussions or recent projects.
- The task controller stores `{ title, userId }` rows owned by their creator. Only the
  creator may list, rename or delete them.
- `createProject` takes `sendProjectInviteEmail` from `utils/mailer.js`, which exports only
  `sendReminderEmail` (utils/mailer.js:27). The name is therefore undefined. Calling it throws
  for every non-empty `emails` array, and the answer is 500. The project and the supervisor
  are already saved by then (controllers/projectController.js:58, :66 and :69-76).
- Team-code generation retries until it finds a free code. The loop has no bound.

## Model

| member | source | states |
|---|---|---|
| Models.NewUser | models/User.js:3-13 | a new user is not an administrator and is a Student unless told otherwise; the supervisor fields start absent |
| Models.NewProject | models/Project.js:17-25 | a saved project has status 'open', both timestamps set to the time of saving and no presentation, and keeps the given fields |
| Models.SchemaAllowsAnyTeamSize | models/Project.js:22 | the schema puts no bound on the member list: any number of members keeps a project well formed |
| Models.NewTask | models/Task.js:3-41 | a new task defaults to Pending, progress 0 and `reminderSent` false, with both dates set to creation time |
| Models.NewTaskWellFormed | models/Task.js:4-22 | a task saved with the defaults and a title satisfies the schema's constraints, progress within [0, 100] |
| Membership.FindMembership | controllers/projectController.js:12-17 | finds a project where the user is leader or member, and finds none exactly when no such project exists |
| Membership.FindByTeamCode | controllers/projectController.js:106-109 | finds a project holding the code, and finds none exactly when no project holds it |
| Membership.Store.GetMyProject | controllers/projectController.js:141-163 | the user's project, or none exactly when the user is in no project; in a valid store it is the only project containing the user |
| Membership.Store.GetProjectMembers | controllers/projectController.js:194-215 | the member list of a project containing the user, or 404 exactly when there is none |
| Membership.Store.GetFinalPresentation | controllers/projectController.js:243-256 | the presentation stored on the project with that id, or 404 exactly when no project has the id |
| Membership.Store.MintTeamCode | controllers/projectController.js:40-46 | the first generated code that no project holds, or none exactly when every generated code is taken |
| Membership.Enrolled | controllers/projectController.js:62-65 | the supervisor's count rises by exactly one; the status turns 'full' when the new count reaches `maxProjects` and is otherwise unchanged; no other field changes |
| Membership.Store.CreateProject | controllers/projectController.js:7-88 | checks run in the controller's order, and a failed check changes nothing; a request passing every check, with a free code drawn, succeeds exactly when `emails` is empty; with invitations it answers 500 after saving; once saved, the requester is leader and only member, the code is fresh, the supervisor's count rises by one and the supervisor turns 'full' exactly when the count reaches `maxProjects`; the store stays valid |
| Membership.CreatePreservesInvariant | controllers/projectController.js:48-66 | a created project and the bumped counter keep every part of the store's invariant, including the counter matching the supervised-project count |
| Membership.CreateKeepsOneProjectPerUser | controllers/projectController.js:12-21 | a new team whose only member was in no project keeps every user in at most one project |
| Membership.CreateKeepsCounts | controllers/projectController.js:62 | after a creation each supervisor's counter still equals the number of projects naming them |
| Membership.Joined | controllers/projectController.js:120-126 | the requester is appended at the end of the members; the team is 'full' when that makes four and keeps its status otherwise; no other field changes but the update time |
| Membership.Store.JoinProject | controllers/projectController.js:90-138 | refuses a user already in a project, an unknown code (404) and a team of four, changing nothing; a request passing the three checks succeeds; it appends exactly the requester, turns the team 'full' exactly at four members, and never exceeds four |
| Membership.JoinPreservesInvariant | controllers/projectController.js:116-128 | appending a user who is in no project keeps the whole store invariant |
| Membership.JoinKeepsTeam | controllers/projectController.js:116-126 | a team below four that gains a new member keeps its members distinct, at most four, the leader first and the status 'full' exactly at four |
| Membership.JoinKeepsOneProjectPerUser | controllers/projectController.js:94-103 | adding a user who is in no project to a team keeps every user in at most one project |
| Membership.Store.SetFinalPresentation | controllers/projectController.js:218-240 | 404 exactly for an unknown project; otherwise replaces that project's presentation with the date and changes nothing else |
| Membership.SchedulePreservesInvariant | controllers/projectController.js:233-234 | rescheduling leaves the store's invariant intact |
| Membership.CredentialsKept | models/User.js:4-7 | changing a user's supervisor fields keeps usernames and emails present and unique |
| Membership.Store.UpdateSupervisorStatus | controllers/supervisorController.js:11-37 | only "available" and "full" are accepted (400); the status becomes exactly that value, whatever the capacity; nothing else changes |
| Membership.Store.SetMaxProjects | controllers/supervisorController.js:153-185 | a missing, zero or negative limit is 400 with no change; otherwise the limit is stored, a 'full' status stays 'full', and any other becomes 'full' exactly when the supervised-project count reaches the limit, else 'available' |
| Progress.TasksOf | controllers/projectController.js:172 | exactly the tasks of the project, in a number equal to the count of the project's tasks |
| Progress.TasksOfSelects | controllers/projectController.js:172 | each task of the project is listed as often as it is stored, and no other task is |
| Queries.WhereSelects | controllers/taskController.js:25 | a `find` keeps every matching document as often as it is stored and nothing else |
| Progress.StatusCountsPartition | controllers/projectController.js:174-177 | the Completed, In Progress and Pending counts add up to the number of tasks |
| Progress.CompletionPercentage | controllers/projectController.js:179-181 | 0 without tasks; otherwise within one half of 100 × completed / total, as `Math.round` gives it; never above 100 |
| Progress.GetProjectProgressSummary | controllers/projectController.js:164-192 | fails exactly when no project has the id, with the 500 of the caller's catch; otherwise the per-status counts add up to the total and the percentage is the rounded completed share |
| Progress.HalfThreshold | controllers/projectController.js:329 | `overdue / total > 0.5` holds exactly when `2 × overdue > total` |
| Progress.GetProjectStatus | controllers/projectController.js:315-334 | "Needs Attention" exactly when there are tasks and strictly more than half of them are overdue and not Completed |
| Progress.GetUpcomingDiscussions | controllers/projectController.js:263-287 | the window is 7 days unless given; counts the supervisor's presentations at or after the current instant; picks the "upcoming" message exactly when one falls within `days` days, and then the count is positive |
| Recency.SortNewestFirst | controllers/supervisorController.js:135-137 | the documents, reordered, newest first |
| Recency.Newest | controllers/projectController.js:306-309 | at most `limit` documents (all for 0), newest first, drawn from the input, and none left out is newer than one kept |
| Progress.GetRecentProjects | controllers/projectController.js:305-312 | at most `limit` (3 unless given; all for 0) of the supervisor's projects, no stored project repeated, latest updated first, and no left-out supervised project is newer than a returned one |
| Supervision.GetAvailableSupervisors | controllers/supervisorController.js:42-53 | exactly the Supervisors whose status is 'available' |
| Supervision.AvailableMeansAccepted | controllers/supervisorController.js:44-47 | a supervisor is listed exactly when `createProject` would accept them |
| Supervision.RosterSpec | controllers/supervisorController.js:71-79 | the pushed list holds exactly the leaders and members of the supervisor's projects |
| Supervision.UniqueStudentsSpec | controllers/supervisorController.js:82-85 | the dictionary keeps each id once, and exactly the ids that resolve to a user |
| Supervision.GetMyStudents | controllers/supervisorController.js:69-89 | every existing leader or member of the supervisor's projects, each exactly once, in first-seen order |
| Supervision.FindSupervised | controllers/supervisorController.js:98-105 | finds the project only when both its id and its supervisor match |
| Supervision.GetTeamDetails | controllers/supervisorController.js:92-121 | 404 unless the project with that id names the requester as supervisor; otherwise that project with its summary and status, and the summary cannot fail |
| Supervision.FormatTask | controllers/supervisorController.js:139-146 | a row keeps the task's id, title, status and due date; the assignee is null exactly when the user no longer exists |
| Supervision.GetTeamTasks | controllers/supervisorController.js:124-151 | 404 unless the requester supervises the project; otherwise one row per project task, newest created first |
| Supervision.TeamTasksComplete | controllers/supervisorController.js:135-147 | the listing has as many rows as the project has tasks |
| Dashboard.StudentPart | controllers/dashboardController.js:14-30 | empty without a project; otherwise the project with its progress summary and the task summary, or 500 when the task-summary helper is missing |
| Dashboard.GetDashboard | controllers/dashboardController.js:5-55 | 404 exactly for an unknown user; a Supervisor gets exactly the supervised projects; an administrator gets all projects whenever the student part did not fail; a Student in a project, administrator or not, gets 500 when the task-summary helper is missing; an empty answer means a Student in no project |
| OwnedTasks.OwnedBy | controllers/taskController.js:25 | exactly the owner's tasks, each as often as it is stored, in a number equal to the count of the owner's tasks |
| OwnedTasks.FindOwned | controllers/taskController.js:37-38 | finds a task only when both id and owner match, and finds none exactly when no such task exists |
| OwnedTasks.OtherOwnersUnaffected | controllers/taskController.js:37-60 | replacing or removing one owner's task leaves every other owner's list unchanged |
| OwnedTasks.TaskTable.CreateTask | controllers/taskController.js:4-20 | appends a task with the given title and owner under an unused id; only that owner's list grows |
| OwnedTasks.TaskTable.GetAllTasks | controllers/taskController.js:23-33 | exactly the requester's tasks, none dropped or repeated |
| OwnedTasks.TaskTable.UpdateTask | controllers/taskController.js:34-49 | 404 exactly when the requester owns no task with that id; otherwise only that task's title changes |
| OwnedTasks.TaskTable.DeleteTask | controllers/taskController.js:52-65 | 404 exactly when the requester owns no task with that id; otherwise only that task is removed, no task of another owner is removed and no row keeps the id |

## Left out

- Express wiring, routes and middleware are out, and so are token verification, bcrypt hashing and JWT signing. The requester's identity is a given id, and the user's role and admin flag come from the user record.
- The response envelope and console logging are out. The `.populate` and `.select` projections are out too: results carry ids or whole records.
- Supervision.GetMyStudents: returns the students' ids, not the populated `{ username, email }` documents.
- Progress.GetRecentProjects: returns whole projects, not the `projectName`/`updatedAt` projection.
- Supervision.GetTeamDetails: returns the project unpopulated; supervisor, leader and members are ids.
- The mailer and the reminder job are out: they are SMTP I/O and a timer.
- Membership.Store.CreateProject: `emails` is a list of strings. A missing or non-array value is passed as the empty list, which `Array.isArray` skips in the same way.
- Membership.Store.MintTeamCode: the generator's codes are a finite parameter. When every one is taken the model answers `Unexpected`; the source would keep drawing codes.
- Membership.Store.CreateProject: a supervisor without a `currentProjects` field would give `NaN` in the source. The model starts every counter at the number of supervised projects, 0 for a new supervisor.
- Membership.Store.CreateProject: the model assumes the generated codes are non-empty.
- Membership.Store.SetMaxProjects: only integer limits are modelled. JavaScript coercion of string or fractional values is not.
- Membership.Store.UpdateSupervisorStatus: only string statuses are modelled.
- Membership.Store.JoinProject: a request without a team code is not modelled.
- Membership.Store.SetFinalPresentation: the date is assumed present. The model stores an integer timestamp instead of a `{ date }` object.
- Read-then-write races between concurrent requests are out.
- Ids are well-formed: an id is a number here. A malformed id string makes `findById` or `findOne({ _id })` throw a cast error, which the source answers with 500. The model has no such input, so it never gives that 500, and it answers 404 for an unknown well-formed id.
- The authorization checks that are commented out in the source are not current behaviour, and the model leaves them out.
- Floating point is out. `Math.round` and the `> 0.5` comparison are stated in exact real arithmetic.
- Progress.GetUpcomingDiscussions: "`days` days later" is `days × 86 400 000` ms. `setDate` actually adds calendar days in local time, and the model ignores daylight-saving shifts.
- Dashboard.GetDashboard: `getMyTaskSummary` is not part of this model. Its answer is a parameter, and `None` stands for the helper's absence from the task controller.
- `getMyProjects` and `getSupervisedProjects` are plain finds by supervisor. They appear only as the dashboard's Supervisor filter.
- Task-schema validation is out. Checked against models/Task.js, the task controller's `{ title, userId }` documents would lack the required `projectId`, `assignedBy` and `assignedTo`. The task table follows the controller.
- `Task.updatedAt` is never refreshed by the task controller, so the model has no field for it.

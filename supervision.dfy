/** The supervisor's views: the available supervisors a student may pick, the students of
    a supervisor's teams, and the details and tasks of one team, which only the team's own
    supervisor may see. */
module Supervision {
  import opened Common
  import opened Models
  import opened Queries
  import Recency
  import opened Progress
  import opened Membership

  // ---------------------------------------------------------------- available supervisors

  /** `getAvailableSupervisors`: the users that are Supervisors with status 'available'. */
  function GetAvailableSupervisors(users: map<Id, User>): (r: set<Id>)
    ensures forall s :: s in r <==> s in users && users[s].userType == Supervisor && users[s].status == Available
  {
    set s | s in users && users[s].userType == Supervisor && users[s].status == Available
  }

  /** The list a student picks from is exactly the set of supervisors `createProject`
      accepts: a supervisor passes its two supervisor checks if and only if it is listed. */
  lemma AvailableMeansAccepted(users: map<Id, User>, projects: seq<Project>, requester: Id,
                               projectName: string, s: Id)
    requires FindMembership(projects, requester).None? && projectName != ""
    ensures Admissible(users, projects, requester, projectName, Some(s)) <==> s in GetAvailableSupervisors(users)
  {
  }

  // ---------------------------------------------------------------- students

  /** The leader followed by the members of every project the supervisor supervises, in
      project order, repetitions included: the array `getMyStudents` pushes into. */
  function Roster(projects: seq<Project>, supervisorId: Id): seq<Id>
  {
    if projects == [] then []
    else
      var p := projects[|projects| - 1];
      Roster(projects[..|projects| - 1], supervisorId) + (if p.supervisor == supervisorId then [p.leader] + p.members else [])
  }

  /** An id is in the roster exactly when it is leader or member of one of the supervisor's
      projects. */
  lemma {:induction false} RosterSpec(projects: seq<Project>, supervisorId: Id, x: Id)
    ensures x in Roster(projects, supervisorId) <==>
              exists k :: 0 <= k < |projects| && projects[k].supervisor == supervisorId && InProject(projects[k], x)
  {
    if projects != [] {
      var last := |projects| - 1;
      var init := projects[..last];
      RosterSpec(init, supervisorId, x);
      if x in Roster(projects, supervisorId) && x !in Roster(init, supervisorId) {
        assert projects[last].supervisor == supervisorId && InProject(projects[last], x);
      }
      if x in Roster(init, supervisorId) {
        var k :| 0 <= k < |init| && init[k].supervisor == supervisorId && InProject(init[k], x);
        assert projects[k] == init[k];
      }
      if exists k :: 0 <= k < |projects| && projects[k].supervisor == supervisorId && InProject(projects[k], x) {
        var k :| 0 <= k < |projects| && projects[k].supervisor == supervisorId && InProject(projects[k], x);
        if k < last {
          assert init[k] == projects[k];
        }
      }
    }
  }

  /** The ids of `students` that resolve to a user, each once, in the order of first
      occurrence: what the `unique` dictionary holds once every entry has been added. */
  function UniqueStudents(users: map<Id, User>, students: seq<Id>): (r: seq<Id>)
  {
    if students == [] then []
    else
      var init := UniqueStudents(users, students[..|students| - 1]);
      var s := students[|students| - 1];
      if s !in users || s in init then init else init + [s]
  }

  /** Each id the dictionary keeps occurs once, and it keeps exactly the ids that resolve to
      a user. */
  lemma {:induction false} UniqueStudentsSpec(users: map<Id, User>, students: seq<Id>)
    ensures var r := UniqueStudents(users, students);
            && (forall i, j :: 0 <= i < j < |r| ==> r[i] != r[j])
            && (forall x :: x in r <==> x in students && x in users)
  {
    if students != [] {
      var init := students[..|students| - 1];
      UniqueStudentsSpec(users, init);
      assert students == init + [students[|students| - 1]];
    }
  }

  /** `getMyStudents`. The first loop flattens the leaders and members of the supervisor's
      projects; the second keys them by id, skipping the entries whose user no longer
      exists, so every student appears once. */
  method GetMyStudents(users: map<Id, User>, projects: seq<Project>, supervisorId: Id)
    returns (students: seq<Id>)
    ensures students == UniqueStudents(users, Roster(projects, supervisorId))
    ensures forall i, j :: 0 <= i < j < |students| ==> students[i] != students[j]
    ensures forall x :: x in students <==>
              x in users &&
              exists k :: 0 <= k < |projects| && projects[k].supervisor == supervisorId && InProject(projects[k], x)
  {
    var flat: seq<Id> := [];
    for i := 0 to |projects|
      invariant flat == Roster(projects[..i], supervisorId)
    {
      assert projects[..i + 1][..i] == projects[..i];
      var p := projects[i];
      if p.supervisor == supervisorId {
        flat := flat + [p.leader] + p.members;
      }
    }
    assert projects[..|projects|] == projects;
    var seen: set<Id> := {};
    students := [];
    for k := 0 to |flat|
      invariant students == UniqueStudents(users, flat[..k])
      invariant forall x :: x in seen <==> x in students
    {
      assert flat[..k + 1][..k] == flat[..k];
      var s := flat[k];
      if s in users && s !in seen {
        seen := seen + {s};
        students := students + [s];
      }
    }
    assert flat[..|flat|] == flat;
    UniqueStudentsSpec(users, flat);
    forall x ensures x in flat <==>
        exists k :: 0 <= k < |projects| && projects[k].supervisor == supervisorId && InProject(projects[k], x)
    {
      RosterSpec(projects, supervisorId, x);
    }
  }

  // ---------------------------------------------------------------- one team

  /** `Project.findOne({ _id: projectId, supervisor: supervisorId })`. */
  function FindSupervised(projects: seq<Project>, supervisorId: Id, projectId: Id): (r: Option<nat>)
    ensures r.Some? ==> r.value < |projects| && projects[r.value].id == projectId &&
                        projects[r.value].supervisor == supervisorId
    ensures r.None? <==>
              forall k :: 0 <= k < |projects| ==> !(projects[k].id == projectId && projects[k].supervisor == supervisorId)
  {
    FindOne(projects, (p: Project) => p.id == projectId && p.supervisor == supervisorId)
  }

  /** What `getTeamDetails` answers with; `finalPresentation` is `None` where the controller
      answers with an empty object. */
  datatype TeamDetails = TeamDetails(
    project: Project,
    progressSummary: ProgressSummary,
    projectStatus: Health,
    finalPresentation: Option<int>)

  /** `getTeamDetails`: 404 unless a project with that id names the requester as its
      supervisor; otherwise the project with its progress summary and status. The summary's
      own "project not found" failure cannot happen once the project was found. */
  function GetTeamDetails(projects: seq<Project>, tasks: seq<Task>, supervisorId: Id, projectId: Id, now: int)
    : (r: Result<TeamDetails>)
    ensures r.Err? <==>
              forall k :: 0 <= k < |projects| ==> !(projects[k].id == projectId && projects[k].supervisor == supervisorId)
    ensures r.Err? ==> r.error == NotFound
    ensures r.Ok? ==> r.value.project in projects && r.value.project.id == projectId &&
                      r.value.project.supervisor == supervisorId
    ensures r.Ok? ==> GetProjectProgressSummary(projects, tasks, projectId) == Ok(r.value.progressSummary)
    ensures r.Ok? ==> r.value.projectStatus == GetProjectStatus(tasks, projectId, now)
    ensures r.Ok? ==> r.value.finalPresentation == r.value.project.finalPresentation
  {
    match FindSupervised(projects, supervisorId, projectId)
    case None => Err(NotFound)
    case Some(i) =>
      var summary := GetProjectProgressSummary(projects, tasks, projectId);
      assert summary.Ok? by {
        assert projects[i].id == projectId;
      }
      Ok(TeamDetails(projects[i], summary.value, GetProjectStatus(tasks, projectId, now),
                     projects[i].finalPresentation))
  }

  /** The assignee of a listed task: its id and username, as the populated reference gives them. */
  datatype Assignee = Assignee(id: Id, username: string)

  /** A row of `getTeamTasks`. */
  datatype TaskRow = TaskRow(
    id: Id,
    title: string,
    status: TaskStatus,
    assignedTo: Option<Assignee>,
    dueDate: Option<int>)

  /** The row of one task; an assignee whose user no longer exists is null. */
  function FormatTask(users: map<Id, User>, t: Task): (row: TaskRow)
    ensures row.id == t.id && row.title == t.title && row.status == t.status && row.dueDate == t.dueDate
    ensures row.assignedTo.None? <==> t.assignedTo !in users
    ensures row.assignedTo.Some? ==> row.assignedTo.value == Assignee(t.assignedTo, users[t.assignedTo].username)
  {
    TaskRow(t.id, t.title, t.status,
            if t.assignedTo in users then Some(Assignee(t.assignedTo, users[t.assignedTo].username)) else None,
            t.dueDate)
  }

  /** `getTeamTasks`: 404 unless a project with that id names the requester as its
      supervisor; otherwise one row for each of the project's tasks, newest created first. */
  function GetTeamTasks(users: map<Id, User>, projects: seq<Project>, tasks: seq<Task>, supervisorId: Id, projectId: Id)
    : (r: Result<seq<TaskRow>>)
    ensures r.Err? <==>
              forall k :: 0 <= k < |projects| ==> !(projects[k].id == projectId && projects[k].supervisor == supervisorId)
    ensures r.Err? ==> r.error == NotFound
    ensures r.Ok? ==> exists sorted :: ListsNewestFirst(users, tasks, projectId, sorted, r.value)
  {
    match FindSupervised(projects, supervisorId, projectId)
    case None => Err(NotFound)
    case Some(_) =>
      var createdAt := (t: Task) => t.createdAt;
      var sorted := Recency.SortNewestFirst(TasksOf(tasks, projectId), createdAt);
      var rows := seq(|sorted|, i requires 0 <= i < |sorted| => FormatTask(users, sorted[i]));
      assert ListsNewestFirst(users, tasks, projectId, sorted, rows);
      Ok(rows)
  }

  /** `rows` formats `sorted`, a newest-first arrangement of the project's tasks. */
  ghost predicate ListsNewestFirst(users: map<Id, User>, tasks: seq<Task>, projectId: Id,
                                   sorted: seq<Task>, rows: seq<TaskRow>)
  {
    && Recency.NewestFirst(sorted, (t: Task) => t.createdAt)
    && multiset(sorted) == multiset(TasksOf(tasks, projectId))
    && |rows| == |sorted|
    && forall i :: 0 <= i < |sorted| ==> rows[i] == FormatTask(users, sorted[i])
  }

  /** Every task of the project is listed exactly as often as it is stored. */
  lemma TeamTasksComplete(users: map<Id, User>, projects: seq<Project>, tasks: seq<Task>, supervisorId: Id, projectId: Id)
    requires GetTeamTasks(users, projects, tasks, supervisorId, projectId).Ok?
    ensures |GetTeamTasks(users, projects, tasks, supervisorId, projectId).value| == |TasksOf(tasks, projectId)|
  {
    var rows := GetTeamTasks(users, projects, tasks, supervisorId, projectId).value;
    var sorted :| ListsNewestFirst(users, tasks, projectId, sorted, rows);
    assert |multiset(sorted)| == |multiset(TasksOf(tasks, projectId))|;
  }
}

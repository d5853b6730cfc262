/** The dashboard: what a user sees depends on the role, and an administrator's view
    replaces the role's view because its check runs last. */
module Dashboard {
  import opened Common
  import opened Models
  import opened Queries
  import opened Progress
  import opened Membership

  /** The dashboard's data. `Empty` is the `{}` a student without a project gets;
      `StudentView` is the student's project with its progress summary and the student's
      own task summary; `ProjectList` is a list of projects. `S` is the type of the task
      summary, computed by a helper that is not part of this model. */
  datatype View<S> =
    | Empty
    | StudentView(project: Project, progressSummary: ProgressSummary, myTaskSummary: S)
    | ProjectList(projects: seq<Project>)

  /** The student's part: empty without a project, otherwise the project with both
      summaries. `myTaskSummary` is the helper's answer, `None` when the helper is not
      available, in which case the controller throws and answers 500. */
  function StudentPart<S>(projects: seq<Project>, tasks: seq<Task>, student: Id, myTaskSummary: Option<S>)
    : (r: Result<View<S>>)
    ensures FindMembership(projects, student).None? ==> r == Ok(Empty)
    ensures FindMembership(projects, student).Some? && myTaskSummary.None? ==> r == Err(Unexpected)
    ensures FindMembership(projects, student).Some? && myTaskSummary.Some? ==>
              var p := projects[FindMembership(projects, student).value];
              && GetProjectProgressSummary(projects, tasks, p.id).Ok?
              && r == Ok(StudentView(p, GetProjectProgressSummary(projects, tasks, p.id).value, myTaskSummary.value))
  {
    match FindMembership(projects, student)
    case None => Ok(Empty)
    case Some(i) =>
      var p := projects[i];
      var summary := GetProjectProgressSummary(projects, tasks, p.id);
      assert summary.Ok? by { assert projects[i].id == p.id; }
      if myTaskSummary.None? then Err(Unexpected)
      else Ok(StudentView(p, summary.value, myTaskSummary.value))
  }

  /** `getDashboard`: 404 for an unknown user. A Student gets the student's part; a
      Supervisor the projects it supervises; and an administrator, whatever the role, all
      projects, unless the student's part already failed. */
  function GetDashboard<S>(users: map<Id, User>, projects: seq<Project>, tasks: seq<Task>, requester: Id,
                           myTaskSummary: Option<S>): (r: Result<View<S>>)
    ensures r == Err(NotFound) <==> requester !in users
    ensures r.Err? && requester in users ==>
              && r.error == Unexpected && users[requester].userType == Student
              && FindMembership(projects, requester).Some? && myTaskSummary.None?
    ensures requester in users && users[requester].isAdmin && r.Ok? ==> r.value == ProjectList(projects)
    ensures (requester in users && users[requester].userType == Student &&
             FindMembership(projects, requester).Some? && myTaskSummary.None?) ==> r == Err(Unexpected)
    ensures (requester in users && users[requester].isAdmin &&
             (users[requester].userType == Supervisor || FindMembership(projects, requester).None? || myTaskSummary.Some?))
              ==> r == Ok(ProjectList(projects))
    ensures requester in users && !users[requester].isAdmin && users[requester].userType == Supervisor ==>
              && r.Ok? && r.value.ProjectList?
              && |r.value.projects| == SupervisedCount(projects, requester)
              && forall p :: p in r.value.projects <==> p in projects && p.supervisor == requester
    ensures requester in users && !users[requester].isAdmin && users[requester].userType == Student ==>
              r == StudentPart(projects, tasks, requester, myTaskSummary)
    ensures r == Ok(Empty) ==>
              requester in users && users[requester].userType == Student &&
              forall k :: 0 <= k < |projects| ==> !InProject(projects[k], requester)
  {
    if requester !in users then Err(NotFound)
    else
      var user := users[requester];
      assert user.userType.Supervisor? || user.userType.Student?;
      var student := if user.userType == Student then StudentPart(projects, tasks, requester, myTaskSummary)
                     else Ok(Empty);
      if student.Err? then student
      else
        var data := if user.userType == Supervisor
                    then ProjectList(Where(projects, (p: Project) => p.supervisor == requester))
                    else student.value;
        Ok(if user.isAdmin then ProjectList(projects) else data)
  }
}

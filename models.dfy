/** The three stored records (users, projects, tasks), their schema defaults and constraints. */
module Models {
  import opened Common

  // ---------------------------------------------------------------- users

  datatype UserType = Student | Supervisor

  /** A supervisor's availability. The schema does not declare this field, so a freshly
      registered user has none (`Unset`); the controllers only ever store "available" or "full". */
  datatype Availability = Unset | Available | Full

  /** A user document. `status`, `maxProjects` and `currentProjects` are the supervisor
      fields the controllers read and write although the schema does not declare them;
      `maxProjects` is `None` while the field is absent. The password hash is left out. */
  datatype User = User(
    username: string,
    email: string,
    isAdmin: bool,
    userType: UserType,
    status: Availability,
    maxProjects: Option<int>,
    currentProjects: int)

  /** A new user document: `isAdmin` defaults to false and `userType` to Student; the
      undeclared supervisor fields start absent. */
  function NewUser(username: string, email: string, isAdmin: Option<bool>, userType: Option<UserType>): (u: User)
    ensures u.username == username && u.email == email
    ensures u.isAdmin <==> isAdmin == Some(true)
    ensures u.userType == (if userType.Some? then userType.value else Student)
    ensures u.status == Unset && u.maxProjects.None? && u.currentProjects == 0
  {
    User(username, email,
         match isAdmin case Some(b) => b case None => false,
         match userType case Some(t) => t case None => Student,
         Unset, None, 0)
  }

  /** The schema's required fields: a required string may not be empty. */
  predicate WellFormedUser(u: User)
  {
    u.username != "" && u.email != ""
  }

  /** The unique indexes on `username` and on `email`. */
  ghost predicate UniqueCredentials(users: map<Id, User>)
  {
    forall a, b :: a in users && b in users && a != b ==>
      users[a].username != users[b].username && users[a].email != users[b].email
  }

  // ---------------------------------------------------------------- projects

  /** 'open' or 'full'. */
  datatype ProjectStatus = Open | TeamFull

  /** A project document. `finalPresentation` holds the scheduled date, when one is set
      (a field the controllers use and the schema does not declare); the two timestamps
      are the ones `{ timestamps: true }` maintains. */
  datatype Project = Project(
    id: Id,
    projectName: string,
    description: Option<string>,
    supervisor: Id,
    leader: Id,
    members: seq<Id>,
    teamCode: string,
    status: ProjectStatus,
    finalPresentation: Option<int>,
    createdAt: int,
    updatedAt: int)

  /** A new project document as saved: status defaults to 'open', both timestamps are the
      time of saving and no presentation is scheduled. */
  function NewProject(id: Id, projectName: string, description: Option<string>, supervisor: Id,
                      leader: Id, members: seq<Id>, teamCode: string, now: int): (p: Project)
    ensures p.status == Open && p.finalPresentation.None?
    ensures p.createdAt == now && p.updatedAt == now
    ensures p.id == id && p.projectName == projectName && p.description == description
    ensures p.supervisor == supervisor && p.leader == leader && p.members == members && p.teamCode == teamCode
  {
    Project(id, projectName, description, supervisor, leader, members, teamCode, Open, None, now, now)
  }

  /** The schema's required fields. `supervisor` and `leader` are ids and so always present;
      the member list has no bound in the schema. */
  predicate WellFormedProject(p: Project)
  {
    p.projectName != "" && p.teamCode != ""
  }

  /** The unique index on `teamCode`. */
  ghost predicate UniqueTeamCodes(projects: seq<Project>)
  {
    forall i, j :: 0 <= i < j < |projects| ==> projects[i].teamCode != projects[j].teamCode
  }

  /** The schema itself allows a team of any size: the limit of four is the join controller's. */
  lemma SchemaAllowsAnyTeamSize(p: Project, extra: seq<Id>)
    requires WellFormedProject(p)
    ensures WellFormedProject(p.(members := p.members + extra))
  {
  }

  // ---------------------------------------------------------------- tasks

  /** 'Pending', 'In Progress' or 'Completed'. */
  datatype TaskStatus = Pending | InProgress | Completed

  /** A task document; dates are integer timestamps. */
  datatype Task = Task(
    id: Id,
    title: string,
    description: Option<string>,
    projectId: Id,
    assignedBy: Id,
    assignedTo: Id,
    status: TaskStatus,
    progress: int,
    dueDate: Option<int>,
    reminderDate: Option<int>,
    createdAt: int,
    updatedAt: int,
    reminderSent: bool)

  /** A new task document: status defaults to Pending, progress to 0, `reminderSent` to
      false and both timestamps to the time of creation. */
  function NewTask(id: Id, title: string, description: Option<string>, projectId: Id, assignedBy: Id,
                   assignedTo: Id, status: Option<TaskStatus>, progress: Option<int>,
                   dueDate: Option<int>, reminderDate: Option<int>, now: int): (t: Task)
    ensures t.status == (if status.Some? then status.value else Pending)
    ensures t.progress == (if progress.Some? then progress.value else 0)
    ensures !t.reminderSent && t.createdAt == now && t.updatedAt == now
    ensures t.id == id && t.title == title && t.description == description && t.projectId == projectId
    ensures t.assignedBy == assignedBy && t.assignedTo == assignedTo
    ensures t.dueDate == dueDate && t.reminderDate == reminderDate
  {
    Task(id, title, description, projectId, assignedBy, assignedTo,
         match status case Some(s) => s case None => Pending,
         match progress case Some(n) => n case None => 0,
         dueDate, reminderDate, now, now, false)
  }

  /** The schema's constraints: a non-empty title and a progress within [0, 100]. */
  predicate WellFormedTask(t: Task)
  {
    t.title != "" && 0 <= t.progress <= 100
  }

  /** A task saved with the defaults passes the schema whenever its title is present. */
  lemma NewTaskWellFormed(id: Id, title: string, description: Option<string>, projectId: Id, assignedBy: Id,
                          assignedTo: Id, dueDate: Option<int>, reminderDate: Option<int>, now: int)
    requires title != ""
    ensures WellFormedTask(NewTask(id, title, description, projectId, assignedBy, assignedTo, None, None,
                                   dueDate, reminderDate, now))
  {
  }
}

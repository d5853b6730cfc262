/** The project membership manager and the supervisor capacity state machine: the user and
    project collections as one store, changed in place by creating and joining projects,
    scheduling presentations, and by a supervisor's status and capacity updates. */
module Membership {
  import opened Common
  import opened Models
  import opened Queries

  /** The join controller's limit on a team. */
  const MaxTeamSize: nat := 4

  /** The filter `{ $or: [{ leader: u }, { members: u }] }`. */
  predicate InProject(p: Project, u: Id)
  {
    p.leader == u || u in p.members
  }

  /** The user's project, as `findOne` on that filter finds it. */
  function FindMembership(projects: seq<Project>, u: Id): (r: Option<nat>)
    ensures r.Some? ==> r.value < |projects| && InProject(projects[r.value], u)
    ensures r.None? <==> forall k :: 0 <= k < |projects| ==> !InProject(projects[k], u)
  {
    FindOne(projects, (p: Project) => InProject(p, u))
  }

  /** `Project.findOne({ teamCode })`. */
  function FindByTeamCode(projects: seq<Project>, code: string): (r: Option<nat>)
    ensures r.Some? ==> r.value < |projects| && projects[r.value].teamCode == code
    ensures r.None? <==> forall k :: 0 <= k < |projects| ==> projects[k].teamCode != code
  {
    FindOne(projects, (p: Project) => p.teamCode == code)
  }

  /** `Project.countDocuments({ supervisor })`. */
  function SupervisedCount(projects: seq<Project>, supervisorId: Id): (n: nat)
    ensures n <= |projects|
  {
    Count(projects, (p: Project) => p.supervisor == supervisorId)
  }

  /** `count >= maxProjects`, which is false while `maxProjects` is absent. */
  predicate ReachedCapacity(count: int, maxProjects: Option<int>)
  {
    maxProjects.Some? && count >= maxProjects.value
  }

  /** The user exists and is a Supervisor. */
  predicate IsSupervisor(users: map<Id, User>, id: Id)
  {
    id in users && users[id].userType == Supervisor
  }

  /** What the create and join controllers keep true of each team: the schema's required
      fields, the leader first among one to four distinct members, and the status 'full'
      exactly when the team has four members. */
  ghost predicate TeamInvariant(p: Project)
  {
    && WellFormedProject(p)
    && 1 <= |p.members| <= MaxTeamSize
    && p.members[0] == p.leader
    && (forall i, j :: 0 <= i < j < |p.members| ==> p.members[i] != p.members[j])
    && (p.status == TeamFull <==> |p.members| == MaxTeamSize)
  }

  /** The users' required fields are present and their usernames and emails unique. */
  ghost predicate Registered(users: map<Id, User>)
  {
    (forall s :: s in users ==> WellFormedUser(users[s])) && UniqueCredentials(users)
  }

  /** A user is leader or member of at most one project. */
  ghost predicate OneProjectPerUser(projects: seq<Project>)
  {
    forall i, j, u :: 0 <= i < j < |projects| && InProject(projects[i], u) ==> !InProject(projects[j], u)
  }

  /** Users have their required fields and unique usernames and emails; project ids are
      positions (projects are never deleted), every team keeps its invariant, team codes
      are unique, nobody is in two projects, every project's supervisor is a Supervisor,
      and each user's `currentProjects` counter equals the number of projects that name
      the user as supervisor. */
  ghost predicate Consistent(users: map<Id, User>, projects: seq<Project>)
  {
    && Registered(users)
    && (forall k :: 0 <= k < |projects| ==> projects[k].id == k)
    && (forall k :: 0 <= k < |projects| ==> TeamInvariant(projects[k]))
    && UniqueTeamCodes(projects)
    && OneProjectPerUser(projects)
    && (forall k :: 0 <= k < |projects| ==> IsSupervisor(users, projects[k].supervisor))
    && (forall s :: s in users ==> users[s].currentProjects == SupervisedCount(projects, s))
  }

  /** The supervisor after taking on one more project: the counter goes up by one, the
      status turns 'full' when the new count reaches `maxProjects` and stays as it was
      otherwise, and nothing else about the user changes. */
  function Enrolled(u: User): (v: User)
    ensures v.currentProjects == u.currentProjects + 1
    ensures ReachedCapacity(v.currentProjects, u.maxProjects) ==> v.status == Full
    ensures !ReachedCapacity(v.currentProjects, u.maxProjects) ==> v.status == u.status
    ensures v == u.(currentProjects := v.currentProjects, status := v.status)
  {
    var count := u.currentProjects + 1;
    u.(currentProjects := count, status := if ReachedCapacity(count, u.maxProjects) then Full else u.status)
  }

  /** The team after `requester` joins it: appended at the end of the members, 'full'
      exactly when that makes four (the status is otherwise kept), touched at `now`, and
      otherwise unchanged. */
  function Joined(team: Project, requester: Id, now: int): (t: Project)
    ensures t.members == team.members + [requester]
    ensures |t.members| >= MaxTeamSize ==> t.status == TeamFull
    ensures |t.members| < MaxTeamSize ==> t.status == team.status
    ensures t.updatedAt == now
    ensures t == team.(members := t.members, status := t.status, updatedAt := now)
  {
    var members := team.members + [requester];
    team.(members := members, status := if |members| >= MaxTeamSize then TeamFull else team.status, updatedAt := now)
  }

  /** The four checks of `createProject`, in the order the controller runs them, all passed. */
  predicate Admissible(users: map<Id, User>, projects: seq<Project>, requester: Id,
                       projectName: string, supervisorId: Option<Id>)
  {
    && FindMembership(projects, requester).None?
    && projectName != "" && supervisorId.Some?
    && IsSupervisor(users, supervisorId.value)
    && users[supervisorId.value].status == Available
  }

  /** What `createProject` answers with. */
  datatype Created = Created(projectId: Id, teamCode: string)

  /** What `setMaxProjects` answers with. */
  datatype Capacity = Capacity(maxProjects: int, status: Availability)

  class Store {
    var users: map<Id, User>
    var projects: seq<Project>

    /** The store's invariant, stated by `Consistent` on its two collections. */
    ghost predicate Valid()
      reads this
    {
      Consistent(users, projects)
    }

    /** A store with the given users and no projects yet. */
    constructor (initialUsers: map<Id, User>)
      requires Registered(initialUsers)
      requires forall s :: s in initialUsers ==> initialUsers[s].currentProjects == 0
      ensures Valid()
      ensures users == initialUsers && projects == []
    {
      users := initialUsers;
      projects := [];
    }

    // ------------------------------------------------------------ reads

    /** `getMyProject`: the user's project, or none; with the store valid it is the only
        project the user belongs to. */
    function GetMyProject(u: Id): (r: Option<Project>)
      reads this
      ensures r.Some? ==> r.value in projects && InProject(r.value, u)
      ensures r.None? <==> forall k :: 0 <= k < |projects| ==> !InProject(projects[k], u)
      ensures Valid() && r.Some? ==> forall k :: 0 <= k < |projects| && InProject(projects[k], u) ==> projects[k] == r.value
    {
      match FindMembership(projects, u)
      case None => None
      case Some(i) =>
        assert Valid() ==> forall k :: 0 <= k < |projects| && k != i ==> !InProject(projects[k], u) by {
          if Valid() {
            forall k | 0 <= k < |projects| && k != i ensures !InProject(projects[k], u) {
              if k < i { assert !InProject(projects[k], u); }
              else { assert InProject(projects[i], u); }
            }
          }
        }
        Some(projects[i])
    }

    /** `getProjectMembers`: the member list of the user's project, or 404 when the user has none. */
    function GetProjectMembers(u: Id): (r: Result<seq<Id>>)
      reads this
      ensures r.Err? <==> forall k :: 0 <= k < |projects| ==> !InProject(projects[k], u)
      ensures r.Err? ==> r.error == NotFound
      ensures r.Ok? ==> exists k :: 0 <= k < |projects| && InProject(projects[k], u) && r.value == projects[k].members
    {
      match FindMembership(projects, u)
      case None => Err(NotFound)
      case Some(i) => Ok(projects[i].members)
    }

    /** `getFinalPresentation`: the scheduled date of the project, if any, or 404 for an
        unknown project. */
    function GetFinalPresentation(projectId: Id): (r: Result<Option<int>>)
      reads this
      ensures r.Err? <==> forall k :: 0 <= k < |projects| ==> projects[k].id != projectId
      ensures r.Err? ==> r.error == NotFound
      ensures r.Ok? ==> exists k :: 0 <= k < |projects| && projects[k].id == projectId &&
                                    r.value == projects[k].finalPresentation
    {
      match FindProjectById(projects, projectId)
      case None => Err(NotFound)
      case Some(i) => Ok(projects[i].finalPresentation)
    }

    // ------------------------------------------------------------ createProject

    /** The do-while loop that draws team codes until one is held by no project. The
        generator's successive codes are `candidates`; the result is the first of them that
        is free, or none when every one is taken. */
    method MintTeamCode(candidates: seq<string>) returns (code: Option<string>)
      ensures code.Some? ==> exists k :: 0 <= k < |candidates| && candidates[k] == code.value &&
                              forall j :: 0 <= j < k ==> FindByTeamCode(projects, candidates[j]).Some?
      ensures code.Some? ==> FindByTeamCode(projects, code.value).None?
      ensures code.None? <==> forall k :: 0 <= k < |candidates| ==> FindByTeamCode(projects, candidates[k]).Some?
    {
      var k := 0;
      var teamCode := "";
      var taken := true;
      while taken && k < |candidates|
        invariant 0 <= k <= |candidates|
        invariant taken ==> forall j :: 0 <= j < k ==> FindByTeamCode(projects, candidates[j]).Some?
        invariant !taken ==> 0 < k && teamCode == candidates[k - 1] && FindByTeamCode(projects, teamCode).None?
        invariant !taken ==> forall j :: 0 <= j < k - 1 ==> FindByTeamCode(projects, candidates[j]).Some?
      {
        teamCode := candidates[k];
        taken := FindByTeamCode(projects, teamCode).Some?;
        k := k + 1;
      }
      code := if taken then None else Some(teamCode);
    }

    /** `createProject`. The checks run in the controller's order: the requester already
        in a project, a missing name or supervisor, a supervisor that does not exist or is
        not a Supervisor, a supervisor not 'available'; a failed check changes nothing.
        Once they pass and a free code is drawn, the project is saved with the requester as
        leader and only member, and the supervisor's counter goes up by one, turning the
        supervisor 'full' exactly when the new count reaches `maxProjects`. Only then are
        the invitations sent: `emails` is the request's list (empty when absent or not an
        array), and the mailer exports no invitation sender, so a non-empty list throws and
        the answer is 500 although the project and the supervisor are already saved. */
    method CreateProject(requester: Id, projectName: string, description: Option<string>,
                         supervisorId: Option<Id>, emails: seq<string>, candidates: seq<string>, now: int)
      returns (r: Result<Created>)
      requires Valid()
      requires forall k :: 0 <= k < |candidates| ==> candidates[k] != ""
      modifies this
      ensures Valid()
      ensures r.Err? && r.error != InviteMailerMissing ==> users == old(users) && projects == old(projects)
      ensures FindMembership(old(projects), requester).Some? ==> r == Err(AlreadyInProject)
      ensures (FindMembership(old(projects), requester).None? && (projectName == "" || supervisorId.None?))
                ==> r == Err(MissingFields)
      ensures (FindMembership(old(projects), requester).None? && projectName != "" && supervisorId.Some? &&
               !IsSupervisor(old(users), supervisorId.value)) ==> r == Err(InvalidSupervisor)
      ensures (FindMembership(old(projects), requester).None? && projectName != "" && supervisorId.Some? &&
               IsSupervisor(old(users), supervisorId.value) && old(users)[supervisorId.value].status != Available)
                ==> r == Err(SupervisorUnavailable)
      ensures Admissible(old(users), old(projects), requester, projectName, supervisorId) ==>
                (r == Err(Unexpected) <==>
                   forall k :: 0 <= k < |candidates| ==> FindByTeamCode(old(projects), candidates[k]).Some?)
      ensures Admissible(old(users), old(projects), requester, projectName, supervisorId) ==>
                (r.Ok? <==>
                   emails == [] && exists k :: 0 <= k < |candidates| && FindByTeamCode(old(projects), candidates[k]).None?)
      ensures (Admissible(old(users), old(projects), requester, projectName, supervisorId) && emails != [] &&
               exists k :: 0 <= k < |candidates| && FindByTeamCode(old(projects), candidates[k]).None?)
                ==> r == Err(InviteMailerMissing)
      ensures r.Ok? || r == Err(InviteMailerMissing) ==>
        && Admissible(old(users), old(projects), requester, projectName, supervisorId)
        && |projects| == |old(projects)| + 1
        && var code := projects[|old(projects)|].teamCode;
           && code in candidates
           && FindByTeamCode(old(projects), code).None?
           && projects == old(projects) + [NewProject(|old(projects)|, projectName, description, supervisorId.value,
                                                      requester, [requester], code, now)]
           && users == old(users)[supervisorId.value := Enrolled(old(users)[supervisorId.value])]
      ensures r.Ok? ==> r.value == Created(|old(projects)|, projects[|old(projects)|].teamCode)
    {
      if FindMembership(projects, requester).Some? {
        return Err(AlreadyInProject);
      }
      if projectName == "" || supervisorId.None? {
        return Err(MissingFields);
      }
      var s := supervisorId.value;
      if !IsSupervisor(users, s) {
        return Err(InvalidSupervisor);
      }
      if users[s].status != Available {
        return Err(SupervisorUnavailable);
      }
      var code := MintTeamCode(candidates);
      if code.None? {
        return Err(Unexpected);
      }
      var teamCode := code.value;
      var p := NewProject(|projects|, projectName, description, s, requester, [requester], teamCode, now);
      ghost var before := projects;
      projects := projects + [p];
      ghost var registered := users;
      users := users[s := Enrolled(users[s])];
      CreatePreservesInvariant(registered, before, requester, s, p);
      if emails != [] {
        return Err(InviteMailerMissing);
      }
      r := Ok(Created(p.id, teamCode));
    }

    // ------------------------------------------------------------ joinProject

    /** `joinProject`. The requester already in a project, an unknown code (404) and a team
        that already has four members are refused without change. Otherwise the requester
        is appended to the members, the team turns 'full' exactly when it now has four, and
        no other project or user changes. */
    method JoinProject(requester: Id, teamCode: string, now: int) returns (r: Result<Project>)
      requires Valid()
      modifies this
      ensures Valid()
      ensures users == old(users)
      ensures r.Err? ==> projects == old(projects)
      ensures FindMembership(old(projects), requester).Some? ==> r == Err(AlreadyInProject)
      ensures (FindMembership(old(projects), requester).None? && FindByTeamCode(old(projects), teamCode).None?)
                ==> r == Err(InvalidTeamCode)
      ensures FindMembership(old(projects), requester).None? && FindByTeamCode(old(projects), teamCode).Some? ==>
                var team := old(projects)[FindByTeamCode(old(projects), teamCode).value];
                (r == Err(ProjectFull) <==> |team.members| >= MaxTeamSize)
      ensures (FindMembership(old(projects), requester).None? && FindByTeamCode(old(projects), teamCode).Some? &&
               |old(projects)[FindByTeamCode(old(projects), teamCode).value].members| < MaxTeamSize)
                ==> r.Ok?
      ensures r.Ok? ==>
        && FindMembership(old(projects), requester).None?
        && FindByTeamCode(old(projects), teamCode).Some?
        && var i := FindByTeamCode(old(projects), teamCode).value;
           var team := old(projects)[i];
           && |team.members| < MaxTeamSize
           && r.value == Joined(team, requester, now)
           && projects == old(projects)[i := r.value]
      ensures r.Ok? ==> |r.value.members| <= MaxTeamSize && r.value.members[|r.value.members| - 1] == requester
    {
      if FindMembership(projects, requester).Some? {
        return Err(AlreadyInProject);
      }
      var found := FindByTeamCode(projects, teamCode);
      if found.None? {
        return Err(InvalidTeamCode);
      }
      var i := found.value;
      var team := projects[i];
      if |team.members| >= MaxTeamSize {
        return Err(ProjectFull);
      }
      var joined := Joined(team, requester, now);
      ghost var before := projects;
      projects := projects[i := joined];
      JoinPreservesInvariant(users, before, i, requester, now);
      r := Ok(joined);
    }

    // ------------------------------------------------------------ setFinalPresentation

    /** `setFinalPresentation`: any caller may schedule any project; an unknown project is
        404. The presentation is replaced by `{ date }` and nothing else changes but the
        project's `updatedAt`. */
    method SetFinalPresentation(projectId: Id, date: int, now: int) returns (r: Result<int>)
      requires Valid()
      modifies this
      ensures Valid()
      ensures users == old(users)
      ensures r.Err? <==> forall k :: 0 <= k < |old(projects)| ==> old(projects)[k].id != projectId
      ensures r.Err? ==> r.error == NotFound && projects == old(projects)
      ensures r.Ok? ==> r.value == date && projectId < |old(projects)|
      ensures r.Ok? ==> projects == old(projects)[projectId := old(projects)[projectId].(finalPresentation := Some(date),
                                                                                        updatedAt := now)]
    {
      var found := FindProjectById(projects, projectId);
      if found.None? {
        return Err(NotFound);
      }
      var i := found.value;
      var scheduled := projects[i].(finalPresentation := Some(date), updatedAt := now);
      ghost var before := projects;
      projects := projects[i := scheduled];
      SchedulePreservesInvariant(users, before, i, scheduled);
      r := Ok(date);
    }

    // ------------------------------------------------------------ supervisor status

    /** `updateSupervisorStatus`: only "available" and "full" are accepted (400 otherwise);
        the caller's status becomes exactly that value whatever the capacity, and nothing
        else changes. A caller with no user document makes the controller throw (500). */
    method UpdateSupervisorStatus(requester: Id, status: string) returns (r: Result<Availability>)
      requires Valid()
      modifies this
      ensures Valid()
      ensures projects == old(projects)
      ensures r.Err? ==> users == old(users)
      ensures status != "available" && status != "full" ==> r == Err(InvalidStatus)
      ensures (status == "available" || status == "full") && requester !in old(users) ==> r == Err(Unexpected)
      ensures (status == "available" || status == "full") && requester in old(users) ==> r.Ok?
      ensures r.Ok? ==> r.value == (if status == "available" then Available else Full)
      ensures r.Ok? ==> users == old(users)[requester := old(users)[requester].(status := r.value)]
    {
      if status != "available" && status != "full" {
        return Err(InvalidStatus);
      }
      if requester !in users {
        return Err(Unexpected);
      }
      var value := if status == "available" then Available else Full;
      CredentialsKept(users, requester, users[requester].(status := value));
      users := users[requester := users[requester].(status := value)];
      r := Ok(value);
    }

    /** `setMaxProjects`: a missing, zero or negative value is 400 and changes nothing.
        Otherwise the new limit is stored; a supervisor already 'full' stays 'full' (a manual
        'full' is never cleared), and any other becomes 'full' exactly when the projects that
        name it as supervisor reach the new limit, else 'available'. */
    method SetMaxProjects(requester: Id, maxProjects: Option<int>) returns (r: Result<Capacity>)
      requires Valid()
      modifies this
      ensures Valid()
      ensures projects == old(projects)
      ensures r.Err? ==> users == old(users)
      ensures maxProjects.None? || maxProjects.value < 1 ==> r == Err(InvalidMaxProjects)
      ensures maxProjects.Some? && maxProjects.value >= 1 && requester !in old(users) ==> r == Err(Unexpected)
      ensures maxProjects.Some? && maxProjects.value >= 1 && requester in old(users) ==> r.Ok?
      ensures r.Ok? ==> var before := old(users)[requester];
        && r.value.maxProjects == maxProjects.value
        && (before.status == Full ==> r.value.status == Full)
        && (before.status != Full ==>
              (r.value.status == Full <==> SupervisedCount(projects, requester) >= maxProjects.value))
        && r.value.status != Unset
        && users == old(users)[requester := before.(maxProjects := maxProjects, status := r.value.status)]
    {
      if maxProjects.None? || maxProjects.value < 1 {
        return Err(InvalidMaxProjects);
      }
      if requester !in users {
        return Err(Unexpected);
      }
      var supervisor := users[requester];
      var limit := maxProjects.value;
      var currentCount := SupervisedCount(projects, requester);
      var status := if supervisor.status != Full then (if currentCount >= limit then Full else Available)
                    else supervisor.status;
      CredentialsKept(users, requester, supervisor.(maxProjects := maxProjects, status := status));
      users := users[requester := supervisor.(maxProjects := maxProjects, status := status)];
      r := Ok(Capacity(limit, status));
    }
  }

  // ---------------------------------------------------------------- invariant preservation

  /** A project created by a requester who is in no project, with a fresh code, under an
      existing Supervisor whose counter is bumped, keeps the store's invariant. */
  lemma CreatePreservesInvariant(users: map<Id, User>, projects: seq<Project>, requester: Id, s: Id, p: Project)
    requires Consistent(users, projects)
    requires FindMembership(projects, requester).None?
    requires FindByTeamCode(projects, p.teamCode).None?
    requires IsSupervisor(users, s)
    requires p.id == |projects| && p.supervisor == s && p.leader == requester && p.members == [requester]
    requires p.status == Open && WellFormedProject(p)
    ensures Consistent(users[s := Enrolled(users[s])], projects + [p])
  {
    CredentialsKept(users, s, Enrolled(users[s]));
    CreateKeepsTeams(projects, p);
    CreateKeepsOneProjectPerUser(projects, requester, p);
    CreateKeepsSupervisors(users, projects, s, p);
    CreateKeepsCounts(users, projects, s, p);
  }

  /** A new one-member team under a fresh code, at the next position, keeps the teams'
      invariants. */
  lemma CreateKeepsTeams(projects: seq<Project>, p: Project)
    requires forall k :: 0 <= k < |projects| ==> projects[k].id == k
    requires forall k :: 0 <= k < |projects| ==> TeamInvariant(projects[k])
    requires UniqueTeamCodes(projects)
    requires FindByTeamCode(projects, p.teamCode).None?
    requires p.id == |projects| && |p.members| == 1 && p.members[0] == p.leader
    requires p.status == Open && WellFormedProject(p)
    ensures forall k :: 0 <= k < |projects + [p]| ==> (projects + [p])[k].id == k
    ensures forall k :: 0 <= k < |projects + [p]| ==> TeamInvariant((projects + [p])[k])
    ensures UniqueTeamCodes(projects + [p])
  {
  }

  /** The new project's supervisor is a Supervisor, and enrolling it keeps every
      supervisor a Supervisor. */
  lemma CreateKeepsSupervisors(users: map<Id, User>, projects: seq<Project>, s: Id, p: Project)
    requires forall k :: 0 <= k < |projects| ==> IsSupervisor(users, projects[k].supervisor)
    requires IsSupervisor(users, s) && p.supervisor == s
    ensures var users' := users[s := Enrolled(users[s])];
            forall k :: 0 <= k < |projects + [p]| ==> IsSupervisor(users', (projects + [p])[k].supervisor)
  {
  }

  /** A project whose only member is a requester in no project keeps everybody in one project. */
  lemma CreateKeepsOneProjectPerUser(projects: seq<Project>, requester: Id, p: Project)
    requires OneProjectPerUser(projects)
    requires FindMembership(projects, requester).None?
    requires p.leader == requester && p.members == [requester]
    ensures OneProjectPerUser(projects + [p])
  {
    var projects' := projects + [p];
    forall i, j, u | 0 <= i < j < |projects'| && InProject(projects'[i], u)
      ensures !InProject(projects'[j], u)
    {
      if j == |projects| {
        assert projects'[i] == projects[i];
        assert !InProject(projects[i], requester);
      }
    }
  }

  /** The supervisor of a new project is counted once more, and nobody else's count moves. */
  lemma CreateKeepsCounts(users: map<Id, User>, projects: seq<Project>, s: Id, p: Project)
    requires forall u :: u in users ==> users[u].currentProjects == SupervisedCount(projects, u)
    requires s in users && p.supervisor == s
    ensures var users' := users[s := Enrolled(users[s])];
            forall u :: u in users' ==> users'[u].currentProjects == SupervisedCount(projects + [p], u)
  {
    forall u | u in users
      ensures SupervisedCount(projects + [p], u) == SupervisedCount(projects, u) + (if u == s then 1 else 0)
    {
      CountAppend(projects, p, (q: Project) => q.supervisor == u);
    }
  }

  /** Appending a requester who is in no project to a team with fewer than four members,
      and setting its status as the join controller does, keeps the store's invariant. */
  lemma JoinPreservesInvariant(users: map<Id, User>, projects: seq<Project>, i: nat, requester: Id, now: int)
    requires Consistent(users, projects)
    requires FindMembership(projects, requester).None?
    requires i < |projects| && |projects[i].members| < MaxTeamSize
    ensures Consistent(users, projects[i := Joined(projects[i], requester, now)])
  {
    var joined := Joined(projects[i], requester, now);
    var projects' := projects[i := joined];
    JoinKeepsTeam(projects[i], requester, now);
    assert forall k :: 0 <= k < |projects'| ==> TeamInvariant(projects'[k]);
    assert UniqueTeamCodes(projects');
    JoinKeepsOneProjectPerUser(projects, i, requester, now);
    forall u | u in users ensures SupervisedCount(projects', u) == SupervisedCount(projects, u) {
      CountUpdate(projects, i, joined, (q: Project) => q.supervisor == u);
    }
  }

  /** A team that gains a member it did not have, below the limit, keeps its invariant. */
  lemma JoinKeepsTeam(team: Project, requester: Id, now: int)
    requires TeamInvariant(team) && !InProject(team, requester) && |team.members| < MaxTeamSize
    ensures TeamInvariant(Joined(team, requester, now))
  {
    var joined := Joined(team, requester, now);
    forall a, b | 0 <= a < b < |joined.members| ensures joined.members[a] != joined.members[b] {
      if b == |team.members| {
        assert joined.members[a] == team.members[a];
        assert team.members[a] in team.members;
      }
    }
  }

  /** Adding a requester who is in no project to one team keeps everybody in one project. */
  lemma JoinKeepsOneProjectPerUser(projects: seq<Project>, i: nat, requester: Id, now: int)
    requires OneProjectPerUser(projects)
    requires FindMembership(projects, requester).None?
    requires i < |projects|
    ensures OneProjectPerUser(projects[i := Joined(projects[i], requester, now)])
  {
    var projects' := projects[i := Joined(projects[i], requester, now)];
    forall a, b, u | 0 <= a < b < |projects'| && InProject(projects'[a], u)
      ensures !InProject(projects'[b], u)
    {
      if u == requester {
        if a == i {
          assert !InProject(projects[b], requester);
        }
      } else {
        assert InProject(projects[a], u);
        assert !InProject(projects[b], u);
      }
    }
  }

  /** Changing a user's supervisor fields keeps the unique username and email indexes. */
  lemma CredentialsKept(users: map<Id, User>, s: Id, u: User)
    requires s in users && u.username == users[s].username && u.email == users[s].email
    requires Registered(users)
    ensures Registered(users[s := u])
  {
  }

  /** Rescheduling a presentation touches no field the store's invariant speaks of. */
  lemma SchedulePreservesInvariant(users: map<Id, User>, projects: seq<Project>, i: nat, scheduled: Project)
    requires Consistent(users, projects)
    requires i < |projects|
    requires scheduled == projects[i].(finalPresentation := scheduled.finalPresentation, updatedAt := scheduled.updatedAt)
    ensures Consistent(users, projects[i := scheduled])
  {
    var projects' := projects[i := scheduled];
    ReshapeKeepsTeams(projects, i, scheduled, projects');
    ReshapeKeepsOneProjectPerUser(projects, i, scheduled);
    assert forall k :: 0 <= k < |projects'| ==> IsSupervisor(users, projects'[k].supervisor);
    forall u | u in users ensures SupervisedCount(projects', u) == SupervisedCount(projects, u) {
      CountUpdate(projects, i, scheduled, (q: Project) => q.supervisor == u);
    }
  }

  /** Replacing a project by one with the same id, name, code, members and status keeps the
      teams' invariants. */
  lemma ReshapeKeepsTeams(projects: seq<Project>, i: nat, q: Project, projects': seq<Project>)
    requires forall k :: 0 <= k < |projects| ==> projects[k].id == k
    requires forall k :: 0 <= k < |projects| ==> TeamInvariant(projects[k])
    requires UniqueTeamCodes(projects)
    requires i < |projects|
    requires q.id == projects[i].id && q.projectName == projects[i].projectName && q.teamCode == projects[i].teamCode
    requires q.leader == projects[i].leader && q.members == projects[i].members && q.status == projects[i].status
    requires projects' == projects[i := q]
    ensures forall k :: 0 <= k < |projects'| ==> projects'[k].id == k
    ensures forall k :: 0 <= k < |projects'| ==> TeamInvariant(projects'[k])
    ensures UniqueTeamCodes(projects')
  {
    assert TeamInvariant(projects[i]);
  }

  /** Replacing a project by one with the same leader and members keeps everybody in one
      project. */
  lemma ReshapeKeepsOneProjectPerUser(projects: seq<Project>, i: nat, q: Project)
    requires OneProjectPerUser(projects)
    requires i < |projects| && q.leader == projects[i].leader && q.members == projects[i].members
    ensures OneProjectPerUser(projects[i := q])
  {
    var projects' := projects[i := q];
    forall a, b, u | 0 <= a < b < |projects'| && InProject(projects'[a], u)
      ensures !InProject(projects'[b], u)
    {
      assert InProject(projects[a], u);
    }
  }
}

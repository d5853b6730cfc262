/** The progress aggregator: per-project task counts, the completion percentage, the
    "On Track" / "Needs Attention" flag, the upcoming-discussion hint and the supervisor's
    most recently updated projects. Every function is pure counting over already-fetched
    collections; the current time is a parameter. */
module Progress {
  import opened Common
  import opened Models
  import opened Queries
  import Recency

  // ---------------------------------------------------------------- progress summary

  /** `Task.find({ projectId })`. */
  function TasksOf(tasks: seq<Task>, projectId: Id): (r: seq<Task>)
    ensures |r| == Count(tasks, (t: Task) => t.projectId == projectId)
    ensures forall t :: t in r <==> t in tasks && t.projectId == projectId
  {
    Where(tasks, (t: Task) => t.projectId == projectId)
  }

  /** The project's tasks are listed as often as they are stored, and no other task is. */
  lemma TasksOfSelects(tasks: seq<Task>, projectId: Id)
    ensures forall t :: multiset(TasksOf(tasks, projectId))[t] ==
                        if t.projectId == projectId then multiset(tasks)[t] else 0
  {
    WhereSelects(tasks, (t: Task) => t.projectId == projectId);
  }

  /** How many of the tasks have the given status. */
  function CountStatus(tasks: seq<Task>, status: TaskStatus): (n: nat)
    ensures n <= |tasks|
  {
    Count(tasks, (t: Task) => t.status == status)
  }

  /** Every task is exactly one of Completed, In Progress and Pending, so the three counts
      add up to the number of tasks. */
  lemma StatusCountsPartition(tasks: seq<Task>)
    ensures CountStatus(tasks, Completed) + CountStatus(tasks, InProgress) + CountStatus(tasks, Pending) == |tasks|
  {
    CountPartition(tasks, (t: Task) => t.status == Completed, (t: Task) => t.status == InProgress,
                   (t: Task) => t.status == Pending);
  }

  /** `Math.round(completed / total * 100)`, or 0 when there are no tasks: the integer nearest
      to the exact percentage, a half rounding up. It never leaves [0, 100]. */
  function CompletionPercentage(completed: nat, total: nat): (r: nat)
    requires completed <= total
    ensures r <= 100
    ensures total == 0 ==> r == 0
    ensures total > 0 ==>
      (r as real) - 0.5 <= 100.0 * (completed as real) / (total as real) < (r as real) + 0.5
  {
    if total == 0 then 0
    else
      var r := (200 * completed + total) / (2 * total);
      FloorDiv(200 * completed + total, 2 * total);
      QuotientRange(completed, total, r);
      RoundingBounds(completed, total, r);
      r
  }

  /** Integer division rounds down. */
  lemma FloorDiv(n: int, d: int)
    requires d > 0
    ensures d * (n / d) <= n < d * (n / d) + d
  {
  }

  /** Multiplying by a positive factor keeps a strict order. */
  lemma ScaleStrict(d: int, a: int, b: int)
    requires d > 0 && a < b
    ensures d * a < d * b
  {
  }

  /** A quotient that brackets `200 * c + t` between multiples of `2 * t` lies in [0, 100]. */
  lemma QuotientRange(c: nat, t: nat, q: int)
    requires 0 < t && c <= t
    requires 2 * t * q <= 200 * c + t < 2 * t * q + 2 * t
    ensures 0 <= q <= 100
  {
    if q < 0 {
      ScaleStrict(2 * t, q, 0);
    }
    if q > 100 {
      assert 2 * t * 101 <= 2 * t * q by {
        if q > 101 { ScaleStrict(2 * t, 101, q); }
      }
    }
  }

  /** The same bracket, read in exact arithmetic: `q` is within one half of `100 * c / t`. */
  lemma RoundingBounds(c: nat, t: nat, q: int)
    requires 0 < t
    requires 2 * t * q <= 200 * c + t < 2 * t * q + 2 * t
    ensures (q as real) - 0.5 <= 100.0 * (c as real) / (t as real) < (q as real) + 0.5
  {
    var cr, tr, qr := c as real, t as real, q as real;
    ProductAsReal(t, q);
    assert 2.0 * (tr * qr) - tr <= 200.0 * cr < 2.0 * (tr * qr) + tr;
    assert (qr - 0.5) * tr == tr * qr - 0.5 * tr;
    assert (qr + 0.5) * tr == tr * qr + 0.5 * tr;
    DivCompare(100.0 * cr, tr, qr - 0.5);
    DivCompare(100.0 * cr, tr, qr + 0.5);
  }

  /** Converting a product of integers to a real multiplies the converted factors. */
  lemma ProductAsReal(a: int, b: int)
    ensures (a * b) as real == (a as real) * (b as real)
  {
  }

  /** A product of two positive reals is positive. */
  lemma PositiveProduct(a: real, b: real)
    requires a > 0.0 && b > 0.0
    ensures a * b > 0.0
  {
  }

  /** Comparing a quotient with a bound is comparing the numerator with the scaled bound. */
  lemma DivCompare(a: real, b: real, y: real)
    requires b > 0.0
    ensures a / b < y <==> a < y * b
    ensures a / b > y <==> a > y * b
  {
    var x := a / b;
    assert x * b == a;
    if x < y {
      PositiveProduct(y - x, b);
    } else if x > y {
      PositiveProduct(x - y, b);
    }
  }

  /** What `getProjectProgressSummary` returns. */
  datatype ProgressSummary = ProgressSummary(
    projectId: Id,
    totalTasks: nat,
    completedTasks: nat,
    inProgressTasks: nat,
    pendingTasks: nat,
    completionPercentage: nat)

  /** The summary of a project's tasks; it throws a plain error when no project has that
      id, which the calling controller's catch answers with 500. The three
      status counts add up to the total, and the percentage is the rounded share of
      Completed tasks (0 for a project without tasks). */
  function GetProjectProgressSummary(projects: seq<Project>, tasks: seq<Task>, projectId: Id)
    : (r: Result<ProgressSummary>)
    ensures r.Err? <==> forall k :: 0 <= k < |projects| ==> projects[k].id != projectId
    ensures r.Err? ==> r.error == Unexpected
    ensures r.Ok? ==> var s := r.value;
      && s.projectId == projectId
      && s.totalTasks == |TasksOf(tasks, projectId)|
      && s.completedTasks == CountStatus(TasksOf(tasks, projectId), Completed)
      && s.inProgressTasks == CountStatus(TasksOf(tasks, projectId), InProgress)
      && s.pendingTasks == CountStatus(TasksOf(tasks, projectId), Pending)
      && s.completedTasks + s.inProgressTasks + s.pendingTasks == s.totalTasks
      && s.completionPercentage <= 100
      && (s.totalTasks == 0 ==> s.completionPercentage == 0)
      && (s.totalTasks > 0 ==>
            (s.completionPercentage as real) - 0.5
              <= 100.0 * (s.completedTasks as real) / (s.totalTasks as real)
              < (s.completionPercentage as real) + 0.5)
  {
    if FindProjectById(projects, projectId).None? then Err(Unexpected)
    else
      var mine := TasksOf(tasks, projectId);
      var completed := CountStatus(mine, Completed);
      StatusCountsPartition(mine);
      Ok(ProgressSummary(projectId, |mine|, completed, CountStatus(mine, InProgress),
                         CountStatus(mine, Pending), CompletionPercentage(completed, |mine|)))
  }

  // ---------------------------------------------------------------- project status

  /** "On Track" or "Needs Attention". */
  datatype Health = OnTrack | NeedsAttention

  /** A task counts as overdue when it has a due date before `now` and is not Completed
      (a task without a due date never matches `dueDate < now`). */
  predicate Overdue(t: Task, now: int)
  {
    t.dueDate.Some? && t.dueDate.value < now && t.status != Completed
  }

  /** `getProjectStatus`: "Needs Attention" exactly when the project has tasks and the share
      of them that are overdue is strictly more than one half; a project with no tasks, or
      exactly half overdue, is "On Track". */
  function GetProjectStatus(tasks: seq<Task>, projectId: Id, now: int): (h: Health)
    ensures var total := |TasksOf(tasks, projectId)|;
            var overdue := Count(TasksOf(tasks, projectId), (t: Task) => Overdue(t, now));
            h == NeedsAttention <==> total > 0 && (overdue as real) / (total as real) > 0.5
  {
    var mine := TasksOf(tasks, projectId);
    var total := |mine|;
    if total == 0 then OnTrack
    else
      var overdue := Count(mine, (t: Task) => Overdue(t, now));
      HalfThreshold(overdue, total);
      if 2 * overdue > total then NeedsAttention else OnTrack
  }

  /** `overdue / total > 0.5` in exact arithmetic is `2 * overdue > total`. */
  lemma HalfThreshold(overdue: nat, total: nat)
    requires total > 0
    ensures (overdue as real) / (total as real) > 0.5 <==> 2 * overdue > total
  {
    DivCompare(overdue as real, total as real, 0.5);
    assert (2 * overdue) as real == 2.0 * (overdue as real);
  }

  // ---------------------------------------------------------------- upcoming discussions

  /** A day, in the milliseconds of the timestamps. */
  const DayLength: int := 86_400_000

  /** One of the supervisor's projects with a presentation scheduled at or after `from`,
      and at or before `until` when a bound is given. */
  predicate PresentationBetween(p: Project, supervisorId: Id, from: int, until: Option<int>)
  {
    && p.supervisor == supervisorId
    && p.finalPresentation.Some?
    && from <= p.finalPresentation.value
    && (until.Some? ==> p.finalPresentation.value <= until.value)
  }

  /** What `getUpcomingDiscussions` returns: the count, and which of its two hover messages
      it chose ("There is an upcoming discussion within `days` days" when `withinWindow`,
      "No discussions within the next `days` days" otherwise). */
  datatype Discussions = Discussions(count: nat, withinWindow: bool, days: int)

  /** The window `getUpcomingDiscussions` uses when the caller gives none, in days. */
  const DefaultDays: int := 7

  /** The number of the supervisor's projects whose presentation is at or after `now` (the
      current instant, not the start of the day), and whether one of them presents within
      `days` days of `now` (7 when not given); a presentation inside the window is always
      counted. */
  function GetUpcomingDiscussions(projects: seq<Project>, supervisorId: Id, now: int, days: Option<int>)
    : (r: Discussions)
    ensures r.days == if days.Some? then days.value else DefaultDays
    ensures r.count == Count(projects, (p: Project) => PresentationBetween(p, supervisorId, now, None))
    ensures r.withinWindow <==>
      exists k :: 0 <= k < |projects| &&
                  PresentationBetween(projects[k], supervisorId, now, Some(now + r.days * DayLength))
    ensures r.withinWindow ==> r.count > 0
  {
    var window := if days.Some? then days.value else DefaultDays;
    var upcoming := (p: Project) => PresentationBetween(p, supervisorId, now, None);
    var soon := (p: Project) => PresentationBetween(p, supervisorId, now, Some(now + window * DayLength));
    var within := Count(projects, soon);
    CountMonotone(projects, soon, upcoming);
    CountPositive(projects, soon);
    Discussions(Count(projects, upcoming), within > 0, window)
  }

  // ---------------------------------------------------------------- recent projects

  /** The number of projects `getRecentProjects` returns when the caller gives no limit. */
  const DefaultLimit: nat := 3

  /** `getRecentProjects`: at most `limit` of the supervisor's projects (3 when not given,
      all of them when the limit is 0, as `.limit(0)` means no limit), most recently
      updated first; every supervised project left out was updated no later than every one
      returned. */
  function GetRecentProjects(projects: seq<Project>, supervisorId: Id, limit: Option<nat>): (r: seq<Project>)
    ensures var n := Count(projects, (p: Project) => p.supervisor == supervisorId);
            var l := if limit.Some? then limit.value else DefaultLimit;
            |r| == if l == 0 || n <= l then n else l
    ensures forall p :: p in r ==> p in projects && p.supervisor == supervisorId
    ensures multiset(r) <= multiset(projects)
    ensures forall i, j :: 0 <= i < j < |r| ==> r[i].updatedAt >= r[j].updatedAt
    ensures forall p, q :: p in projects && p.supervisor == supervisorId && p !in r && q in r ==>
              p.updatedAt <= q.updatedAt
  {
    var mine := Where(projects, (p: Project) => p.supervisor == supervisorId);
    var key := (p: Project) => p.updatedAt;
    var r := Recency.Newest(mine, key, if limit.Some? then limit.value else DefaultLimit);
    assert multiset(mine) <= multiset(projects) by {
      WhereSelects(projects, (p: Project) => p.supervisor == supervisorId);
    }
    forall p | p in r ensures p in projects && p.supervisor == supervisorId {
      assert p in mine;
    }
    forall i, j | 0 <= i < j < |r| ensures r[i].updatedAt >= r[j].updatedAt {
      assert key(r[i]) >= key(r[j]);
    }
    forall p, q | p in projects && p.supervisor == supervisorId && p !in r && q in r
      ensures p.updatedAt <= q.updatedAt
    {
      assert p in mine;
      assert key(p) <= key(q);
    }
    r
  }
}

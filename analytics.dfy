/** Month-over-month task analytics shared by the workspace and project
    analytics endpoints: five task predicates, each counted over the tasks
    created in this month's and last month's window, and each difference
    taken as this month's count minus last month's. */
module Analytics {
  import opened Records

  /** The tasks an endpoint looks at: one workspace's or one project's. */
  datatype Scope = InWorkspace(workspaceId: Id) | InProject(projectId: Id)

  /** A closed interval `[start, end]` of creation times, in milliseconds. */
  datatype Window = Window(start: int, end: int)

  /** The five counted predicates. `AssignedTo` holds the caller's member id;
      `Overdue` holds the single `now` the request reads. */
  datatype Metric = AllTasks | AssignedTo(memberId: Id) | Incomplete | Completed | Overdue(now: int)

  /** The request's clock reading and the two calendar-month windows derived
      from it. */
  datatype Calendar = Calendar(now: int, thisMonth: Window, lastMonth: Window)

  /** What startOfMonth/endOfMonth/subMonths guarantee: last month ends before
      this month starts, and `now` lies in this month. */
  predicate WellFormed(cal: Calendar) {
    cal.lastMonth.start <= cal.lastMonth.end < cal.thisMonth.start <= cal.now <= cal.thisMonth.end
  }

  datatype Report = Report(
    taskCount: nat, taskDifference: int,
    assignedTasksCount: nat, assignedTaskDifference: int,
    completedTasksCount: nat, completedTasksDifference: int,
    incompleteTasksCount: nat, incompleteTasksDifference: int,
    overdueTasksCount: nat, overdueTasksDifference: int)

  predicate InScope(t: Task, scope: Scope) {
    match scope
    case InWorkspace(w) => t.workspaceId == w
    case InProject(p) => t.projectId == p
  }

  /** `$createdAt >= start` and `$createdAt <= end`. */
  predicate CreatedIn(t: Task, w: Window) {
    w.start <= t.createdAt <= w.end
  }

  /** A missing due date never compares below `now`. */
  predicate Satisfies(t: Task, m: Metric): (r: bool)
    ensures m.Overdue? && r ==> t.status != DONE && t.dueDate.Some? && t.dueDate.value < m.now
    ensures (m.Completed? || m.Incomplete?) ==> (r <==> (t.status == DONE) == m.Completed?)
  {
    match m
    case AllTasks => true
    case AssignedTo(memberId) => t.assigneeId == Some(memberId)
    case Incomplete => t.status != DONE
    case Completed => t.status == DONE
    case Overdue(now) => t.status != DONE && t.dueDate.Some? && t.dueDate.value < now
  }

  /** One row of a filtered count query. */
  predicate Counted(t: Task, scope: Scope, m: Metric, w: Window) {
    InScope(t, scope) && Satisfies(t, m) && CreatedIn(t, w)
  }

  /** The `total` of the count query for (scope, metric, window). */
  function Count(tasks: seq<Task>, scope: Scope, m: Metric, w: Window): (n: nat)
    ensures n <= |tasks|
    ensures n == 0 <==> forall i :: 0 <= i < |tasks| ==> !Counted(tasks[i], scope, m, w)
  {
    if tasks == [] then 0
    else
      var rest := Count(tasks[1..], scope, m, w);
      assert forall i :: 1 <= i < |tasks| ==> tasks[i] == tasks[1..][i - 1];
      (if Counted(tasks[0], scope, m, w) then 1 else 0) + rest
  }

  /** This month's count minus last month's count. */
  function Difference(tasks: seq<Task>, scope: Scope, m: Metric, cal: Calendar): (d: int)
    ensures -|tasks| <= d <= |tasks|
    ensures d > 0 ==> exists i :: 0 <= i < |tasks| && Counted(tasks[i], scope, m, cal.thisMonth)
    ensures d < 0 ==> exists i :: 0 <= i < |tasks| && Counted(tasks[i], scope, m, cal.lastMonth)
  {
    Count(tasks, scope, m, cal.thisMonth) - Count(tasks, scope, m, cal.lastMonth)
  }

  /** The analytics payload for one scope and one caller (`memberId` is the
      caller's member row id, against which `assigneeId` is compared). */
  function Compute(tasks: seq<Task>, scope: Scope, memberId: Id, cal: Calendar): (r: Report)
    ensures r.taskCount == Count(tasks, scope, AllTasks, cal.thisMonth)
    ensures r.assignedTasksCount == Count(tasks, scope, AssignedTo(memberId), cal.thisMonth)
    ensures r.completedTasksCount == Count(tasks, scope, Completed, cal.thisMonth)
    ensures r.incompleteTasksCount == Count(tasks, scope, Incomplete, cal.thisMonth)
    ensures r.overdueTasksCount == Count(tasks, scope, Overdue(cal.now), cal.thisMonth)
    ensures r.taskDifference == r.taskCount - Count(tasks, scope, AllTasks, cal.lastMonth)
    ensures r.assignedTaskDifference == r.assignedTasksCount - Count(tasks, scope, AssignedTo(memberId), cal.lastMonth)
    ensures r.completedTasksDifference == r.completedTasksCount - Count(tasks, scope, Completed, cal.lastMonth)
    ensures r.incompleteTasksDifference == r.incompleteTasksCount - Count(tasks, scope, Incomplete, cal.lastMonth)
    ensures r.overdueTasksDifference == r.overdueTasksCount - Count(tasks, scope, Overdue(cal.now), cal.lastMonth)
    ensures r.completedTasksCount + r.incompleteTasksCount == r.taskCount
    ensures r.completedTasksDifference + r.incompleteTasksDifference == r.taskDifference
    ensures r.overdueTasksCount <= r.incompleteTasksCount
    ensures r.assignedTasksCount <= r.taskCount
  {
    CompletedAndIncompletePartition(tasks, scope, cal.thisMonth);
    CompletedAndIncompletePartition(tasks, scope, cal.lastMonth);
    OverdueAtMostIncomplete(tasks, scope, cal.now, cal.thisMonth);
    AssignedAtMostAll(tasks, scope, memberId, cal.thisMonth);
    Report(
      Count(tasks, scope, AllTasks, cal.thisMonth), Difference(tasks, scope, AllTasks, cal),
      Count(tasks, scope, AssignedTo(memberId), cal.thisMonth), Difference(tasks, scope, AssignedTo(memberId), cal),
      Count(tasks, scope, Completed, cal.thisMonth), Difference(tasks, scope, Completed, cal),
      Count(tasks, scope, Incomplete, cal.thisMonth), Difference(tasks, scope, Incomplete, cal),
      Count(tasks, scope, Overdue(cal.now), cal.thisMonth), Difference(tasks, scope, Overdue(cal.now), cal))
  }

  /** Counting distributes over concatenation of the task collection. */
  lemma {:induction false} CountAppend(a: seq<Task>, b: seq<Task>, scope: Scope, m: Metric, w: Window)
    ensures Count(a + b, scope, m, w) == Count(a, scope, m, w) + Count(b, scope, m, w)
  {
    if a == [] {
      assert a + b == b;
    } else {
      assert (a + b)[0] == a[0];
      assert (a + b)[1..] == a[1..] + b;
      CountAppend(a[1..], b, scope, m, w);
    }
  }

  /** A task that a query does not match can be added anywhere without
      changing that query's count. */
  lemma CountSkips(a: seq<Task>, t: Task, b: seq<Task>, scope: Scope, m: Metric, w: Window)
    requires !Counted(t, scope, m, w)
    ensures Count(a + [t] + b, scope, m, w) == Count(a + b, scope, m, w)
  {
    CountAppend(a + [t], b, scope, m, w);
    CountAppend(a, [t], scope, m, w);
    CountAppend(a, b, scope, m, w);
  }

  /** If every task metric `m1` matches is matched by `m2`, `m1` counts no
      more than `m2`. */
  lemma {:induction false} CountMonotone(tasks: seq<Task>, scope: Scope, m1: Metric, m2: Metric, w: Window)
    requires forall t :: Satisfies(t, m1) ==> Satisfies(t, m2)
    ensures Count(tasks, scope, m1, w) <= Count(tasks, scope, m2, w)
  {
    if tasks != [] {
      CountMonotone(tasks[1..], scope, m1, m2, w);
    }
  }

  /** `status == DONE` and `status != DONE` split every window: completed
      plus incomplete is the total. */
  lemma {:induction false} CompletedAndIncompletePartition(tasks: seq<Task>, scope: Scope, w: Window)
    ensures Count(tasks, scope, Completed, w) + Count(tasks, scope, Incomplete, w) == Count(tasks, scope, AllTasks, w)
  {
    if tasks != [] {
      CompletedAndIncompletePartition(tasks[1..], scope, w);
    }
  }

  /** Overdue tasks are incomplete tasks, so there are never more of them. */
  lemma OverdueAtMostIncomplete(tasks: seq<Task>, scope: Scope, now: int, w: Window)
    ensures Count(tasks, scope, Overdue(now), w) <= Count(tasks, scope, Incomplete, w)
  {
    CountMonotone(tasks, scope, Overdue(now), Incomplete, w);
  }

  /** Tasks assigned to the caller are among all tasks of the scope. */
  lemma AssignedAtMostAll(tasks: seq<Task>, scope: Scope, memberId: Id, w: Window)
    ensures Count(tasks, scope, AssignedTo(memberId), w) <= Count(tasks, scope, AllTasks, w)
  {
    CountMonotone(tasks, scope, AssignedTo(memberId), AllTasks, w);
  }

  /** A DONE task, a task without a due date and a task due at or after
      `now` never add to the overdue count. */
  lemma NeverOverdue(a: seq<Task>, t: Task, b: seq<Task>, scope: Scope, now: int, w: Window)
    requires t.status == DONE || t.dueDate.None? || t.dueDate.value >= now
    ensures Count(a + [t] + b, scope, Overdue(now), w) == Count(a + b, scope, Overdue(now), w)
  {
    CountSkips(a, t, b, scope, Overdue(now), w);
  }

  /** Tasks outside the scope (another workspace, another project) never
      change any figure of the report. */
  lemma OutOfScopeIgnored(a: seq<Task>, t: Task, b: seq<Task>, scope: Scope, memberId: Id, cal: Calendar)
    requires !InScope(t, scope)
    ensures Compute(a + [t] + b, scope, memberId, cal) == Compute(a + b, scope, memberId, cal)
  {
    forall m: Metric, w: Window
      ensures Count(a + [t] + b, scope, m, w) == Count(a + b, scope, m, w)
    {
      CountSkips(a, t, b, scope, m, w);
    }
  }

  /** The two windows never share a task, and when last month ends one
      millisecond before this month starts, the two counts add up to the
      count over both months. */
  lemma {:induction false} AdjacentMonths(tasks: seq<Task>, scope: Scope, m: Metric, cal: Calendar)
    requires WellFormed(cal) && cal.lastMonth.end + 1 == cal.thisMonth.start
    ensures Count(tasks, scope, m, cal.thisMonth) + Count(tasks, scope, m, cal.lastMonth)
         == Count(tasks, scope, m, Window(cal.lastMonth.start, cal.thisMonth.end))
  {
    if tasks != [] {
      AdjacentMonths(tasks[1..], scope, m, cal);
    }
  }
}

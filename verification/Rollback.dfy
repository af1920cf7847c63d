/** Rolling the snapshots of goals and tasks back through the event log to a
    cutoff (scripts/follow-up-membership.py), against the states the events
    record (`apply_task` and `apply_goal` of src/domain/ledger/attributes.rs). */
module Rollback {
  import opened Wrappers

  datatype TaskStatus = Draft | Submitted | Ready | InProgress | Completed | Canceled | Replaced

  datatype GoalStatus = DraftGoal | OpenGoal

  datatype Task = Task(status: TaskStatus, goal: Option<int>)

  datatype Goal = Goal(closed: bool, status: GoalStatus)

  /** What an event changes of a task. A claim (`run_claimed`) makes a ready task
      in progress with no status event beside it. */
  datatype TaskChange =
    | Created(task: Task)
    | StatusChanged(from: TaskStatus, to: TaskStatus)
    | Claimed
    | Moved(fromGoal: Option<int>, toGoal: Option<int>)

  /** What an event changes of a goal. A reopening (`goal_reopened`) makes a closed
      goal open, its status included, with no status event beside it. */
  datatype GoalChange =
    | Added(goal: Goal)
    | GoalStatusChanged(fromStatus: GoalStatus, toStatus: GoalStatus)
    | Closed
    | Reopened

  datatype Event =
    | TaskEvent(id: int, task: TaskChange)
    | GoalEvent(id: int, goal: GoalChange)
    | OtherEvent

  /** The queue's tasks and goals; also what the rollback keeps of them. */
  datatype Store = Store(tasks: map<int, Task>, goals: map<int, Goal>)

  function Get<V>(m: map<int, V>, k: int): Option<V> {
    if k in m then Some(m[k]) else None
  }

  function Put<V>(m: map<int, V>, k: int, v: Option<V>): map<int, V> {
    if v.Some? then m[k := v.value] else m - {k}
  }

  // ----- what the events record

  predicate TaskMay(x: Option<Task>, c: TaskChange) {
    match c
    case Created(_) => x.None?
    case StatusChanged(from, _) => x.Some? && x.value.status == from
    case Claimed => x.Some? && x.value.status == Ready
    case Moved(from, _) => x.Some? && x.value.goal == from
  }

  function TaskAfter(x: Option<Task>, c: TaskChange): Option<Task> {
    match c
    case Created(task) => Some(task)
    case StatusChanged(_, to) => if x.Some? then Some(x.value.(status := to)) else x
    case Claimed => if x.Some? then Some(x.value.(status := InProgress)) else x
    case Moved(_, to) => if x.Some? then Some(x.value.(goal := to)) else x
  }

  predicate GoalMay(y: Option<Goal>, c: GoalChange) {
    match c
    case Added(goal) => y.None? && !goal.closed
    case GoalStatusChanged(from, _) => y.Some? && y.value.status == from
    case Closed => y.Some? && !y.value.closed
    case Reopened => y.Some? && y.value.closed
  }

  function GoalAfter(y: Option<Goal>, c: GoalChange): Option<Goal> {
    match c
    case Added(goal) => Some(goal)
    case GoalStatusChanged(_, to) => if y.Some? then Some(y.value.(status := to)) else y
    case Closed => if y.Some? then Some(y.value.(closed := true)) else y
    case Reopened => if y.Some? then Some(Goal(false, OpenGoal)) else y
  }

  predicate May(s: Store, e: Event) {
    match e
    case TaskEvent(t, c) => TaskMay(Get(s.tasks, t), c)
    case GoalEvent(g, c) => GoalMay(Get(s.goals, g), c)
    case OtherEvent => true
  }

  function After(s: Store, e: Event): Store {
    match e
    case TaskEvent(t, c) => s.(tasks := Put(s.tasks, t, TaskAfter(Get(s.tasks, t), c)))
    case GoalEvent(g, c) => s.(goals := Put(s.goals, g, GoalAfter(Get(s.goals, g), c)))
    case OtherEvent => s
  }

  function Run(s: Store, events: seq<Event>): Store
    decreases |events|
  {
    if events == [] then s else Run(After(s, events[0]), events[1..])
  }

  predicate Valid(s: Store, events: seq<Event>)
    decreases |events|
  {
    events == [] || (May(s, events[0]) && Valid(After(s, events[0]), events[1..]))
  }

  // ----- undoing one event, as the rollback does

  /** A status or a goal is put back even for a task the snapshots do not have,
      with no goal or as a draft. */
  function TaskBefore(x: Option<Task>, c: TaskChange): Option<Task> {
    match c
    case Created(_) => None
    case StatusChanged(from, _) => Some(Task(from, if x.Some? then x.value.goal else None))
    case Claimed => x
    case Moved(from, _) => Some(Task(if x.Some? then x.value.status else Draft, from))
  }

  function GoalBefore(y: Option<Goal>, c: GoalChange): Option<Goal> {
    match c
    case Added(_) => None
    case GoalStatusChanged(from, _) => if y.Some? then Some(y.value.(status := from)) else y
    case Closed => if y.Some? then Some(y.value.(closed := false)) else y
    case Reopened => y
  }

  function Before(r: Store, e: Event): Store {
    match e
    case TaskEvent(t, c) => r.(tasks := Put(r.tasks, t, TaskBefore(Get(r.tasks, t), c)))
    case GoalEvent(g, c) => r.(goals := Put(r.goals, g, GoalBefore(Get(r.goals, g), c)))
    case OtherEvent => r
  }

  /** Undo the events, the newest first. */
  function Undo(r: Store, events: seq<Event>): Store {
    if events == [] then r else Before(Undo(r, events[1..]), events[0])
  }

  // ----- the rollback as the code has it

  datatype Logged = Logged(at: int, event: Event)

  /** When each task and goal was read, and when the whole reading started. */
  datatype Reads = Reads(tasks: map<int, int>, goals: map<int, int>, started: int)

  function TaskReadAt(times: Reads, t: int): int {
    if t in times.tasks then times.tasks[t] else times.started
  }

  function GoalReadAt(times: Reads, g: int): int {
    if g in times.goals then times.goals[g] else times.started
  }

  function ReadAt(times: Reads, e: Event): int {
    match e
    case TaskEvent(t, _) => TaskReadAt(times, t)
    case GoalEvent(g, _) => GoalReadAt(times, g)
    case OtherEvent => times.started
  }

  /** The events the rollback undoes: from the cutoff on, before their object was read. */
  function Undone(log: seq<Logged>, times: Reads, until: int): seq<Event> {
    if log == [] then []
    else (if until <= log[0].at < ReadAt(times, log[0].event) then [log[0].event] else [])
         + Undone(log[1..], times, until)
  }

  class Rollback {
    var tasks: map<int, Task>
    var goals: map<int, Goal>

    function Now(): Store
      reads this
    {
      Store(tasks, goals)
    }

    constructor (snapshot: Store)
      ensures Now() == snapshot
    {
      tasks, goals := snapshot.tasks, snapshot.goals;
    }

    method UndoEvent(e: Event)
      modifies this
      ensures Now() == Before(old(Now()), e)
    {
      match e
      case TaskEvent(t, StatusChanged(from, _)) =>
        tasks := tasks[t := Task(from, if t in tasks then tasks[t].goal else None)];
      case TaskEvent(t, Moved(from, _)) =>
        tasks := tasks[t := Task(if t in tasks then tasks[t].status else Draft, from)];
      case TaskEvent(t, Created(_)) =>
        tasks := tasks - {t};
      case GoalEvent(g, Added(_)) =>
        goals := goals - {g};
      case GoalEvent(g, Closed) =>
        if g in goals {
          goals := goals[g := goals[g].(closed := false)];
        }
      case GoalEvent(g, GoalStatusChanged(from, _)) =>
        if g in goals {
          goals := goals[g := goals[g].(status := from)];
        }
      case TaskEvent(t, Claimed) =>
        assert tasks == Put(tasks, t, Get(tasks, t));
      case GoalEvent(g, Reopened) =>
        assert goals == Put(goals, g, Get(goals, g));
      case OtherEvent =>
    }

    /** Over the whole log, newest first. */
    method RollBack(log: seq<Logged>, times: Reads, until: int)
      modifies this
      ensures Now() == Undo(old(Now()), Undone(log, times, until))
    {
      var i := |log|;
      assert log[i..] == [];
      while i > 0
        invariant 0 <= i <= |log|
        invariant Now() == Undo(old(Now()), Undone(log[i..], times, until))
      {
        i := i - 1;
        assert log[i..][1..] == log[i + 1..];
        ghost var undone := Undone(log[i + 1..], times, until);
        if log[i].at < until || log[i].at >= ReadAt(times, log[i].event) {
          assert Undone(log[i..], times, until) == undone;
        } else {
          assert Undone(log[i..], times, until) == [log[i].event] + undone;
          assert ([log[i].event] + undone)[1..] == undone;
          UndoEvent(log[i].event);
        }
      }
      assert log[0..] == log;
    }
  }

  // ----- one task or goal at a time

  function TaskLog(events: seq<Event>, t: int): seq<TaskChange> {
    if events == [] then []
    else (if events[0].TaskEvent? && events[0].id == t then [events[0].task] else []) + TaskLog(events[1..], t)
  }

  function GoalLog(events: seq<Event>, g: int): seq<GoalChange> {
    if events == [] then []
    else (if events[0].GoalEvent? && events[0].id == g then [events[0].goal] else []) + GoalLog(events[1..], g)
  }

  function RunTask(x: Option<Task>, cs: seq<TaskChange>): Option<Task>
    decreases |cs|
  {
    if cs == [] then x else RunTask(TaskAfter(x, cs[0]), cs[1..])
  }

  function UndoTask(x: Option<Task>, cs: seq<TaskChange>): Option<Task> {
    if cs == [] then x else TaskBefore(UndoTask(x, cs[1..]), cs[0])
  }

  predicate ValidTask(x: Option<Task>, cs: seq<TaskChange>)
    decreases |cs|
  {
    cs == [] || (TaskMay(x, cs[0]) && ValidTask(TaskAfter(x, cs[0]), cs[1..]))
  }

  function RunGoal(y: Option<Goal>, cs: seq<GoalChange>): Option<Goal>
    decreases |cs|
  {
    if cs == [] then y else RunGoal(GoalAfter(y, cs[0]), cs[1..])
  }

  function UndoGoal(y: Option<Goal>, cs: seq<GoalChange>): Option<Goal> {
    if cs == [] then y else GoalBefore(UndoGoal(y, cs[1..]), cs[0])
  }

  predicate ValidGoal(y: Option<Goal>, cs: seq<GoalChange>)
    decreases |cs|
  {
    cs == [] || (GoalMay(y, cs[0]) && ValidGoal(GoalAfter(y, cs[0]), cs[1..]))
  }

  lemma GetPut<V>(m: map<int, V>, k: int, v: Option<V>, j: int)
    ensures Get(Put(m, k, v), j) == if j == k then v else Get(m, j)
  {
  }

  lemma {:induction false} TaskAlone(s: Store, r: Store, events: seq<Event>, t: int)
    ensures Get(Run(s, events).tasks, t) == RunTask(Get(s.tasks, t), TaskLog(events, t))
    ensures Get(Undo(r, events).tasks, t) == UndoTask(Get(r.tasks, t), TaskLog(events, t))
    ensures Valid(s, events) ==> ValidTask(Get(s.tasks, t), TaskLog(events, t))
    decreases |events|
  {
    if events != [] {
      var e, more := events[0], events[1..];
      TaskAlone(After(s, e), r, more, t);
      if e.TaskEvent? {
        GetPut(s.tasks, e.id, TaskAfter(Get(s.tasks, e.id), e.task), t);
        var later := Undo(r, more);
        GetPut(later.tasks, e.id, TaskBefore(Get(later.tasks, e.id), e.task), t);
      }
      if e.TaskEvent? && e.id == t {
        assert TaskLog(events, t)[1..] == TaskLog(more, t);
      } else {
        assert TaskLog(events, t) == TaskLog(more, t);
      }
    }
  }

  lemma {:induction false} GoalAlone(s: Store, r: Store, events: seq<Event>, g: int)
    ensures Get(Run(s, events).goals, g) == RunGoal(Get(s.goals, g), GoalLog(events, g))
    ensures Get(Undo(r, events).goals, g) == UndoGoal(Get(r.goals, g), GoalLog(events, g))
    ensures Valid(s, events) ==> ValidGoal(Get(s.goals, g), GoalLog(events, g))
    decreases |events|
  {
    if events != [] {
      var e, more := events[0], events[1..];
      GoalAlone(After(s, e), r, more, g);
      if e.GoalEvent? {
        GetPut(s.goals, e.id, GoalAfter(Get(s.goals, e.id), e.goal), g);
        var later := Undo(r, more);
        GetPut(later.goals, e.id, GoalBefore(Get(later.goals, e.id), e.goal), g);
      }
      if e.GoalEvent? && e.id == g {
        assert GoalLog(events, g)[1..] == GoalLog(more, g);
      } else {
        assert GoalLog(events, g) == GoalLog(more, g);
      }
    }
  }

  // ----- when a task is rolled back right

  /** A snapshot shows a task under its goal, and not at all when it has none. */
  function Shown(x: Option<Task>): Option<Task> {
    if x.Some? && x.value.goal.Some? then x else None
  }

  /** The first change of the task's status, a claim or a status event, is a claim. */
  predicate ClaimFirst(cs: seq<TaskChange>) {
    cs != [] && !cs[0].StatusChanged? && (cs[0].Claimed? || ClaimFirst(cs[1..]))
  }

  predicate HasStatusChange(cs: seq<TaskChange>) {
    cs != [] && (cs[0].StatusChanged? || HasStatusChange(cs[1..]))
  }

  predicate HasMove(cs: seq<TaskChange>) {
    cs != [] && (cs[0].Moved? || HasMove(cs[1..]))
  }

  /** What the first status event was from. */
  function FirstFrom(cs: seq<TaskChange>): TaskStatus
    requires HasStatusChange(cs)
  {
    if cs[0].StatusChanged? then cs[0].from else FirstFrom(cs[1..])
  }

  /** What the rollback makes of a task that existed at the cutoff: its goal then;
      the status of the first status event, or else the one shown, or else a draft;
      and nothing only of a task that never had a goal from the cutoff on. */
  lemma {:induction false} TaskRolled(x: Task, cs: seq<TaskChange>)
    requires ValidTask(Some(x), cs)
    ensures RunTask(Some(x), cs).Some?
    ensures var last := RunTask(Some(x), cs).value;
            var r := UndoTask(Shown(Some(last)), cs);
      && (r.Some? <==> last.goal.Some? || HasStatusChange(cs) || HasMove(cs))
      && (r.None? ==> x.goal.None?)
      && (r.Some? ==> r.value.goal == x.goal
                      && r.value.status == if HasStatusChange(cs) then FirstFrom(cs)
                                           else if last.goal.Some? then last.status else Draft)
    decreases |cs|
  {
    if cs != [] {
      TaskRolled(TaskAfter(Some(x), cs[0]).value, cs[1..]);
    }
  }

  /** The statuses along the way: of a task first claimed, ready at the cutoff and
      in progress right after; of any other, the first status event's own. */
  lemma {:induction false} TaskStatuses(x: Task, cs: seq<TaskChange>)
    requires ValidTask(Some(x), cs)
    ensures RunTask(Some(x), cs).Some?
    ensures var last := RunTask(Some(x), cs).value;
      && (ClaimFirst(cs) ==> x.status == Ready && if HasStatusChange(cs) then FirstFrom(cs) == InProgress
                                                  else last.status == InProgress)
      && (!ClaimFirst(cs) ==> x.status == if HasStatusChange(cs) then FirstFrom(cs) else last.status)
    decreases |cs|
  {
    TaskRolled(x, cs);
    if cs != [] {
      var x' := TaskAfter(Some(x), cs[0]).value;
      TaskStatuses(x', cs[1..]);
      if cs[0].Claimed? {
        NoClaimInProgress(x', cs[1..]);
      }
    }
  }

  lemma {:induction false} NoClaimInProgress(x: Task, cs: seq<TaskChange>)
    requires ValidTask(Some(x), cs) && x.status == InProgress
    ensures !ClaimFirst(cs)
    decreases |cs|
  {
    if cs != [] && !cs[0].StatusChanged? {
      NoClaimInProgress(TaskAfter(Some(x), cs[0]).value, cs[1..]);
    }
  }

  /** The task is out of every goal when read and had no status change since the
      cutoff, but was no draft: the rollback takes it for one. */
  predicate LeftUnseen(x: Task, cs: seq<TaskChange>) {
    var last := RunTask(Some(x), cs);
    !ClaimFirst(cs) && !HasStatusChange(cs) && last.Some? && last.value.goal.None? && x.status != Draft
  }

  predicate TaskMisread(x: Option<Task>, cs: seq<TaskChange>) {
    x.Some? && x.value.goal.Some? && (ClaimFirst(cs) || LeftUnseen(x.value, cs))
  }

  lemma {:induction false} CreatedIsRemoved(x: Option<Task>, cs: seq<TaskChange>, r: Option<Task>)
    requires x.None? && ValidTask(x, cs) && (cs == [] ==> r.None?)
    ensures UndoTask(r, cs).None?
  {
  }

  /** A task of some goal at the cutoff is rolled back to its status and goal then
      exactly when it is not misread; one of no goal then is never shown in one. */
  lemma TaskExact(x: Option<Task>, cs: seq<TaskChange>)
    requires ValidTask(x, cs)
    ensures Shown(UndoTask(Shown(RunTask(x, cs)), cs)) == Shown(x) <==> !TaskMisread(x, cs)
  {
    if x.None? {
      CreatedIsRemoved(x, cs, Shown(RunTask(x, cs)));
    } else {
      TaskRolled(x.value, cs);
      TaskStatuses(x.value, cs);
    }
  }

  // ----- when a goal is rolled back right

  /** The first close or reopening of the goal is a reopening. */
  predicate ReopenFirst(cs: seq<GoalChange>) {
    cs != [] && !cs[0].Closed? && (cs[0].Reopened? || ReopenFirst(cs[1..]))
  }

  /** The first change of the goal's status, a reopening or a status event, is a reopening. */
  predicate StatusReopenFirst(cs: seq<GoalChange>) {
    cs != [] && !cs[0].GoalStatusChanged? && (cs[0].Reopened? || StatusReopenFirst(cs[1..]))
  }

  predicate HasClose(cs: seq<GoalChange>) {
    cs != [] && (cs[0].Closed? || HasClose(cs[1..]))
  }

  predicate HasGoalStatus(cs: seq<GoalChange>) {
    cs != [] && (cs[0].GoalStatusChanged? || HasGoalStatus(cs[1..]))
  }

  function FirstGoalFrom(cs: seq<GoalChange>): GoalStatus
    requires HasGoalStatus(cs)
  {
    if cs[0].GoalStatusChanged? then cs[0].fromStatus else FirstGoalFrom(cs[1..])
  }

  lemma {:induction false} GoalRolled(y: Goal, cs: seq<GoalChange>)
    requires ValidGoal(Some(y), cs)
    ensures RunGoal(Some(y), cs).Some?
    ensures var last := RunGoal(Some(y), cs).value;
            var r := UndoGoal(Some(last), cs);
      && r == Some(Goal(if HasClose(cs) then false else last.closed,
                        if HasGoalStatus(cs) then FirstGoalFrom(cs) else last.status))
      && (ReopenFirst(cs) ==> y.closed && (HasClose(cs) || !last.closed))
      && (!ReopenFirst(cs) ==> y.closed == if HasClose(cs) then false else last.closed)
      && (StatusReopenFirst(cs) ==> (if HasGoalStatus(cs) then FirstGoalFrom(cs) else last.status) == OpenGoal)
      && (!StatusReopenFirst(cs) ==> y.status == if HasGoalStatus(cs) then FirstGoalFrom(cs) else last.status)
    decreases |cs|
  {
    if cs != [] {
      GoalRolled(GoalAfter(Some(y), cs[0]).value, cs[1..]);
      if cs[0].Reopened? {
        ReopenedStaysOpen(GoalAfter(Some(y), cs[0]).value, cs[1..]);
      }
    }
  }

  /** An open, unclosed goal that is closed no more stays unclosed, and its status
      is open until a status event changes it. */
  lemma {:induction false} ReopenedStaysOpen(y: Goal, cs: seq<GoalChange>)
    requires ValidGoal(Some(y), cs) && y.status == OpenGoal
    ensures RunGoal(Some(y), cs).Some?
    ensures !y.closed && !HasClose(cs) ==> !RunGoal(Some(y), cs).value.closed
    ensures (if HasGoalStatus(cs) then FirstGoalFrom(cs) else RunGoal(Some(y), cs).value.status) == OpenGoal
    decreases |cs|
  {
    if cs != [] && !cs[0].GoalStatusChanged? {
      ReopenedStaysOpen(GoalAfter(Some(y), cs[0]).value, cs[1..]);
    } else if cs != [] {
      GoalRolled(GoalAfter(Some(y), cs[0]).value, cs[1..]);
    }
  }

  predicate GoalMisread(y: Option<Goal>, cs: seq<GoalChange>) {
    y.Some? && (ReopenFirst(cs) || (StatusReopenFirst(cs) && y.value.status == DraftGoal))
  }

  /** A goal is rolled back to what it was exactly when no reopening comes before
      its first close, nor, of a draft, before its first status event. */
  lemma GoalExact(y: Option<Goal>, cs: seq<GoalChange>)
    requires ValidGoal(y, cs)
    ensures UndoGoal(RunGoal(y, cs), cs) == y <==> !GoalMisread(y, cs)
  {
    if y.Some? {
      GoalRolled(y.value, cs);
    }
  }

  // ----- the whole rollback

  /** What the snapshots show: every goal, and the tasks of each. */
  function Snapshot(s: Store): Store {
    s.(tasks := map t | t in s.tasks && s.tasks[t].goal.Some? :: s.tasks[t])
  }

  ghost predicate TasksAgree(r: Store, cut: Store) {
    forall t :: Shown(Get(r.tasks, t)) == Shown(Get(cut.tasks, t))
  }

  ghost predicate GoalsAgree(r: Store, cut: Store) {
    forall g :: Get(r.goals, g) == Get(cut.goals, g)
  }

  /** Some task or goal of the cutoff is misread from the events after it. */
  ghost predicate Misread(cut: Store, events: seq<Event>) {
    || (exists t :: TaskMisread(Get(cut.tasks, t), TaskLog(events, t)))
    || (exists g :: GoalMisread(Get(cut.goals, g), GoalLog(events, g)))
  }

  lemma TaskRolledBack(cut: Store, events: seq<Event>, t: int)
    requires Valid(cut, events)
    ensures Shown(Get(Undo(Snapshot(Run(cut, events)), events).tasks, t)) == Shown(Get(cut.tasks, t))
            <==> !TaskMisread(Get(cut.tasks, t), TaskLog(events, t))
  {
    var snapshot := Snapshot(Run(cut, events));
    TaskAlone(cut, snapshot, events, t);
    TaskExact(Get(cut.tasks, t), TaskLog(events, t));
    assert Get(snapshot.tasks, t) == Shown(Get(Run(cut, events).tasks, t));
  }

  lemma GoalRolledBack(cut: Store, events: seq<Event>, g: int)
    requires Valid(cut, events)
    ensures Get(Undo(Snapshot(Run(cut, events)), events).goals, g) == Get(cut.goals, g)
            <==> !GoalMisread(Get(cut.goals, g), GoalLog(events, g))
  {
    GoalAlone(cut, Snapshot(Run(cut, events)), events, g);
    GoalExact(Get(cut.goals, g), GoalLog(events, g));
  }

  /** Undoing the events since the cutoff gives back every goal and, of every
      task in a goal, its status and goal, exactly when none is misread. */
  lemma RollbackExact(cut: Store, events: seq<Event>)
    requires Valid(cut, events)
    ensures var r := Undo(Snapshot(Run(cut, events)), events);
            TasksAgree(r, cut) && GoalsAgree(r, cut) <==> !Misread(cut, events)
  {
    forall t {
      TaskRolledBack(cut, events, t);
    }
    forall g {
      GoalRolledBack(cut, events, g);
    }
  }

  // ----- the log: the events before the reading are those before the cutoff and
  // then the undone ones

  ghost predicate Ordered(log: seq<Logged>) {
    forall i, j :: 0 <= i < j < |log| ==> log[i].at <= log[j].at
  }

  function EventsUpTo(log: seq<Logged>, when: int): seq<Event> {
    if log == [] then []
    else (if log[0].at < when then [log[0].event] else []) + EventsUpTo(log[1..], when)
  }

  /** No event falls between the readings: all are as if done at `when`. */
  ghost predicate QuietReading(log: seq<Logged>, times: Reads, when: int) {
    forall i :: 0 <= i < |log| ==> (log[i].at < ReadAt(times, log[i].event) <==> log[i].at < when)
  }

  /** Every task and goal was read at one instant. */
  ghost predicate ReadAtOnce(times: Reads, when: int) {
    && times.started == when
    && (forall t :: t in times.tasks ==> times.tasks[t] == when)
    && (forall g :: g in times.goals ==> times.goals[g] == when)
  }

  lemma AtOnceIsQuiet(log: seq<Logged>, times: Reads, when: int)
    requires ReadAtOnce(times, when)
    ensures QuietReading(log, times, when)
  {
  }

  lemma {:induction false} NoneUpTo(log: seq<Logged>, when: int)
    requires forall i :: 0 <= i < |log| ==> log[i].at >= when
    ensures EventsUpTo(log, when) == []
  {
    if log != [] {
      NoneUpTo(log[1..], when);
    }
  }

  lemma UpToFirst(log: seq<Logged>, when: int)
    requires log != []
    ensures EventsUpTo(log, when) == (if log[0].at < when then [log[0].event] else []) + EventsUpTo(log[1..], when)
  {
  }

  lemma UndoneFirst(log: seq<Logged>, times: Reads, until: int)
    requires log != []
    ensures Undone(log, times, until)
            == (if until <= log[0].at < ReadAt(times, log[0].event) then [log[0].event] else []) + Undone(log[1..], times, until)
  {
  }

  /** What comes first goes before the cutoff or after it, nothing being before it then. */
  lemma FirstSplits<T>(first: seq<T>, early: bool, read: bool, before: seq<T>, after: seq<T>)
    requires (early ==> read) && (!early ==> before == [])
    ensures (if read then first else []) + (before + after)
            == ((if early then first else []) + before) + ((if read && !early then first else []) + after)
  {
    if early {
      assert first + (before + after) == (first + before) + ([] + after);
    } else {
      assert [] + [] == before;
      assert [] + after == after == before + after;
    }
  }

  lemma {:induction false} LogSplits(log: seq<Logged>, times: Reads, until: int, when: int)
    requires Ordered(log) && QuietReading(log, times, when) && until <= when
    ensures EventsUpTo(log, when) == EventsUpTo(log, until) + Undone(log, times, until)
  {
    if log != [] {
      OrderedRest(log, until);
      QuietRest(log, times, when);
      UpToFirst(log, when);
      UpToFirst(log, until);
      UndoneFirst(log, times, until);
      hide Ordered, QuietReading, ReadAt, EventsUpTo, Undone;
      LogSplits(log[1..], times, until, when);
      FirstSplits([log[0].event], log[0].at < until, log[0].at < when,
                  EventsUpTo(log[1..], until), Undone(log[1..], times, until));
    }
  }

  lemma OrderedRest(log: seq<Logged>, until: int)
    requires Ordered(log) && log != []
    ensures Ordered(log[1..]) && (log[0].at >= until ==> EventsUpTo(log[1..], until) == [])
  {
    assert forall i :: 0 <= i < |log| - 1 ==> log[1..][i] == log[i + 1];
    if log[0].at >= until {
      NoneUpTo(log[1..], until);
    }
  }

  lemma QuietRest(log: seq<Logged>, times: Reads, when: int)
    requires QuietReading(log, times, when) && log != []
    ensures QuietReading(log[1..], times, when) && (log[0].at < ReadAt(times, log[0].event) <==> log[0].at < when)
  {
    hide ReadAt;
    assert forall i :: 0 <= i < |log| - 1 ==> log[1..][i] == log[i + 1];
  }

  lemma {:induction false} RunOfJoin(s: Store, a: seq<Event>, b: seq<Event>)
    ensures Run(s, a + b) == Run(Run(s, a), b)
    ensures Valid(s, a + b) <==> Valid(s, a) && Valid(Run(s, a), b)
    decreases |a|
  {
    if a == [] {
      assert a + b == b;
    } else {
      assert (a + b)[1..] == a[1..] + b;
      RunOfJoin(After(s, a[0]), a[1..], b);
    }
  }

  /** For every valid log, with all snapshots read later and no event between the
      readings: the rollback of what was read is the queue at the cutoff, in all its goals and
      the tasks in them, exactly when nothing after the cutoff is misread. */
  lemma RollbackOfLog(start: Store, log: seq<Logged>, times: Reads, until: int, when: int)
    requires Ordered(log) && QuietReading(log, times, when) && until <= when
    requires Valid(start, EventsUpTo(log, when))
    ensures var cut, read := Run(start, EventsUpTo(log, until)), Run(start, EventsUpTo(log, when));
            var undone := Undone(log, times, until);
            var r := Undo(Snapshot(read), undone);
            TasksAgree(r, cut) && GoalsAgree(r, cut) <==> !Misread(cut, undone)
  {
    LogSplits(log, times, until, when);
    RunOfJoin(start, EventsUpTo(log, until), Undone(log, times, until));
    RollbackExact(Run(start, EventsUpTo(log, until)), Undone(log, times, until));
  }

  // ----- snapshots each read at its own time, with events between the readings

  /** Everything was read between the cutoff and `last`. */
  ghost predicate ReadBetween(times: Reads, until: int, last: int) {
    && until <= times.started <= last
    && (forall t :: t in times.tasks ==> until <= times.tasks[t] <= last)
    && (forall g :: g in times.goals ==> until <= times.goals[g] <= last)
  }

  /** Each goal, and each task in one, is shown as it was when it was read. */
  ghost predicate ShownAsRead(start: Store, log: seq<Logged>, times: Reads, shown: Store) {
    && (forall t :: Get(shown.tasks, t) ==
          Shown(Get(Run(start, EventsUpTo(log, if t in times.tasks then times.tasks[t] else times.started)).tasks, t)))
    && (forall g :: Get(shown.goals, g) ==
          Get(Run(start, EventsUpTo(log, if g in times.goals then times.goals[g] else times.started)).goals, g))
  }

  lemma {:induction false} TaskSplits(log: seq<Logged>, times: Reads, until: int, t: int)
    requires Ordered(log) && until <= if t in times.tasks then times.tasks[t] else times.started
    ensures TaskLog(EventsUpTo(log, if t in times.tasks then times.tasks[t] else times.started), t)
            == TaskLog(EventsUpTo(log, until), t) + TaskLog(Undone(log, times, until), t)
  {
    if log != [] {
      var e, at, read, rest := log[0].event, log[0].at, TaskReadAt(times, t), log[1..];
      OrderedRest(log, until);
      UpToFirst(log, read);
      UpToFirst(log, until);
      UndoneFirst(log, times, until);
      TaskLogOne(at < read, e, EventsUpTo(rest, read), t);
      TaskLogOne(at < until, e, EventsUpTo(rest, until), t);
      TaskLogOne(until <= at < ReadAt(times, e), e, Undone(rest, times, until), t);
      TaskLogNone(t);
      hide Ordered, EventsUpTo, Undone, TaskLog;
      TaskSplits(rest, times, until, t);
      var first := if e.TaskEvent? && e.id == t then [e.task] else [];
      FirstSplits(first, at < until, at < read, TaskLog(EventsUpTo(rest, until), t), TaskLog(Undone(rest, times, until), t));
    }
  }

  lemma TaskLogNone(t: int)
    ensures TaskLog([], t) == []
  {
  }

  lemma TaskLogOne(taken: bool, e: Event, rest: seq<Event>, t: int)
    ensures TaskLog((if taken then [e] else []) + rest, t)
            == (if taken && e.TaskEvent? && e.id == t then [e.task] else []) + TaskLog(rest, t)
  {
    if taken {
      assert ([e] + rest)[1..] == rest;
    } else {
      assert [] + rest == rest;
    }
  }

  lemma {:induction false} GoalSplits(log: seq<Logged>, times: Reads, until: int, g: int)
    requires Ordered(log) && until <= if g in times.goals then times.goals[g] else times.started
    ensures GoalLog(EventsUpTo(log, if g in times.goals then times.goals[g] else times.started), g)
            == GoalLog(EventsUpTo(log, until), g) + GoalLog(Undone(log, times, until), g)
  {
    if log != [] {
      var e, at, read, rest := log[0].event, log[0].at, GoalReadAt(times, g), log[1..];
      OrderedRest(log, until);
      UpToFirst(log, read);
      UpToFirst(log, until);
      UndoneFirst(log, times, until);
      GoalLogOne(at < read, e, EventsUpTo(rest, read), g);
      GoalLogOne(at < until, e, EventsUpTo(rest, until), g);
      GoalLogOne(until <= at < ReadAt(times, e), e, Undone(rest, times, until), g);
      GoalLogNone(g);
      hide Ordered, EventsUpTo, Undone, GoalLog;
      GoalSplits(rest, times, until, g);
      var first := if e.GoalEvent? && e.id == g then [e.goal] else [];
      FirstSplits(first, at < until, at < read, GoalLog(EventsUpTo(rest, until), g), GoalLog(Undone(rest, times, until), g));
    }
  }

  lemma GoalLogNone(g: int)
    ensures GoalLog([], g) == []
  {
  }

  lemma GoalLogOne(taken: bool, e: Event, rest: seq<Event>, g: int)
    ensures GoalLog((if taken then [e] else []) + rest, g)
            == (if taken && e.GoalEvent? && e.id == g then [e.goal] else []) + GoalLog(rest, g)
  {
    if taken {
      assert ([e] + rest)[1..] == rest;
    } else {
      assert [] + rest == rest;
    }
  }

  function Between(log: seq<Logged>, when: int, last: int): seq<Event> {
    if log == [] then []
    else (if when <= log[0].at < last then [log[0].event] else []) + Between(log[1..], when, last)
  }

  lemma BetweenFirst(log: seq<Logged>, when: int, last: int)
    requires log != []
    ensures Between(log, when, last)
            == (if when <= log[0].at < last then [log[0].event] else []) + Between(log[1..], when, last)
  {
  }

  lemma {:induction false} UpToLater(log: seq<Logged>, when: int, last: int)
    requires Ordered(log) && when <= last
    ensures EventsUpTo(log, last) == EventsUpTo(log, when) + Between(log, when, last)
  {
    if log != [] {
      OrderedRest(log, when);
      UpToFirst(log, last);
      UpToFirst(log, when);
      BetweenFirst(log, when, last);
      hide Ordered, EventsUpTo, Between;
      UpToLater(log[1..], when, last);
      FirstSplits([log[0].event], log[0].at < when, log[0].at < last,
                  EventsUpTo(log[1..], when), Between(log[1..], when, last));
    }
  }

  lemma ValidUpTo(start: Store, log: seq<Logged>, when: int, last: int)
    requires Ordered(log) && when <= last && Valid(start, EventsUpTo(log, last))
    ensures Valid(start, EventsUpTo(log, when))
  {
    UpToLater(log, when, last);
    RunOfJoin(start, EventsUpTo(log, when), Between(log, when, last));
  }

  lemma {:induction false} TaskJoin(x: Option<Task>, a: seq<TaskChange>, b: seq<TaskChange>)
    ensures RunTask(x, a + b) == RunTask(RunTask(x, a), b)
    ensures ValidTask(x, a + b) ==> ValidTask(RunTask(x, a), b)
    decreases |a|
  {
    if a == [] {
      assert a + b == b;
    } else {
      assert (a + b)[1..] == a[1..] + b;
      TaskJoin(TaskAfter(x, a[0]), a[1..], b);
    }
  }

  lemma {:induction false} GoalJoin(y: Option<Goal>, a: seq<GoalChange>, b: seq<GoalChange>)
    ensures RunGoal(y, a + b) == RunGoal(RunGoal(y, a), b)
    ensures ValidGoal(y, a + b) ==> ValidGoal(RunGoal(y, a), b)
    decreases |a|
  {
    if a == [] {
      assert a + b == b;
    } else {
      assert (a + b)[1..] == a[1..] + b;
      GoalJoin(GoalAfter(y, a[0]), a[1..], b);
    }
  }

  /** A task shown as it was when read is rolled back from there. */
  lemma TaskFromRead(start: Store, log: seq<Logged>, times: Reads, until: int, last: int, shown: Store, t: int)
    requires Ordered(log) && ReadBetween(times, until, last) && Valid(start, EventsUpTo(log, last))
    requires ShownAsRead(start, log, times, shown)
    ensures var cut, undone := Run(start, EventsUpTo(log, until)), Undone(log, times, until);
            Shown(Get(Undo(shown, undone).tasks, t)) == Shown(Get(cut.tasks, t))
            <==> !TaskMisread(Get(cut.tasks, t), TaskLog(undone, t))
  {
    var undone, first, all := Undone(log, times, until), EventsUpTo(log, until), EventsUpTo(log, TaskReadAt(times, t));
    ValidUpTo(start, log, TaskReadAt(times, t), last);
    TaskSplits(log, times, until, t);
    TaskAlone(start, shown, all, t);
    TaskAlone(start, shown, first, t);
    TaskAlone(start, shown, undone, t);
    TaskJoin(Get(start.tasks, t), TaskLog(first, t), TaskLog(undone, t));
    TaskExact(Get(Run(start, first).tasks, t), TaskLog(undone, t));
  }

  lemma GoalFromRead(start: Store, log: seq<Logged>, times: Reads, until: int, last: int, shown: Store, g: int)
    requires Ordered(log) && ReadBetween(times, until, last) && Valid(start, EventsUpTo(log, last))
    requires ShownAsRead(start, log, times, shown)
    ensures var cut, undone := Run(start, EventsUpTo(log, until)), Undone(log, times, until);
            Get(Undo(shown, undone).goals, g) == Get(cut.goals, g)
            <==> !GoalMisread(Get(cut.goals, g), GoalLog(undone, g))
  {
    var undone, first, all := Undone(log, times, until), EventsUpTo(log, until), EventsUpTo(log, GoalReadAt(times, g));
    ValidUpTo(start, log, GoalReadAt(times, g), last);
    GoalSplits(log, times, until, g);
    GoalAlone(start, shown, all, g);
    GoalAlone(start, shown, first, g);
    GoalAlone(start, shown, undone, g);
    GoalJoin(Get(start.goals, g), GoalLog(first, g), GoalLog(undone, g));
    GoalExact(Get(Run(start, first).goals, g), GoalLog(undone, g));
  }

  /** With every goal and task read at its own time, and events between the readings: if
      each is shown as it was when it was read, the rollback is the queue at the cutoff
      exactly when nothing after the cutoff, up to its own reading, is misread. */
  lemma RollbackOfReads(start: Store, log: seq<Logged>, times: Reads, until: int, last: int, shown: Store)
    requires Ordered(log) && ReadBetween(times, until, last) && Valid(start, EventsUpTo(log, last))
    requires ShownAsRead(start, log, times, shown)
    ensures var cut, undone := Run(start, EventsUpTo(log, until)), Undone(log, times, until);
            var r := Undo(shown, undone);
            TasksAgree(r, cut) && GoalsAgree(r, cut) <==> !Misread(cut, undone)
  {
    hide ShownAsRead, TaskMisread, GoalMisread, Valid, Ordered, ReadBetween;
    forall t {
      TaskFromRead(start, log, times, until, last, shown, t);
    }
    forall g {
      GoalFromRead(start, log, times, until, last, shown, g);
    }
  }

  // ----- what the report takes from the rollback

  function OpenGoals(s: Store): set<int> {
    set g | g in s.goals && !s.goals[g].closed && s.goals[g].status == OpenGoal
  }

  predicate Unfinished(x: Option<Task>, g: int) {
    x.Some? && x.value.goal == Some(g) && x.value.status != Completed && x.value.status != Canceled
  }

  /** The tasks of a goal that are left to do. */
  function Remaining(s: Store, g: int): set<int> {
    set t | t in s.tasks && Unfinished(Get(s.tasks, t), g)
  }

  /** The tasks left to do are right even where a claim is missed: only a task out
      of every goal when read, with no status event since the cutoff, is taken for
      unfinished when it was completed or canceled. */
  lemma RemainingExact(cut: Store, events: seq<Event>, t: int, g: int)
    requires Valid(cut, events)
    ensures var x, cs := Get(cut.tasks, t), TaskLog(events, t);
            (t in Remaining(Undo(Snapshot(Run(cut, events)), events), g) <==>
             t in cut.tasks && cut.tasks[t].goal == Some(g) && cut.tasks[t].status != Completed && cut.tasks[t].status != Canceled)
            <==> !(x.Some? && x.value.goal == Some(g) && LeftUnseen(x.value, cs)
                   && (x.value.status == Completed || x.value.status == Canceled))
  {
    var snapshot := Snapshot(Run(cut, events));
    var x, cs := Get(cut.tasks, t), TaskLog(events, t);
    TaskAlone(cut, snapshot, events, t);
    assert Get(snapshot.tasks, t) == Shown(RunTask(x, cs));
    if x.None? {
      CreatedIsRemoved(x, cs, Shown(RunTask(x, cs)));
    } else {
      TaskRolled(x.value, cs);
      TaskStatuses(x.value, cs);
    }
  }

  predicate IsOpen(y: Option<Goal>) {
    y.Some? && !y.value.closed && y.value.status == OpenGoal
  }

  /** The goal was not open, and a reopening the rollback does not read leaves it open. */
  predicate OpenMisread(y: Option<Goal>, cs: seq<GoalChange>) {
    y.Some? && (|| (StatusReopenFirst(cs) && (ReopenFirst(cs) || y.value.status == DraftGoal))
                || (ReopenFirst(cs) && y.value.status == OpenGoal))
  }

  lemma {:induction false} AddedIsRemoved(y: Option<Goal>, cs: seq<GoalChange>, r: Option<Goal>)
    requires y.None? && ValidGoal(y, cs) && (cs == [] ==> r.None?)
    ensures UndoGoal(r, cs).None?
  {
  }

  /** A goal is open after the rollback exactly as it was, unless it is misread so. */
  lemma OpenExact(y: Option<Goal>, cs: seq<GoalChange>)
    requires ValidGoal(y, cs)
    ensures (IsOpen(UndoGoal(RunGoal(y, cs), cs)) <==> IsOpen(y)) <==> !OpenMisread(y, cs)
  {
    if y.Some? {
      GoalRolled(y.value, cs);
    } else {
      AddedIsRemoved(y, cs, RunGoal(y, cs));
    }
  }

  /** The open goals are those at the cutoff exactly when none is misread so. */
  lemma OpenGoalsExact(cut: Store, events: seq<Event>)
    requires Valid(cut, events)
    ensures OpenGoals(Undo(Snapshot(Run(cut, events)), events))
            == (set g | g in cut.goals && !cut.goals[g].closed && cut.goals[g].status == OpenGoal)
            <==> forall g :: !OpenMisread(Get(cut.goals, g), GoalLog(events, g))
  {
    var r := Undo(Snapshot(Run(cut, events)), events);
    if OpenGoals(r) == OpenGoals(cut) {
      forall g ensures !OpenMisread(Get(cut.goals, g), GoalLog(events, g)) {
        OpenGoalExact(cut, events, g);
      }
    }
    if forall g :: !OpenMisread(Get(cut.goals, g), GoalLog(events, g)) {
      forall g ensures g in OpenGoals(r) <==> g in OpenGoals(cut) {
        OpenGoalExact(cut, events, g);
        assert !OpenMisread(Get(cut.goals, g), GoalLog(events, g));
      }
    }
  }

  lemma OpenGoalExact(cut: Store, events: seq<Event>, g: int)
    requires Valid(cut, events)
    ensures var r := Undo(Snapshot(Run(cut, events)), events);
            (g in OpenGoals(r) <==> g in OpenGoals(cut)) <==> !OpenMisread(Get(cut.goals, g), GoalLog(events, g))
  {
    GoalAlone(cut, Snapshot(Run(cut, events)), events, g);
    OpenExact(Get(cut.goals, g), GoalLog(events, g));
  }

  /** The open goals are right when no goal is misread. */
  lemma OpenGoalsRight(cut: Store, events: seq<Event>)
    requires Valid(cut, events) && forall g :: !GoalMisread(Get(cut.goals, g), GoalLog(events, g))
    ensures OpenGoals(Undo(Snapshot(Run(cut, events)), events)) == OpenGoals(cut)
  {
    OpenGoalsExact(cut, events);
  }

  // ----- logs the queue really writes on which the rollback goes wrong

  /** A ready task claimed after the cutoff is rolled back to in progress. */
  lemma ClaimIsMisread()
    ensures var cut := Store(map[7 := Task(Ready, Some(1))], map[1 := Goal(false, OpenGoal)]);
            var events := [TaskEvent(7, Claimed)];
      Valid(cut, events) && Undo(Snapshot(Run(cut, events)), events).tasks == map[7 := Task(InProgress, Some(1))]
  {
    var cut := Store(map[7 := Task(Ready, Some(1))], map[1 := Goal(false, OpenGoal)]);
    var events := [TaskEvent(7, Claimed)];
    var read := After(cut, events[0]);
    assert Run(cut, events) == Run(read, []) == read;
    assert read.tasks == map[7 := Task(InProgress, Some(1))] == Snapshot(read).tasks;
    assert Undo(Snapshot(read), events) == Before(Undo(Snapshot(read), []), events[0]);
  }

  /** A ready task taken out of its goal after the cutoff is rolled back to a draft. */
  lemma LeavingIsMisread()
    ensures var cut := Store(map[7 := Task(Ready, Some(1))], map[1 := Goal(false, OpenGoal)]);
            var events := [TaskEvent(7, Moved(Some(1), None))];
      Valid(cut, events) && Undo(Snapshot(Run(cut, events)), events).tasks == map[7 := Task(Draft, Some(1))]
  {
    var cut := Store(map[7 := Task(Ready, Some(1))], map[1 := Goal(false, OpenGoal)]);
    var events := [TaskEvent(7, Moved(Some(1), None))];
    var read := After(cut, events[0]);
    assert Run(cut, events) == Run(read, []) == read;
    assert read.tasks == map[7 := Task(Ready, None)] && Snapshot(read).tasks == map[];
    assert Undo(Snapshot(read), events) == Before(Undo(Snapshot(read), []), events[0]);
  }

  /** A completed task taken out of its goal after the cutoff is left to do there. */
  lemma LeavingIsUnfinished()
    ensures var cut := Store(map[7 := Task(Completed, Some(1))], map[1 := Goal(false, OpenGoal)]);
            var events := [TaskEvent(7, Moved(Some(1), None))];
      && Valid(cut, events) && 7 !in Remaining(cut, 1)
      && 7 in Remaining(Undo(Snapshot(Run(cut, events)), events), 1)
  {
    var cut := Store(map[7 := Task(Completed, Some(1))], map[1 := Goal(false, OpenGoal)]);
    var events := [TaskEvent(7, Moved(Some(1), None))];
    var read := After(cut, events[0]);
    assert Run(cut, events) == Run(read, []) == read;
    assert read.tasks == map[7 := Task(Completed, None)] && Snapshot(read).tasks == map[];
    assert Undo(Snapshot(read), events) == Before(Undo(Snapshot(read), []), events[0]);
  }

  /** A goal closed at the cutoff and reopened after it is reported open then. */
  lemma ReopeningIsMisread()
    ensures var cut := Store(map[], map[1 := Goal(true, OpenGoal)]);
            var events := [GoalEvent(1, Reopened)];
      && Valid(cut, events) && OpenGoals(cut) == {}
      && OpenGoals(Undo(Snapshot(Run(cut, events)), events)) == {1}
  {
    var cut := Store(map[], map[1 := Goal(true, OpenGoal)]);
    var events := [GoalEvent(1, Reopened)];
    var read := After(cut, events[0]);
    assert Run(cut, events) == Run(read, []) == read;
    assert read.goals == map[1 := Goal(false, OpenGoal)];
    assert Undo(Snapshot(read), events) == Before(Undo(Snapshot(read), []), events[0]);
    assert Undo(Snapshot(read), events).goals == read.goals;
  }
}

/** The two-way map between tasks and requests of RequestTaskMap.swift: three dictionaries that
    together refine one table of associations, as long as no half of a pair is associated again. */
module TaskMap {
  import opened Basics

  type Task = nat
  type Request = nat

  datatype Events = Events(completed: bool, metricsGathered: bool)

  datatype Maps = Maps(
    tasksToRequests: map<Task, Request>,
    requestsToTasks: map<Request, Task>,
    taskEvents: map<Task, Events>)

  /** The new dictionaries and what the call returns, or a crash. */
  datatype Outcome = Returned(maps: Maps, disassociated: bool) | FatalError

  // ---- The operations on the dictionaries ------------------------------------------------------

  function Associate(s: Maps, r: Request, t: Task): Maps {
    Maps(s.tasksToRequests[t := r], s.requestsToTasks[r := t], s.taskEvents[t := Events(false, false)])
  }

  function Remove(s: Maps, r: Request, t: Task): Maps {
    Maps(s.tasksToRequests - {t}, s.requestsToTasks - {r}, s.taskEvents - {t})
  }

  function SetForRequest(s: Maps, r: Request, task: Option<Task>): Outcome {
    match task
    case Some(t) => Returned(Associate(s, r, t), false)
    case None => if r in s.requestsToTasks then Returned(Remove(s, r, s.requestsToTasks[r]), false) else FatalError
  }

  function SetForTask(s: Maps, t: Task, request: Option<Request>): Outcome {
    match request
    case Some(r) => Returned(Associate(s, r, t), false)
    case None => if t in s.tasksToRequests then Returned(Remove(s, s.tasksToRequests[t], t), false) else FatalError
  }

  /** Leaves the events as `next`, or removes `t`. */
  function Proceed(s: Maps, t: Task, leaves: bool, next: Events): Outcome {
    if !leaves then Returned(s.(taskEvents := s.taskEvents[t := next]), false)
    else
      match SetForTask(s, t, None)
      case Returned(maps, _) => Returned(maps, true)
      case FatalError => FatalError
  }

  function AfterGatheringMetrics(s: Maps, t: Task): Outcome {
    if t !in s.taskEvents || s.taskEvents[t].metricsGathered then FatalError
    else Proceed(s, t, s.taskEvents[t].completed, Events(false, true))
  }

  function AfterCompleting(s: Maps, t: Task): Outcome {
    if t !in s.taskEvents || s.taskEvents[t].completed then FatalError
    else Proceed(s, t, s.taskEvents[t].metricsGathered, Events(true, false))
  }

  datatype Operation =
    | SetTask(request: Request, newTask: Option<Task>)
    | SetRequest(task: Task, newRequest: Option<Request>)
    | MetricsGathered(task: Task)
    | Completed(task: Task)

  function Step(s: Maps, op: Operation): Outcome {
    match op
    case SetTask(r, t) => SetForRequest(s, r, t)
    case SetRequest(t, r) => SetForTask(s, t, r)
    case MetricsGathered(t) => AfterGatheringMetrics(s, t)
    case Completed(t) => AfterCompleting(s, t)
  }

  // ---- One table of associations ------------------------------------------------------------------

  datatype Association = Association(request: Request, events: Events)

  type Table = map<Task, Association>

  /** No request has two tasks, and no task stays after both of its events. */
  predicate OneToOne(table: Table) {
    && (forall t, u :: t in table && u in table && table[t].request == table[u].request ==> t == u)
    && (forall t :: t in table ==> !(table[t].events.completed && table[t].events.metricsGathered))
  }

  predicate HasRequest(table: Table, r: Request) {
    exists t :: t in table && table[t].request == r
  }

  /** The task of a request. */
  function TaskOf(table: Table, r: Request): (t: Task)
    requires HasRequest(table, r) && OneToOne(table)
    ensures t in table && table[t].request == r
  {
    var t :| t in table && table[t].request == r;
    t
  }

  /** Only what is not there is associated, only what is there is removed, and each event comes at
      most once for an association. */
  predicate Permitted(table: Table, op: Operation) {
    match op
    case SetTask(r, Some(t)) => t !in table && !HasRequest(table, r)
    case SetTask(r, None) => HasRequest(table, r)
    case SetRequest(t, Some(r)) => t !in table && !HasRequest(table, r)
    case SetRequest(t, None) => t in table
    case MetricsGathered(t) => t in table && !table[t].events.metricsGathered
    case Completed(t) => t in table && !table[t].events.completed
  }

  /** The same on the table: a task leaves when both of its events have come. */
  function Ideal(table: Table, op: Operation): Table
    requires OneToOne(table) && Permitted(table, op)
  {
    match op
    case SetTask(r, Some(t)) => table[t := Association(r, Events(false, false))]
    case SetTask(r, None) => table - {TaskOf(table, r)}
    case SetRequest(t, Some(r)) => table[t := Association(r, Events(false, false))]
    case SetRequest(t, None) => table - {t}
    case MetricsGathered(t) =>
      if table[t].events.completed then table - {t}
      else table[t := Association(table[t].request, Events(false, true))]
    case Completed(t) =>
      if table[t].events.metricsGathered then table - {t}
      else table[t := Association(table[t].request, Events(true, false))]
  }

  /** Tasks have the requests and the events of the table. */
  ghost predicate HoldsTasks(s: Maps, table: Table) {
    && s.tasksToRequests.Keys == table.Keys == s.taskEvents.Keys
    && forall t :: t in table ==> s.tasksToRequests[t] == table[t].request && s.taskEvents[t] == table[t].events
  }

  /** Requests have the tasks of the table, and no others. */
  ghost predicate HoldsRequests(s: Maps, table: Table) {
    && (forall t :: t in table ==> table[t].request in s.requestsToTasks && s.requestsToTasks[table[t].request] == t)
    && (forall r :: r in s.requestsToTasks ==>
          s.requestsToTasks[r] in table && table[s.requestsToTasks[r]].request == r)
  }

  /** The dictionaries hold the table, and are inverses of each other. */
  ghost predicate Represents(s: Maps, table: Table) {
    HoldsTasks(s, table) && HoldsRequests(s, table)
  }

  lemma AssociateOneToOne(table: Table, r: Request, t: Task)
    requires OneToOne(table) && t !in table && !HasRequest(table, r)
    ensures OneToOne(table[t := Association(r, Events(false, false))])
  {}

  lemma AssociateRefines(s: Maps, table: Table, r: Request, t: Task)
    requires Represents(s, table) && OneToOne(table) && t !in table && !HasRequest(table, r)
    ensures Represents(Associate(s, r, t), table[t := Association(r, Events(false, false))])
    ensures OneToOne(table[t := Association(r, Events(false, false))])
  {
    AssociateOneToOne(table, r, t);
    AssociateTasks(s, table, r, t);
    AssociateRequests(s, table, r, t);
    hide OneToOne, HoldsTasks, HoldsRequests, Associate;
  }

  lemma AssociateTasks(s: Maps, table: Table, r: Request, t: Task)
    requires HoldsTasks(s, table)
    ensures HoldsTasks(Associate(s, r, t), table[t := Association(r, Events(false, false))])
  {
    var next := table[t := Association(r, Events(false, false))];
    assert next.Keys == table.Keys + {t} && Associate(s, r, t).taskEvents.Keys == s.taskEvents.Keys + {t};
  }

  lemma AssociateRequests(s: Maps, table: Table, r: Request, t: Task)
    requires HoldsRequests(s, table) && t !in table && !HasRequest(table, r)
    ensures HoldsRequests(Associate(s, r, t), table[t := Association(r, Events(false, false))])
  {}

  lemma RemoveRefines(s: Maps, table: Table, t: Task)
    requires Represents(s, table) && OneToOne(table) && t in table
    ensures Represents(Remove(s, table[t].request, t), table - {t}) && OneToOne(table - {t})
  {}

  lemma EventOneToOne(table: Table, t: Task, e: Events)
    requires OneToOne(table) && t in table && !(e.completed && e.metricsGathered)
    ensures OneToOne(table[t := Association(table[t].request, e)])
  {}

  lemma EventRequests(s: Maps, table: Table, t: Task, e: Events)
    requires HoldsRequests(s, table) && t in table
    ensures HoldsRequests(s.(taskEvents := s.taskEvents[t := e]), table[t := Association(table[t].request, e)])
  {}

  lemma EventRefines(s: Maps, table: Table, t: Task, e: Events)
    requires Represents(s, table) && OneToOne(table) && t in table && !(e.completed && e.metricsGathered)
    ensures Represents(s.(taskEvents := s.taskEvents[t := e]), table[t := Association(table[t].request, e)])
    ensures OneToOne(table[t := Association(table[t].request, e)])
  {
    EventOneToOne(table, t, e);
    EventRequests(s, table, t, e);
    EventTasks(s, table, t, e);
    hide OneToOne, HoldsRequests, HoldsTasks;
  }

  lemma EventTasks(s: Maps, table: Table, t: Task, e: Events)
    requires HoldsTasks(s, table) && t in table
    ensures HoldsTasks(s.(taskEvents := s.taskEvents[t := e]), table[t := Association(table[t].request, e)])
  {
    var next := table[t := Association(table[t].request, e)];
    assert next.Keys == table.Keys && s.taskEvents[t := e].Keys == s.taskEvents.Keys;
  }

  /** Every permitted operation does on the dictionaries what it does on the table, without a crash;
      it returns true exactly when an event makes its task leave. */
  lemma StepRefines(s: Maps, table: Table, op: Operation)
    requires Represents(s, table) && OneToOne(table) && Permitted(table, op)
    ensures Step(s, op).Returned? && Represents(Step(s, op).maps, Ideal(table, op)) && OneToOne(Ideal(table, op))
    ensures Step(s, op).disassociated <==> (op.MetricsGathered? || op.Completed?) && op.task !in Ideal(table, op)
  {
    hide OneToOne, HasRequest, Associate, Remove;
    match op {
      case SetTask(r, Some(t)) => AssociateRefines(s, table, r, t);
      case SetTask(r, None) => RemoveRefines(s, table, TaskOf(table, r));
      case SetRequest(t, Some(r)) => AssociateRefines(s, table, r, t);
      case SetRequest(t, None) => RemoveRefines(s, table, t);
      case MetricsGathered(t) =>
        RemoveRefines(s, table, t);
        EventRefines(s, table, t, Events(false, true));
      case Completed(t) =>
        RemoveRefines(s, table, t);
        EventRefines(s, table, t, Events(true, false));
    }
  }

  // ---- The counts -----------------------------------------------------------------------------------

  /** The preconditions of count, eventCount, isEmpty and isEventsEmpty. */
  predicate CountsAgree(s: Maps) {
    |s.tasksToRequests| == |s.requestsToTasks| == |s.taskEvents|
  }

  lemma {:induction false} InverseSizes(tasks: set<Task>, requests: set<Request>, f: map<Task, Request>)
    requires tasks <= f.Keys
    requires forall t :: t in tasks ==> f[t] in requests
    requires forall r :: r in requests ==> exists t :: t in tasks && f[t] == r
    requires forall t, u :: t in tasks && u in tasks && f[t] == f[u] ==> t == u
    ensures |tasks| == |requests|
  {
    if tasks == {} {
      assert requests == {};
    } else {
      var t :| t in tasks;
      InverseSizes(tasks - {t}, requests - {f[t]}, f);
    }
  }

  lemma RepresentsCounts(s: Maps, table: Table)
    requires Represents(s, table) && OneToOne(table)
    ensures CountsAgree(s)
  {
    forall r | r in s.requestsToTasks.Keys
      ensures exists t :: t in s.tasksToRequests.Keys && s.tasksToRequests[t] == r
    {
      assert s.tasksToRequests[s.requestsToTasks[r]] == r;
    }
    InverseSizes(s.tasksToRequests.Keys, s.requestsToTasks.Keys, s.tasksToRequests);
    assert |s.tasksToRequests.Keys| == |s.tasksToRequests| && |s.requestsToTasks.Keys| == |s.requestsToTasks|;
    assert |s.taskEvents.Keys| == |s.taskEvents|;
  }

  // ---- Runs -------------------------------------------------------------------------------------------

  const EMPTY: Maps := Maps(map[], map[], map[])

  /** A run of operations, each permitted by the table that the ones before it make. */
  ghost predicate IsRun(ops: seq<Operation>, tables: seq<Table>) {
    && |tables| == |ops| + 1 && tables[0] == map[]
    && forall k: nat :: k < |ops| ==>
         Permitted(tables[k], ops[k]) && (OneToOne(tables[k]) ==> tables[k + 1] == Ideal(tables[k], ops[k]))
  }

  /** The dictionaries after the first `k` operations. */
  function After(ops: seq<Operation>, k: nat): Outcome
    requires k <= |ops|
  {
    if k == 0 then Returned(EMPTY, false)
    else
      match After(ops, k - 1)
      case FatalError => FatalError
      case Returned(maps, _) => Step(maps, ops[k - 1])
  }

  /** In every run no operation crashes, the dictionaries hold the table, the two maps are inverses
      of each other and the counts agree. */
  lemma {:induction false} RunRefines(ops: seq<Operation>, tables: seq<Table>, k: nat)
    requires IsRun(ops, tables) && k <= |ops|
    ensures After(ops, k).Returned? && Represents(After(ops, k).maps, tables[k]) && OneToOne(tables[k])
    ensures CountsAgree(After(ops, k).maps)
  {
    if k > 0 {
      RunRefines(ops, tables, k - 1);
      StepRefines(After(ops, k - 1).maps, tables[k - 1], ops[k - 1]);
    }
    RepresentsCounts(After(ops, k).maps, tables[k]);
  }

  /** A task stays for the first of its two events and leaves on the second, in either order. */
  lemma LeavesOnSecondEvent(s: Maps, table: Table, t: Task)
    requires Represents(s, table) && OneToOne(table) && t in table && table[t].events == Events(false, false)
    ensures var metrics, completed := AfterGatheringMetrics(s, t), AfterCompleting(s, t);
            && metrics.Returned? && !metrics.disassociated && t in metrics.maps.tasksToRequests
            && completed.Returned? && !completed.disassociated && t in completed.maps.tasksToRequests
            && AfterCompleting(metrics.maps, t) == AfterGatheringMetrics(completed.maps, t)
            && AfterCompleting(metrics.maps, t) == Returned(Remove(s, table[t].request, t), true)
  {
    var a, b := AfterGatheringMetrics(s, t).maps, AfterCompleting(s, t).maps;
    assert a.taskEvents - {t} == s.taskEvents - {t} == b.taskEvents - {t};
  }

  // ---- Where the map stops being one to one ---------------------------------------------------------------

  ghost predicate Consistent(s: Maps) {
    && s.tasksToRequests.Keys == s.taskEvents.Keys
    && (forall t :: t in s.tasksToRequests ==>
          s.tasksToRequests[t] in s.requestsToTasks && s.requestsToTasks[s.tasksToRequests[t]] == t)
    && (forall r :: r in s.requestsToTasks ==>
          s.requestsToTasks[r] in s.tasksToRequests && s.tasksToRequests[s.requestsToTasks[r]] == r)
  }

  /** Associating a pair keeps the map one to one exactly when neither half is there, or the very
      pair is: the old partner of a half is not removed. */
  lemma AssociateConsistent(s: Maps, r: Request, t: Task)
    requires Consistent(s)
    ensures Consistent(Associate(s, r, t)) <==>
            if r in s.requestsToTasks then s.requestsToTasks[r] == t else t !in s.tasksToRequests
  {
    var next := Associate(s, r, t);
    if r in s.requestsToTasks && s.requestsToTasks[r] != t {
      var u := s.requestsToTasks[r];
      assert next.tasksToRequests[u] == r && next.requestsToTasks[r] == t;
    } else if r !in s.requestsToTasks && t in s.tasksToRequests {
      var q := s.tasksToRequests[t];
      assert next.requestsToTasks[q] == t && next.tasksToRequests[t] == r;
    }
  }

  /** For instance, when a request is given a second task, the first one stays behind and count's
      precondition fails. */
  lemma SecondTaskBreaksCount(r: Request, t: Task, u: Task)
    requires t != u
    ensures !CountsAgree(Associate(Associate(EMPTY, r, t), r, u))
  {
    var s := Associate(Associate(EMPTY, r, t), r, u);
    assert s.tasksToRequests.Keys == {t, u} && s.requestsToTasks.Keys == {r};
    assert |s.tasksToRequests.Keys| == |s.tasksToRequests| && |s.requestsToTasks.Keys| == |s.requestsToTasks|;
  }

  // ---- What the events of a run do -----------------------------------------------------------------

  /** When an operation crashes: removing what is not there, an event of a task that is not there, or one
      that has come already. */
  predicate Crashes(table: Table, op: Operation) {
    match op
    case SetTask(r, None) => !HasRequest(table, r)
    case SetRequest(t, None) => t !in table
    case MetricsGathered(t) => t !in table || table[t].events.metricsGathered
    case Completed(t) => t !in table || table[t].events.completed
    case _ => false
  }

  lemma CrashesExactly(s: Maps, table: Table, op: Operation)
    requires Represents(s, table) && OneToOne(table)
    ensures Step(s, op).FatalError? <==> Crashes(table, op)
  {
    hide OneToOne, Associate, Remove;
    match op {
      case SetTask(r, None) => RequestThere(s, table, r);
      case _ =>
    }
  }

  lemma RequestThere(s: Maps, table: Table, r: Request)
    requires Represents(s, table)
    ensures r in s.requestsToTasks <==> HasRequest(table, r)
  {}

  predicate Associates(op: Operation, r: Request, t: Task) {
    op == SetTask(r, Some(t)) || op == SetRequest(t, Some(r))
  }

  /** The operation came between the steps `j` and `k`. */
  ghost predicate Came(ops: seq<Operation>, j: nat, k: nat, op: Operation)
    requires k <= |ops|
  {
    exists m: nat :: j < m < k && ops[m] == op
  }

  lemma CameNext(ops: seq<Operation>, j: nat, k: nat, op: Operation)
    requires j < k < |ops|
    ensures Came(ops, j, k + 1, op) <==> Came(ops, j, k, op) || ops[k] == op
  {}

  lemma CameNone(ops: seq<Operation>, j: nat, op: Operation)
    requires j < |ops|
    ensures !Came(ops, j, j + 1, op)
  {}

  lemma IdealKeeps(table: Table, op: Operation, r: Request, t: Task)
    requires OneToOne(table) && Permitted(table, op) && t in table && table[t].request == r
    requires op != SetTask(r, None) && op != SetRequest(t, None)
    ensures var next, events := Ideal(table, op), table[t].events;
            if (op == MetricsGathered(t) && events.completed) || (op == Completed(t) && events.metricsGathered)
            then t !in next
            else t in next && next[t] == Association(r, Events(events.completed || op == Completed(t),
                                                               events.metricsGathered || op == MetricsGathered(t)))
  {}

  lemma RunStep(ops: seq<Operation>, tables: seq<Table>, k: nat)
    requires IsRun(ops, tables) && k < |ops|
    ensures |tables| == |ops| + 1 && OneToOne(tables[k]) && Permitted(tables[k], ops[k])
    ensures tables[k + 1] == Ideal(tables[k], ops[k])
  {
    RunRefines(ops, tables, k);
    hide OneToOne, Permitted, Ideal, Represents;
  }

  lemma Associated(table: Table, op: Operation, r: Request, t: Task)
    requires OneToOne(table) && Permitted(table, op) && Associates(op, r, t)
    ensures t in Ideal(table, op) && Ideal(table, op)[t] == Association(r, Events(false, false))
  {}

  /** From the step that associates a task with a request on, as long as neither is removed and not both of
      the task's events have come, the task stays, with the events that have come. */
  lemma {:induction false} AssociationLasts(ops: seq<Operation>, tables: seq<Table>, j: nat, k: nat, r: Request,
                                            t: Task)
    requires IsRun(ops, tables) && j < k <= |ops| && Associates(ops[j], r, t)
    requires !Came(ops, j, k, SetTask(r, None)) && !Came(ops, j, k, SetRequest(t, None))
    requires !(Came(ops, j, k, Completed(t)) && Came(ops, j, k, MetricsGathered(t)))
    ensures |tables| == |ops| + 1 && t in tables[k]
    ensures tables[k][t] == Association(r, Events(Came(ops, j, k, Completed(t)), Came(ops, j, k, MetricsGathered(t))))
    decreases k
  {
    hide *;
    RunStep(ops, tables, k - 1);
    if j == k - 1 {
      Associated(tables[j], ops[j], r, t);
      CameNone(ops, j, Completed(t));
      CameNone(ops, j, MetricsGathered(t));
    } else {
      CameNext(ops, j, k - 1, SetTask(r, None));
      CameNext(ops, j, k - 1, SetRequest(t, None));
      CameNext(ops, j, k - 1, Completed(t));
      CameNext(ops, j, k - 1, MetricsGathered(t));
      AssociationLasts(ops, tables, j, k - 1, r, t);
      IdealKeeps(tables[k - 1], ops[k - 1], r, t);
    }
  }

  /** The second of its events makes the task leave. */
  lemma SecondEventRemoves(ops: seq<Operation>, tables: seq<Table>, j: nat, k: nat, r: Request, t: Task)
    requires IsRun(ops, tables) && j < k < |ops| && Associates(ops[j], r, t)
    requires !Came(ops, j, k, SetTask(r, None)) && !Came(ops, j, k, SetRequest(t, None))
    requires !(Came(ops, j, k, Completed(t)) && Came(ops, j, k, MetricsGathered(t)))
    requires (ops[k] == Completed(t) && Came(ops, j, k, MetricsGathered(t)))
             || (ops[k] == MetricsGathered(t) && Came(ops, j, k, Completed(t)))
    ensures |tables| == |ops| + 1 && t !in tables[k + 1]
  {
    RunStep(ops, tables, k);
    hide IsRun, OneToOne, Permitted, Ideal, Associates, Came;
    AssociationLasts(ops, tables, j, k, r, t);
    IdealKeeps(tables[k], ops[k], r, t);
  }
}

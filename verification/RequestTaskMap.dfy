/** Alamofire's RequestTaskMap on platforms that gather metrics: a two-way map between tasks and requests, and the
    events each task has received. A step that would stop the program with a consistency error is None. */
module RequestTaskMap {
  import opened Bits

  type Task = nat
  type Request = nat

  datatype Events = Events(completed: bool, metricsGathered: bool)

  datatype State = State(
    tasksToRequests: map<Task, Request>,
    requestsToTasks: map<Request, Task>,
    taskEvents: map<Task, Events>)

  const EMPTY: State := State(map[], map[], map[])

  const NO_EVENTS: Events := Events(false, false)

  // ---------------------------------------------------------------- what the operations do

  /** Both subscript setters with a new value. */
  function Associate(s: State, request: Request, task: Task): State
  {
    State(s.tasksToRequests[task := request], s.requestsToTasks[request := task], s.taskEvents[task := NO_EVENTS])
  }

  function Remove(s: State, request: Request, task: Task): State
  {
    State(s.tasksToRequests - {task}, s.requestsToTasks - {request}, s.taskEvents - {task})
  }

  /** The request setter with nil. */
  function RemoveRequest(s: State, request: Request): Option<State>
  {
    if request in s.requestsToTasks then Some(Remove(s, request, s.requestsToTasks[request])) else None
  }

  /** The task setter with nil. */
  function RemoveTask(s: State, task: Task): Option<State>
  {
    if task in s.tasksToRequests then Some(Remove(s, s.tasksToRequests[task], task)) else None
  }

  /** disassociateIfNecessaryAfterGatheringMetricsForTask, with its result. */
  function GatherMetrics(s: State, task: Task): Option<(State, bool)>
  {
    if task !in s.taskEvents || s.taskEvents[task].metricsGathered then None
    else if !s.taskEvents[task].completed then
      Some((s.(taskEvents := s.taskEvents[task := Events(false, true)]), false))
    else match RemoveTask(s, task)
         case None => None
         case Some(t) => Some((t, true))
  }

  /** disassociateIfNecessaryAfterCompletingTask, with its result. */
  function Complete(s: State, task: Task): Option<(State, bool)>
  {
    if task !in s.taskEvents || s.taskEvents[task].completed then None
    else if !s.taskEvents[task].metricsGathered then
      Some((s.(taskEvents := s.taskEvents[task := Events(true, false)]), false))
    else match RemoveTask(s, task)
         case None => None
         case Some(t) => Some((t, true))
  }

  // ---------------------------------------------------------------- the struct

  class Map {
    var tasksToRequests: map<Task, Request>
    var requestsToTasks: map<Request, Task>
    var taskEvents: map<Task, Events>

    ghost function Snap(): State
      reads this
    {
      State(tasksToRequests, requestsToTasks, taskEvents)
    }

    constructor ()
      ensures Snap() == EMPTY
    {
      tasksToRequests, requestsToTasks, taskEvents := map[], map[], map[];
    }

    /** subscript(request:), set. ok is false where the source calls fatalError. */
    method SetTask(request: Request, newValue: Option<Task>) returns (ok: bool)
      modifies this
      ensures newValue.Some? ==> ok && Snap() == Associate(old(Snap()), request, newValue.value)
      ensures newValue.None? ==> RemoveRequest(old(Snap()), request) == if ok then Some(Snap()) else None
      ensures ok <==> newValue.Some? || request in old(requestsToTasks)
      ensures newValue.Some? ==>
        && requestsToTasks == old(requestsToTasks)[request := newValue.value]
        && tasksToRequests == old(tasksToRequests)[newValue.value := request]
        && taskEvents == old(taskEvents)[newValue.value := Events(false, false)]
      ensures newValue.None? && ok ==>
        && requestsToTasks == old(requestsToTasks) - {request}
        && tasksToRequests == old(tasksToRequests) - {old(requestsToTasks)[request]}
        && taskEvents == old(taskEvents) - {old(requestsToTasks)[request]}
    {
      if newValue.None? {
        if request !in requestsToTasks {
          return false;
        }
        var task := requestsToTasks[request];
        requestsToTasks := requestsToTasks - {request};
        tasksToRequests := tasksToRequests - {task};
        taskEvents := taskEvents - {task};
        return true;
      }
      requestsToTasks := requestsToTasks[request := newValue.value];
      tasksToRequests := tasksToRequests[newValue.value := request];
      taskEvents := taskEvents[newValue.value := Events(false, false)];
      return true;
    }

    /** subscript(task:), set. */
    method SetRequest(task: Task, newValue: Option<Request>) returns (ok: bool)
      modifies this
      ensures newValue.Some? ==> ok && Snap() == Associate(old(Snap()), newValue.value, task)
      ensures newValue.None? ==> RemoveTask(old(Snap()), task) == if ok then Some(Snap()) else None
      ensures ok <==> newValue.Some? || task in old(tasksToRequests)
      ensures newValue.Some? ==>
        && requestsToTasks == old(requestsToTasks)[newValue.value := task]
        && tasksToRequests == old(tasksToRequests)[task := newValue.value]
        && taskEvents == old(taskEvents)[task := Events(false, false)]
      ensures newValue.None? && ok ==>
        && requestsToTasks == old(requestsToTasks) - {old(tasksToRequests)[task]}
        && tasksToRequests == old(tasksToRequests) - {task}
        && taskEvents == old(taskEvents) - {task}
    {
      if newValue.None? {
        if task !in tasksToRequests {
          return false;
        }
        var request := tasksToRequests[task];
        tasksToRequests := tasksToRequests - {task};
        requestsToTasks := requestsToTasks - {request};
        taskEvents := taskEvents - {task};
        return true;
      }
      tasksToRequests := tasksToRequests[task := newValue.value];
      requestsToTasks := requestsToTasks[newValue.value := task];
      taskEvents := taskEvents[task := Events(false, false)];
      return true;
    }

    method AfterGatheringMetrics(task: Task) returns (ok: bool, disassociated: bool)
      modifies this
      ensures GatherMetrics(old(Snap()), task) == if ok then Some((Snap(), disassociated)) else None
      ensures ok ==> task in old(taskEvents) && !old(taskEvents)[task].metricsGathered
      ensures ok ==> disassociated == old(taskEvents)[task].completed
      ensures task in old(taskEvents) && !old(taskEvents)[task].metricsGathered && task in old(tasksToRequests) ==> ok
    {
      if task !in taskEvents || taskEvents[task].metricsGathered {
        return false, false;
      }
      if !taskEvents[task].completed {
        taskEvents := taskEvents[task := Events(false, true)];
        return true, false;
      }
      ok := SetRequest(task, None);
      return ok, true;
    }

    method AfterCompleting(task: Task) returns (ok: bool, disassociated: bool)
      modifies this
      ensures Complete(old(Snap()), task) == if ok then Some((Snap(), disassociated)) else None
      ensures ok ==> task in old(taskEvents) && !old(taskEvents)[task].completed
      ensures ok ==> disassociated == old(taskEvents)[task].metricsGathered
      ensures task in old(taskEvents) && !old(taskEvents)[task].completed && task in old(tasksToRequests) ==> ok
    {
      if task !in taskEvents || taskEvents[task].completed {
        return false, false;
      }
      if !taskEvents[task].metricsGathered {
        taskEvents := taskEvents[task := Events(true, false)];
        return true, false;
      }
      ok := SetRequest(task, None);
      return ok, true;
    }
  }

  // ---------------------------------------------------------------- consistency

  /** The maps are inverse to each other, and events are kept for exactly the mapped tasks. */
  ghost predicate Consistent(s: State)
  {
    && (forall t :: t in s.tasksToRequests ==>
          s.tasksToRequests[t] in s.requestsToTasks && s.requestsToTasks[s.tasksToRequests[t]] == t)
    && (forall r :: r in s.requestsToTasks ==>
          s.requestsToTasks[r] in s.tasksToRequests && s.tasksToRequests[s.requestsToTasks[r]] == r)
    && s.taskEvents.Keys == s.tasksToRequests.Keys
  }

  /** Associating keeps the maps inverse exactly when neither side is mapped to something else. */
  lemma AssociateConsistentIff(s: State, request: Request, task: Task)
    requires Consistent(s)
    ensures Consistent(Associate(s, request, task)) <==>
      && (task in s.tasksToRequests ==> s.tasksToRequests[task] == request)
      && (request in s.requestsToTasks ==> s.requestsToTasks[request] == task)
  {
    var s' := Associate(s, request, task);
    if task in s.tasksToRequests && s.tasksToRequests[task] != request {
      var r := s.tasksToRequests[task];
      assert r in s'.requestsToTasks && s'.requestsToTasks[r] == task && s'.tasksToRequests[task] == request;
    }
    if request in s.requestsToTasks && s.requestsToTasks[request] != task {
      var t := s.requestsToTasks[request];
      assert t in s'.tasksToRequests && s'.tasksToRequests[t] == request && s'.requestsToTasks[request] == task;
    }
  }

  lemma RemoveKeepsConsistent(s: State, request: Request, task: Task)
    requires Consistent(s) && task in s.tasksToRequests && s.tasksToRequests[task] == request
    ensures Consistent(Remove(s, request, task))
    ensures task !in Remove(s, request, task).tasksToRequests
  {
  }

  /** The two maps of a consistent state have the same number of entries, so count's precondition holds, and those of
      eventCount, isEmpty and isEventsEmpty with it. */
  lemma {:induction false} CountsAgree(s: State)
    requires Consistent(s)
    ensures |s.tasksToRequests| == |s.requestsToTasks| == |s.taskEvents|
    ensures (s.tasksToRequests == map[]) == (s.requestsToTasks == map[]) == (s.taskEvents == map[])
    decreases |s.tasksToRequests|
  {
    assert |s.taskEvents| == |s.taskEvents.Keys| == |s.tasksToRequests.Keys|;
    if t :| t in s.tasksToRequests {
      var r := s.tasksToRequests[t];
      var s' := Remove(s, r, t);
      RemoveKeepsConsistent(s, r, t);
      assert s'.tasksToRequests.Keys == s.tasksToRequests.Keys - {t};
      assert s'.requestsToTasks.Keys == s.requestsToTasks.Keys - {r};
      CountsAgree(s');
      assert |s.tasksToRequests.Keys| == |s'.tasksToRequests.Keys| + 1;
      assert |s.requestsToTasks.Keys| == |s'.requestsToTasks.Keys| + 1;
      assert r in s.requestsToTasks && t in s.taskEvents;
    } else {
      assert s.tasksToRequests == map[];
      if r :| r in s.requestsToTasks { assert s.requestsToTasks[r] in s.tasksToRequests; }
      assert s.requestsToTasks == map[];
      assert s.taskEvents.Keys == {};
    }
  }

  // ---------------------------------------------------------------- runs

  datatype Event = Metrics | Completion

  datatype Action =
    | Add(request: Request, task: Task)
    | Drop(request: Request)
    | Deliver(task: Task, event: Event)

  /** The map together with what each mapped task has been told so far. */
  datatype System = System(state: State, delivered: map<Task, set<Event>>)

  /** Only unmapped tasks and requests are associated, only mapped requests dropped, and each event is delivered at most
      once to a mapped task. */
  predicate Enabled(s: System, a: Action)
  {
    match a
    case Add(r, t) => r !in s.state.requestsToTasks && t !in s.state.tasksToRequests
    case Drop(r) => r in s.state.requestsToTasks
    case Deliver(t, e) => t in s.delivered && e !in s.delivered[t]
  }

  function Lift(r: Option<(State, bool)>): Option<State>
  {
    if r.Some? then Some(r.value.0) else None
  }

  function NextState(s: State, a: Action): Option<State>
  {
    match a
    case Add(r, t) => Some(Associate(s, r, t))
    case Drop(r) => RemoveRequest(s, r)
    case Deliver(t, Metrics) => Lift(GatherMetrics(s, t))
    case Deliver(t, Completion) => Lift(Complete(s, t))
  }

  /** A task is forgotten at its second event, or when its request is dropped. */
  function NextDelivered(s: System, a: Action): map<Task, set<Event>>
    requires Enabled(s, a)
  {
    match a
    case Add(_, t) => s.delivered[t := {}]
    case Drop(r) => s.delivered - {s.state.requestsToTasks[r]}
    case Deliver(t, e) => if s.delivered[t] == {} then s.delivered[t := {e}] else s.delivered - {t}
  }

  /** The state after a run; None when a consistency error stops it. */
  function After(s: System, actions: seq<Action>): Option<System>
    requires IsRun(s, actions)
    decreases |actions|
  {
    if actions == [] then Some(s)
    else
      match NextState(s.state, actions[0])
      case None => None
      case Some(t) => After(System(t, NextDelivered(s, actions[0])), actions[1..])
  }

  predicate IsRun(s: System, actions: seq<Action>)
    decreases |actions|
  {
    actions == [] ||
    (Enabled(s, actions[0]) &&
     match NextState(s.state, actions[0])
     case None => true
     case Some(t) => IsRun(System(t, NextDelivered(s, actions[0])), actions[1..]))
  }

  /** The map is consistent, and its events are exactly those delivered to the mapped tasks, at most one each. */
  ghost predicate Inv(s: System)
  {
    && Consistent(s.state)
    && s.delivered.Keys == s.state.tasksToRequests.Keys
    && forall t :: t in s.delivered ==>
         && (s.delivered[t] == {} || s.delivered[t] == {Metrics} || s.delivered[t] == {Completion})
         && s.state.taskEvents[t] == Events(Completion in s.delivered[t], Metrics in s.delivered[t])
  }

  /** No step that is enabled stops with a consistency error, and the maps stay consistent. */
  lemma StepKeepsInv(s: System, a: Action)
    requires Inv(s) && Enabled(s, a)
    ensures NextState(s.state, a).Some?
    ensures Inv(System(NextState(s.state, a).value, NextDelivered(s, a)))
  {
    match a {
      case Add(r, t) => AssociateConsistentIff(s.state, r, t);
      case Drop(r) => RemoveKeepsConsistent(s.state, r, s.state.requestsToTasks[r]);
      case Deliver(t, e) =>
        assert t in s.state.tasksToRequests && t in s.state.taskEvents;
        if s.delivered[t] != {} {
          RemoveKeepsConsistent(s.state, s.state.tasksToRequests[t], t);
        }
    }
  }

  lemma {:induction false} RunKeepsInv(s: System, actions: seq<Action>)
    requires Inv(s) && IsRun(s, actions)
    ensures After(s, actions).Some? && Inv(After(s, actions).value)
    decreases |actions|
  {
    if actions == [] {
    } else {
      StepKeepsInv(s, actions[0]);
      RunKeepsInv(System(NextState(s.state, actions[0]).value, NextDelivered(s, actions[0])), actions[1..]);
    }
  }

  /** The two-way map stays consistent: from the empty map no run meets a consistency error, the maps stay inverse with
      events for exactly the mapped tasks, and all counts agree. */
  lemma MapStaysConsistent(actions: seq<Action>)
    requires IsRun(System(EMPTY, map[]), actions)
    ensures After(System(EMPTY, map[]), actions).Some?
    ensures var s := After(System(EMPTY, map[]), actions).value.state;
      Consistent(s) && |s.tasksToRequests| == |s.requestsToTasks| == |s.taskEvents|
  {
    RunKeepsInv(System(EMPTY, map[]), actions);
    CountsAgree(After(System(EMPTY, map[]), actions).value.state);
  }

  /** A mapped task leaves exactly at its second event, in either order, and the operation says so. */
  lemma LeavesAtSecondEvent(actions: seq<Action>, task: Task, event: Event)
    requires IsRun(System(EMPTY, map[]), actions) && After(System(EMPTY, map[]), actions).Some?
    requires Enabled(After(System(EMPTY, map[]), actions).value, Deliver(task, event))
    ensures var s := After(System(EMPTY, map[]), actions).value;
      var r := if event.Metrics? then GatherMetrics(s.state, task) else Complete(s.state, task);
      && r.Some?
      && (task !in r.value.0.tasksToRequests <==> s.delivered[task] != {})
      && (r.value.1 <==> s.delivered[task] != {})
      && forall t :: t != task ==> (t in r.value.0.tasksToRequests <==> t in s.state.tasksToRequests)
  {
    RunKeepsInv(System(EMPTY, map[]), actions);
    var s := After(System(EMPTY, map[]), actions).value;
    assert task in s.state.tasksToRequests && task in s.state.taskEvents;
    if s.delivered[task] != {} {
      RemoveKeepsConsistent(s.state, s.state.tasksToRequests[task], task);
    }
  }
}

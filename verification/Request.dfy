/** Alamofire's Request: its state transitions and the pipeline of response serializers, over all runs without retry.
    Each locked block is one step. Closures on the underlying queue run one after the other, but calls from other
    threads can come between the locked blocks of one closure. */
module Request {
  import opened Sequences

  type Id = nat

  // ---------------------------------------------------------------- states

  datatype RequestState = Initialized | Resumed | Suspended | Cancelled | Finished
  {
    /** canTransitionTo. */
    predicate CanTransitionTo(to: RequestState)
    {
      match (this, to)
      case (Initialized, _) => true
      case (_, Initialized) => false
      case (Cancelled, _) => false
      case (Finished, _) => false
      case (Resumed, Cancelled) => true
      case (Suspended, Cancelled) => true
      case (Resumed, Suspended) => true
      case (Suspended, Resumed) => true
      case (Suspended, Suspended) => false
      case (Resumed, Resumed) => false
      case (_, Finished) => true
    }
  }

  // ---------------------------------------------------------------- the locked blocks as functions

  /** A closure on the underlying queue. */
  datatype Work = Finish | ProcessNext | DidComplete(id: Id) | ResumeIfImmediate | Notify(event: Event)

  /** didResume and its like, for the request or for its task. */
  datatype Event = Did(to: RequestState) | DidTask(to: RequestState)

  /** What a request asks of its last URLSessionTask. */
  datatype TaskCall = ResumeTask | SuspendTask | CancelTask

  /** Where the closure on the underlying queue is: none is running, the next serializer is about to be looked up, or
      none was found and the arrays are about to be cleared. */
  datatype Phase = Idle | LookUp | Clear

  /** MutableState, the two queues, and the closure that is running on the underlying queue. */
  datatype State = State(
    state: RequestState,
    serializers: seq<Id>,
    completions: seq<Id>,
    processingFinished: bool,
    isFinishing: bool,
    underlying: seq<Work>,
    serialization: seq<Id>,
    taskCalls: seq<TaskCall>,
    phase: Phase)

  const INITIAL: State := State(Initialized, [], [], false, false, [], [], [], Idle)

  function Enqueue(s: State, w: Work): State
  {
    s.(underlying := s.underlying + [w])
  }

  /** appendResponseSerializer. */
  function OnAppend(s: State, id: Id): State
  {
    var s1 := s.(serializers := s.serializers + [id], state := if s.state.Finished? then Resumed else s.state);
    var s2 := if s1.processingFinished then Enqueue(s1, ProcessNext) else s1;
    if s2.state.CanTransitionTo(Resumed) then Enqueue(s2, ResumeIfImmediate) else s2
  }

  /** nextResponseSerializer, and the dispatch of what it finds. */
  function OnLookUp(s: State): State
  {
    if |s.completions| < |s.serializers|
    then s.(serialization := s.serialization + [s.serializers[|s.completions|]], phase := Idle)
    else s.(phase := Clear)
  }

  /** The locked block of processNextResponseSerializer when no serializer is left. */
  function OnClear(s: State): State
  {
    s.(serializers := [], completions := [], state := if s.state.CanTransitionTo(Finished) then Finished else s.state,
       processingFinished := true, isFinishing := false, phase := Idle)
  }

  /** A task is resumed before it is cancelled, so that its metrics are gathered. */
  function TaskCalls(to: RequestState): seq<TaskCall>
  {
    match to
    case Cancelled => [ResumeTask, CancelTask]
    case Suspended => [SuspendTask]
    case _ => [ResumeTask]
  }

  /** cancel, suspend and resume; taskIsLive says that the last task exists and has not completed. */
  function OnChange(s: State, to: RequestState, taskIsLive: bool): State
  {
    if !s.state.CanTransitionTo(to) then s
    else
      var s1 := Enqueue(s.(state := to), Notify(Did(to)));
      if taskIsLive then Enqueue(s1.(taskCalls := s.taskCalls + TaskCalls(to)), Notify(DidTask(to)))
      else if to.Cancelled? then Enqueue(s1, Finish)
      else s1
  }

  /** The first locked block of the closure at the head of the underlying queue. */
  function OnHead(s: State, startImmediately: bool, taskIsLive: bool): State
    requires s.underlying != []
  {
    var popped := s.(underlying := s.underlying[1..]);
    match s.underlying[0]
    case Finish => if s.isFinishing then popped else popped.(isFinishing := true, phase := LookUp)
    case ProcessNext => popped.(phase := LookUp)
    case DidComplete(id) => popped.(completions := s.completions + [id], phase := LookUp)
    case ResumeIfImmediate => if startImmediately then OnChange(popped, Resumed, taskIsLive) else popped
    case Notify(_) => popped
  }

  // ---------------------------------------------------------------- the class

  class Request {
    var state: RequestState
    var responseSerializers: seq<Id>
    var responseSerializerCompletions: seq<Id>
    var responseSerializerProcessingFinished: bool
    var isFinishing: bool
    var underlyingQueue: seq<Work>
    var serializationQueue: seq<Id>
    var taskCalls: seq<TaskCall>
    var phase: Phase

    ghost function Snap(): State
      reads this
    {
      State(state, responseSerializers, responseSerializerCompletions, responseSerializerProcessingFinished,
            isFinishing, underlyingQueue, serializationQueue, taskCalls, phase)
    }

    constructor ()
      ensures Snap() == INITIAL
    {
      state, responseSerializers, responseSerializerCompletions := Initialized, [], [];
      responseSerializerProcessingFinished, isFinishing := false, false;
      underlyingQueue, serializationQueue, taskCalls, phase := [], [], [], Idle;
    }

    method AppendResponseSerializer(id: Id)
      modifies this
      ensures Snap() == OnAppend(old(Snap()), id)
      ensures responseSerializers == old(responseSerializers) + [id]
      ensures state == if old(state) == Finished then Resumed else old(state)
      ensures underlyingQueue == old(underlyingQueue)
        + (if old(responseSerializerProcessingFinished) then [ProcessNext] else [])
        + (if old(state) in {Initialized, Suspended} then [ResumeIfImmediate] else [])
    {
      responseSerializers := responseSerializers + [id];
      if state == Finished {
        state := Resumed;
      }
      if responseSerializerProcessingFinished {
        underlyingQueue := underlyingQueue + [ProcessNext];
      }
      if state.CanTransitionTo(Resumed) {
        underlyingQueue := underlyingQueue + [ResumeIfImmediate];
      }
    }

    method ProcessNextResponseSerializer()
      modifies this
      ensures Snap() == OnLookUp(old(Snap()))
      ensures var next := |responseSerializerCompletions|;
        if next < |responseSerializers| then
          serializationQueue == old(serializationQueue) + [responseSerializers[next]] && phase == Idle
        else serializationQueue == old(serializationQueue) && phase == Clear
    {
      var index := |responseSerializerCompletions|;
      if index < |responseSerializers| {
        serializationQueue := serializationQueue + [responseSerializers[index]];
        phase := Idle;
      } else {
        phase := Clear;
      }
    }

    method ClearProcessed() returns (completions: seq<Id>)
      modifies this
      ensures Snap() == OnClear(old(Snap())) && completions == old(responseSerializerCompletions)
      ensures responseSerializers == [] && responseSerializerCompletions == []
      ensures responseSerializerProcessingFinished && !isFinishing && phase == Idle
      ensures state == if old(state) == Cancelled then Cancelled else Finished
    {
      completions := responseSerializerCompletions;
      responseSerializers, responseSerializerCompletions := [], [];
      if state.CanTransitionTo(Finished) {
        state := Finished;
      }
      responseSerializerProcessingFinished, isFinishing := true, false;
      phase := Idle;
    }

    /** cancel. */
    method Cancel(taskIsLive: bool)
      modifies this
      ensures Snap() == OnChange(old(Snap()), Cancelled, taskIsLive)
      ensures old(state) in {Initialized, Resumed, Suspended} ==>
        && state == Cancelled && taskCalls == old(taskCalls) + (if taskIsLive then [ResumeTask, CancelTask] else [])
        && underlyingQueue == old(underlyingQueue) + [Notify(Did(Cancelled))]
             + (if taskIsLive then [Notify(DidTask(Cancelled))] else [Finish])
      ensures old(state) !in {Initialized, Resumed, Suspended} ==> Snap() == old(Snap())
    {
      if !state.CanTransitionTo(Cancelled) {
        return;
      }
      state := Cancelled;
      underlyingQueue := underlyingQueue + [Notify(Did(Cancelled))];
      if !taskIsLive {
        underlyingQueue := underlyingQueue + [Finish];
        return;
      }
      taskCalls := taskCalls + [ResumeTask, CancelTask];
      underlyingQueue := underlyingQueue + [Notify(DidTask(Cancelled))];
    }

    /** suspend. */
    method Suspend(taskIsLive: bool)
      modifies this
      ensures Snap() == OnChange(old(Snap()), Suspended, taskIsLive)
      ensures old(state) in {Initialized, Resumed} ==>
        && state == Suspended && taskCalls == old(taskCalls) + (if taskIsLive then [SuspendTask] else [])
        && underlyingQueue == old(underlyingQueue) + [Notify(Did(Suspended))]
             + (if taskIsLive then [Notify(DidTask(Suspended))] else [])
      ensures old(state) !in {Initialized, Resumed} ==> Snap() == old(Snap())
    {
      if !state.CanTransitionTo(Suspended) {
        return;
      }
      state := Suspended;
      underlyingQueue := underlyingQueue + [Notify(Did(Suspended))];
      if !taskIsLive {
        return;
      }
      taskCalls := taskCalls + [SuspendTask];
      underlyingQueue := underlyingQueue + [Notify(DidTask(Suspended))];
    }

    /** resume. */
    method Resume(taskIsLive: bool)
      modifies this
      ensures Snap() == OnChange(old(Snap()), Resumed, taskIsLive)
      ensures old(state) in {Initialized, Suspended} ==>
        && state == Resumed && taskCalls == old(taskCalls) + (if taskIsLive then [ResumeTask] else [])
        && underlyingQueue == old(underlyingQueue) + [Notify(Did(Resumed))]
             + (if taskIsLive then [Notify(DidTask(Resumed))] else [])
      ensures old(state) !in {Initialized, Suspended} ==> Snap() == old(Snap())
    {
      if !state.CanTransitionTo(Resumed) {
        return;
      }
      state := Resumed;
      underlyingQueue := underlyingQueue + [Notify(Did(Resumed))];
      if !taskIsLive {
        return;
      }
      taskCalls := taskCalls + [ResumeTask];
      underlyingQueue := underlyingQueue + [Notify(DidTask(Resumed))];
    }

    method RunHead(startImmediately: bool, taskIsLive: bool)
      requires underlyingQueue != []
      modifies this
      ensures Snap() == OnHead(old(Snap()), startImmediately, taskIsLive)
      ensures match old(underlyingQueue[0])
        case Finish => if old(isFinishing) then phase == old(phase) else phase == LookUp && isFinishing
        case ProcessNext => phase == LookUp
        case DidComplete(id) =>
          phase == LookUp && responseSerializerCompletions == old(responseSerializerCompletions) + [id]
        case ResumeIfImmediate =>
          state == if startImmediately && old(state) in {Initialized, Suspended} then Resumed else old(state)
        case Notify(_) => underlyingQueue == old(underlyingQueue[1..]) && state == old(state) && phase == old(phase)
    {
      var work := underlyingQueue[0];
      underlyingQueue := underlyingQueue[1..];
      match work {
        case Finish =>
          if isFinishing {
            return;
          }
          isFinishing, phase := true, LookUp;
        case ProcessNext => phase := LookUp;
        case DidComplete(id) =>
          responseSerializerCompletions := responseSerializerCompletions + [id];
          phase := LookUp;
        case ResumeIfImmediate =>
          if startImmediately {
            Resume(taskIsLive);
          }
        case Notify(_) =>
      }
    }
  }

  // ---------------------------------------------------------------- runs

  /** The request, the serializers that run on the serialization queue, and what happened: the serializers appended,
      those among them appended between the last look-up and the clearing, those started, and the completions run. */
  datatype System = System(
    s: State,
    running: seq<Id>,
    appended: seq<Id>,
    late: seq<Id>,
    started: seq<Id>,
    ran: seq<Id>)

  const START: System := System(INITIAL, [], [], [], [], [])

  datatype Action =
    | Append(id: Id)
    | TaskCompleted                                             // didCompleteTask without a retry
    | ChangeState(to: RequestState, taskIsLive: bool)
    | RunUnderlying(startImmediately: bool, taskIsLive: bool)   // the next locked block on the underlying queue
    | StartSerializer
    | SerializerDone(i: nat)

  predicate Enabled(y: System, a: Action)
  {
    match a
    case Append(_) => true
    case TaskCompleted => true
    case ChangeState(to, _) => to.Cancelled? || to.Suspended? || to.Resumed?
    case RunUnderlying(_, _) => !y.s.phase.Idle? || y.s.underlying != []
    case StartSerializer => y.s.serialization != []
    case SerializerDone(i) => i < |y.running|
  }

  function Do(y: System, a: Action): System
    requires Enabled(y, a)
  {
    match a
    case Append(id) =>
      y.(s := OnAppend(y.s, id), appended := y.appended + [id],
         late := if y.s.phase.Clear? then y.late + [id] else y.late)
    case TaskCompleted => y.(s := Enqueue(y.s, Finish))
    case ChangeState(to, taskIsLive) => y.(s := OnChange(y.s, to, taskIsLive))
    case RunUnderlying(startImmediately, taskIsLive) =>
      (match y.s.phase
       case Idle => y.(s := OnHead(y.s, startImmediately, taskIsLive))
       case LookUp => y.(s := OnLookUp(y.s))
       case Clear => y.(s := OnClear(y.s), ran := y.ran + y.s.completions))
    case StartSerializer =>
      y.(s := y.s.(serialization := y.s.serialization[1..]),
         started := y.started + [y.s.serialization[0]], running := y.running + [y.s.serialization[0]])
    case SerializerDone(i) =>
      y.(s := Enqueue(y.s, DidComplete(y.running[i])), running := Without(y.running, i))
  }

  predicate IsRun(y: System, actions: seq<Action>)
    decreases |actions|
  {
    actions == [] || (Enabled(y, actions[0]) && IsRun(Do(y, actions[0]), actions[1..]))
  }

  function After(y: System, actions: seq<Action>): System
    requires IsRun(y, actions)
    decreases |actions|
  {
    if actions == [] then y else After(Do(y, actions[0]), actions[1..])
  }

  // ---------------------------------------------------------------- a cancelled request stays cancelled

  lemma {:induction false} CancelledIsFinal(y: System, actions: seq<Action>)
    requires IsRun(y, actions) && y.s.state.Cancelled?
    ensures After(y, actions).s.state.Cancelled?
    decreases |actions|
  {
    if actions == [] {
    } else {
      CancelledIsFinal(Do(y, actions[0]), actions[1..]);
    }
  }

  /** Cancelling a task is the last thing a request asks of it. */
  predicate CancelComesLast(s: State)
  {
    forall i :: 0 <= i < |s.taskCalls| && s.taskCalls[i].CancelTask? ==> i == |s.taskCalls| - 1 && s.state.Cancelled?
  }

  lemma {:induction false} RunEndsWithCancel(y: System, actions: seq<Action>)
    requires IsRun(y, actions) && CancelComesLast(y.s)
    ensures CancelComesLast(After(y, actions).s)
    decreases |actions|
  {
    if actions == [] {
    } else {
      RunEndsWithCancel(Do(y, actions[0]), actions[1..]);
    }
  }

  /** In every run, once a request has cancelled its task it neither resumes nor suspends nor cancels it again. */
  lemma NothingAfterCancel(actions: seq<Action>)
    requires IsRun(START, actions)
    ensures CancelComesLast(After(START, actions).s)
  {
    RunEndsWithCancel(START, actions);
  }

  // ---------------------------------------------------------------- the pipeline

  function PipelineWork(w: Work): seq<Work>
  {
    if w.DidComplete? || w.ProcessNext? then [w] else []
  }

  /** The completions and look-ups on the underlying queue; queued calls of finish do not count. */
  function Pipeline(q: seq<Work>): seq<Work>
  {
    Flatten(q, PipelineWork)
  }

  /** How many serializers have completed. */
  function Done(y: System): nat
  {
    |y.s.completions|
  }

  /** The pipeline is nowhere: finish has not been called, or the first pass is over. */
  predicate NotStarted(y: System)
  {
    && !y.s.isFinishing && y.s.phase.Idle? && y.s.completions == [] && y.started == []
    && y.s.serialization == [] && y.running == [] && Pipeline(y.s.underlying) == []
  }

  /** The closure on the underlying queue is about to look for the next serializer, or has found none. */
  predicate AtLookUp(y: System)
  {
    && y.s.isFinishing && !y.s.phase.Idle? && |y.started| == Done(y)
    && y.s.serialization == [] && y.running == [] && Pipeline(y.s.underlying) == []
  }

  /** The next serializer is on the serialization queue. */
  predicate AtQueue(y: System)
  {
    && y.s.isFinishing && y.s.phase.Idle? && |y.started| == Done(y) < |y.appended|
    && y.s.serialization == [y.appended[Done(y)]] && y.running == [] && Pipeline(y.s.underlying) == []
  }

  /** The next serializer is running. */
  predicate AtRun(y: System)
  {
    && y.s.isFinishing && y.s.phase.Idle? && |y.started| == Done(y) + 1 <= |y.appended|
    && y.s.serialization == [] && y.running == [y.appended[Done(y)]] && Pipeline(y.s.underlying) == []
  }

  /** The next serializer has run and its completion is on the underlying queue. */
  predicate AtDone(y: System)
  {
    && y.s.isFinishing && y.s.phase.Idle? && |y.started| == Done(y) + 1 <= |y.appended|
    && y.s.serialization == [] && y.running == [] && Pipeline(y.s.underlying) == [DidComplete(y.appended[Done(y)])]
  }

  /** During the first pass: nothing has been cleared or run, completions and starts follow the order of appending, the
      pipeline is in one place, and late holds what was appended since the look-up that found nothing. */
  predicate FirstPass(y: System)
  {
    && !y.s.processingFinished && y.ran == []
    && y.s.serializers == y.appended
    && Done(y) <= |y.started| <= |y.appended|
    && y.started == y.appended[..|y.started|] && y.s.completions == y.appended[..Done(y)]
    && (if y.s.phase.Clear? then y.appended == y.s.completions + y.late else y.late == [])
    && (NotStarted(y) || AtLookUp(y) || AtQueue(y) || AtRun(y) || AtDone(y))
  }

  /** The first pass has just ended: exactly the completed serializers had been started, their completions have run in
      order, and the only serializers left out are the late ones. */
  predicate FirstPassOver(y: System)
  {
    y.s.processingFinished && y.ran == y.started && y.appended == y.started + y.late
  }

  lemma EnqueueKeepsPass(y: System, w: Work)
    requires FirstPass(y) && !w.DidComplete? && !w.ProcessNext?
    ensures FirstPass(y.(s := Enqueue(y.s, w)))
  {
    FlattenAppend(y.s.underlying, w, PipelineWork);
  }

  lemma ChangeKeepsPass(y: System, to: RequestState, taskIsLive: bool)
    requires FirstPass(y)
    ensures FirstPass(y.(s := OnChange(y.s, to, taskIsLive)))
  {
    if y.s.state.CanTransitionTo(to) {
      var y1 := y.(s := y.s.(state := to));
      EnqueueKeepsPass(y1, Notify(Did(to)));
      var y2 := y1.(s := Enqueue(y1.s, Notify(Did(to))));
      EnqueueKeepsPass(y2, Finish);
      EnqueueKeepsPass(y2.(s := y2.s.(taskCalls := y.s.taskCalls + TaskCalls(to))), Notify(DidTask(to)));
    }
  }

  lemma AppendKeepsPass(y: System, id: Id)
    requires FirstPass(y)
    ensures FirstPass(Do(y, Append(id)))
  {
    var s1 := y.s.(serializers := y.s.serializers + [id], state := if y.s.state.Finished? then Resumed else y.s.state);
    var y1 := y.(s := s1, appended := y.appended + [id], late := if y.s.phase.Clear? then y.late + [id] else y.late);
    assert y1.appended[..|y.started|] == y.appended[..|y.started|];
    assert y1.appended[..Done(y)] == y.appended[..Done(y)];
    assert FirstPass(y1) by {
      if y.s.phase.Clear? {
        assert y.s.completions + y.late + [id] == y.s.completions + (y.late + [id]);
      }
    }
    assert Do(y, Append(id)) ==
      if s1.state.CanTransitionTo(Resumed) then y1.(s := Enqueue(s1, ResumeIfImmediate)) else y1;
    EnqueueKeepsPass(y1, ResumeIfImmediate);
  }

  lemma HeadKeepsPass(y: System, startImmediately: bool, taskIsLive: bool)
    requires FirstPass(y) && y.s.phase.Idle? && y.s.underlying != []
    ensures FirstPass(y.(s := OnHead(y.s, startImmediately, taskIsLive)))
  {
    var popped := y.(s := y.s.(underlying := y.s.underlying[1..]));
    match y.s.underlying[0] {
      case Finish =>
      case ProcessNext => assert Pipeline(y.s.underlying)[0] == ProcessNext;
      case DidComplete(id) =>
        assert Pipeline(y.s.underlying)[0] == DidComplete(id);
        assert AtDone(y) && Pipeline(y.s.underlying) == [DidComplete(id)] + Pipeline(popped.s.underlying);
        assert y.s.completions + [id] == y.appended[..Done(y) + 1];
      case ResumeIfImmediate =>
        if startImmediately { ChangeKeepsPass(popped, Resumed, taskIsLive); }
      case Notify(_) =>
    }
  }

  lemma LookUpKeepsPass(y: System)
    requires FirstPass(y) && y.s.phase.LookUp?
    ensures FirstPass(y.(s := OnLookUp(y.s)))
  {
    if Done(y) >= |y.s.serializers| {
      assert y.appended == y.s.completions + [];
    }
  }

  lemma ClearEndsPass(y: System)
    requires FirstPass(y) && y.s.phase.Clear?
    ensures FirstPassOver(Do(y, RunUnderlying(false, false)))
    ensures forall a: bool, b: bool :: Do(y, RunUnderlying(a, b)) == Do(y, RunUnderlying(false, false))
  {
    assert y.started == y.s.completions;
  }

  /** Every step of the first pass keeps its invariant or ends it. */
  lemma StepKeepsPass(y: System, a: Action)
    requires FirstPass(y) && Enabled(y, a)
    ensures FirstPass(Do(y, a)) || FirstPassOver(Do(y, a))
    ensures FirstPassOver(Do(y, a)) <==> a.RunUnderlying? && y.s.phase.Clear?
  {
    match a {
      case Append(id) => AppendKeepsPass(y, id);
      case TaskCompleted => EnqueueKeepsPass(y, Finish);
      case ChangeState(to, taskIsLive) => ChangeKeepsPass(y, to, taskIsLive);
      case RunUnderlying(startImmediately, taskIsLive) =>
        if y.s.phase.Idle? {
          HeadKeepsPass(y, startImmediately, taskIsLive);
        } else if y.s.phase.LookUp? {
          LookUpKeepsPass(y);
        } else {
          ClearEndsPass(y);
        }
      case StartSerializer =>
        assert y.started + [y.s.serialization[0]] == y.appended[..|y.started| + 1];
      case SerializerDone(i) =>
        FlattenAppend(y.s.underlying, DidComplete(y.running[i]), PipelineWork);
    }
  }

  /** The first time processing finishes in a run, if it does. */
  predicate ReachesFirstEnd(y: System, actions: seq<Action>)
    requires IsRun(y, actions)
    decreases |actions|
  {
    actions != [] && (Do(y, actions[0]).s.processingFinished || ReachesFirstEnd(Do(y, actions[0]), actions[1..]))
  }

  /** The system at the first end of processing, or at the end of the run. */
  function AtFirstEnd(y: System, actions: seq<Action>): System
    requires IsRun(y, actions)
    decreases |actions|
  {
    if actions == [] then y
    else if Do(y, actions[0]).s.processingFinished then Do(y, actions[0])
    else AtFirstEnd(Do(y, actions[0]), actions[1..])
  }

  lemma {:induction false} RunKeepsPass(y: System, actions: seq<Action>)
    requires FirstPass(y) && IsRun(y, actions)
    ensures if ReachesFirstEnd(y, actions) then FirstPassOver(AtFirstEnd(y, actions))
      else FirstPass(AtFirstEnd(y, actions))
    decreases |actions|
  {
    if actions == [] {
    } else {
      StepKeepsPass(y, actions[0]);
      if !Do(y, actions[0]).s.processingFinished {
        RunKeepsPass(Do(y, actions[0]), actions[1..]);
      }
    }
  }

  /** Pipeline order. In every run, up to the first time processing finishes, serializers start in the order they were
      appended and each once, whatever else is appended, finished or cancelled meanwhile; no completion runs before all
      of them have completed, and then they run in that same order. */
  lemma SerializersRunInOrder(actions: seq<Action>)
    requires IsRun(START, actions)
    ensures var y := AtFirstEnd(START, actions);
      && |y.started| <= |y.appended| && y.started == y.appended[..|y.started|]
      && (if ReachesFirstEnd(START, actions) then y.ran == y.started else y.ran == [])
  {
    RunKeepsPass(START, actions);
    var y := AtFirstEnd(START, actions);
    if ReachesFirstEnd(START, actions) {
      assert (y.started + y.late)[..|y.started|] == y.started;
    }
  }

  /** And every serializer appended by then has run exactly when none was appended between the look-up that found no
      serializer left and the clearing that follows it in another locked block. */
  lemma AllSerializersRunIff(actions: seq<Action>)
    requires IsRun(START, actions) && ReachesFirstEnd(START, actions)
    ensures var y := AtFirstEnd(START, actions);
      y.appended == y.started + y.late && (y.started == y.appended <==> y.late == [])
  {
    RunKeepsPass(START, actions);
  }

  /** A serializer appended in that gap is dropped: it is cleared without having started, and nothing is left on any
      queue that would process it. */
  lemma LateSerializerIsLost(id: Id)
    ensures var actions :=
        [TaskCompleted, RunUnderlying(false, false), RunUnderlying(false, false), Append(id),
         RunUnderlying(false, false)];
      && IsRun(START, actions) && ReachesFirstEnd(START, actions)
      && var y := After(START, actions);
         y.appended == [id] && y.started == [] && y.s.serializers == [] && y.s.serialization == []
           && Pipeline(y.s.underlying) == []
  {
    var a1, a2 := TaskCompleted, RunUnderlying(false, false);
    var y1 := Do(START, a1);
    assert y1.s.underlying == [Finish] && y1.s.underlying[1..] == [];
    var y2 := Do(y1, a2);
    var y3 := Do(y2, a2);
    var y4 := Do(y3, Append(id));
    assert y4.s.underlying == [ResumeIfImmediate] && y4.s.underlying[1..] == [];
    var y5 := Do(y4, a2);
    assert Pipeline(y5.s.underlying[1..]) == [];
    var actions := [a1, a2, a2, Append(id), a2];
    assert actions[1..] == [a2, a2, Append(id), a2];
    assert actions[1..][1..] == [a2, Append(id), a2];
    assert actions[1..][1..][1..] == [Append(id), a2];
    assert actions[1..][1..][1..][1..] == [a2];
    assert actions[1..][1..][1..][1..][1..] == [];
    assert IsRun(y5, []) && After(y5, []) == y5;
    assert IsRun(y4, [a2]) && After(y4, [a2]) == y5 && ReachesFirstEnd(y4, [a2]);
    assert IsRun(y3, [Append(id), a2]) && After(y3, [Append(id), a2]) == y5 && ReachesFirstEnd(y3, [Append(id), a2]);
    assert IsRun(y2, [a2, Append(id), a2]) && After(y2, [a2, Append(id), a2]) == y5
      && ReachesFirstEnd(y2, [a2, Append(id), a2]);
    assert IsRun(y1, actions[1..]) && After(y1, actions[1..]) == y5 && ReachesFirstEnd(y1, actions[1..]);
  }
}

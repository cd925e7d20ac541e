/** How a request is started: appending a response serializer leaves a closure on the underlying queue that resumes the
    request, and its task if there is one. */
module RequestStates {
  import opened Request

  // ---------------------------------------------------------------- changing the state

  /** What a live task is asked. It is resumed before it is cancelled. */
  function Asked(to: RequestState): seq<TaskCall>
  {
    if to == Resumed then [ResumeTask] else if to == Suspended then [SuspendTask] else [ResumeTask, CancelTask]
  }

  /** From which states a request can be resumed, suspended and cancelled, what it then asks of a live task, and that it
      is otherwise left alone. */
  lemma ChangeMeaning(s: State, to: RequestState, taskIsLive: bool)
    requires to in {Resumed, Suspended, Cancelled}
    ensures var t := OnChange(s, to, taskIsLive);
      if || (to == Resumed && s.state in {Initialized, Suspended})
         || (to == Suspended && s.state in {Initialized, Resumed})
         || (to == Cancelled && s.state in {Initialized, Resumed, Suspended})
      then
        && t.state == to
        && (!taskIsLive ==> t.taskCalls == s.taskCalls)
        && (taskIsLive ==> t.taskCalls == s.taskCalls + Asked(to))
        && (Finish in t.underlying <==> Finish in s.underlying || (to == Cancelled && !taskIsLive))
      else t == s
  {
  }

  // ---------------------------------------------------------------- the queue

  /** How many closures have been taken from the underlying queue. */
  function Taken(y: System, actions: seq<Action>): nat
    requires IsRun(y, actions)
    decreases |actions|
  {
    if actions == [] then 0
    else (if actions[0].RunUnderlying? && y.s.phase.Idle? then 1 else 0) + Taken(Do(y, actions[0]), actions[1..])
  }

  /** Closures are taken from the front and added at the end. */
  lemma StepMovesQueue(y: System, a: Action)
    requires Enabled(y, a)
    ensures var q := if a.RunUnderlying? && y.s.phase.Idle? then y.s.underlying[1..] else y.s.underlying;
      q <= Do(y, a).s.underlying
  {
  }

  lemma {:induction false} QueueMoves(y: System, actions: seq<Action>)
    requires IsRun(y, actions) && Taken(y, actions) <= |y.s.underlying|
    ensures y.s.underlying[Taken(y, actions)..] <= After(y, actions).s.underlying
    decreases |actions|
  {
    if actions == [] {
    } else {
      var z, n := Do(y, actions[0]), Taken(Do(y, actions[0]), actions[1..]);
      StepMovesQueue(y, actions[0]);
      QueueMoves(z, actions[1..]);
      var q := if actions[0].RunUnderlying? && y.s.phase.Idle? then y.s.underlying[1..] else y.s.underlying;
      assert q[n..] == y.s.underlying[Taken(y, actions)..];
      assert q[n..] <= z.s.underlying[n..];
    }
  }

  // ---------------------------------------------------------------- a request is started by its first serializer

  /** Nobody cancels or suspends the request, and it does not finish. */
  predicate Undisturbed(y: System, actions: seq<Action>)
    requires IsRun(y, actions)
    decreases |actions|
  {
    actions == [] ||
    (&& !(actions[0].ChangeState? && actions[0].to != Resumed)
     && !(actions[0].RunUnderlying? && y.s.phase.Clear?)
     && Undisturbed(Do(y, actions[0]), actions[1..]))
  }

  lemma {:induction false} StaysResumable(y: System, actions: seq<Action>)
    requires IsRun(y, actions) && Undisturbed(y, actions) && y.s.state in {Initialized, Suspended, Resumed}
    ensures After(y, actions).s.state in {Initialized, Suspended, Resumed}
    decreases |actions|
  {
    if actions == [] {
    } else {
      StaysResumable(Do(y, actions[0]), actions[1..]);
    }
  }

  /** Appending a response serializer to a request that can be resumed leaves a closure for that on the underlying
      queue; a finished request is revived. */
  lemma AppendQueuesResume(y: System, id: Id)
    ensures var z := Do(y, Append(id));
      && (y.s.state in {Initialized, Suspended} ==>
            z.s.state == y.s.state && |z.s.underlying| > |y.s.underlying|
            && z.s.underlying[|z.s.underlying| - 1] == ResumeIfImmediate)
      && (y.s.state == Finished ==> z.s.state == Resumed)
      && (y.s.processingFinished ==> ProcessNext in z.s.underlying)
  {
    var z := Do(y, Append(id));
    if y.s.processingFinished {
      assert z.s.underlying[|y.s.underlying|] == ProcessNext;
    }
  }

  /** So a request is started by its first response serializer: once all that was on the queue before it has been taken,
      the closure comes, however the run goes on meanwhile; and if nobody has cancelled or suspended the request and it
      has not finished, it is resumed when it is to start immediately, and a live task is asked to resume, unless the
      request had been resumed already. */
  lemma AppendedRequestIsResumed(y: System, id: Id, actions: seq<Action>, taskIsLive: bool)
    requires y.s.state in {Initialized, Suspended}
    requires var z := Do(y, Append(id));
      && IsRun(z, actions) && Undisturbed(z, actions) && Taken(z, actions) + 1 == |z.s.underlying|
      && After(z, actions).s.phase.Idle?
    ensures var w := After(Do(y, Append(id)), actions);
      && w.s.underlying != [] && w.s.underlying[0] == ResumeIfImmediate
      && var r := Do(w, RunUnderlying(true, taskIsLive)).s;
         r.state == Resumed && (w.s.state != Resumed && taskIsLive ==> r.taskCalls == w.s.taskCalls + [ResumeTask])
  {
    var z := Do(y, Append(id));
    AppendQueuesResume(y, id);
    QueueMoves(z, actions);
    StaysResumable(z, actions);
    assert z.s.underlying[Taken(z, actions)..] == [ResumeIfImmediate];
    var w := After(z, actions);
    assert w.s.underlying[0] == ResumeIfImmediate;
    ChangeMeaning(w.s.(underlying := w.s.underlying[1..]), Resumed, taskIsLive);
  }
}

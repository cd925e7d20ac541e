/** Every pass of a request's response serializers, not only the first: which serializers start once, and which twice.
    A serializer is dispatched by a look-up on the underlying queue, which takes the first one without a completion. */
module RequestPasses {
  import opened Sequences
  import opened Request

  // ---------------------------------------------------------------- dispatched, outstanding, on time

  function CompletedId(w: Work): seq<Id>
  {
    if w.DidComplete? then [w.id] else []
  }

  /** The completions on the underlying queue. */
  function CompletedIds(s: State): seq<Id>
  {
    Flatten(Pipeline(s.underlying), CompletedId)
  }

  /** The serializers that are dispatched and whose completion has not been recorded. */
  function Outstanding(y: System): seq<Id>
  {
    y.s.serialization + y.running + CompletedIds(y.s)
  }

  /** Every dispatch so far. */
  function Dispatched(y: System): seq<Id>
  {
    y.started + y.s.serialization
  }

  function Unless(late: seq<Id>): Id -> seq<Id>
  {
    id => if id in late then [] else [id]
  }

  /** The serializers without the late ones. */
  function OnTime(appended: seq<Id>, late: seq<Id>): seq<Id>
  {
    Flatten(appended, Unless(late))
  }

  lemma {:induction false} OnTimeWithNew(appended: seq<Id>, late: seq<Id>, id: Id)
    requires id !in appended
    ensures OnTime(appended, late + [id]) == OnTime(appended, late)
  {
    if appended == [] {
    } else {
      assert appended[0] in appended && forall x :: x in appended[1..] ==> x in appended;
      OnTimeWithNew(appended[1..], late, id);
    }
  }

  lemma {:induction false} OnTimeHasNoRepeats(appended: seq<Id>, late: seq<Id>)
    requires NoRepeats(appended)
    ensures NoRepeats(OnTime(appended, late))
    ensures forall x :: x in OnTime(appended, late) ==> x in appended
  {
    if appended == [] {
    } else {
      var rest := appended[1..];
      assert forall x :: x in rest ==> x != appended[0];
      OnTimeHasNoRepeats(rest, late);
      var head, tail := Unless(late)(appended[0]), OnTime(rest, late);
      assert OnTime(appended, late) == head + tail;
      assert forall x :: x in head ==> x == appended[0];
      assert appended[0] !in tail;
    }
  }

  // ---------------------------------------------------------------- overlapping look-ups

  /** A look-up finds a serializer without a completion while one is outstanding. */
  predicate OverlapsNow(y: System, a: Action)
  {
    a.RunUnderlying? && y.s.phase.LookUp? && Done(y) < |y.s.serializers| && Outstanding(y) != []
  }

  predicate Overlaps(y: System, actions: seq<Action>)
    requires IsRun(y, actions)
    decreases |actions|
  {
    actions != [] && (OverlapsNow(y, actions[0]) || Overlaps(Do(y, actions[0]), actions[1..]))
  }

  /** The serializers that no look-up has taken. */
  function Undispatched(y: System): seq<Id>
    requires Done(y) + |Outstanding(y)| <= |y.s.serializers|
  {
    y.s.serializers[Done(y) + |Outstanding(y)|..]
  }

  /** As long as look-ups have not overlapped, at most one serializer is outstanding, the first without a completion.
      Once processing has finished, waiting serializers have a look-up to come. */
  predicate OneAtATime(y: System)
  {
    var n, out := Done(y), Outstanding(y);
    && n <= |y.s.serializers| && y.s.completions == y.s.serializers[..n]
    && (out == [] || (n < |y.s.serializers| && out == [y.s.serializers[n]]))
    && (y.s.phase.Clear? ==> out == [])
    && (y.s.phase.Idle? && out == [] ==> n == 0)
    && (y.s.processingFinished && y.s.phase.Idle? && y.s.serializers != [] ==>
          Pipeline(y.s.underlying) != [] || out != [])
  }

  /** Completions run in the order of dispatch; and the serializers that were not late are dispatched in the order of
      appending, or wait in that order. */
  predicate InOrder(y: System)
  {
    && OneAtATime(y)
    && Dispatched(y) == y.ran + y.s.completions + Outstanding(y)
    && OnTime(y.appended, y.late) == Dispatched(y) + (if y.s.phase.Clear? then [] else Undispatched(y))
    && forall x :: x in y.late ==> x in y.appended
  }

  // ---------------------------------------------------------------- what a step does to the pipeline

  predicate SameSerializers(s: State, t: State)
  {
    && t.serializers == s.serializers && t.completions == s.completions && t.serialization == s.serialization
    && t.processingFinished == s.processingFinished
  }

  /** Nothing but the state, the calls on the task and other work on the underlying queue has changed. */
  predicate SamePass(s: State, t: State)
  {
    && SameSerializers(s, t) && t.phase == s.phase && t.isFinishing == s.isFinishing
    && Pipeline(t.underlying) == Pipeline(s.underlying)
  }

  lemma EnqueueOther(s: State, w: Work)
    requires PipelineWork(w) == []
    ensures SamePass(s, Enqueue(s, w))
  {
    FlattenAppend(s.underlying, w, PipelineWork);
  }

  lemma ChangeIsOutside(s: State, to: RequestState, taskIsLive: bool)
    ensures SamePass(s, OnChange(s, to, taskIsLive))
  {
    if s.state.CanTransitionTo(to) {
      var s1 := s.(state := to);
      EnqueueOther(s1, Notify(Did(to)));
      var s2 := Enqueue(s1, Notify(Did(to)));
      EnqueueOther(s2, Finish);
      EnqueueOther(s2.(taskCalls := s.taskCalls + TaskCalls(to)), Notify(DidTask(to)));
    }
  }

  lemma EnqueueLookUp(s: State)
    ensures var t := Enqueue(s, ProcessNext);
      && SameSerializers(s, t) && t.phase == s.phase
      && Pipeline(t.underlying) == Pipeline(s.underlying) + [ProcessNext]
      && CompletedIds(t) == CompletedIds(s)
  {
    FlattenAppend(s.underlying, ProcessNext, PipelineWork);
    FlattenAppend(Pipeline(s.underlying), ProcessNext, CompletedId);
    assert CompletedIds(s) + [] == CompletedIds(s);
  }

  lemma AppendAddsLookUp(s: State, id: Id)
    ensures var t := OnAppend(s, id);
      && SameSerializers(s.(serializers := s.serializers + [id]), t) && t.phase == s.phase
      && (if s.processingFinished then Pipeline(t.underlying) == Pipeline(s.underlying) + [ProcessNext]
          else Pipeline(t.underlying) == Pipeline(s.underlying))
      && CompletedIds(t) == CompletedIds(s)
  {
    EnqueueLookUp(s);
    var s1 := s.(serializers := s.serializers + [id], state := if s.state.Finished? then Resumed else s.state);
    EnqueueOther(if s.processingFinished then Enqueue(s1, ProcessNext) else s1, ResumeIfImmediate);
  }

  lemma DoneAddsCompletion(s: State, id: Id)
    ensures var t := Enqueue(s, DidComplete(id));
      && Pipeline(t.underlying) == Pipeline(s.underlying) + [DidComplete(id)]
      && CompletedIds(t) == CompletedIds(s) + [id]
  {
    FlattenAppend(s.underlying, DidComplete(id), PipelineWork);
    FlattenAppend(Pipeline(s.underlying), DidComplete(id), CompletedId);
  }

  lemma HeadOfPipeline(s: State)
    requires s.underlying != []
    ensures var popped := s.(underlying := s.underlying[1..]);
      && Pipeline(s.underlying) == PipelineWork(s.underlying[0]) + Pipeline(popped.underlying)
      && CompletedIds(s) == CompletedId(s.underlying[0]) + CompletedIds(popped)
  {
    var w, rest := s.underlying[0], s.underlying[1..];
    if PipelineWork(w) == [] {
      assert Pipeline(s.underlying) == Pipeline(rest);
    } else {
      assert Pipeline(s.underlying) == [w] + Pipeline(rest);
      FlattenHead(w, Pipeline(rest), CompletedId);
    }
  }

  /** A closure that records no completion. */
  lemma HeadStartsLookUp(s: State, startImmediately: bool, taskIsLive: bool)
    requires s.phase.Idle? && s.underlying != [] && !s.underlying[0].DidComplete?
    ensures var t := OnHead(s, startImmediately, taskIsLive);
      && SameSerializers(s, t) && CompletedIds(t) == CompletedIds(s)
      && (t.phase.LookUp? || SamePass(s, t))
      && Pipeline(s.underlying)
         == (if s.underlying[0].ProcessNext? then [ProcessNext] else []) + Pipeline(t.underlying)
  {
    HeadOfPipeline(s);
    var popped := s.(underlying := s.underlying[1..]);
    assert CompletedId(s.underlying[0]) == [] && CompletedIds(popped) == CompletedIds(s);
    assert [] + Pipeline(popped.underlying) == Pipeline(popped.underlying);
    if s.underlying[0].ResumeIfImmediate? {
      ChangeIsOutside(popped, Resumed, taskIsLive);
    }
  }

  // ---------------------------------------------------------------- each step keeps the order

  /** A step that moves no serializer on, or one that makes a closure on the underlying queue look for the next. */
  lemma SameOutstandingKeepsOrder(y: System, z: System)
    requires InOrder(y)
    requires z.s.serializers == y.s.serializers && z.s.completions == y.s.completions
    requires z.s.processingFinished == y.s.processingFinished
    requires z.ran == y.ran && z.appended == y.appended && z.late == y.late
    requires Outstanding(z) == Outstanding(y) && Dispatched(z) == Dispatched(y)
    requires || (y.s.phase.Idle? && z.s.phase.LookUp?)
             || (z.s.phase == y.s.phase &&
                   (Outstanding(y) != [] || Pipeline(z.s.underlying) == Pipeline(y.s.underlying)))
    ensures InOrder(z)
  {
    assert OneAtATime(z);
    assert Undispatched(z) == Undispatched(y);
  }

  lemma OutsideKeepsOrder(y: System, s: State)
    requires InOrder(y)
    requires SameSerializers(y.s, s) && CompletedIds(s) == CompletedIds(y.s)
    requires SamePass(y.s, s) || (y.s.phase.Idle? && s.phase.LookUp?)
    ensures InOrder(y.(s := s))
  {
    var z := y.(s := s);
    assert Outstanding(z) == Outstanding(y) && Dispatched(z) == Dispatched(y);
    SameOutstandingKeepsOrder(y, z);
  }

  lemma AppendKeepsPlaces(y: System, id: Id)
    requires OneAtATime(y)
    ensures var z := Do(y, Append(id));
      OneAtATime(z) && Outstanding(z) == Outstanding(y) && Undispatched(z) == Undispatched(y) + [id]
  {
    AppendAddsLookUp(y.s, id);
    var z := Do(y, Append(id));
    assert Outstanding(z) == Outstanding(y);
    assert z.s.serializers[..Done(y)] == y.s.serializers[..Done(y)];
  }

  lemma OnTimeAppended(appended: seq<Id>, late: seq<Id>, id: Id)
    requires id !in appended && id !in late
    ensures OnTime(appended + [id], late) == OnTime(appended, late) + [id]
    ensures OnTime(appended + [id], late + [id]) == OnTime(appended, late)
  {
    FlattenAppend(appended, id, Unless(late));
    FlattenAppend(appended, id, Unless(late + [id]));
    OnTimeWithNew(appended, late, id);
    assert id in late + [id] && OnTime(appended, late) + [] == OnTime(appended, late);
  }

  lemma AppendKeepsOrder(y: System, id: Id)
    requires InOrder(y) && id !in y.appended
    ensures InOrder(Do(y, Append(id)))
  {
    AppendKeepsPlaces(y, id);
    OnTimeAppended(y.appended, y.late, id);
    var z := Do(y, Append(id));
    assert Dispatched(z) == Dispatched(y) by { AppendAddsLookUp(y.s, id); }
    if !y.s.phase.Clear? {
      assert Dispatched(y) + Undispatched(y) + [id] == Dispatched(y) + Undispatched(z);
    }
  }

  lemma CompletionPlaces(y: System, id: Id)
    requires OneAtATime(y) && y.s.phase.Idle? && y.s.underlying != [] && y.s.underlying[0] == DidComplete(id)
    ensures Outstanding(y) == [id] && Outstanding(y.(s := OnHead(y.s, false, false))) == []
    ensures Done(y) < |y.s.serializers| && y.s.serializers[Done(y)] == id
  {
    HeadOfPipeline(y.s);
    assert Outstanding(y) == [id];
  }

  lemma CompletionKeepsOrder(y: System, id: Id)
    requires InOrder(y) && y.s.phase.Idle? && y.s.underlying != [] && y.s.underlying[0] == DidComplete(id)
    ensures InOrder(y.(s := OnHead(y.s, false, false)))
  {
    CompletionPlaces(y, id);
    var z := y.(s := OnHead(y.s, false, false));
    assert z.s.completions == z.s.serializers[..Done(z)];
    assert OneAtATime(z);
    assert Dispatched(z) == z.ran + z.s.completions + [];
    assert Undispatched(z) == Undispatched(y);
  }

  lemma HeadKeepsOrder(y: System, startImmediately: bool, taskIsLive: bool)
    requires InOrder(y) && y.s.phase.Idle? && y.s.underlying != []
    ensures InOrder(y.(s := OnHead(y.s, startImmediately, taskIsLive)))
  {
    if y.s.underlying[0].DidComplete? {
      CompletionKeepsOrder(y, y.s.underlying[0].id);
    } else {
      HeadStartsLookUp(y.s, startImmediately, taskIsLive);
      OutsideKeepsOrder(y, OnHead(y.s, startImmediately, taskIsLive));
    }
  }

  lemma LookUpKeepsOrder(y: System)
    requires InOrder(y) && y.s.phase.LookUp?
    requires Done(y) < |y.s.serializers| ==> Outstanding(y) == []
    ensures InOrder(y.(s := OnLookUp(y.s)))
  {
    var n := Done(y);
    if n < |y.s.serializers| {
      var z := y.(s := OnLookUp(y.s));
      assert Outstanding(z) == [y.s.serializers[n]];
      assert Dispatched(z) == Dispatched(y) + [y.s.serializers[n]];
      assert Undispatched(y) == [y.s.serializers[n]] + Undispatched(z);
    }
  }

  lemma StartKeepsOrder(y: System)
    requires InOrder(y) && y.s.serialization != []
    ensures InOrder(Do(y, StartSerializer)) && Outstanding(Do(y, StartSerializer)) == Outstanding(y)
  {
    var x, z := y.s.serialization[0], Do(y, StartSerializer);
    assert Outstanding(y)[0] == x && |Outstanding(y)| == 1;
    assert y.s.serialization == [x] && y.running == [] && CompletedIds(y.s) == [];
    assert Outstanding(z) == Outstanding(y) && Dispatched(z) == Dispatched(y);
    SameOutstandingKeepsOrder(y, z);
  }

  lemma DonePlaces(y: System, i: nat)
    requires OneAtATime(y) && i < |y.running|
    ensures Outstanding(y) == Outstanding(Do(y, SerializerDone(i))) == [y.running[i]]
    ensures y.s.serialization == [] && CompletedIds(y.s) == []
  {
    var x := y.running[i];
    assert |Outstanding(y)| == 1;
    assert y.running == [x] && y.s.serialization == [] && CompletedIds(y.s) == [];
    DoneAddsCompletion(y.s, x);
    assert Without(y.running, i) == [];
  }

  lemma DoneKeepsOrder(y: System, i: nat)
    requires InOrder(y) && i < |y.running|
    ensures InOrder(Do(y, SerializerDone(i)))
  {
    DonePlaces(y, i);
    assert Dispatched(Do(y, SerializerDone(i))) == Dispatched(y);
    SameOutstandingKeepsOrder(y, Do(y, SerializerDone(i)));
  }

  lemma ClearKeepsOrder(y: System)
    requires InOrder(y) && y.s.phase.Clear?
    ensures InOrder(y.(s := OnClear(y.s), ran := y.ran + y.s.completions))
  {
  }

  lemma StepKeepsOrder(y: System, a: Action)
    requires InOrder(y) && Enabled(y, a) && !OverlapsNow(y, a) && (a.Append? ==> a.id !in y.appended)
    ensures InOrder(Do(y, a))
  {
    match a {
      case Append(id) => AppendKeepsOrder(y, id);
      case TaskCompleted =>
        EnqueueOther(y.s, Finish);
        OutsideKeepsOrder(y, Do(y, a).s);
      case ChangeState(to, taskIsLive) =>
        ChangeIsOutside(y.s, to, taskIsLive);
        OutsideKeepsOrder(y, Do(y, a).s);
      case RunUnderlying(startImmediately, taskIsLive) =>
        if y.s.phase.Idle? {
          HeadKeepsOrder(y, startImmediately, taskIsLive);
        } else if y.s.phase.LookUp? {
          LookUpKeepsOrder(y);
        } else {
          ClearKeepsOrder(y);
        }
      case StartSerializer => StartKeepsOrder(y);
      case SerializerDone(i) => DoneKeepsOrder(y, i);
    }
  }

  // ---------------------------------------------------------------- a serializer starts twice when look-ups overlap

  lemma {:induction false} AppendedGrows(y: System, actions: seq<Action>)
    requires IsRun(y, actions)
    ensures y.appended <= After(y, actions).appended
    decreases |actions|
  {
    if actions == [] {
    } else {
      AppendedGrows(Do(y, actions[0]), actions[1..]);
    }
  }

  lemma NewWhenAppended(y: System, actions: seq<Action>)
    requires IsRun(y, actions) && NoRepeats(After(y, actions).appended) && actions != [] && actions[0].Append?
    ensures actions[0].id !in y.appended
  {
    var z := Do(y, actions[0]);
    AppendedGrows(z, actions[1..]);
    var all := After(y, actions).appended;
    assert z.appended == all[..|z.appended|] && all[|y.appended|] == actions[0].id;
    assert forall i :: 0 <= i < |y.appended| ==> y.appended[i] == all[i];
  }

  lemma {:induction false} DispatchedGrows(y: System, actions: seq<Action>)
    requires IsRun(y, actions)
    ensures Dispatched(y) <= Dispatched(After(y, actions))
    decreases |actions|
  {
    if actions == [] {
    } else {
      var z := Do(y, actions[0]);
      assert Dispatched(y) <= Dispatched(z);
      DispatchedGrows(z, actions[1..]);
    }
  }

  lemma OrderHasNoRepeats(y: System)
    requires InOrder(y) && NoRepeats(y.appended)
    ensures NoRepeats(Dispatched(y))
  {
    OnTimeHasNoRepeats(y.appended, y.late);
    var all, d := OnTime(y.appended, y.late), Dispatched(y);
    assert forall i :: 0 <= i < |d| ==> d[i] == all[i];
  }

  lemma OverlapRepeats(y: System, a: Action)
    requires InOrder(y) && Enabled(y, a) && OverlapsNow(y, a)
    ensures !NoRepeats(Dispatched(Do(y, a)))
  {
    var d, x := Dispatched(y), y.s.serializers[Done(y)];
    assert d[|d| - 1] == Outstanding(y)[0] == x;
    assert Dispatched(Do(y, a)) == d + [x];
    assert (d + [x])[|d| - 1] == (d + [x])[|d|];
  }

  lemma {:induction false} RunOverlapsIff(y: System, actions: seq<Action>)
    requires InOrder(y) && IsRun(y, actions) && NoRepeats(After(y, actions).appended)
    ensures if Overlaps(y, actions) then !NoRepeats(Dispatched(After(y, actions))) else InOrder(After(y, actions))
    decreases |actions|
  {
    if actions == [] {
    } else if OverlapsNow(y, actions[0]) {
      var z := Do(y, actions[0]);
      OverlapRepeats(y, actions[0]);
      DispatchedGrows(z, actions[1..]);
      var d, all := Dispatched(z), Dispatched(After(y, actions));
      assert forall i :: 0 <= i < |d| ==> d[i] == all[i];
    } else {
      if actions[0].Append? {
        NewWhenAppended(y, actions);
      }
      StepKeepsOrder(y, actions[0]);
      RunOverlapsIff(Do(y, actions[0]), actions[1..]);
    }
  }

  lemma StartIsInOrder()
    ensures InOrder(START)
  {
  }

  /** In every run, no serializer is dispatched twice exactly when no look-up comes while one is outstanding. Then the
      serializers that were not late are dispatched in the order of appending, and completions run in that order. */
  lemma DispatchedOnceIff(actions: seq<Action>)
    requires IsRun(START, actions) && NoRepeats(After(START, actions).appended)
    ensures var y := After(START, actions);
      && (NoRepeats(Dispatched(y)) <==> !Overlaps(START, actions))
      && (!Overlaps(START, actions) ==>
            Dispatched(y) <= OnTime(y.appended, y.late) && y.ran <= Dispatched(y) && |Outstanding(y)| <= 1)
  {
    RunOverlapsIff(START, actions);
    var y := After(START, actions);
    if !Overlaps(START, actions) {
      OrderHasNoRepeats(y);
      assert y.ran + y.s.completions + Outstanding(y) == y.ran + (y.s.completions + Outstanding(y));
    }
  }

  // ---------------------------------------------------------------- which calls make look-ups overlap

  /** After the first pass: a serializer is appended while a look-up or a completion is queued, a look-up is under way
      or a serializer is outstanding; or a call of finish starts a pass of its own while serializers wait. */
  predicate CollidesNow(y: System, a: Action)
  {
    y.s.processingFinished &&
    match a
    case Append(_) =>
      !y.s.phase.Clear? && (Pipeline(y.s.underlying) != [] || y.s.phase.LookUp? || Outstanding(y) != [])
    case RunUnderlying(_, _) =>
      && y.s.phase.Idle? && y.s.underlying != [] && y.s.underlying[0].Finish?
      && !y.s.isFinishing && y.s.serializers != []
    case _ => false
  }

  predicate Collides(y: System, actions: seq<Action>)
    requires IsRun(y, actions)
    decreases |actions|
  {
    actions != [] && (CollidesNow(y, actions[0]) || Collides(Do(y, actions[0]), actions[1..]))
  }

  /** Two look-ups are to come for the serializers that wait, out of which this many are outstanding; or one is to come
      before the completion of the outstanding one is recorded, or with another serializer behind it. */
  predicate TwoToCome(waiting: int, out: nat, p: seq<Work>, phase: Phase)
  {
    && !phase.Clear? && waiting > 0
    && (if out == 0 then |p| + (if phase.LookUp? then 1 else 0) >= 2
        else phase.LookUp? || (p != [] && (p[0].ProcessNext? || (|p| >= 2 && waiting >= 2))))
  }

  /** Look-ups are bound to overlap. */
  predicate Doomed(y: System)
  {
    TwoToCome(|y.s.serializers| - Done(y), |Outstanding(y)|, Pipeline(y.s.underlying), y.s.phase)
  }

  lemma TwoStillToCome(waiting: int, more: nat, out: nat, p: seq<Work>, w: Work, phase: Phase)
    requires TwoToCome(waiting, out, p, phase)
    ensures TwoToCome(waiting + more, out, p + [w], phase)
  {
  }

  lemma {:induction false} PipelineKinds(q: seq<Work>)
    ensures Pipeline(q) != [] ==> Pipeline(q)[0].ProcessNext? || Pipeline(q)[0].DidComplete?
  {
    if q == [] {
    } else {
      PipelineKinds(q[1..]);
    }
  }

  lemma NothingDone(s: State)
    requires CompletedIds(s) == [] && Pipeline(s.underlying) != []
    ensures Pipeline(s.underlying)[0].ProcessNext?
  {
    PipelineKinds(s.underlying);
  }

  lemma AppendDooms(y: System, id: Id)
    requires InOrder(y) && (CollidesNow(y, Append(id)) || Doomed(y))
    ensures Doomed(Do(y, Append(id)))
  {
    AppendAddsLookUp(y.s, id);
    AppendKeepsPlaces(y, id);
    PipelineKinds(y.s.underlying);
  }

  lemma FinishDooms(y: System, a: Action)
    requires InOrder(y) && Enabled(y, a) && a.RunUnderlying? && CollidesNow(y, a)
    ensures Doomed(Do(y, a))
  {
    HeadStartsLookUp(y.s, a.startImmediately, a.taskIsLive);
    assert Outstanding(Do(y, a)) == Outstanding(y);
  }

  lemma HeadKeepsDoom(y: System, startImmediately: bool, taskIsLive: bool)
    requires OneAtATime(y) && Doomed(y) && y.s.phase.Idle? && y.s.underlying != []
    ensures Doomed(y.(s := OnHead(y.s, startImmediately, taskIsLive)))
  {
    var z := y.(s := OnHead(y.s, startImmediately, taskIsLive));
    if y.s.underlying[0].DidComplete? {
      HeadOfPipeline(y.s);
      CompletionPlaces(y, y.s.underlying[0].id);
    } else {
      HeadStartsLookUp(y.s, startImmediately, taskIsLive);
      assert Outstanding(z) == Outstanding(y);
    }
  }

  lemma LookUpKeepsDoom(y: System)
    requires InOrder(y) && Doomed(y) && y.s.phase.LookUp? && Outstanding(y) == []
    ensures Doomed(y.(s := OnLookUp(y.s)))
  {
    var z := y.(s := OnLookUp(y.s));
    assert Outstanding(z) == [y.s.serializers[Done(y)]];
    NothingDone(y.s);
  }

  lemma DoneKeepsDoom(y: System, i: nat)
    requires OneAtATime(y) && Doomed(y) && i < |y.running|
    ensures Doomed(Do(y, SerializerDone(i)))
  {
    DonePlaces(y, i);
    DoneAddsCompletion(y.s, y.running[i]);
    TwoStillToCome(|y.s.serializers| - Done(y), 0, 1, Pipeline(y.s.underlying), DidComplete(y.running[i]), y.s.phase);
  }

  lemma StepKeepsDoom(y: System, a: Action)
    requires InOrder(y) && Doomed(y) && Enabled(y, a) && !OverlapsNow(y, a) && (a.Append? ==> a.id !in y.appended)
    ensures Doomed(Do(y, a))
  {
    match a {
      case Append(id) => AppendDooms(y, id);
      case TaskCompleted => EnqueueOther(y.s, Finish);
      case ChangeState(to, taskIsLive) => ChangeIsOutside(y.s, to, taskIsLive);
      case RunUnderlying(startImmediately, taskIsLive) =>
        if y.s.phase.Idle? {
          HeadKeepsDoom(y, startImmediately, taskIsLive);
        } else {
          LookUpKeepsDoom(y);
        }
      case StartSerializer => StartKeepsOrder(y);
      case SerializerDone(i) => DoneKeepsDoom(y, i);
    }
  }

  /** Nothing is queued, under way or outstanding. */
  predicate Quiet(y: System)
  {
    y.s.underlying == [] && y.s.phase.Idle? && y.s.serialization == [] && y.running == []
  }

  lemma {:induction false} DoomedRunOverlaps(y: System, actions: seq<Action>)
    requires InOrder(y) && Doomed(y) && IsRun(y, actions) && NoRepeats(After(y, actions).appended)
    requires Quiet(After(y, actions))
    ensures Overlaps(y, actions)
    decreases |actions|
  {
    if actions == [] {
    } else if OverlapsNow(y, actions[0]) {
    } else {
      if actions[0].Append? {
        NewWhenAppended(y, actions);
      }
      StepKeepsOrder(y, actions[0]);
      StepKeepsDoom(y, actions[0]);
      DoomedRunOverlaps(Do(y, actions[0]), actions[1..]);
    }
  }

  // ---------------------------------------------------------------- without a collision, no overlap

  /** At most one serializer waits, and it has one look-up to come or is outstanding. */
  predicate OneToCome(size: nat, out: nat, p: seq<Work>, phase: Phase)
  {
    !phase.Clear? && size != 0 ==>
      && size == 1 && |p| <= 1
      && (phase.LookUp? ==> p == [] && out == 0)
      && (p != [] && p[0].ProcessNext? ==> out == 0)
  }

  /** After the first pass, as long as nothing has collided. */
  predicate Single(y: System)
  {
    && y.s.processingFinished
    && OneToCome(|y.s.serializers|, |Outstanding(y)|, Pipeline(y.s.underlying), y.s.phase)
  }

  predicate Calm(y: System)
  {
    InOrder(y) && (FirstPass(y) || Single(y))
  }

  lemma CalmDoesNotOverlap(y: System, a: Action)
    requires Calm(y)
    ensures !OverlapsNow(y, a)
  {
  }

  lemma CompletionKeepsSingle(y: System, id: Id)
    requires OneAtATime(y) && Single(y)
    requires y.s.phase.Idle? && y.s.underlying != [] && y.s.underlying[0] == DidComplete(id)
    ensures Single(y.(s := OnHead(y.s, false, false)))
  {
    HeadOfPipeline(y.s);
    CompletionPlaces(y, id);
  }

  lemma LookUpKeepsSingle(y: System, startImmediately: bool, taskIsLive: bool)
    requires OneAtATime(y) && Single(y) && y.s.phase.Idle? && y.s.underlying != [] && !y.s.underlying[0].DidComplete?
    requires !CollidesNow(y, RunUnderlying(startImmediately, taskIsLive))
    ensures Single(y.(s := OnHead(y.s, startImmediately, taskIsLive)))
  {
    HeadStartsLookUp(y.s, startImmediately, taskIsLive);
    assert Outstanding(y.(s := OnHead(y.s, startImmediately, taskIsLive))) == Outstanding(y);
  }

  lemma DoneKeepsSingle(y: System, i: nat)
    requires OneAtATime(y) && Single(y) && i < |y.running|
    ensures Single(Do(y, SerializerDone(i)))
  {
    DonePlaces(y, i);
    DoneAddsCompletion(y.s, y.running[i]);
    PipelineKinds(y.s.underlying);
  }

  lemma StepKeepsSingle(y: System, a: Action)
    requires InOrder(y) && Single(y) && Enabled(y, a) && !CollidesNow(y, a)
    ensures Single(Do(y, a))
  {
    match a {
      case Append(id) =>
        AppendAddsLookUp(y.s, id);
        AppendKeepsPlaces(y, id);
      case TaskCompleted => EnqueueOther(y.s, Finish);
      case ChangeState(to, taskIsLive) => ChangeIsOutside(y.s, to, taskIsLive);
      case RunUnderlying(startImmediately, taskIsLive) =>
        if y.s.phase.Idle? {
          if y.s.underlying[0].DidComplete? {
            CompletionKeepsSingle(y, y.s.underlying[0].id);
          } else {
            LookUpKeepsSingle(y, startImmediately, taskIsLive);
          }
        }
      case StartSerializer => StartKeepsOrder(y);
      case SerializerDone(i) => DoneKeepsSingle(y, i);
    }
  }

  lemma StepKeepsCalm(y: System, a: Action)
    requires Calm(y) && Enabled(y, a) && !CollidesNow(y, a) && (a.Append? ==> a.id !in y.appended)
    ensures Calm(Do(y, a))
  {
    CalmDoesNotOverlap(y, a);
    StepKeepsOrder(y, a);
    if Single(y) {
      StepKeepsSingle(y, a);
    } else {
      StepKeepsPass(y, a);
    }
  }

  lemma CollisionDooms(y: System, a: Action)
    requires InOrder(y) && Enabled(y, a) && CollidesNow(y, a)
    ensures Doomed(Do(y, a))
  {
    if a.Append? {
      AppendDooms(y, a.id);
    } else {
      FinishDooms(y, a);
    }
  }

  lemma {:induction false} CalmRun(y: System, actions: seq<Action>)
    requires Calm(y) && IsRun(y, actions) && NoRepeats(After(y, actions).appended)
    ensures Overlaps(y, actions) ==> Collides(y, actions)
    ensures Quiet(After(y, actions)) && Collides(y, actions) ==> Overlaps(y, actions)
    decreases |actions|
  {
    if actions == [] {
    } else {
      if actions[0].Append? {
        NewWhenAppended(y, actions);
      }
      var z := Do(y, actions[0]);
      CalmDoesNotOverlap(y, actions[0]);
      if CollidesNow(y, actions[0]) {
        if Quiet(After(y, actions)) {
          StepKeepsOrder(y, actions[0]);
          CollisionDooms(y, actions[0]);
          DoomedRunOverlaps(z, actions[1..]);
        }
      } else {
        StepKeepsCalm(y, actions[0]);
        CalmRun(z, actions[1..]);
      }
    }
  }

  /** Without a collision no serializer of any run starts twice; and in a run that ends quiet, with every queue empty,
      none has started twice exactly when there was no collision. Then, once processing has finished, all serializers
      that were not late have started and their completions have run, in the order of appending. */
  lemma StartedOnceIff(actions: seq<Action>)
    requires IsRun(START, actions) && NoRepeats(After(START, actions).appended)
    ensures var y := After(START, actions);
      && (!Collides(START, actions) ==> NoRepeats(Dispatched(y)))
      && (Quiet(y) ==> (NoRepeats(y.started) <==> !Collides(START, actions)))
      && (Quiet(y) && !Collides(START, actions) && y.s.processingFinished ==>
            y.started == y.ran == OnTime(y.appended, y.late))
  {
    CalmRun(START, actions);
    RunOverlapsIff(START, actions);
    var y := After(START, actions);
    if !Overlaps(START, actions) {
      OrderHasNoRepeats(y);
    }
    if Quiet(y) {
      assert Dispatched(y) == y.started && Outstanding(y) == [];
    }
  }

  // ---------------------------------------------------------------- two serializers appended after the end

  lemma {:induction false} RunOfTwoParts(y: System, first: seq<Action>, second: seq<Action>)
    requires IsRun(y, first) && IsRun(After(y, first), second)
    ensures IsRun(y, first + second) && After(y, first + second) == After(After(y, first), second)
    decreases |first|
  {
    if first == [] {
      assert first + second == second;
    } else {
      RunOfTwoParts(Do(y, first[0]), first[1..], second);
      assert (first + second)[0] == first[0] && (first + second)[1..] == first[1..] + second;
    }
  }

  lemma RunOfTwo(y: System, a: Action, b: Action)
    requires Enabled(y, a) && Enabled(Do(y, a), b)
    ensures IsRun(y, [a, b]) && After(y, [a, b]) == Do(Do(y, a), b)
  {
    var z := Do(y, a);
    var end := Do(z, b);
    assert IsRun(end, []) && After(end, []) == end;
    assert [b][1..] == [] && IsRun(z, [b]) && After(z, [b]) == end;
    assert [a, b][1..] == [b];
  }

  lemma RunOfFour(y: System, a: Action, b: Action, c: Action, d: Action)
    requires Enabled(y, a) && Enabled(Do(y, a), b)
    requires var z := Do(Do(y, a), b); Enabled(z, c) && Enabled(Do(z, c), d)
    ensures IsRun(y, [a, b, c, d]) && After(y, [a, b, c, d]) == Do(Do(Do(Do(y, a), b), c), d)
  {
    RunOfTwo(y, a, b);
    RunOfTwo(Do(Do(y, a), b), c, d);
    RunOfTwoParts(y, [a, b], [c, d]);
    assert [a, b] + [c, d] == [a, b, c, d];
  }

  const NEXT := RunUnderlying(false, false)

  /** The request has finished without serializers, and then with these at work. */
  function Ended(s: State): System
  {
    START.(s := INITIAL.(state := s.state, serializers := s.serializers, processingFinished := true,
                         underlying := s.underlying, serialization := s.serialization),
           appended := s.serializers)
  }

  lemma EmptyPass()
    ensures var actions := [TaskCompleted, NEXT, NEXT, NEXT];
      IsRun(START, actions) && After(START, actions) == Ended(INITIAL.(state := Finished))
  {
    var y := Do(START, TaskCompleted);
    assert y.s.underlying == [Finish];
    RunOfFour(START, TaskCompleted, NEXT, NEXT, NEXT);
  }

  /** Two serializers are appended, and the first of their two look-ups finds the first of them. */
  lemma TwoLookUps(a: Id, b: Id)
    ensures var y, actions := Ended(INITIAL.(state := Finished)), [Append(a), Append(b), NEXT, NEXT];
      && IsRun(y, actions)
      && After(y, actions) == Ended(INITIAL.(state := Resumed, serializers := [a, b], underlying := [ProcessNext],
                                             serialization := [a]))
  {
    var y := Ended(INITIAL.(state := Finished));
    var z := Do(Do(y, Append(a)), Append(b));
    assert z == Ended(INITIAL.(state := Resumed, serializers := [a, b], underlying := [ProcessNext, ProcessNext]));
    RunOfFour(y, Append(a), Append(b), NEXT, NEXT);
  }

  lemma SecondLookUp(y: System, a: Id, b: Id)
    requires y == Ended(INITIAL.(state := Resumed, serializers := [a, b], underlying := [ProcessNext],
                                 serialization := [a]))
    ensures var actions := [NEXT, NEXT, StartSerializer, StartSerializer];
      IsRun(y, actions) && After(y, actions).appended == [a, b] && After(y, actions).started == [a, a]
  {
    var z := Do(Do(y, NEXT), NEXT);
    assert z.s.serialization == [a, a];
    RunOfFour(y, NEXT, NEXT, StartSerializer, StartSerializer);
  }

  /** Two serializers appended to a finished request: the first starts twice, before it has completed once. */
  lemma FirstStartsTwice(a: Id, b: Id)
    ensures var actions := [TaskCompleted, NEXT, NEXT, NEXT] + [Append(a), Append(b), NEXT, NEXT]
        + [NEXT, NEXT, StartSerializer, StartSerializer];
      IsRun(START, actions) && After(START, actions).appended == [a, b] && After(START, actions).started == [a, a]
  {
    EmptyPass();
    TwoLookUps(a, b);
    var first, second := [TaskCompleted, NEXT, NEXT, NEXT], [Append(a), Append(b), NEXT, NEXT];
    RunOfTwoParts(START, first, second);
    var y := After(START, first + second);
    SecondLookUp(y, a, b);
    RunOfTwoParts(START, first + second, [NEXT, NEXT, StartSerializer, StartSerializer]);
  }
}

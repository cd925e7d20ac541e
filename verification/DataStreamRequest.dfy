/** Alamofire's DataStreamRequest: the count of executing streams and the completions that wait for it to drain, over
    all runs. Each locked block is one step; a closure that goes through a batch takes one step per entry, since the
    callbacks it schedules can finish before it does. Streams, and the completion each brings, are identified by
    numbers. */
module DataStreamRequest {
  import opened Sequences

  type Id = nat

  /** A piece of received data. */
  type Data = nat

  // ---------------------------------------------------------------- the locked blocks as functions

  /** A closure on the underlying queue: received data for the output stream, or for the streams there were, or
      completions let go. */
  datatype Work = WriteOut(stream: nat, data: Data) | Deliver(data: Data, streams: seq<Id>) | Release(events: seq<Id>)

  /** StreamMutableState, with the underlying queue its locked blocks append to and the completions handed to their own
      queues. Output streams are numbered as they are made; the last one made is the one in use. */
  datatype State = State(
    outputStreams: nat,
    closed: set<nat>,
    streams: seq<Id>,
    numberOfExecutingStreams: int,
    enqueuedCompletionEvents: seq<Id>,
    underlying: seq<Work>,
    handed: seq<Id>)

  const INITIAL: State := State(0, {}, [], 0, [], [], [])

  function OnReceive(s: State, data: Data): State
  {
    var s1 := if s.outputStreams > 0 then s.(underlying := s.underlying + [WriteOut(s.outputStreams - 1, data)]) else s;
    s1.(numberOfExecutingStreams := s.numberOfExecutingStreams + |s.streams|,
        underlying := s1.underlying + [Deliver(data, s.streams)])
  }

  /** The locked block of finish. */
  function OnFinish(s: State): State
  {
    if s.outputStreams > 0 then s.(closed := s.closed + {s.outputStreams - 1}) else s
  }

  function OnComplete(s: State, id: Id): State
  {
    if s.numberOfExecutingStreams == 0 then s.(handed := s.handed + [id])
    else s.(enqueuedCompletionEvents := s.enqueuedCompletionEvents + [id])
  }

  function OnUpdate(s: State): State
  {
    var n := s.numberOfExecutingStreams - 1;
    if n != 0 || s.enqueuedCompletionEvents == [] then s.(numberOfExecutingStreams := n)
    else s.(numberOfExecutingStreams := n, enqueuedCompletionEvents := [],
            underlying := s.underlying + [Release(s.enqueuedCompletionEvents)])
  }

  // ---------------------------------------------------------------- the class

  class DataStreamRequest {
    var outputStreams: nat
    var closed: set<nat>
    var streams: seq<Id>
    var numberOfExecutingStreams: int
    var enqueuedCompletionEvents: seq<Id>
    var underlyingQueue: seq<Work>
    var handed: seq<Id>

    ghost function Snap(): State
      reads this
    {
      State(outputStreams, closed, streams, numberOfExecutingStreams, enqueuedCompletionEvents, underlyingQueue, handed)
    }

    constructor ()
      ensures Snap() == INITIAL
    {
      outputStreams, closed, streams, numberOfExecutingStreams := 0, {}, [], 0;
      enqueuedCompletionEvents, underlyingQueue, handed := [], [], [];
    }

    /** The locked block of responseStream. */
    method AppendStream(id: Id)
      modifies this
      ensures Snap() == old(Snap()).(streams := old(streams) + [id])
    {
      streams := streams + [id];
    }

    /** The locked block of asInputStream. */
    method OpenOutputStream()
      modifies this
      ensures Snap() == old(Snap()).(outputStreams := old(outputStreams) + 1)
    {
      outputStreams := outputStreams + 1;
    }

    /** The locked block of finish, which closes the output stream in use. */
    method Finish()
      modifies this
      ensures Snap() == OnFinish(old(Snap()))
      ensures closed == old(closed) + (if outputStreams > 0 then {outputStreams - 1} else {})
    {
      if outputStreams > 0 {
        closed := closed + {outputStreams - 1};
      }
    }

    method DidReceive(data: Data)
      modifies this
      ensures Snap() == OnReceive(old(Snap()), data)
      ensures numberOfExecutingStreams == old(numberOfExecutingStreams) + |streams|
      ensures underlyingQueue == old(underlyingQueue)
        + (if outputStreams > 0 then [WriteOut(outputStreams - 1, data)] else []) + [Deliver(data, streams)]
    {
      if outputStreams > 0 {
        underlyingQueue := underlyingQueue + [WriteOut(outputStreams - 1, data)];
      }
      numberOfExecutingStreams := numberOfExecutingStreams + |streams|;
      underlyingQueue := underlyingQueue + [Deliver(data, streams)];
    }

    /** The completion that appendStreamCompletion leaves with the response serializers. */
    method StreamCompletion(id: Id)
      modifies this
      ensures Snap() == OnComplete(old(Snap()), id)
      ensures handed == old(handed) + (if numberOfExecutingStreams == 0 then [id] else [])
      ensures enqueuedCompletionEvents
        == old(enqueuedCompletionEvents) + (if numberOfExecutingStreams == 0 then [] else [id])
    {
      if numberOfExecutingStreams != 0 {
        enqueuedCompletionEvents := enqueuedCompletionEvents + [id];
        return;
      }
      EnqueueCompletion(id);
    }

    method EnqueueCompletion(id: Id)
      modifies this`handed
      ensures handed == old(handed) + [id]
    {
      handed := handed + [id];
    }

    method UpdateAndCompleteIfPossible()
      modifies this
      ensures Snap() == OnUpdate(old(Snap()))
      ensures numberOfExecutingStreams == old(numberOfExecutingStreams) - 1
      ensures if old(numberOfExecutingStreams) == 1 && old(enqueuedCompletionEvents) != [] then
        && enqueuedCompletionEvents == []
        && underlyingQueue == old(underlyingQueue) + [Release(old(enqueuedCompletionEvents))]
        else enqueuedCompletionEvents == old(enqueuedCompletionEvents) && underlyingQueue == old(underlyingQueue)
    {
      numberOfExecutingStreams := numberOfExecutingStreams - 1;
      if numberOfExecutingStreams != 0 || enqueuedCompletionEvents == [] {
        return;
      }
      var completionEvents := enqueuedCompletionEvents;
      underlyingQueue := underlyingQueue + [Release(completionEvents)];
      enqueuedCompletionEvents := [];
    }
  }

  // ---------------------------------------------------------------- runs

  /** A piece of data and the output stream, or the stream, it is for. */
  datatype Outgoing = Outgoing(stream: nat, data: Data)

  /** The request, the completions the response serializers still hold and those they lost, the callbacks scheduled and
      not yet retired, the streams added so far, the data each stream was called with, the data received while there was
      an output stream, and what became of it. */
  datatype System = System(
    s: State,
    held: seq<Id>,
    lost: seq<Id>,
    scheduled: seq<Id>,
    added: set<Id>,
    delivered: seq<Outgoing>,
    outgoing: seq<Outgoing>,
    written: seq<Outgoing>,
    dropped: seq<Outgoing>)

  const START: System := System(INITIAL, [], [], [], {}, [], [], [], [])

  /** What can happen. Complete runs a completion that the response serializers hold; Lose clears one away with a
      serializer that came too late for its pass. */
  datatype Action =
    | AddStream(id: Id)
    | OpenOutput
    | CloseOutput
    | Receive(data: Data)
    | RunUnderlying
    | Retire(i: nat)
    | Complete(i: nat)
    | Lose(i: nat)

  predicate Enabled(y: System, a: Action)
  {
    match a
    case AddStream(id) => id !in y.added
    case OpenOutput => true
    case CloseOutput => true
    case Receive(_) => true
    case RunUnderlying => y.s.underlying != []
    case Retire(i) => i < |y.scheduled|
    case Complete(i) => i < |y.held|
    case Lose(i) => i < |y.held|
  }

  function SetHead(s: State, work: Work): State
    requires s.underlying != []
  {
    s.(underlying := [work] + s.underlying[1..])
  }

  /** One step of the closure at the head of the underlying queue. */
  function RunHead(y: System): System
    requires y.s.underlying != []
  {
    var popped := y.s.(underlying := y.s.underlying[1..]);
    match y.s.underlying[0]
    case WriteOut(stream, data) =>
      if stream in y.s.closed then y.(s := popped, dropped := y.dropped + [Outgoing(stream, data)])
      else y.(s := popped, written := y.written + [Outgoing(stream, data)])
    case Deliver(data, streams) =>
      if streams == [] then y.(s := popped)
      else y.(s := SetHead(y.s, Deliver(data, streams[1..])), scheduled := y.scheduled + [streams[0]],
              delivered := y.delivered + [Outgoing(streams[0], data)])
    case Release(events) =>
      if events == [] then y.(s := popped)
      else y.(s := SetHead(y.s.(handed := y.s.handed + [events[0]]), Release(events[1..])))
  }

  function Do(y: System, a: Action): System
    requires Enabled(y, a)
  {
    match a
    case AddStream(id) =>
      y.(s := y.s.(streams := y.s.streams + [id]), held := y.held + [id], added := y.added + {id})
    case OpenOutput => y.(s := y.s.(outputStreams := y.s.outputStreams + 1))
    case CloseOutput => y.(s := OnFinish(y.s))
    case Receive(data) =>
      var now := if y.s.outputStreams > 0 then [Outgoing(y.s.outputStreams - 1, data)] else [];
      y.(s := OnReceive(y.s, data), outgoing := y.outgoing + now)
    case RunUnderlying => RunHead(y)
    case Retire(i) => y.(s := OnUpdate(y.s), scheduled := Without(y.scheduled, i))
    case Complete(i) => y.(s := OnComplete(y.s, y.held[i]), held := Without(y.held, i))
    case Lose(i) => y.(lost := y.lost + [y.held[i]], held := Without(y.held, i))
  }

  predicate IsRun(y: System, actions: seq<Action>)
    decreases |actions|
  {
    actions == [] || (Enabled(y, actions[0]) && IsRun(Do(y, actions[0]), actions[1..]))
  }

  function After(y: System, actions: seq<Action>): System
    requires IsRun(y, actions)
    decreases |actions|
  {
    if actions == [] then y else After(Do(y, actions[0]), actions[1..])
  }

  // ---------------------------------------------------------------- the queue

  /** What each kind of closure on the underlying queue is still to do: callbacks to schedule, completions to hand over,
      and data to write out. */
  function Callbacks(w: Work): seq<Id>
  {
    if w.Deliver? then w.streams else []
  }

  function Events(w: Work): seq<Id>
  {
    if w.Release? then w.events else []
  }

  function Writes(w: Work): seq<Outgoing>
  {
    if w.WriteOut? then [Outgoing(w.stream, w.data)] else []
  }

  /** A reception puts its closures at the end of the queue. */
  lemma ReceivedAtEnd<U>(s: State, data: Data, f: Work -> seq<U>)
    ensures Flatten(OnReceive(s, data).underlying, f)
      == Flatten(s.underlying, f) + (if s.outputStreams > 0 then f(WriteOut(s.outputStreams - 1, data)) else [])
         + f(Deliver(data, s.streams))
  {
    if s.outputStreams > 0 {
      FlattenAppend(s.underlying, WriteOut(s.outputStreams - 1, data), f);
      FlattenAppend(s.underlying + [WriteOut(s.outputStreams - 1, data)], Deliver(data, s.streams), f);
    } else {
      FlattenAppend(s.underlying, Deliver(data, s.streams), f);
    }
  }

  // ---------------------------------------------------------------- the count of executing streams

  /** Callbacks that closures on the underlying queue are still to schedule. */
  function Undelivered(q: seq<Work>): nat
  {
    |Flatten(q, Callbacks)|
  }

  /** The count is the number of callbacks not yet retired, and completions wait only while it is positive. */
  predicate Counted(y: System)
  {
    && y.s.numberOfExecutingStreams == Undelivered(y.s.underlying) + |y.scheduled|
    && (y.s.enqueuedCompletionEvents != [] ==> y.s.numberOfExecutingStreams > 0)
  }

  lemma RunHeadIsCounted(y: System)
    requires Counted(y) && y.s.underlying != []
    ensures Counted(RunHead(y))
  {
    var rest := y.s.underlying[1..];
    match y.s.underlying[0] {
      case WriteOut(_, _) =>
      case Deliver(data, streams) =>
        if streams != [] {
          FlattenHead(Deliver(data, streams[1..]), rest, Callbacks);
        }
      case Release(events) =>
        if events != [] {
          FlattenHead(Release(events[1..]), rest, Callbacks);
        }
    }
  }

  lemma StepIsCounted(y: System, a: Action)
    requires Counted(y) && Enabled(y, a)
    ensures Counted(Do(y, a))
  {
    match a {
      case Receive(data) => ReceivedAtEnd(y.s, data, Callbacks);
      case RunUnderlying => RunHeadIsCounted(y);
      case Retire(_) => FlattenAppend(y.s.underlying, Release(y.s.enqueuedCompletionEvents), Callbacks);
      case _ =>
    }
  }

  lemma {:induction false} RunIsCounted(y: System, actions: seq<Action>)
    requires Counted(y) && IsRun(y, actions)
    ensures Counted(After(y, actions))
    decreases |actions|
  {
    if actions == [] {
    } else {
      StepIsCounted(y, actions[0]);
      RunIsCounted(Do(y, actions[0]), actions[1..]);
    }
  }

  /** In every reachable state numberOfExecutingStreams is the number of callbacks that received data has given rise to
      and that have not been retired, and completions are enqueued only while it is positive. */
  lemma CountIsExact(actions: seq<Action>)
    requires IsRun(START, actions)
    ensures var y := After(START, actions);
      && y.s.numberOfExecutingStreams == Undelivered(y.s.underlying) + |y.scheduled|
      && (y.s.enqueuedCompletionEvents != [] ==> y.s.numberOfExecutingStreams > 0)
  {
    RunIsCounted(START, actions);
  }

  // ---------------------------------------------------------------- where a completion is

  /** Completions not let go yet: held by the response serializers or enqueued. */
  function Kept(y: System, id: Id): nat
  {
    Count(y.held, id) + Count(y.s.enqueuedCompletionEvents, id)
  }

  /** Completions let go: on the underlying queue, or handed to their own queue. */
  function LetGo(y: System, id: Id): nat
  {
    Count(Flatten(y.s.underlying, Events), id) + Count(y.s.handed, id)
  }

  /** All the places a completion can be. */
  function Places(y: System, id: Id): nat
  {
    Kept(y, id) + LetGo(y, id) + Count(y.lost, id)
  }

  lemma RunHeadBalance(y: System, id: Id)
    requires y.s.underlying != []
    ensures Kept(RunHead(y), id) == Kept(y, id) && LetGo(RunHead(y), id) == LetGo(y, id)
  {
    var rest := y.s.underlying[1..];
    var after := Flatten(rest, Events);
    assert [] + after == after;
    match y.s.underlying[0] {
      case WriteOut(_, _) =>
      case Deliver(data, streams) =>
        if streams != [] {
          FlattenHead(Deliver(data, streams[1..]), rest, Events);
        }
      case Release(events) =>
        assert Flatten(y.s.underlying, Events) == events + after;
        CountConcat(events, after, id);
        if events != [] {
          assert events == [events[0]] + events[1..];
          CountLast(y.s.handed, events[0], id);
          FlattenHead(Release(events[1..]), rest, Events);
          CountConcat(events[1..], after, id);
        }
    }
  }

  lemma CompleteBalance(y: System, i: nat, id: Id)
    requires i < |y.held|
    ensures Places(Do(y, Complete(i)), id) == Places(y, id) && LetGo(Do(y, Complete(i)), id) >= LetGo(y, id)
  {
    CountWithout(y.held, i, id);
    if y.s.numberOfExecutingStreams == 0 {
      CountLast(y.s.handed, y.held[i], id);
    } else {
      CountLast(y.s.enqueuedCompletionEvents, y.held[i], id);
    }
  }

  lemma LoseBalance(y: System, i: nat, id: Id)
    requires i < |y.held|
    ensures Places(Do(y, Lose(i)), id) == Places(y, id) && LetGo(Do(y, Lose(i)), id) == LetGo(y, id)
  {
    CountWithout(y.held, i, id);
    CountLast(y.lost, y.held[i], id);
  }

  lemma ReceptionMovesNoEvent(s: State, data: Data)
    ensures Flatten(OnReceive(s, data).underlying, Events) == Flatten(s.underlying, Events)
  {
    ReceivedAtEnd(s, data, Events);
  }

  lemma ReceiveBalance(y: System, data: Data, id: Id)
    ensures Places(Do(y, Receive(data)), id) == Places(y, id) && LetGo(Do(y, Receive(data)), id) == LetGo(y, id)
  {
    ReceptionMovesNoEvent(y.s, data);
  }

  lemma RetireBalance(y: System, i: nat, id: Id)
    requires i < |y.scheduled|
    ensures Places(Do(y, Retire(i)), id) == Places(y, id) && LetGo(Do(y, Retire(i)), id) >= LetGo(y, id)
  {
    var events, z := y.s.enqueuedCompletionEvents, Do(y, Retire(i));
    if y.s.numberOfExecutingStreams == 1 && events != [] {
      FlattenAppend(y.s.underlying, Release(events), Events);
      CountConcat(Flatten(y.s.underlying, Events), events, id);
      assert z.s.enqueuedCompletionEvents == [] && z.s.underlying == y.s.underlying + [Release(events)];
    } else {
      assert z.s.enqueuedCompletionEvents == events && z.s.underlying == y.s.underlying;
    }
  }

  /** Every step keeps the number of places a completion is in, but for the one it introduces, and a completion let go
      is never taken back. */
  lemma StepBalance(y: System, a: Action, id: Id)
    requires Enabled(y, a)
    ensures Places(Do(y, a), id) == Places(y, id) + (if a == AddStream(id) then 1 else 0)
    ensures LetGo(Do(y, a), id) >= LetGo(y, id)
    ensures id in Do(y, a).added <==> id in y.added || a == AddStream(id)
  {
    match a {
      case AddStream(x) => CountLast(y.held, x, id);
      case OpenOutput =>
      case CloseOutput =>
      case Receive(data) => ReceiveBalance(y, data, id);
      case RunUnderlying => RunHeadBalance(y, id);
      case Retire(i) => RetireBalance(y, i, id);
      case Complete(i) => CompleteBalance(y, i, id);
      case Lose(i) => LoseBalance(y, i, id);
    }
  }

  /** Only a step that leaves no callback to be retired lets a completion go. */
  lemma StepLetsGoAtZero(y: System, a: Action, id: Id)
    requires Enabled(y, a) && Counted(y) && LetGo(Do(y, a), id) > LetGo(y, id)
    ensures var z := Do(y, a);
      z.s.numberOfExecutingStreams == 0 && z.scheduled == [] && Undelivered(z.s.underlying) == 0
  {
    StepIsCounted(y, a);
    match a {
      case Receive(data) => ReceiveBalance(y, data, id);
      case RunUnderlying => RunHeadBalance(y, id);
      case _ =>
    }
  }

  lemma {:induction false} RunBalance(y: System, actions: seq<Action>, id: Id)
    requires IsRun(y, actions)
    requires Places(y, id) == if id in y.added then 1 else 0
    ensures var z := After(y, actions); Places(z, id) == if id in z.added then 1 else 0
    decreases |actions|
  {
    if actions == [] {
    } else {
      StepBalance(y, actions[0], id);
      RunBalance(Do(y, actions[0]), actions[1..], id);
    }
  }

  /** Conservation: in every reachable state the completion of each stream added so far is in exactly one place: held,
      enqueued, let go, or lost with its serializer. */
  lemma CompletionsAreConserved(actions: seq<Action>, id: Id)
    requires IsRun(START, actions)
    ensures var y := After(START, actions); Places(y, id) == if id in y.added then 1 else 0
  {
    RunBalance(START, actions, id);
  }

  /** Completions wait for the streams to drain: whatever step of a run lets a completion go, it had not been let go
      before, and no callback is scheduled or still to be scheduled at that moment. */
  lemma CompletionsWaitForDrain(actions: seq<Action>, a: Action, id: Id)
    requires IsRun(START, actions) && Enabled(After(START, actions), a)
    requires LetGo(Do(After(START, actions), a), id) > LetGo(After(START, actions), id)
    ensures LetGo(After(START, actions), id) == 0 && LetGo(Do(After(START, actions), a), id) == 1
    ensures var y := Do(After(START, actions), a);
      y.s.numberOfExecutingStreams == 0 && y.scheduled == [] && Undelivered(y.s.underlying) == 0
  {
    RunIsCounted(START, actions);
    RunBalance(START, actions, id);
    StepBalance(After(START, actions), a, id);
    StepLetsGoAtZero(After(START, actions), a, id);
  }

  /** Once the serializers hold no completion, the underlying queue is empty and every callback has been retired, the
      completion of a stream has been handed to its queue, exactly once, if and only if it was not lost with its
      serializer. */
  lemma DrainedMeansAllHanded(actions: seq<Action>, id: Id)
    requires IsRun(START, actions)
    requires var y := After(START, actions); y.held == [] && y.scheduled == [] && y.s.underlying == []
    ensures var y := After(START, actions); Count(y.s.handed, id) == if id in y.added && id !in y.lost then 1 else 0
  {
    RunIsCounted(START, actions);
    RunBalance(START, actions, id);
    CountIsMembership(After(START, actions).lost, id);
  }

  // ---------------------------------------------------------------- the output streams

  /** What one entry is for stream k. */
  function Part(k: nat): Outgoing -> seq<Data>
  {
    (x: Outgoing) => if x.stream == k then [x.data] else []
  }

  /** The part of a sequence that is for one output stream. */
  function For(s: seq<Outgoing>, k: nat): seq<Data>
  {
    Flatten(s, Part(k))
  }

  function Unwritten(y: System): seq<Outgoing>
  {
    Flatten(y.s.underlying, Writes)
  }

  /** What was received for stream k has been written, then dropped, and the rest is still on the queue; nothing is
      dropped unless the stream is closed. */
  predicate WrittenInOrder(y: System, k: nat)
  {
    && For(y.outgoing, k) == For(y.written, k) + For(y.dropped, k) + For(Unwritten(y), k)
    && (For(y.dropped, k) != [] ==> k in y.s.closed)
  }

  lemma HeadIsWritten(y: System, k: nat)
    requires WrittenInOrder(y, k) && y.s.underlying != [] && y.s.underlying[0].WriteOut?
    ensures WrittenInOrder(RunHead(y), k)
  {
    var x, rest := Outgoing(y.s.underlying[0].stream, y.s.underlying[0].data), Unwritten(RunHead(y));
    assert Unwritten(y) == [x] + rest;
    FlattenHead(x, rest, Part(k));
    FlattenAppend(y.written, x, Part(k));
    FlattenAppend(y.dropped, x, Part(k));
    Moved(For(y.written, k), For(y.dropped, k), Part(k)(x), For(rest, k));
  }

  lemma Moved(written: seq<Data>, dropped: seq<Data>, part: seq<Data>, rest: seq<Data>)
    ensures written + dropped + (part + rest) == written + (dropped + part) + rest
    ensures dropped == [] || part == [] ==> written + dropped + (part + rest) == (written + part) + dropped + rest
  {
  }

  lemma HeadWritesNothing(y: System, k: nat)
    requires WrittenInOrder(y, k) && y.s.underlying != [] && !y.s.underlying[0].WriteOut?
    ensures WrittenInOrder(RunHead(y), k)
  {
    var rest := y.s.underlying[1..];
    match y.s.underlying[0] {
      case Deliver(data, streams) =>
        if streams != [] {
          FlattenHead(Deliver(data, streams[1..]), rest, Writes);
        }
      case Release(events) =>
        if events != [] {
          FlattenHead(Release(events[1..]), rest, Writes);
        }
    }
    assert Unwritten(RunHead(y)) == Unwritten(y);
  }

  lemma ReceptionIsInOrder(y: System, data: Data, k: nat)
    requires WrittenInOrder(y, k)
    ensures WrittenInOrder(Do(y, Receive(data)), k)
  {
    ReceivedAtEnd(y.s, data, Writes);
    if y.s.outputStreams > 0 {
      var x := Outgoing(y.s.outputStreams - 1, data);
      assert Unwritten(Do(y, Receive(data))) == Unwritten(y) + [x];
      FlattenAppend(Unwritten(y), x, Part(k));
      FlattenAppend(y.outgoing, x, Part(k));
    } else {
      assert Unwritten(Do(y, Receive(data))) == Unwritten(y);
      assert y.outgoing + [] == y.outgoing;
    }
  }

  lemma StepWritesInOrder(y: System, a: Action, k: nat)
    requires Enabled(y, a) && WrittenInOrder(y, k)
    ensures WrittenInOrder(Do(y, a), k)
  {
    match a {
      case Receive(data) =>
        ReceptionIsInOrder(y, data, k);
      case RunUnderlying =>
        if y.s.underlying[0].WriteOut? {
          HeadIsWritten(y, k);
        } else {
          HeadWritesNothing(y, k);
        }
      case Retire(_) =>
        FlattenAppend(y.s.underlying, Release(y.s.enqueuedCompletionEvents), Writes);
        assert Unwritten(Do(y, a)) == Unwritten(y);
      case _ =>
    }
  }

  lemma {:induction false} RunWritesInOrder(y: System, actions: seq<Action>, k: nat)
    requires IsRun(y, actions) && WrittenInOrder(y, k)
    ensures WrittenInOrder(After(y, actions), k)
    decreases |actions|
  {
    if actions == [] {
    } else {
      StepWritesInOrder(y, actions[0], k);
      RunWritesInOrder(Do(y, actions[0]), actions[1..], k);
    }
  }

  /** In every reachable state each output stream has got, in order of reception, the data received while it was in use,
      up to the moment when finish closed it; what came to be written after that is dropped, and the rest is still on
      the queue. */
  lemma DataIsWrittenInOrder(actions: seq<Action>, k: nat)
    requires IsRun(START, actions)
    ensures var y := After(START, actions);
      && For(y.outgoing, k) == For(y.written, k) + For(y.dropped, k) + For(Unwritten(y), k)
      && (k !in y.s.closed ==> For(y.dropped, k) == [])
  {
    RunWritesInOrder(START, actions, k);
  }

  // ---------------------------------------------------------------- what each stream is called with

  function Each(streams: seq<Id>, data: Data): (r: seq<Outgoing>)
    ensures |r| == |streams| && forall i :: 0 <= i < |r| ==> r[i] == Outgoing(streams[i], data)
  {
    if streams == [] then [] else [Outgoing(streams[0], data)] + Each(streams[1..], data)
  }

  /** The calls of streams that a closure is still to make. */
  function Calls(w: Work): seq<Outgoing>
  {
    if w.Deliver? then Each(w.streams, w.data) else []
  }

  /** The calls of streams, made and still to be made. */
  function AllCalls(y: System): seq<Outgoing>
  {
    y.delivered + Flatten(y.s.underlying, Calls)
  }

  /** The data received since a stream was added, as the actions of a run tell. */
  function ReceivedSince(actions: seq<Action>, id: Id, added: bool): seq<Data>
  {
    if actions == [] then []
    else
      match actions[0]
      case AddStream(x) => ReceivedSince(actions[1..], id, added || x == id)
      case Receive(data) => (if added then [data] else []) + ReceivedSince(actions[1..], id, added)
      case _ => ReceivedSince(actions[1..], id, added)
  }

  /** A step makes calls that were to be made, and only a reception adds some: one for each stream there is. */
  lemma StepKeepsCalls(y: System, a: Action)
    requires Enabled(y, a)
    ensures AllCalls(Do(y, a)) == if a.Receive? then AllCalls(y) + Each(y.s.streams, a.data) else AllCalls(y)
  {
    match a {
      case Receive(data) => ReceivedAtEnd(y.s, data, Calls);
      case RunUnderlying => RunHeadKeepsCalls(y);
      case Retire(_) => FlattenAppend(y.s.underlying, Release(y.s.enqueuedCompletionEvents), Calls);
      case _ =>
    }
  }

  lemma CallIsMade(made: seq<Outgoing>, call: Outgoing, more: seq<Outgoing>, rest: seq<Outgoing>)
    ensures made + ([call] + more + rest) == made + [call] + (more + rest)
  {
  }

  lemma DeliverMakesCall(y: System)
    requires y.s.underlying != [] && y.s.underlying[0].Deliver? && y.s.underlying[0].streams != []
    ensures AllCalls(RunHead(y)) == AllCalls(y)
  {
    var data, streams, rest := y.s.underlying[0].data, y.s.underlying[0].streams, y.s.underlying[1..];
    FlattenHead(Deliver(data, streams[1..]), rest, Calls);
    CallIsMade(y.delivered, Outgoing(streams[0], data), Each(streams[1..], data), Flatten(rest, Calls));
  }

  lemma NoCallToMake(q: seq<Work>, w: Work)
    requires q != [] && Calls(q[0]) == [] && Calls(w) == []
    ensures Flatten(q[1..], Calls) == Flatten(q, Calls) == Flatten([w] + q[1..], Calls)
  {
    FlattenHead(w, q[1..], Calls);
    assert [] + Flatten(q[1..], Calls) == Flatten(q[1..], Calls);
  }

  lemma RunHeadKeepsCalls(y: System)
    requires y.s.underlying != []
    ensures AllCalls(RunHead(y)) == AllCalls(y)
  {
    var w := y.s.underlying[0];
    if w.Deliver? && w.streams != [] {
      DeliverMakesCall(y);
    } else {
      NoCallToMake(y.s.underlying, if w.Release? && w.events != [] then Release(w.events[1..]) else w);
    }
  }

  /** A stream that is among these once is called once. */
  lemma {:induction false} CalledOnce(streams: seq<Id>, data: Data, id: Id)
    requires Count(streams, id) <= 1
    ensures For(Each(streams, data), id) == if Count(streams, id) == 1 then [data] else []
  {
    if streams == [] {
    } else {
      CalledOnce(streams[1..], data, id);
      FlattenHead(Outgoing(streams[0], data), Each(streams[1..], data), Part(id));
    }
  }

  function ReceivedNow(a: Action, added: bool): seq<Data>
  {
    if a.Receive? && added then [a.data] else []
  }

  lemma ReceiveCallsStream(y: System, data: Data, id: Id)
    requires Count(y.s.streams, id) == if id in y.added then 1 else 0
    ensures For(AllCalls(Do(y, Receive(data))), id) == For(AllCalls(y), id) + ReceivedNow(Receive(data), id in y.added)
  {
    StepKeepsCalls(y, Receive(data));
    FlattenConcat(AllCalls(y), Each(y.s.streams, data), Part(id));
    CalledOnce(y.s.streams, data, id);
  }

  lemma StepCallsStream(y: System, a: Action, id: Id)
    requires Enabled(y, a) && Count(y.s.streams, id) == if id in y.added then 1 else 0
    ensures For(AllCalls(Do(y, a)), id) == For(AllCalls(y), id) + ReceivedNow(a, id in y.added)
  {
    if a.Receive? {
      ReceiveCallsStream(y, a.data, id);
    } else {
      StepKeepsCalls(y, a);
      Appended(For(AllCalls(y), id), [], []);
    }
  }

  lemma StepKeepsStreams(y: System, a: Action, id: Id)
    requires Enabled(y, a) && Count(y.s.streams, id) == if id in y.added then 1 else 0
    ensures Count(Do(y, a).s.streams, id) == if id in Do(y, a).added then 1 else 0
    ensures id in Do(y, a).added <==> id in y.added || a == AddStream(id)
  {
    if a.AddStream? {
      CountLast(y.s.streams, a.id, id);
    }
  }

  lemma Appended(before: seq<Data>, now: seq<Data>, later: seq<Data>)
    ensures before + now + later == before + (now + later)
    ensures before + [] == before && [] + later == later
  {
  }

  lemma ReceivedFirst(actions: seq<Action>, id: Id, added: bool)
    requires actions != []
    ensures ReceivedSince(actions, id, added)
      == ReceivedNow(actions[0], added) + ReceivedSince(actions[1..], id, added || actions[0] == AddStream(id))
  {
    Appended([], [], ReceivedSince(actions[1..], id, added || actions[0] == AddStream(id)));
  }

  lemma {:induction false} RunKeepsCalls(y: System, actions: seq<Action>, id: Id)
    requires IsRun(y, actions) && Count(y.s.streams, id) == if id in y.added then 1 else 0
    ensures For(AllCalls(After(y, actions)), id)
      == For(AllCalls(y), id) + ReceivedSince(actions, id, id in y.added)
    decreases |actions|
  {
    var before := For(AllCalls(y), id);
    if actions == [] {
      Appended(before, [], []);
    } else {
      var z := Do(y, actions[0]);
      StepCallsStream(y, actions[0], id);
      StepKeepsStreams(y, actions[0], id);
      RunKeepsCalls(z, actions[1..], id);
      ReceivedFirst(actions, id, id in y.added);
      Appended(before, ReceivedNow(actions[0], id in y.added), ReceivedSince(actions[1..], id, id in z.added));
    }
  }

  /** In every reachable state each stream has been called, in order of reception and once each, with the data received
      since it was added, but for what closures on the underlying queue are still to call it with. */
  lemma StreamsGetTheirData(actions: seq<Action>, id: Id)
    requires IsRun(START, actions)
    ensures var y := After(START, actions);
      For(y.delivered, id) + For(Flatten(y.s.underlying, Calls), id) == ReceivedSince(actions, id, false)
  {
    RunKeepsCalls(START, actions, id);
    var y := After(START, actions);
    FlattenConcat(y.delivered, Flatten(y.s.underlying, Calls), Part(id));
  }
}

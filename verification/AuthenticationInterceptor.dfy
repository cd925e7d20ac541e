/** Alamofire's AuthenticationInterceptor: the state behind its lock, the closures it leaves on its serial queue, and
    all runs of calls, queued work and authenticator answers. A locked block is one step; a closure that goes through
    a batch takes one step per entry. Completions and requests are identified by numbers. */
module AuthenticationInterceptor {
  import opened Bits
  import opened Sequences

  type Id = nat

  /** A credential with its requiresRefresh. */
  datatype Credential = Credential(token: nat, requiresRefresh: bool)

  datatype AuthError = MissingCredential | ExcessiveRefresh | RefreshFailed(code: nat)

  /** RefreshWindow. */
  datatype RefreshWindow = RefreshWindow(interval: real, maximumAttempts: int)

  /** A closure on the serial queue. */
  datatype Work =
    | CallRefresh(credential: Credential)
    | Succeeded(adapts: seq<Id>, retries: seq<Id>)
    | Failed(error: AuthError, adapts: seq<Id>, retries: seq<Id>)

  /** MutableState, with the queue its locked blocks append to. */
  datatype State = State(
    credential: Option<Credential>,
    isRefreshing: bool,
    refreshTimestamps: seq<real>,
    refreshWindow: Option<RefreshWindow>,
    adaptOperations: seq<Id>,
    requestsToRetry: seq<Id>,
    queue: seq<Work>)

  /** What adapt does once it has left the lock. */
  datatype AdaptResult = Adapt(credential: Credential) | DoNotAdapt(error: AuthError) | AdaptDeferred

  // ---------------------------------------------------------------- the locked blocks as functions

  /** How many of the timestamps are at or after the given time. */
  function CountFrom(ts: seq<real>, from: real): nat
  {
    if ts == [] then 0
    else CountFrom(ts[..|ts| - 1], from) + (if from <= ts[|ts| - 1] then 1 else 0)
  }

  /** The recorded refreshes at or after the given time. */
  function Recorded(ts: seq<real>, from: real): set<nat>
  {
    set i: nat | i < |ts| && from <= ts[i]
  }

  lemma {:induction false} CountIsExact(ts: seq<real>, from: real)
    ensures CountFrom(ts, from) == |Recorded(ts, from)|
    decreases |ts|
  {
    if ts == [] {
      assert Recorded(ts, from) == {};
    } else {
      var n := |ts| - 1;
      CountIsExact(ts[..n], from);
      assert Recorded(ts, from) == Recorded(ts[..n], from) + (if from <= ts[n] then {n} else {});
      assert n !in Recorded(ts[..n], from);
    }
  }

  predicate Excessive(s: State, now: real)
  {
    s.refreshWindow.Some? &&
    CountFrom(s.refreshTimestamps, now - s.refreshWindow.value.interval) >= s.refreshWindow.value.maximumAttempts
  }

  function RefreshDone(s: State, work: Work): State
  {
    s.(adaptOperations := [], requestsToRetry := [], isRefreshing := false, queue := s.queue + [work])
  }

  function OnFailure(s: State, error: AuthError): State
  {
    RefreshDone(s, Failed(error, s.adaptOperations, s.requestsToRetry))
  }

  function OnSuccess(s: State, credential: Credential): State
  {
    RefreshDone(s.(credential := Some(credential)), Succeeded(s.adaptOperations, s.requestsToRetry))
  }

  /** refresh: the check and the recording read the clock one after the other. */
  function OnRefresh(s: State, credential: Credential, checked: real, recorded: real): State
  {
    if Excessive(s, checked) then OnFailure(s, ExcessiveRefresh)
    else s.(refreshTimestamps := s.refreshTimestamps + [recorded], isRefreshing := true,
            queue := s.queue + [CallRefresh(credential)])
  }

  function OnAdapt(s: State, id: Id, checked: real, recorded: real): (State, AdaptResult)
  {
    var waiting := s.(adaptOperations := s.adaptOperations + [id]);
    if s.isRefreshing then (waiting, AdaptDeferred)
    else if s.credential.None? then (s, DoNotAdapt(MissingCredential))
    else if s.credential.value.requiresRefresh
    then (OnRefresh(waiting, s.credential.value, checked, recorded), AdaptDeferred)
    else (s, Adapt(s.credential.value))
  }

  /** The locked block of retry, with the credential that was read before it. */
  function OnRetry(s: State, id: Id, credential: Credential, checked: real, recorded: real): State
  {
    var waiting := s.(requestsToRetry := s.requestsToRetry + [id]);
    if s.isRefreshing then waiting else OnRefresh(waiting, credential, checked, recorded)
  }

  // ---------------------------------------------------------------- the class

  class Interceptor {
    var credential: Option<Credential>
    var isRefreshing: bool
    var refreshTimestamps: seq<real>
    const refreshWindow: Option<RefreshWindow>
    var adaptOperations: seq<Id>
    var requestsToRetry: seq<Id>
    var queue: seq<Work>

    ghost function Snap(): State
      reads this
    {
      State(credential, isRefreshing, refreshTimestamps, refreshWindow, adaptOperations, requestsToRetry, queue)
    }

    constructor (credential: Option<Credential>, refreshWindow: Option<RefreshWindow>)
      ensures Snap() == State(credential, false, [], refreshWindow, [], [], [])
    {
      this.credential, this.refreshWindow := credential, refreshWindow;
      isRefreshing, refreshTimestamps, adaptOperations, requestsToRetry, queue := false, [], [], [], [];
    }

    /** As many recorded refreshes as the window allows lie in the one that ends now. */
    ghost predicate TooMany(timestamps: seq<real>, now: real)
    {
      refreshWindow.Some? &&
      |Recorded(timestamps, now - refreshWindow.value.interval)| >= refreshWindow.value.maximumAttempts
    }

    /** isRefreshExcessive: counts the timestamps inside the window that ends now. */
    method IsRefreshExcessive(now: real) returns (excessive: bool)
      ensures excessive == Excessive(Snap(), now)
      ensures excessive <==> TooMany(refreshTimestamps, now)
    {
      if refreshWindow.None? {
        return false;
      }
      var refreshWindowMin := now - refreshWindow.value.interval;
      var attempts := 0;
      for i := 0 to |refreshTimestamps|
        invariant attempts == CountFrom(refreshTimestamps[..i], refreshWindowMin)
      {
        assert refreshTimestamps[..i + 1][..i] == refreshTimestamps[..i];
        if refreshWindowMin <= refreshTimestamps[i] {
          attempts := attempts + 1;
        }
      }
      assert refreshTimestamps[..|refreshTimestamps|] == refreshTimestamps;
      CountIsExact(refreshTimestamps, refreshWindowMin);
      return attempts >= refreshWindow.value.maximumAttempts;
    }

    /** handleRefreshFailure. */
    method HandleRefreshFailure(error: AuthError)
      modifies this
      ensures Snap() == OnFailure(old(Snap()), error)
      ensures queue == old(queue) + [Failed(error, old(adaptOperations), old(requestsToRetry))]
      ensures adaptOperations == [] && requestsToRetry == [] && !isRefreshing
      ensures credential == old(credential) && refreshTimestamps == old(refreshTimestamps)
    {
      var adapts, retries := adaptOperations, requestsToRetry;
      adaptOperations, requestsToRetry := [], [];
      isRefreshing := false;
      queue := queue + [Failed(error, adapts, retries)];
    }

    /** handleRefreshSuccess. */
    method HandleRefreshSuccess(credential: Credential)
      modifies this
      ensures Snap() == OnSuccess(old(Snap()), credential)
      ensures queue == old(queue) + [Succeeded(old(adaptOperations), old(requestsToRetry))]
      ensures adaptOperations == [] && requestsToRetry == [] && !isRefreshing
      ensures this.credential == Some(credential) && refreshTimestamps == old(refreshTimestamps)
    {
      this.credential := Some(credential);
      var adapts, retries := adaptOperations, requestsToRetry;
      adaptOperations, requestsToRetry := [], [];
      isRefreshing := false;
      queue := queue + [Succeeded(adapts, retries)];
    }

    /** refresh. */
    method Refresh(credential: Credential, checked: real, recorded: real)
      modifies this
      ensures Snap() == OnRefresh(old(Snap()), credential, checked, recorded)
      ensures TooMany(old(refreshTimestamps), checked) ==>
        && !isRefreshing && refreshTimestamps == old(refreshTimestamps)
        && queue == old(queue) + [Failed(ExcessiveRefresh, old(adaptOperations), old(requestsToRetry))]
      ensures !TooMany(old(refreshTimestamps), checked) ==>
        && isRefreshing && refreshTimestamps == old(refreshTimestamps) + [recorded]
        && queue == old(queue) + [CallRefresh(credential)]
        && adaptOperations == old(adaptOperations) && requestsToRetry == old(requestsToRetry)
      ensures this.credential == old(this.credential)
    {
      var excessive := IsRefreshExcessive(checked);
      if excessive {
        HandleRefreshFailure(ExcessiveRefresh);
        return;
      }
      refreshTimestamps := refreshTimestamps + [recorded];
      isRefreshing := true;
      queue := queue + [CallRefresh(credential)];
    }

    /** The locked block of adapt. */
    method AdaptLocked(id: Id, checked: real, recorded: real) returns (result: AdaptResult)
      modifies this
      ensures (Snap(), result) == OnAdapt(old(Snap()), id, checked, recorded)
      ensures credential == old(credential)
      ensures old(isRefreshing) ==>
        result == AdaptDeferred && adaptOperations == old(adaptOperations) + [id] && queue == old(queue)
      ensures !old(isRefreshing) && credential.None? ==>
        result == DoNotAdapt(MissingCredential) && adaptOperations == old(adaptOperations) && queue == old(queue)
      ensures !old(isRefreshing) && credential.Some? && !credential.value.requiresRefresh ==>
        result == Adapt(credential.value) && adaptOperations == old(adaptOperations) && queue == old(queue)
      ensures !old(isRefreshing) && credential.Some? && credential.value.requiresRefresh ==>
        && result == AdaptDeferred
        && (TooMany(old(refreshTimestamps), checked) ==>
              queue == old(queue)
                + [Failed(ExcessiveRefresh, old(adaptOperations) + [id], old(requestsToRetry))])
        && (!TooMany(old(refreshTimestamps), checked) ==>
              adaptOperations == old(adaptOperations) + [id] && queue == old(queue) + [CallRefresh(credential.value)])
    {
      if isRefreshing {
        adaptOperations := adaptOperations + [id];
        return AdaptDeferred;
      }
      if credential.None? {
        return DoNotAdapt(MissingCredential);
      }
      if credential.value.requiresRefresh {
        adaptOperations := adaptOperations + [id];
        Refresh(credential.value, checked, recorded);
        return AdaptDeferred;
      }
      return Adapt(credential.value);
    }

    /** The locked block of retry. */
    method RetryLocked(id: Id, credential: Credential, checked: real, recorded: real)
      modifies this
      ensures Snap() == OnRetry(old(Snap()), id, credential, checked, recorded)
      ensures old(isRefreshing) ==> requestsToRetry == old(requestsToRetry) + [id] && queue == old(queue)
      ensures !old(isRefreshing) && TooMany(old(refreshTimestamps), checked) ==>
        queue == old(queue) + [Failed(ExcessiveRefresh, old(adaptOperations), old(requestsToRetry) + [id])]
      ensures !old(isRefreshing) && !TooMany(old(refreshTimestamps), checked) ==>
        requestsToRetry == old(requestsToRetry) + [id] && queue == old(queue) + [CallRefresh(credential)]
    {
      requestsToRetry := requestsToRetry + [id];
      if isRefreshing {
        return;
      }
      Refresh(credential, checked, recorded);
    }
  }

  // ---------------------------------------------------------------- runs

  /** What a completion is called with. */
  datatype Outcome =
    | Authenticated(credential: Credential)
    | NotAuthenticated(error: AuthError)
    | Retry
    | DoNotRetry
    | DoNotRetryWithError(error: AuthError)

  /** How retry judges a request before it takes the lock: not an authentication failure, authenticated with an older
      credential, or authenticated with the current one. */
  datatype Verdict = NotAuthenticationError | OlderCredential | CurrentCredential

  /** The whole system: the interceptor, adapt calls about to call their completion, retry calls between reading the
      credential and taking the lock, refreshes the authenticator has not answered, and the completions called. */
  datatype System = System(
    state: State,
    replies: seq<(Id, Outcome)>,
    retrying: seq<(Id, Credential)>,
    refreshing: seq<Credential>,
    called: seq<(Id, Outcome)>,
    issued: set<Id>)

  datatype Action =
    | CallAdapt(id: Id, checked: real, recorded: real)
    | Reply(i: nat)
    | CallRetry(id: Id, verdict: Verdict)
    | LockRetry(i: nat, checked: real, recorded: real)
    | SetCredential(credential: Option<Credential>)
    | RunQueue(checked: real, recorded: real)
    | AnswerSuccess(i: nat, newCredential: Credential)
    | AnswerFailure(i: nat, error: AuthError)

  /** Ids are new, indices in range, and the clock does not run backwards between its two readings. */
  predicate Enabled(s: System, a: Action)
  {
    match a
    case CallAdapt(id, checked, recorded) => id !in s.issued && checked <= recorded
    case Reply(i) => i < |s.replies|
    case CallRetry(id, _) => id !in s.issued
    case LockRetry(i, checked, recorded) => i < |s.retrying| && checked <= recorded
    case SetCredential(_) => true
    case RunQueue(checked, recorded) => s.state.queue != [] && checked <= recorded
    case AnswerSuccess(i, _) => i < |s.refreshing|
    case AnswerFailure(i, _) => i < |s.refreshing|
  }

  /** The locked block of adapt; a call that is not deferred then holds its completion. */
  function DoAdapt(s: System, id: Id, checked: real, recorded: real): System
  {
    var (state, result) := OnAdapt(s.state, id, checked, recorded);
    match result
    case Adapt(c) => s.(state := state, replies := s.replies + [(id, Authenticated(c))])
    case DoNotAdapt(e) => s.(state := state, replies := s.replies + [(id, NotAuthenticated(e))])
    case AdaptDeferred => s.(state := state)
  }

  function Call(s: System, id: Id, outcome: Outcome): System
  {
    s.(called := s.called + [(id, outcome)])
  }

  /** retry up to its lock. */
  function DoRetry(s: System, id: Id, verdict: Verdict): System
  {
    if verdict.NotAuthenticationError? then Call(s, id, DoNotRetry)
    else if s.state.credential.None? then Call(s, id, DoNotRetryWithError(MissingCredential))
    else if verdict.OlderCredential? then Call(s, id, Retry)
    else s.(retrying := s.retrying + [(id, s.state.credential.value)])
  }

  function SetHead(s: System, work: Work): System
    requires s.state.queue != []
  {
    s.(state := s.state.(queue := [work] + s.state.queue[1..]))
  }

  /** One step of the closure at the head of the queue. */
  function RunHead(s: System, checked: real, recorded: real): System
    requires s.state.queue != []
  {
    var popped := s.(state := s.state.(queue := s.state.queue[1..]));
    match s.state.queue[0]
    case CallRefresh(c) => popped.(refreshing := s.refreshing + [c])
    case Succeeded(adapts, retries) =>
      if adapts != [] then DoAdapt(SetHead(s, Succeeded(adapts[1..], retries)), adapts[0], checked, recorded)
      else if retries != [] then Call(SetHead(s, Succeeded([], retries[1..])), retries[0], Retry)
      else popped
    case Failed(e, adapts, retries) =>
      if adapts != [] then Call(SetHead(s, Failed(e, adapts[1..], retries)), adapts[0], NotAuthenticated(e))
      else if retries != [] then Call(SetHead(s, Failed(e, [], retries[1..])), retries[0], DoNotRetryWithError(e))
      else popped
  }

  function Do(s: System, a: Action): System
    requires Enabled(s, a)
  {
    match a
    case CallAdapt(id, checked, recorded) => DoAdapt(s.(issued := s.issued + {id}), id, checked, recorded)
    case Reply(i) => Call(s.(replies := Without(s.replies, i)), s.replies[i].0, s.replies[i].1)
    case CallRetry(id, verdict) => DoRetry(s.(issued := s.issued + {id}), id, verdict)
    case LockRetry(i, checked, recorded) =>
      s.(retrying := Without(s.retrying, i),
         state := OnRetry(s.state, s.retrying[i].0, s.retrying[i].1, checked, recorded))
    case SetCredential(c) => s.(state := s.state.(credential := c))
    case RunQueue(checked, recorded) => RunHead(s, checked, recorded)
    case AnswerSuccess(i, c) => s.(refreshing := Without(s.refreshing, i), state := OnSuccess(s.state, c))
    case AnswerFailure(i, e) => s.(refreshing := Without(s.refreshing, i), state := OnFailure(s.state, e))
  }

  function Initial(credential: Option<Credential>, window: Option<RefreshWindow>): System
  {
    System(State(credential, false, [], window, [], [], []), [], [], [], [], {})
  }

  /** A run: every action is enabled when its turn comes. */
  predicate IsRun(s: System, actions: seq<Action>)
    decreases |actions|
  {
    actions == [] || (Enabled(s, actions[0]) && IsRun(Do(s, actions[0]), actions[1..]))
  }

  function After(s: System, actions: seq<Action>): System
    requires IsRun(s, actions)
    decreases |actions|
  {
    if actions == [] then s else After(Do(s, actions[0]), actions[1..])
  }

  // ---------------------------------------------------------------- where a completion is

  function CountPairs<T>(s: seq<(Id, T)>, id: Id): nat
    decreases |s|
  {
    if s == [] then 0 else CountPairs(s[..|s| - 1], id) + (if s[|s| - 1].0 == id then 1 else 0)
  }

  /** The completions of a batch. */
  function Completions(w: Work): seq<Id>
  {
    match w
    case CallRefresh(_) => []
    case Succeeded(adapts, retries) => adapts + retries
    case Failed(_, adapts, retries) => adapts + retries
  }

  function InQueue(q: seq<Work>, id: Id): nat
  {
    Count(Flatten(q, Completions), id)
  }

  function Waiting(s: State, id: Id): nat
  {
    Count(s.adaptOperations, id) + Count(s.requestsToRetry, id)
  }

  /** How often a completion occurs in all the places it can be: waiting, in a queued batch, with an adapt or retry call
      that is running, or called. */
  function Places(s: System, id: Id): nat
  {
    Waiting(s.state, id) + InQueue(s.state.queue, id) + CountPairs(s.replies, id) + CountPairs(s.retrying, id)
      + CountPairs(s.called, id)
  }

  lemma InQueueAppend(q: seq<Work>, w: Work, id: Id)
    ensures InQueue(q + [w], id) == InQueue(q, id) + Count(Completions(w), id)
  {
    FlattenAppend(q, w, Completions);
    CountConcat(Flatten(q, Completions), Completions(w), id);
  }

  lemma InQueueHead(w: Work, rest: seq<Work>, id: Id)
    ensures InQueue([w] + rest, id) == Count(Completions(w), id) + InQueue(rest, id)
  {
    FlattenHead(w, rest, Completions);
    CountConcat(Completions(w), Flatten(rest, Completions), id);
  }

  lemma {:induction false} PairsWithout<T>(s: seq<(Id, T)>, i: nat, id: Id)
    requires i < |s|
    ensures CountPairs(s, id) == CountPairs(Without(s, i), id) + (if s[i].0 == id then 1 else 0)
    decreases |s|
  {
    var n := |s| - 1;
    if i == n {
      assert Without(s, i) == s[..n];
    } else {
      PairsWithout(s[..n], i, id);
      assert Without(s, i)[..n - 1] == Without(s[..n], i);
    }
  }

  lemma PairsAppend<T>(s: seq<(Id, T)>, x: (Id, T), id: Id)
    ensures CountPairs(s + [x], id) == CountPairs(s, id) + (if x.0 == id then 1 else 0)
  {
    assert (s + [x])[..|s|] == s;
  }

  // -------------------------------------------------- each step moves completions, and only introduces new ones

  function Kept(s: State, id: Id): nat
  {
    Waiting(s, id) + InQueue(s.queue, id)
  }

  lemma DoneBalance(s: State, batch: Work, id: Id)
    requires Completions(batch) == s.adaptOperations + s.requestsToRetry
    ensures Kept(RefreshDone(s, batch), id) == Kept(s, id)
  {
    InQueueAppend(s.queue, batch, id);
    CountConcat(s.adaptOperations, s.requestsToRetry, id);
  }

  lemma RefreshBalance(s: State, c: Credential, checked: real, recorded: real, id: Id)
    ensures Kept(OnRefresh(s, c, checked, recorded), id) == Kept(s, id)
  {
    InQueueAppend(s.queue, CallRefresh(c), id);
    DoneBalance(s, Failed(ExcessiveRefresh, s.adaptOperations, s.requestsToRetry), id);
  }

  lemma AdaptBalance(s: System, x: Id, checked: real, recorded: real, id: Id)
    ensures Places(DoAdapt(s, x, checked, recorded), id) == Places(s, id) + (if x == id then 1 else 0)
  {
    CountLast(s.state.adaptOperations, x, id);
    var waiting := s.state.(adaptOperations := s.state.adaptOperations + [x]);
    if s.state.credential.Some? {
      RefreshBalance(waiting, s.state.credential.value, checked, recorded, id);
      PairsAppend(s.replies, (x, Authenticated(s.state.credential.value)), id);
    }
    PairsAppend(s.replies, (x, NotAuthenticated(MissingCredential)), id);
  }

  lemma CallBalance(s: System, x: Id, outcome: Outcome, id: Id)
    ensures Places(Call(s, x, outcome), id) == Places(s, id) + (if x == id then 1 else 0)
  {
    PairsAppend(s.called, (x, outcome), id);
  }

  lemma ReplyBalance(s: System, i: nat, id: Id)
    requires i < |s.replies|
    ensures Places(Do(s, Reply(i)), id) == Places(s, id)
  {
    PairsWithout(s.replies, i, id);
    CallBalance(s.(replies := Without(s.replies, i)), s.replies[i].0, s.replies[i].1, id);
  }

  lemma RetryBalance(s: System, x: Id, verdict: Verdict, id: Id)
    ensures Places(DoRetry(s, x, verdict), id) == Places(s, id) + (if x == id then 1 else 0)
  {
    CallBalance(s, x, DoNotRetry, id);
    CallBalance(s, x, DoNotRetryWithError(MissingCredential), id);
    CallBalance(s, x, Retry, id);
    if s.state.credential.Some? {
      PairsAppend(s.retrying, (x, s.state.credential.value), id);
    }
  }

  lemma LockRetryBalance(s: System, i: nat, checked: real, recorded: real, id: Id)
    requires i < |s.retrying| && checked <= recorded
    ensures Places(Do(s, LockRetry(i, checked, recorded)), id) == Places(s, id)
  {
    var (x, c) := s.retrying[i];
    PairsWithout(s.retrying, i, id);
    CountLast(s.state.requestsToRetry, x, id);
    RefreshBalance(s.state.(requestsToRetry := s.state.requestsToRetry + [x]), c, checked, recorded, id);
  }

  /** The head of the queue exchanged, or taken away. */
  lemma HeadBalance(s: System, work: Work, id: Id)
    requires s.state.queue != []
    ensures Places(SetHead(s, work), id) + Count(Completions(s.state.queue[0]), id)
      == Places(s, id) + Count(Completions(work), id)
    ensures InQueue(s.state.queue, id) == Count(Completions(s.state.queue[0]), id) + InQueue(s.state.queue[1..], id)
  {
    var rest := s.state.queue[1..];
    assert s.state.queue == [s.state.queue[0]] + rest;
    InQueueHead(s.state.queue[0], rest, id);
    InQueueHead(work, rest, id);
  }

  /** The batch without its first entry. */
  function Shorter(w: Work): Work
    requires Completions(w) != []
  {
    match w
    case Succeeded(adapts, retries) =>
      if adapts != [] then Succeeded(adapts[1..], retries) else Succeeded([], retries[1..])
    case Failed(e, adapts, retries) =>
      if adapts != [] then Failed(e, adapts[1..], retries) else Failed(e, [], retries[1..])
  }

  lemma ShorterBalance(w: Work, id: Id)
    requires Completions(w) != []
    ensures Completions(w) == [Completions(w)[0]] + Completions(Shorter(w))
    ensures Count(Completions(w), id)
      == (if Completions(w)[0] == id then 1 else 0) + Count(Completions(Shorter(w)), id)
  {
    assert Completions(w)[1..] == Completions(Shorter(w));
  }

  lemma RunHeadBalance(s: System, checked: real, recorded: real, id: Id)
    requires s.state.queue != []
    ensures Places(RunHead(s, checked, recorded), id) == Places(s, id)
  {
    var work := s.state.queue[0];
    if Completions(work) == [] {
      HeadBalance(s, work, id);
    } else {
      var t, x := SetHead(s, Shorter(work)), Completions(work)[0];
      ShorterBalance(work, id);
      HeadBalance(s, Shorter(work), id);
      match work {
        case Succeeded(adapts, retries) =>
          AdaptBalance(t, x, checked, recorded, id);
          CallBalance(t, x, Retry, id);
        case Failed(e, adapts, retries) =>
          CallBalance(t, x, NotAuthenticated(e), id);
          CallBalance(t, x, DoNotRetryWithError(e), id);
      }
    }
  }

  /** The completion an action introduces. */
  predicate Introduces(a: Action, id: Id)
  {
    (a.CallAdapt? || a.CallRetry?) && a.id == id
  }

  /** Every step leaves every completion in as many places as before, except the one it introduces. */
  lemma StepBalance(s: System, a: Action, id: Id)
    requires Enabled(s, a)
    ensures Places(Do(s, a), id) == Places(s, id) + (if Introduces(a, id) then 1 else 0)
    ensures id in Do(s, a).issued <==> id in s.issued || Introduces(a, id)
  {
    match a {
      case CallAdapt(x, checked, recorded) => AdaptBalance(s.(issued := s.issued + {x}), x, checked, recorded, id);
      case Reply(i) => ReplyBalance(s, i, id);
      case CallRetry(x, verdict) => RetryBalance(s.(issued := s.issued + {x}), x, verdict, id);
      case LockRetry(i, checked, recorded) => LockRetryBalance(s, i, checked, recorded, id);
      case SetCredential(_) =>
      case RunQueue(checked, recorded) => RunHeadBalance(s, checked, recorded, id);
      case AnswerSuccess(i, c) =>
        var renewed := s.state.(credential := Some(c));
        DoneBalance(renewed, Succeeded(s.state.adaptOperations, s.state.requestsToRetry), id);
      case AnswerFailure(i, e) =>
        DoneBalance(s.state, Failed(e, s.state.adaptOperations, s.state.requestsToRetry), id);
    }
  }

  lemma {:induction false} RunBalance(s: System, actions: seq<Action>, id: Id)
    requires IsRun(s, actions) && Places(s, id) == if id in s.issued then 1 else 0
    ensures Places(After(s, actions), id) == if id in After(s, actions).issued then 1 else 0
    decreases |actions|
  {
    if actions == [] {
    } else {
      StepBalance(s, actions[0], id);
      RunBalance(Do(s, actions[0]), actions[1..], id);
    }
  }

  /** Conservation: in every reachable state the completion of each adapt or retry call so far is in exactly one place,
      and no other completion is anywhere. In particular none is called twice. */
  lemma CompletionsAreConserved(credential: Option<Credential>, window: Option<RefreshWindow>, actions: seq<Action>,
        id: Id)
    requires IsRun(Initial(credential, window), actions)
    ensures var s := After(Initial(credential, window), actions);
      Places(s, id) == if id in s.issued then 1 else 0
  {
    RunBalance(Initial(credential, window), actions, id);
  }

  // ---------------------------------------------------------------- one refresh at a time

  function Refreshes(w: Work): seq<Credential>
  {
    if w.CallRefresh? then [w.credential] else []
  }

  function RefreshCalls(q: seq<Work>): nat
  {
    |Flatten(q, Refreshes)|
  }

  /** Refreshes that are queued or not yet answered. */
  function InFlight(s: System): nat
  {
    RefreshCalls(s.state.queue) + |s.refreshing|
  }

  /** isRefreshing says that one refresh is in flight, and only then do completions wait. */
  predicate Exclusive(s: System)
  {
    && InFlight(s) == (if s.state.isRefreshing then 1 else 0)
    && (s.state.adaptOperations != [] || s.state.requestsToRetry != [] ==> s.state.isRefreshing)
  }

  lemma RefreshIsExclusive(s: System, waiting: State, c: Credential, checked: real, recorded: real)
    requires Exclusive(s) && !s.state.isRefreshing && waiting.queue == s.state.queue && !waiting.isRefreshing
    ensures Exclusive(s.(state := OnRefresh(waiting, c, checked, recorded)))
  {
    FlattenAppend(s.state.queue, CallRefresh(c), Refreshes);
    FlattenAppend(s.state.queue, Failed(ExcessiveRefresh, waiting.adaptOperations, waiting.requestsToRetry), Refreshes);
  }

  lemma AdaptIsExclusive(s: System, id: Id, checked: real, recorded: real)
    requires Exclusive(s)
    ensures Exclusive(DoAdapt(s, id, checked, recorded))
  {
    if !s.state.isRefreshing && s.state.credential.Some? {
      RefreshIsExclusive(s, s.state.(adaptOperations := s.state.adaptOperations + [id]), s.state.credential.value,
        checked, recorded);
    }
  }

  lemma SetHeadIsExclusive(s: System, work: Work)
    requires Exclusive(s) && s.state.queue != [] && !s.state.queue[0].CallRefresh? && !work.CallRefresh?
    ensures Exclusive(SetHead(s, work))
  {
    assert ([work] + s.state.queue[1..])[1..] == s.state.queue[1..];
  }

  lemma RunHeadIsExclusive(s: System, checked: real, recorded: real)
    requires Exclusive(s) && s.state.queue != []
    ensures Exclusive(RunHead(s, checked, recorded))
  {
    match s.state.queue[0] {
      case CallRefresh(c) =>
      case Succeeded(adapts, retries) =>
        if adapts != [] {
          SetHeadIsExclusive(s, Succeeded(adapts[1..], retries));
          AdaptIsExclusive(SetHead(s, Succeeded(adapts[1..], retries)), adapts[0], checked, recorded);
        } else if retries != [] {
          SetHeadIsExclusive(s, Succeeded([], retries[1..]));
        }
      case Failed(e, adapts, retries) =>
        if adapts != [] {
          SetHeadIsExclusive(s, Failed(e, adapts[1..], retries));
        } else if retries != [] {
          SetHeadIsExclusive(s, Failed(e, [], retries[1..]));
        }
    }
  }

  lemma StepIsExclusive(s: System, a: Action)
    requires Exclusive(s) && Enabled(s, a)
    ensures Exclusive(Do(s, a))
  {
    match a {
      case CallAdapt(x, checked, recorded) => AdaptIsExclusive(s.(issued := s.issued + {x}), x, checked, recorded);
      case LockRetry(i, checked, recorded) =>
        var (x, c) := s.retrying[i];
        if !s.state.isRefreshing {
          RefreshIsExclusive(s, s.state.(requestsToRetry := s.state.requestsToRetry + [x]), c, checked, recorded);
        }
      case RunQueue(checked, recorded) => RunHeadIsExclusive(s, checked, recorded);
      case AnswerSuccess(i, c) =>
        FlattenAppend(s.state.queue, Succeeded(s.state.adaptOperations, s.state.requestsToRetry), Refreshes);
      case AnswerFailure(i, e) =>
        FlattenAppend(s.state.queue, Failed(e, s.state.adaptOperations, s.state.requestsToRetry), Refreshes);
      case _ =>
    }
  }

  lemma {:induction false} RunIsExclusive(s: System, actions: seq<Action>)
    requires IsRun(s, actions) && Exclusive(s)
    ensures Exclusive(After(s, actions))
    decreases |actions|
  {
    if actions == [] {
    } else {
      StepIsExclusive(s, actions[0]);
      RunIsExclusive(Do(s, actions[0]), actions[1..]);
    }
  }

  /** Exclusivity: in every reachable state at most one refresh is queued or unanswered, isRefreshing holds exactly when
      there is one, and completions wait only then. */
  lemma OneRefreshAtATime(credential: Option<Credential>, window: Option<RefreshWindow>, actions: seq<Action>)
    requires IsRun(Initial(credential, window), actions)
    ensures var s := After(Initial(credential, window), actions);
      && InFlight(s) <= 1 && (s.state.isRefreshing <==> InFlight(s) == 1)
      && (s.state.adaptOperations != [] || s.state.requestsToRetry != [] ==> InFlight(s) == 1)
  {
    RunIsExclusive(Initial(credential, window), actions);
  }

  /** Nothing is lost: once no call is running, the queue is empty and every refresh is answered, every completion of a
      call so far has been called, exactly once. */
  lemma QuiescentMeansAllCalled(credential: Option<Credential>, window: Option<RefreshWindow>, actions: seq<Action>,
        id: Id)
    requires IsRun(Initial(credential, window), actions)
    requires var s := After(Initial(credential, window), actions);
      s.replies == [] && s.retrying == [] && s.refreshing == [] && s.state.queue == []
    ensures var s := After(Initial(credential, window), actions);
      CountPairs(s.called, id) == if id in s.issued then 1 else 0
  {
    RunIsExclusive(Initial(credential, window), actions);
    RunBalance(Initial(credential, window), actions, id);
  }

  // ---------------------------------------------------------------- the rate of refreshes

  function CountWithin(ts: seq<real>, from: real, to: real): nat
  {
    if ts == [] then 0
    else CountWithin(ts[..|ts| - 1], from, to) + (if from <= ts[|ts| - 1] <= to then 1 else 0)
  }

  /** The closed interval of the window's length that starts here holds at most maximumAttempts recorded refreshes. */
  predicate RateBounded(s: State, from: real)
  {
    s.refreshWindow.Some? ==>
      var w := s.refreshWindow.value;
      CountWithin(s.refreshTimestamps, from, from + w.interval)
        <= if w.maximumAttempts < 0 then 0 else w.maximumAttempts
  }

  lemma {:induction false} WithinIsFrom(ts: seq<real>, from: real, to: real, earlier: real)
    requires earlier <= from
    ensures CountWithin(ts, from, to) <= CountFrom(ts, earlier)
    decreases |ts|
  {
    if ts == [] {
    } else {
      WithinIsFrom(ts[..|ts| - 1], from, to, earlier);
    }
  }

  /** Recording a refresh that passed the check keeps the bound, also when the clock moved in between. */
  lemma RefreshKeepsRate(s: State, c: Credential, checked: real, recorded: real, from: real)
    requires RateBounded(s, from) && checked <= recorded
    ensures RateBounded(OnRefresh(s, c, checked, recorded), from)
  {
    if s.refreshWindow.Some? && !Excessive(s, checked) {
      var ts, w := s.refreshTimestamps, s.refreshWindow.value;
      assert (ts + [recorded])[..|ts|] == ts;
      if from <= recorded <= from + w.interval {
        WithinIsFrom(ts, from, from + w.interval, checked - w.interval);
      }
    }
  }

  lemma StepKeepsRate(s: System, a: Action, from: real)
    requires RateBounded(s.state, from) && Enabled(s, a)
    ensures RateBounded(Do(s, a).state, from) && Do(s, a).state.refreshWindow == s.state.refreshWindow
  {
    match a {
      case CallAdapt(x, checked, recorded) => AdaptKeepsRate(s.state, x, checked, recorded, from);
      case LockRetry(i, checked, recorded) =>
        var (x, c) := s.retrying[i];
        RefreshKeepsRate(s.state.(requestsToRetry := s.state.requestsToRetry + [x]), c, checked, recorded, from);
      case RunQueue(checked, recorded) =>
        var work := s.state.queue[0];
        if work.Succeeded? && work.adapts != [] {
          AdaptKeepsRate(SetHead(s, Succeeded(work.adapts[1..], work.retries)).state, work.adapts[0], checked,
            recorded, from);
        }
      case _ =>
    }
  }

  lemma AdaptKeepsRate(s: State, id: Id, checked: real, recorded: real, from: real)
    requires RateBounded(s, from) && checked <= recorded
    ensures RateBounded(OnAdapt(s, id, checked, recorded).0, from)
    ensures OnAdapt(s, id, checked, recorded).0.refreshWindow == s.refreshWindow
  {
    if s.credential.Some? {
      RefreshKeepsRate(s.(adaptOperations := s.adaptOperations + [id]), s.credential.value, checked, recorded, from);
    }
  }

  lemma {:induction false} RunKeepsRate(s: System, actions: seq<Action>, from: real)
    requires IsRun(s, actions) && RateBounded(s.state, from)
    ensures RateBounded(After(s, actions).state, from)
    ensures After(s, actions).state.refreshWindow == s.state.refreshWindow
    decreases |actions|
  {
    if actions == [] {
    } else {
      StepKeepsRate(s, actions[0], from);
      RunKeepsRate(Do(s, actions[0]), actions[1..], from);
    }
  }

  /** The rate bound: over any run with a refresh window, every closed time interval of its length holds at most
      maximumAttempts recorded refreshes. */
  lemma RefreshRateIsBounded(credential: Option<Credential>, window: RefreshWindow, actions: seq<Action>, from: real)
    requires IsRun(Initial(credential, Some(window)), actions)
    ensures var ts := After(Initial(credential, Some(window)), actions).state.refreshTimestamps;
      CountWithin(ts, from, from + window.interval) <= if window.maximumAttempts < 0 then 0 else window.maximumAttempts
  {
    RunKeepsRate(Initial(credential, Some(window)), actions, from);
  }

  /** The other half: with fewer recorded refreshes in the window that ends at the check than it allows, or without a
      window, the time is recorded and the authenticator is called; otherwise nothing is recorded and all waiting
      completions fail. */
  lemma RefreshStartsIff(s: State, c: Credential, checked: real, recorded: real)
    ensures var t, ts := OnRefresh(s, c, checked, recorded), s.refreshTimestamps;
      if s.refreshWindow.None?
         || |Recorded(ts, checked - s.refreshWindow.value.interval)| < s.refreshWindow.value.maximumAttempts
      then
        && t.isRefreshing && t.refreshTimestamps == s.refreshTimestamps + [recorded]
        && t.queue == s.queue + [CallRefresh(c)]
        && t.adaptOperations == s.adaptOperations && t.requestsToRetry == s.requestsToRetry
      else
        && !t.isRefreshing && t.refreshTimestamps == s.refreshTimestamps
        && t.queue == s.queue + [Failed(ExcessiveRefresh, s.adaptOperations, s.requestsToRetry)]
        && t.adaptOperations == [] && t.requestsToRetry == []
  {
    if s.refreshWindow.Some? {
      CountIsExact(s.refreshTimestamps, checked - s.refreshWindow.value.interval);
    }
  }

  // ---------------------------------------------------------------- what completions are called with

  predicate FreshOutcomes(pairs: seq<(Id, Outcome)>)
  {
    forall i :: 0 <= i < |pairs| && pairs[i].1.Authenticated? ==> !pairs[i].1.credential.requiresRefresh
  }

  lemma {:induction false} RunKeepsFresh(s: System, actions: seq<Action>)
    requires IsRun(s, actions) && FreshOutcomes(s.replies) && FreshOutcomes(s.called)
    ensures FreshOutcomes(After(s, actions).replies) && FreshOutcomes(After(s, actions).called)
    decreases |actions|
  {
    if actions == [] {
    } else {
      RunKeepsFresh(Do(s, actions[0]), actions[1..]);
    }
  }

  /** In every run no request is authenticated with a credential that requires a refresh. */
  lemma AuthenticatedIsFresh(credential: Option<Credential>, window: Option<RefreshWindow>, actions: seq<Action>)
    requires IsRun(Initial(credential, window), actions)
    ensures var s := After(Initial(credential, window), actions); FreshOutcomes(s.replies) && FreshOutcomes(s.called)
  {
    RunKeepsFresh(Initial(credential, window), actions);
  }

  /** A queued batch is to call the completion with the outcome. */
  predicate Gives(w: Work, id: Id, outcome: Outcome)
  {
    match w
    case CallRefresh(_) => false
    case Succeeded(_, retries) => id in retries && outcome == Retry
    case Failed(e, adapts, retries) =>
      (id in adapts && outcome == NotAuthenticated(e)) || (id in retries && outcome == DoNotRetryWithError(e))
  }

  predicate QueueGives(q: seq<Work>, id: Id, outcome: Outcome)
  {
    exists w :: w in q && Gives(w, id, outcome)
  }

  /** The completion has been called with the outcome, or is to be. */
  predicate Settled(s: System, id: Id, outcome: Outcome)
  {
    (id, outcome) in s.called || QueueGives(s.state.queue, id, outcome)
  }

  lemma AppendKeepsGives(q: seq<Work>, w: Work, id: Id, outcome: Outcome)
    ensures QueueGives(q + [w], id, outcome) <==> QueueGives(q, id, outcome) || Gives(w, id, outcome)
  {
    assert w in q + [w] && forall v :: v in q ==> v in q + [w];
  }

  lemma HeadGives(w: Work, rest: seq<Work>, id: Id, outcome: Outcome)
    ensures QueueGives([w] + rest, id, outcome) <==> Gives(w, id, outcome) || QueueGives(rest, id, outcome)
  {
    assert w in [w] + rest && forall v :: v in rest ==> v in [w] + rest;
  }

  lemma RefreshKeepsGives(s: State, c: Credential, checked: real, recorded: real, id: Id, outcome: Outcome)
    requires QueueGives(s.queue, id, outcome)
    ensures QueueGives(OnRefresh(s, c, checked, recorded).queue, id, outcome)
  {
    AppendKeepsGives(s.queue, CallRefresh(c), id, outcome);
    AppendKeepsGives(s.queue, Failed(ExcessiveRefresh, s.adaptOperations, s.requestsToRetry), id, outcome);
  }

  lemma AdaptKeepsSettled(s: System, x: Id, checked: real, recorded: real, id: Id, outcome: Outcome)
    requires Settled(s, id, outcome)
    ensures Settled(DoAdapt(s, x, checked, recorded), id, outcome)
  {
    var waiting := s.state.(adaptOperations := s.state.adaptOperations + [x]);
    if s.state.credential.Some? && (id, outcome) !in s.called {
      RefreshKeepsGives(waiting, s.state.credential.value, checked, recorded, id, outcome);
    }
  }

  lemma RunHeadKeepsSettled(s: System, checked: real, recorded: real, id: Id, outcome: Outcome)
    requires s.state.queue != [] && Settled(s, id, outcome)
    ensures Settled(RunHead(s, checked, recorded), id, outcome)
  {
    var work, rest := s.state.queue[0], s.state.queue[1..];
    assert s.state.queue == [work] + rest;
    HeadGives(work, rest, id, outcome);
    if Completions(work) != [] {
      var t, x := SetHead(s, Shorter(work)), Completions(work)[0];
      HeadGives(Shorter(work), rest, id, outcome);
      if work.Succeeded? && work.adapts != [] {
        AdaptKeepsSettled(t, x, checked, recorded, id, outcome);
      }
    }
  }

  lemma StepKeepsSettled(s: System, a: Action, id: Id, outcome: Outcome)
    requires Enabled(s, a) && Settled(s, id, outcome)
    ensures Settled(Do(s, a), id, outcome)
  {
    match a {
      case CallAdapt(x, checked, recorded) =>
        AdaptKeepsSettled(s.(issued := s.issued + {x}), x, checked, recorded, id, outcome);
      case LockRetry(i, checked, recorded) =>
        var (x, c) := s.retrying[i];
        if (id, outcome) !in s.called {
          var waiting := s.state.(requestsToRetry := s.state.requestsToRetry + [x]);
          RefreshKeepsGives(waiting, c, checked, recorded, id, outcome);
        }
      case RunQueue(checked, recorded) => RunHeadKeepsSettled(s, checked, recorded, id, outcome);
      case AnswerSuccess(_, _) =>
        AppendKeepsGives(s.state.queue, Succeeded(s.state.adaptOperations, s.state.requestsToRetry), id, outcome);
      case AnswerFailure(_, e) =>
        AppendKeepsGives(s.state.queue, Failed(e, s.state.adaptOperations, s.state.requestsToRetry), id, outcome);
      case _ =>
    }
  }

  lemma {:induction false} RunKeepsSettled(s: System, actions: seq<Action>, id: Id, outcome: Outcome)
    requires IsRun(s, actions) && Settled(s, id, outcome)
    ensures Settled(After(s, actions), id, outcome)
    decreases |actions|
  {
    if actions == [] {
    } else {
      StepKeepsSettled(s, actions[0], id, outcome);
      RunKeepsSettled(Do(s, actions[0]), actions[1..], id, outcome);
    }
  }

  /** What a completion that waits for a refresh is to be called with when the refresh is answered. A deferred adapt
      call starts over after a success. */
  predicate Answers(s: State, answer: Action, id: Id, outcome: Outcome)
  {
    match answer
    case AnswerSuccess(_, _) => id in s.requestsToRetry && outcome == Retry
    case AnswerFailure(_, e) =>
      || (id in s.adaptOperations && outcome == NotAuthenticated(e))
      || (id in s.requestsToRetry && outcome == DoNotRetryWithError(e))
    case _ => false
  }

  lemma {:induction false} PairIsCounted(pairs: seq<(Id, Outcome)>, pair: (Id, Outcome))
    requires pair in pairs
    ensures CountPairs(pairs, pair.0) > 0
    decreases |pairs|
  {
    var last := |pairs| - 1;
    if pairs[last] == pair {
    } else {
      assert pairs == pairs[..last] + [pairs[last]];
      PairIsCounted(pairs[..last], pair);
    }
  }

  /** A waiting completion gets the answer of the refresh it waited for, whatever happens in between: after every run
      that goes on from the answer, the completion has been called with that outcome and with nothing else, or is in a
      queued batch that will do so; and once the queue is empty it has been called. */
  lemma WaitingGetsItsAnswer(credential: Option<Credential>, window: Option<RefreshWindow>,
        before: seq<Action>, answer: Action, after: seq<Action>, id: Id, outcome: Outcome)
    requires IsRun(Initial(credential, window), before)
    requires var s := After(Initial(credential, window), before);
      Enabled(s, answer) && Answers(s.state, answer, id, outcome) && IsRun(Do(s, answer), after)
    ensures var t := After(Do(After(Initial(credential, window), before), answer), after);
      && Settled(t, id, outcome) && CountPairs(t.called, id) <= 1
      && (t.state.queue == [] ==> (id, outcome) in t.called && CountPairs(t.called, id) == 1)
  {
    var start := Initial(credential, window);
    var s := After(start, before);
    var batch := if answer.AnswerSuccess? then Succeeded(s.state.adaptOperations, s.state.requestsToRetry)
      else Failed(answer.error, s.state.adaptOperations, s.state.requestsToRetry);
    AppendKeepsGives(s.state.queue, batch, id, outcome);
    RunKeepsSettled(Do(s, answer), after, id, outcome);
    RunBalance(start, before, id);
    StepBalance(s, answer, id);
    RunBalance(Do(s, answer), after, id);
    var t := After(Do(s, answer), after);
    if (id, outcome) in t.called {
      PairIsCounted(t.called, (id, outcome));
    }
  }

  // ---------------------------------------------------------------- how requests are judged before the lock

  predicate IsReply(outcome: Outcome)
  {
    outcome.Authenticated? || outcome.NotAuthenticated?
  }

  lemma {:induction false} RunJudges(s: System, actions: seq<Action>, id: Id)
    requires IsRun(s, actions) && forall i :: 0 <= i < |s.replies| ==> IsReply(s.replies[i].1)
    ensures (id, DoNotRetry) in After(s, actions).called
      <==> (id, DoNotRetry) in s.called || CallRetry(id, NotAuthenticationError) in actions
    ensures (id, Retry) in s.called ==> (id, Retry) in After(s, actions).called
    ensures (id, DoNotRetryWithError(MissingCredential)) in s.called ==>
      (id, DoNotRetryWithError(MissingCredential)) in After(s, actions).called
    ensures CallRetry(id, OlderCredential) in actions ==>
      || (id, Retry) in After(s, actions).called
      || (id, DoNotRetryWithError(MissingCredential)) in After(s, actions).called
    decreases |actions|
  {
    if actions == [] {
    } else {
      StepJudges(s, actions[0], id);
      RunJudges(Do(s, actions[0]), actions[1..], id);
      assert actions == [actions[0]] + actions[1..];
    }
  }

  lemma StepJudges(s: System, a: Action, id: Id)
    requires Enabled(s, a) && forall i :: 0 <= i < |s.replies| ==> IsReply(s.replies[i].1)
    ensures var t := Do(s, a);
      && (forall i :: 0 <= i < |t.replies| ==> IsReply(t.replies[i].1))
      && (forall pair :: pair in s.called ==> pair in t.called)
      && ((id, DoNotRetry) in t.called <==> (id, DoNotRetry) in s.called || a == CallRetry(id, NotAuthenticationError))
      && (a == CallRetry(id, OlderCredential) ==>
            (id, if s.state.credential.Some? then Retry else DoNotRetryWithError(MissingCredential)) in t.called)
  {
  }

  /** In every run: a request that did not fail its authentication, and no other, is told not to retry; and one that was
      authenticated with an older credential is told to retry, unless there is no credential any more. */
  lemma RequestsAreJudged(credential: Option<Credential>, window: Option<RefreshWindow>, actions: seq<Action>, id: Id)
    requires IsRun(Initial(credential, window), actions)
    ensures var called := After(Initial(credential, window), actions).called;
      && ((id, DoNotRetry) in called <==> CallRetry(id, NotAuthenticationError) in actions)
      && (CallRetry(id, OlderCredential) in actions ==>
            (id, Retry) in called || (id, DoNotRetryWithError(MissingCredential)) in called)
  {
    RunJudges(Initial(credential, window), actions, id);
  }

  /** Which of the two, at the call: a retry exactly when there is a credential. A request that failed with the current
      credential goes on to the lock with it. */
  lemma JudgedAtTheCall(s: System, id: Id, verdict: Verdict)
    requires id !in s.issued
    ensures var t := Do(s, CallRetry(id, verdict));
      match verdict
      case NotAuthenticationError => t.called == s.called + [(id, DoNotRetry)] && t.retrying == s.retrying
      case OlderCredential =>
        && t.retrying == s.retrying
        && t.called == s.called
             + [(id, if s.state.credential.Some? then Retry else DoNotRetryWithError(MissingCredential))]
      case CurrentCredential =>
        if s.state.credential.Some? then
          t.called == s.called && t.retrying == s.retrying + [(id, s.state.credential.value)]
        else
          t.called == s.called + [(id, DoNotRetryWithError(MissingCredential))] && t.retrying == s.retrying
  {
  }

  // ---------------------------------------------------------------- the credential read before the lock

  /** A locked block of retry starts a refresh with a credential that is not the current one exactly when no refresh is
      in flight, another is not excessive, and the credential has changed since it was read. */
  lemma StaleRefreshIff(s: System, i: nat, checked: real, recorded: real)
    requires Enabled(s, LockRetry(i, checked, recorded))
    ensures var t, c := Do(s, LockRetry(i, checked, recorded)), s.retrying[i].1;
      t.state.queue == s.state.queue + [CallRefresh(c)] && t.state.credential != Some(c)
      <==> !s.state.isRefreshing && !Excessive(s.state, checked) && s.state.credential != Some(c)
  {
    var c := s.retrying[i].1;
    var q := s.state.queue;
    var waiting := s.state.(requestsToRetry := s.state.requestsToRetry + [s.retrying[i].0]);
    assert (q + [CallRefresh(c)])[|q|] == CallRefresh(c);
    var failed := Failed(ExcessiveRefresh, waiting.adaptOperations, waiting.requestsToRetry);
    assert (q + [failed])[|q|] == failed;
  }

  lemma {:induction false} RunOfTwoParts(s: System, first: seq<Action>, second: seq<Action>)
    requires IsRun(s, first) && IsRun(After(s, first), second)
    ensures IsRun(s, first + second) && After(s, first + second) == After(After(s, first), second)
    decreases |first|
  {
    if first == [] {
      assert first + second == second;
    } else {
      RunOfTwoParts(Do(s, first[0]), first[1..], second);
      assert (first + second)[0] == first[0] && (first + second)[1..] == first[1..] + second;
    }
  }

  lemma RunOfThree(s: System, a: Action, b: Action, c: Action)
    requires Enabled(s, a) && Enabled(Do(s, a), b) && Enabled(Do(Do(s, a), b), c)
    ensures IsRun(s, [a, b, c]) && After(s, [a, b, c]) == Do(Do(Do(s, a), b), c)
  {
    var t := Do(Do(s, a), b);
    var end := Do(t, c);
    assert IsRun(end, []) && After(end, []) == end;
    assert [c][1..] == [] && IsRun(t, [c]) && After(t, [c]) == end;
    assert [b, c][1..] == [c] && IsRun(Do(s, a), [b, c]) && After(Do(s, a), [b, c]) == end;
    assert [a, b, c][1..] == [b, c];
  }

  /** Two requests that failed with this credential: the second has read it, the first has called for its refresh. */
  function BothRead(c: Credential): System
  {
    System(State(Some(c), true, [0.0], None, [], [1], [CallRefresh(c)]), [], [(2, c)], [], [], {1, 2})
  }

  const BothFail := [CallRetry(1, CurrentCredential), CallRetry(2, CurrentCredential), LockRetry(0, 0.0, 0.0)]

  function Refreshed(c: Credential): seq<Action>
  {
    [RunQueue(0.0, 0.0), AnswerSuccess(0, c), LockRetry(0, 1.0, 1.0)]
  }

  lemma BothReadIsReached(c: Credential)
    ensures IsRun(Initial(Some(c), None), BothFail) && After(Initial(Some(c), None), BothFail) == BothRead(c)
  {
    var s := Initial(Some(c), None);
    var t := Do(Do(s, BothFail[0]), BothFail[1]);
    assert t == s.(retrying := [(1, c), (2, c)], issued := {1, 2});
    assert Without(t.retrying, 0) == [(2, c)];
    RunOfThree(s, BothFail[0], BothFail[1], BothFail[2]);
  }

  lemma RefreshStartsAgain(stale: Credential, renewed: Credential)
    ensures IsRun(BothRead(stale), Refreshed(renewed))
    ensures var s := After(BothRead(stale), Refreshed(renewed));
      s.state.credential == Some(renewed) && s.state.isRefreshing && CallRefresh(stale) in s.state.queue
  {
    var s, run := BothRead(stale), Refreshed(renewed);
    var called := Do(s, run[0]);
    assert called.state.queue == [] && called.refreshing == [stale] && called.retrying == [(2, stale)];
    var answered := Do(called, run[1]);
    assert answered.retrying == [(2, stale)] && answered.state.refreshWindow.None?;
    var locked := Do(answered, run[2]);
    assert locked.state.queue[|locked.state.queue| - 1] == CallRefresh(stale);
    RunOfThree(s, run[0], run[1], run[2]);
  }

  /** Two requests fail with one credential. The second reads it, the first has it refreshed, and then the second takes
      the lock: it starts a refresh of a credential that has already been replaced. */
  lemma StaleCredentialIsRefreshed(stale: Credential, renewed: Credential)
    requires stale != renewed
    ensures var start, actions := Initial(Some(stale), None), BothFail + Refreshed(renewed);
      && IsRun(start, actions)
      && var s := After(start, actions).state;
         s.credential == Some(renewed) && s.isRefreshing && CallRefresh(stale) in s.queue
  {
    BothReadIsReached(stale);
    RefreshStartsAgain(stale, renewed);
    RunOfTwoParts(Initial(Some(stale), None), BothFail, Refreshed(renewed));
  }
}

/**
 The service registries (galay-rpc/kernel/rpc_discovery.h): the local one with its watchers, and the asynchronous one as
 coroutines around the same operations under a mutex.
 */
module Registry {
  import opened Wire

  datatype Endpoint = Endpoint(host: Bytes, port: U16, service: Bytes, instance: Bytes, weight: U32)
  datatype ServiceEvent = Added(endpoint: Endpoint) | Removed(endpoint: Endpoint)

  /** One call of `watchService`: what its caller could see when watching, and what its callback was given since. */
  datatype Subscription = Subscription(name: Bytes, snapshot: seq<Endpoint>, delivered: seq<ServiceEvent>)

  datatype State = State(services: map<Bytes, seq<Endpoint>>, watchers: map<Bytes, seq<nat>>,
                         subs: map<nat, Subscription>,
                         next: nat)

  const Empty := State(map[], map[], map[], 0)

  datatype Op =
    | Register(endpoint: Endpoint)
    | Deregister(endpoint: Endpoint)
    | Watch(name: Bytes)
    | Unwatch(name: Bytes)

  // ---- The operations as functions ----------------------------------------------------------------------------

  /** `discoverService`. */
  function Discover(s: State, name: Bytes): seq<Endpoint> { if name in s.services then s.services[name] else [] }

  function Watching(s: State, name: Bytes): seq<nat> { if name in s.watchers then s.watchers[name] else [] }

  /** The first endpoint with an instance id, if any. */
  function IndexOf(eps: seq<Endpoint>, instance: Bytes): (r: Option<nat>)
    ensures r.Some? ==> r.value < |eps| && eps[r.value].instance == instance
    ensures r.None? ==> forall i :: 0 <= i < |eps| ==> eps[i].instance != instance
  {
    if eps == [] then None
    else if eps[0].instance == instance then Some(0)
    else match IndexOf(eps[1..], instance)
      case None => assert forall i :: 0 < i < |eps| ==> eps[i] == eps[1..][i - 1]; None
      case Some(i) => Some(i + 1)
  }

  function RemoveAt(eps: seq<Endpoint>, i: nat): seq<Endpoint>
    requires i < |eps|
  {
    eps[..i] + eps[i + 1..]
  }

  /** Every callback of these watchers is given the event once. */
  function Notified(subs: map<nat, Subscription>, ws: seq<nat>, event: ServiceEvent): (r: map<nat, Subscription>)
    ensures r.Keys == subs.Keys
  {
    map w | w in subs :: if w in ws then subs[w].(delivered := subs[w].delivered + [event]) else subs[w]
  }

  /** The first half of an operation: the tables change, no callback has run yet. */
  function Mutate(s: State, op: Op): State {
    match op
    case Register(e) => s.(services := s.services[e.service := Discover(s, e.service) + [e]])
    case Deregister(e) =>
      (match IndexOf(Discover(s, e.service), e.instance)
       case None => s
       case Some(i) => s.(services := s.services[e.service := RemoveAt(Discover(s, e.service), i)]))
    case Watch(name) =>
      s.(watchers := s.watchers[name := Watching(s, name) + [s.next]],
         subs := s.subs[s.next := Subscription(name, Discover(s, name), [])], next := s.next + 1)
    case Unwatch(name) => s.(watchers := s.watchers - {name})
  }

  /** The event an operation announces, decided before it changes anything. */
  function EventOf(s: State, op: Op): Option<ServiceEvent> {
    match op
    case Register(e) => Some(Added(e))
    case Deregister(e) =>
      (match IndexOf(Discover(s, e.service), e.instance)
       case None => None
       case Some(i) => Some(Removed(Discover(s, e.service)[i])))
    case Watch(_) => None
    case Unwatch(_) => None
  }

  /** The second half: the watchers of the service concerned are told. */
  function Announce(s: State, op: Op, event: Option<ServiceEvent>): State {
    if event.None? || op.Watch? || op.Unwatch? then s
    else s.(subs := Notified(s.subs, Watching(s, op.endpoint.service), event.value))
  }

  function Apply(s: State, op: Op): State { Announce(Mutate(s, op), op, EventOf(s, op)) }

  function ApplyAll(s: State, ops: seq<Op>): State {
    if ops == [] then s else Apply(ApplyAll(s, ops[..|ops| - 1]), ops[|ops| - 1])
  }

  // ---- What the operations do --------------------------------------------------------------------------------------

  /** Nothing is different but the endpoints of this service and the events its watchers have been given. */
  ghost predicate OnlyService(s: State, s': State, name: Bytes, event: ServiceEvent) {
    && (forall n :: n != name ==> Discover(s', n) == Discover(s, n))
    && s'.watchers == s.watchers && s'.next == s.next && s'.subs.Keys == s.subs.Keys
    && forall w :: w in s.subs ==>
         && s'.subs[w].name == s.subs[w].name && s'.subs[w].snapshot == s.subs[w].snapshot
         && s'.subs[w].delivered == s.subs[w].delivered + if w in Watching(s, name) then [event] else []
  }

  /** `registerService` appends the endpoint, and each watcher of its service is told so. */
  lemma {:induction false} RegisterDoes(s: State, e: Endpoint)
    ensures var s' := Apply(s, Register(e));
            Discover(s', e.service) == Discover(s, e.service) + [e] && OnlyService(s, s', e.service, Added(e))
  {
  }

  /** `deregisterService` takes out the first endpoint of the service with the instance id, leaves the others in their
      order, and each watcher of the service is told which endpoint that was. */
  lemma {:induction false} DeregisterDoes(s: State, e: Endpoint, i: nat)
    requires i < |Discover(s, e.service)| && Discover(s, e.service)[i].instance == e.instance
    requires forall k :: 0 <= k < i ==> Discover(s, e.service)[k].instance != e.instance
    ensures var s', eps := Apply(s, Deregister(e)), Discover(s, e.service);
            Discover(s', e.service) == eps[..i] + eps[i + 1..] && OnlyService(s, s', e.service, Removed(eps[i]))
  {
    IndexOfFirst(Discover(s, e.service), e.instance, i);
  }

  /** Without one, nothing happens. */
  lemma {:induction false} DeregisterFindsNone(s: State, e: Endpoint)
    requires forall k :: 0 <= k < |Discover(s, e.service)| ==> Discover(s, e.service)[k].instance != e.instance
    ensures Apply(s, Deregister(e)) == s
  {
  }

  /** `watchService` lists one more watcher, which starts from what there is, and `unwatchService` drops all of a name;
      no endpoint and no other watcher is touched. */
  lemma {:induction false} WatchDoes(s: State, name: Bytes)
    requires s.next !in s.subs
    ensures var s' := Apply(s, Watch(name));
            && s'.services == s.services && s'.next == s.next + 1
            && Watching(s', name) == Watching(s, name) + [s.next]
            && (forall n :: n != name ==> Watching(s', n) == Watching(s, n))
            && s'.subs.Keys == s.subs.Keys + {s.next} && s'.subs[s.next] == Subscription(name, Discover(s, name), [])
            && forall w :: w in s.subs ==> s'.subs[w] == s.subs[w]
  {
  }

  lemma {:induction false} UnwatchDoes(s: State, name: Bytes)
    ensures var s' := Apply(s, Unwatch(name));
            && s'.services == s.services && s'.next == s.next && s'.subs == s.subs && Watching(s', name) == []
            && forall n :: n != name ==> Watching(s', n) == Watching(s, n)
  {
  }

  // ---- What a watcher can reconstruct ---------------------------------------------------------------------------

  function React(eps: seq<Endpoint>, event: ServiceEvent): seq<Endpoint> {
    match event
    case Added(e) => eps + [e]
    case Removed(e) =>
      match IndexOf(eps, e.instance)
      case None => eps
      case Some(i) => RemoveAt(eps, i)
  }

  /** A snapshot brought up to date with the events delivered since. */
  function Replay(snapshot: seq<Endpoint>, events: seq<ServiceEvent>): seq<Endpoint> {
    if events == [] then snapshot else React(Replay(snapshot, events[..|events| - 1]), events[|events| - 1])
  }

  ghost predicate Subscribed(s: State, name: Bytes, w: nat) {
    w in s.subs && w < s.next && s.subs[w].name == name
  }

  ghost predicate UpToDate(s: State, name: Bytes, w: nat) {
    Subscribed(s, name, w) && Replay(s.subs[w].snapshot, s.subs[w].delivered) == Discover(s, name)
  }

  /** Every watcher belongs to the service that lists it, and is listed once. */
  ghost predicate Listed(s: State) {
    forall name :: name in s.watchers ==>
      && (forall i :: 0 <= i < |s.watchers[name]| ==> Subscribed(s, name, s.watchers[name][i]))
      && (forall i, j :: 0 <= i < j < |s.watchers[name]| ==> s.watchers[name][i] != s.watchers[name][j])
  }

  /** Every current watcher can reconstruct its service from its snapshot and its events. */
  ghost predicate Synced(s: State) {
    && Listed(s)
    && forall name :: name in s.watchers ==>
         forall i :: 0 <= i < |s.watchers[name]| ==> UpToDate(s, name, s.watchers[name][i])
  }

  lemma {:induction false} ReplayOneMore(snapshot: seq<Endpoint>, events: seq<ServiceEvent>, event: ServiceEvent)
    ensures Replay(snapshot, events + [event]) == React(Replay(snapshot, events), event)
  {
    assert (events + [event])[..|events|] == events;
  }

  lemma {:induction false} PublishSyncs(s: State, s': State, name: Bytes, event: ServiceEvent)
    requires Synced(s) && OnlyService(s, s', name, event) && Discover(s', name) == React(Discover(s, name), event)
    ensures Synced(s')
  {
    forall n, i | n in s'.watchers && 0 <= i < |s'.watchers[n]|
      ensures UpToDate(s', n, s'.watchers[n][i])
    {
      var w := s.watchers[n][i];
      assert UpToDate(s, n, w);
      if n == name {
        assert w in Watching(s, name);
        ReplayOneMore(s.subs[w].snapshot, s.subs[w].delivered, event);
      } else {
        assert s'.subs[w].delivered == s.subs[w].delivered && Discover(s', n) == Discover(s, n);
      }
    }
  }

  lemma {:induction false} WatchSyncs(s: State, name: Bytes)
    requires Synced(s)
    ensures Synced(Apply(s, Watch(name)))
  {
    var s' := Apply(s, Watch(name));
    forall n, i | n in s'.watchers && 0 <= i < |s'.watchers[n]|
      ensures UpToDate(s', n, s'.watchers[n][i])
    {
      if !(n == name && i == |s'.watchers[n]| - 1) {
        assert UpToDate(s, n, s.watchers[n][i]);
      }
    }
    forall i, j | 0 <= i < j < |s'.watchers[name]|
      ensures s'.watchers[name][i] != s'.watchers[name][j]
    {
      assert UpToDate(s, name, s.watchers[name][i]);
    }
  }

  lemma {:induction false} ApplySyncs(s: State, op: Op)
    requires Synced(s)
    ensures Synced(Apply(s, op))
  {
    match op {
      case Register(e) =>
        RegisterDoes(s, e);
        PublishSyncs(s, Apply(s, op), e.service, Added(e));
      case Deregister(e) =>
        if EventOf(s, op).Some? {
          DeregisterTells(s, e);
          PublishSyncs(s, Apply(s, op), e.service, EventOf(s, op).value);
        }
      case Watch(name) => WatchSyncs(s, name);
      case Unwatch(name) =>
        var s' := Apply(s, op);
        forall n, i | n in s'.watchers && 0 <= i < |s'.watchers[n]|
          ensures UpToDate(s', n, s'.watchers[n][i])
        {
          assert UpToDate(s, n, s.watchers[n][i]);
        }
    }
  }

  /** After any sequence of operations, each watcher's snapshot plus its events is what `discoverService` returns. */
  lemma {:induction false} WatchersStaySynced(ops: seq<Op>)
    ensures Synced(ApplyAll(Empty, ops))
  {
    if ops != [] {
      WatchersStaySynced(ops[..|ops| - 1]);
      ApplySyncs(ApplyAll(Empty, ops[..|ops| - 1]), ops[|ops| - 1]);
    }
  }

  /** No operation but `unwatchService` of its own name takes a watcher off its list or changes what it started from. */
  lemma {:induction false} StaysWatching(s: State, op: Op, name: Bytes, w: nat)
    requires w in Watching(s, name) && w in s.subs && w < s.next && op != Unwatch(name)
    ensures var s' := Apply(s, op);
            w in Watching(s', name) && w in s'.subs && w < s'.next && s'.subs[w].snapshot == s.subs[w].snapshot
  {
  }

  /** The law of watching: whatever went before, a watcher that starts now, and is not unwatched in what follows, always
      has in its snapshot and its events what `discoverService` would return. */
  lemma {:induction false} WatcherFollows(before: seq<Op>, name: Bytes, after: seq<Op>)
    requires Unwatch(name) !in after
    ensures var s0 := ApplyAll(Empty, before);
            var s := ApplyAll(Apply(s0, Watch(name)), after);
            && s0.next in Watching(s, name) && s0.next in s.subs
            && s.subs[s0.next].snapshot == Discover(s0, name)
            && Replay(s.subs[s0.next].snapshot, s.subs[s0.next].delivered) == Discover(s, name)
  {
    var s0 := ApplyAll(Empty, before);
    WatchersStaySynced(before);
    ApplySyncs(s0, Watch(name));
    KeepsFollowing(Apply(s0, Watch(name)), name, s0.next, after);
  }

  lemma {:induction false} KeepsFollowing(s: State, name: Bytes, w: nat, after: seq<Op>)
    requires Synced(s) && w in Watching(s, name) && w in s.subs && w < s.next && Unwatch(name) !in after
    ensures var s' := ApplyAll(s, after);
            && Synced(s') && w in Watching(s', name) && w in s'.subs && w < s'.next
            && s'.subs[w].snapshot == s.subs[w].snapshot
            && Replay(s'.subs[w].snapshot, s'.subs[w].delivered) == Discover(s', name)
  {
    if after != [] {
      var op, s1 := after[|after| - 1], ApplyAll(s, after[..|after| - 1]);
      KeepsFollowing(s, name, w, after[..|after| - 1]);
      ApplySyncs(s1, op);
      StaysWatching(s1, op, name, w);
    }
    var s' := ApplyAll(s, after);
    var i :| 0 <= i < |s'.watchers[name]| && s'.watchers[name][i] == w;
    assert UpToDate(s', name, s'.watchers[name][i]);
  }

  /** A watcher that is on no list any more is never told anything again. */
  lemma {:induction false} UnwatchedIsSilent(s: State, w: nat, after: seq<Op>)
    requires w in s.subs && w < s.next && forall n :: w !in Watching(s, n)
    ensures var s' := ApplyAll(s, after);
            w in s'.subs && w < s'.next && s'.subs[w] == s.subs[w] && forall n :: w !in Watching(s', n)
  {
    if after != [] {
      UnwatchedIsSilent(s, w, after[..|after| - 1]);
      StaysSilent(ApplyAll(s, after[..|after| - 1]), after[|after| - 1], w);
    }
  }

  lemma {:induction false} StaysSilent(s: State, op: Op, w: nat)
    requires w in s.subs && w < s.next && forall n :: w !in Watching(s, n)
    ensures var s' := Apply(s, op);
            w in s'.subs && w < s'.next && s'.subs[w] == s.subs[w] && forall n :: w !in Watching(s', n)
  {
    var s' := Apply(s, op);
    match op {
      case Register(e) => RegisterDoes(s, e);
      case Deregister(e) => if EventOf(s, op).Some? { DeregisterTells(s, e); }
      case Watch(_) =>
      case Unwatch(_) =>
    }
    forall n
      ensures w !in Watching(s', n)
    {
      assert w !in Watching(s, n);
      match op {
        case Register(_) => assert s'.watchers == s.watchers;
        case Deregister(_) => assert s'.watchers == s.watchers;
        case Watch(name) => assert Watching(s', n) == if n == name then Watching(s, n) + [s.next] else Watching(s, n);
        case Unwatch(name) => assert Watching(s', n) == if n == name then [] else Watching(s, n);
      }
    }
  }

  lemma {:induction false} DeregisterTells(s: State, e: Endpoint)
    requires IndexOf(Discover(s, e.service), e.instance).Some?
    ensures var i := IndexOf(Discover(s, e.service), e.instance).value;
            OnlyService(s, Apply(s, Deregister(e)), e.service, Removed(Discover(s, e.service)[i]))
  {
  }

  // ---- The local registry ---------------------------------------------------------------------------------------

  /** The endpoint at this place, and no other, is gone, and its watchers know. */
  ghost predicate Withdrawn(s: State, s': State, e: Endpoint, i: nat) {
    var eps := Discover(s, e.service);
    && i < |eps| && eps[i].instance == e.instance && (forall k :: 0 <= k < i ==> eps[k].instance != e.instance)
    && Discover(s', e.service) == eps[..i] + eps[i + 1..] && OnlyService(s, s', e.service, Removed(eps[i]))
  }

  class LocalServiceRegistry {
    var state: State

    constructor ()
      ensures state == Empty && Synced(state)
    {
      state := Empty;
    }

    /** Calls every watcher of a service, in order. */
    method Notify(name: Bytes, event: ServiceEvent)
      requires Listed(state)
      modifies this
      ensures state == old(state).(subs := Notified(old(state.subs), Watching(old(state), name), event))
    {
      var ws := Watching(state, name);
      assert Notified(state.subs, [], event) == state.subs;
      for i := 0 to |ws|
        invariant state == old(state).(subs := Notified(old(state.subs), ws[..i], event))
      {
        assert ws[..i + 1] == ws[..i] + [ws[i]];
        assert Subscribed(old(state), name, ws[i]) && ws[i] !in ws[..i];
        var sub := state.subs[ws[i]];
        state := state.(subs := state.subs[ws[i] := sub.(delivered := sub.delivered + [event])]);
        assert state.subs == Notified(old(state.subs), ws[..i + 1], event);
      }
      assert ws[..|ws|] == ws;
    }

    /** `registerService`. */
    method RegisterService(e: Endpoint)
      requires Synced(state)
      modifies this
      ensures Synced(state) && state == Apply(old(state), Register(e))
      ensures Discover(state, e.service) == Discover(old(state), e.service) + [e]
      ensures OnlyService(old(state), state, e.service, Added(e))
    {
      RegisterDoes(state, e);
      ApplySyncs(state, Register(e));
      state := state.(services := state.services[e.service := Discover(state, e.service) + [e]]);
      Notify(e.service, Added(e));
    }

    /** `deregisterService`: `false` is NOT_FOUND. */
    method DeregisterService(e: Endpoint) returns (found: bool)
      requires Synced(state)
      modifies this
      ensures Synced(state) && state == Apply(old(state), Deregister(e))
      ensures found <==> exists ep :: ep in Discover(old(state), e.service) && ep.instance == e.instance
      ensures !found ==> state == old(state)
      ensures found ==>
                exists i :: 0 <= i < |Discover(old(state), e.service)| && Withdrawn(old(state), state, e, i)
    {
      ApplySyncs(state, Deregister(e));
      var eps := Discover(state, e.service);
      var i := 0;
      while i < |eps| && eps[i].instance != e.instance
        invariant i <= |eps| && forall k :: 0 <= k < i ==> eps[k].instance != e.instance
      {
        i := i + 1;
      }
      found := i < |eps|;
      if found {
        IndexOfFirst(eps, e.instance, i);
        DeregisterDoes(state, e, i);
        state := state.(services := state.services[e.service := RemoveAt(eps, i)]);
        Notify(e.service, Removed(eps[i]));
        assert Withdrawn(old(state), state, e, i);
      }
    }

    /** `watchService`. */
    method WatchService(name: Bytes) returns (w: nat)
      requires Synced(state)
      modifies this
      ensures Synced(state) && state == Apply(old(state), Watch(name)) && w == old(state.next)
      ensures state.subs[w] == Subscription(name, Discover(state, name), [])
      ensures Watching(state, name) == Watching(old(state), name) + [w] && state.services == old(state.services)
    {
      ApplySyncs(state, Watch(name));
      w := state.next;
      state := Mutate(state, Watch(name));
    }

    /** `unwatchService`: every watcher of the name is dropped, whoever added it. */
    method UnwatchService(name: Bytes)
      requires Synced(state)
      modifies this
      ensures Synced(state) && state == Apply(old(state), Unwatch(name)) && Watching(state, name) == []
    {
      ApplySyncs(state, Unwatch(name));
      state := state.(watchers := state.watchers - {name});
    }
  }

  lemma {:induction false} IndexOfFirst(eps: seq<Endpoint>, instance: Bytes, i: nat)
    requires i < |eps| && eps[i].instance == instance && forall k :: 0 <= k < i ==> eps[k].instance != instance
    ensures IndexOf(eps, instance) == Some(i)
  {
    if i > 0 { IndexOfFirst(eps[1..], instance, i - 1); }
  }

  // ---- The asynchronous registry ----------------------------------------------------------------------------------

  /** `DiscoveryError`: no error, or one of those the registry reports. */
  datatype Error = NoError | NotFound | LockTimeout

  /** What a coroutine is called for: one of the operations above, or `discoverServiceAsync`. */
  datatype Job = Change(op: Op) | Look(name: Bytes)

  /** Where a coroutine of `AsyncLocalServiceRegistry` stands: before `lock()`; between the statements of its critical
      section, up to one of its places of `unlock()`; or over. A coroutine that got no lock still has its results to
      write. */
  datatype Task =
    | Waiting(job: Job)
    | Locked(job: Job)
    | NoService(job: Job)
    | NoInstance(job: Job)
    | Mutated(job: Job, event: Option<ServiceEvent>)
    | Announced(job: Job)
    | Looked(job: Job, found: seq<Endpoint>)
    | UnlockNoService(job: Job)
    | UnlockNoInstance(job: Job)
    | UnlockDone(job: Job)
    | Clearing(job: Job)
    | Finished(job: Job)
    | TimedOut(job: Job)

  /** Everything the coroutines share. `m_last_error` and `m_last_endpoints` are the only way to learn a result, and
      they are one for all; `order` records the changes in the order in which they held the lock. */
  datatype System = System(state: State, lock: Option<nat>, lastError: Error, lastEndpoints: seq<Endpoint>,
                           tasks: seq<Task>,
                           order: seq<Op>, acquired: nat, released: nat)

  datatype Step = Proceed(task: nat) | TimeOut(task: nat)

  function With(s: System, i: nat, t: Task): System
    requires i < |s.tasks|
  {
    s.(tasks := s.tasks[i := t])
  }

  function Unlocked(s: System, i: nat): System
    requires i < |s.tasks|
  {
    var job := s.tasks[i].job;
    With(s, i, Finished(job)).(lock := None, released := s.released + 1,
                               order := if job.Change? then s.order + [job.op] else s.order)
  }

  /** The first statement of a critical section. */
  function Enter(s: System, i: nat): System
    requires i < |s.tasks|
  {
    match s.tasks[i].job
    case Look(name) =>
      With(s, i, Looked(Look(name), Discover(s.state, name))).(lastEndpoints := Discover(s.state, name))
    case Change(op) =>
      if op.Deregister? && op.endpoint.service !in s.state.services then With(s, i, NoService(Change(op)))
      else if op.Deregister? && IndexOf(Discover(s.state, op.endpoint.service), op.endpoint.instance).None? then
        With(s, i, NoInstance(Change(op)))
      else With(s, i, Mutated(Change(op), EventOf(s.state, op))).(state := Mutate(s.state, op))
  }

  /** One statement of one coroutine; a coroutine that waits for a taken lock stays where it is. A lock timeout may come
      at any time while it waits, and what is written then is written without the lock. */
  function Next(s: System, step: Step): System {
    if step.task >= |s.tasks| then s
    else
      var i := step.task;
      match s.tasks[i]
      case Waiting(job) =>
        if step.TimeOut? then
          With(s, i, if job.Look? then Clearing(job) else TimedOut(job)).(lastError := LockTimeout)
        else if s.lock.None? then With(s, i, Locked(job)).(lock := Some(i), acquired := s.acquired + 1)
        else s
      case Clearing(job) => With(s, i, TimedOut(job)).(lastEndpoints := [])
      case Locked(_) => Enter(s, i)
      case NoService(job) => With(s, i, UnlockNoService(job)).(lastError := NotFound)
      case NoInstance(job) => With(s, i, UnlockNoInstance(job)).(lastError := NotFound)
      case Mutated(job, event) =>
        With(s, i, Announced(job)).(state := if job.Change? then Announce(s.state, job.op, event) else s.state)
      case Announced(job) => With(s, i, UnlockDone(job)).(lastError := NoError)
      case Looked(job, _) => With(s, i, UnlockDone(job)).(lastError := NoError)
      case UnlockNoService(_) => Unlocked(s, i)
      case UnlockNoInstance(_) => Unlocked(s, i)
      case UnlockDone(_) => Unlocked(s, i)
      case Finished(_) => s
      case TimedOut(_) => s
  }

  predicate Inside(t: Task) { !t.Waiting? && !t.Clearing? && !t.Finished? && !t.TimedOut? }

  /** How far the coroutine inside its critical section has brought the registry. */
  ghost predicate Holding(base: State, state: State, t: Task) {
    match t
    case Mutated(Change(op), event) => state == Mutate(base, op) && event == EventOf(base, op)
    case Announced(Change(op)) => state == Apply(base, op)
    case UnlockDone(Change(op)) => state == Apply(base, op)
    case NoService(Change(op)) => state == base == Apply(base, op)
    case NoInstance(Change(op)) => state == base == Apply(base, op)
    case UnlockNoService(Change(op)) => state == base == Apply(base, op)
    case UnlockNoInstance(Change(op)) => state == base == Apply(base, op)
    case Locked(_) => state == base
    case Looked(Look(name), found) => state == base && found == Discover(base, name)
    case UnlockDone(Look(_)) => state == base
    case _ => false
  }

  /** The registry is always that of the local one after the changes in lock order, plus what the holder has done; and
      the lock has been released as often as it was acquired, but for the one who holds it. */
  ghost predicate Serial(s: System) {
    var base := ApplyAll(Empty, s.order);
    && (forall i :: 0 <= i < |s.tasks| ==> (Inside(s.tasks[i]) <==> s.lock == Some(i)))
    && (match s.lock
        case None => s.state == base && s.acquired == s.released
        case Some(i) => i < |s.tasks| && Holding(base, s.state, s.tasks[i]) && s.acquired == s.released + 1)
  }

  /** The holder goes on to its next statement. */
  lemma {:induction false} HolderMoves(s: System, i: nat, s': System)
    requires Serial(s) && i < |s.tasks| && Inside(s.tasks[i]) && |s'.tasks| == |s.tasks|
    requires s'.tasks == s.tasks[i := s'.tasks[i]] && Inside(s'.tasks[i]) && s'.lock == s.lock && s'.order == s.order
    requires s'.acquired == s.acquired && s'.released == s.released
    requires Holding(ApplyAll(Empty, s.order), s'.state, s'.tasks[i])
    ensures Serial(s')
  {
  }

  /** The statements of a critical section that are not its last. */
  predicate Middle(t: Task) { t.Locked? || t.NoService? || t.NoInstance? || t.Mutated? || t.Announced? || t.Looked? }

  lemma {:induction false} EnterHolds(s: System, i: nat)
    requires Serial(s) && i < |s.tasks| && s.tasks[i].Locked?
    ensures Holding(ApplyAll(Empty, s.order), Enter(s, i).state, Enter(s, i).tasks[i]) && Inside(Enter(s, i).tasks[i])
  {
  }

  lemma {:induction false} MiddleHolds(s: System, step: Step)
    requires Serial(s) && step.task < |s.tasks| && Middle(s.tasks[step.task])
    ensures var s' := Next(s, step);
            Holding(ApplyAll(Empty, s.order), s'.state, s'.tasks[step.task]) && Inside(s'.tasks[step.task])
  {
    if s.tasks[step.task].Locked? { EnterHolds(s, step.task); }
  }

  lemma {:induction false} MiddleIsSerial(s: System, step: Step)
    requires Serial(s) && step.task < |s.tasks| && Middle(s.tasks[step.task])
    ensures Serial(Next(s, step))
  {
    MiddleHolds(s, step);
    OneTaskMoves(s, step);
    MiddleKeepsLock(s, step);
    HolderMoves(s, step.task, Next(s, step));
  }

  lemma {:induction false} MiddleKeepsLock(s: System, step: Step)
    requires step.task < |s.tasks| && Middle(s.tasks[step.task])
    ensures var s' := Next(s, step);
            s'.lock == s.lock && s'.order == s.order && s'.acquired == s.acquired && s'.released == s.released
  {
  }

  lemma {:induction false} UnlockIsSerial(s: System, i: nat)
    requires Serial(s) && i < |s.tasks|
    requires s.tasks[i].UnlockNoService? || s.tasks[i].UnlockNoInstance? || s.tasks[i].UnlockDone?
    ensures Serial(Unlocked(s, i))
  {
    var job := s.tasks[i].job;
    if job.Change? {
      assert (s.order + [job.op])[..|s.order|] == s.order;
    }
  }

  lemma {:induction false} OutsideIsSerial(s: System, step: Step)
    requires Serial(s) && step.task < |s.tasks| && (s.tasks[step.task].Waiting? || s.tasks[step.task].Clearing?)
    ensures Serial(Next(s, step))
  {
  }

  /** One statement of one coroutine keeps the registry serial, whichever exit it takes. */
  lemma {:induction false} NextIsSerial(s: System, step: Step)
    requires Serial(s)
    ensures Serial(Next(s, step))
  {
    if step.task < |s.tasks| {
      var t := s.tasks[step.task];
      if Middle(t) {
        MiddleIsSerial(s, step);
      } else if Inside(t) {
        UnlockIsSerial(s, step.task);
      } else if t.Waiting? || t.Clearing? {
        OutsideIsSerial(s, step);
      }
    }
  }

  /** How many of the first `n` coroutines have made this change and released the lock. */
  function Completed(tasks: seq<Task>, op: Op, n: nat): nat
    requires n <= |tasks|
  {
    if n == 0 then 0 else Completed(tasks, op, n - 1) + if tasks[n - 1] == Finished(Change(op)) then 1 else 0
  }

  lemma {:induction false} CompletedUpdate(tasks: seq<Task>, op: Op, i: nat, t: Task, n: nat)
    requires i < |tasks| && !tasks[i].Finished? && n <= |tasks|
    ensures Completed(tasks[i := t], op, n)
         == Completed(tasks, op, n) + if i < n && t == Finished(Change(op)) then 1 else 0
  {
    if n > 0 { CompletedUpdate(tasks, op, i, t, n - 1); }
  }

  /** Each completed change is in the lock order exactly once. */
  ghost predicate Accounted(s: System) { forall op :: multiset(s.order)[op] == Completed(s.tasks, op, |s.tasks|) }

  /** A step changes at most the stepping coroutine's own entry, and completes it only by unlocking. */
  lemma {:induction false} OneTaskMoves(s: System, step: Step)
    requires step.task < |s.tasks|
    ensures var i, s' := step.task, Next(s, step);
            && |s'.tasks| == |s.tasks| && s'.tasks == s.tasks[i := s'.tasks[i]] && s'.tasks[i].job == s.tasks[i].job
            && (s.tasks[i].Finished? ==> s' == s)
            && (!s.tasks[i].Finished? ==>
                  s'.order == if s'.tasks[i].Finished? && s.tasks[i].job.Change? then s.order + [s.tasks[i].job.op]
                              else s.order)
  {
  }

  lemma {:induction false} NextIsAccounted(s: System, step: Step)
    requires Accounted(s)
    ensures Accounted(Next(s, step))
  {
    if step.task < |s.tasks| && !s.tasks[step.task].Finished? {
      OneTaskMoves(s, step);
      var s' := Next(s, step);
      forall op
        ensures multiset(s'.order)[op] == Completed(s'.tasks, op, |s'.tasks|)
      {
        CompletedUpdate(s.tasks, op, step.task, s'.tasks[step.task], |s.tasks|);
      }
    } else if step.task < |s.tasks| {
      OneTaskMoves(s, step);
    }
  }

  // ---- Whole runs ---------------------------------------------------------------------------------------------------

  function Start(jobs: seq<Job>): System {
    System(Empty, None, NoError, [], seq(|jobs|, i requires 0 <= i < |jobs| => Waiting(jobs[i])), [], 0, 0)
  }

  function Exec(s: System, steps: seq<Step>): System
    decreases |steps|
  {
    if steps == [] then s else Exec(Next(s, steps[0]), steps[1..])
  }

  lemma {:induction false} NoneCompleted(tasks: seq<Task>, op: Op, n: nat)
    requires n <= |tasks| && forall i :: 0 <= i < |tasks| ==> tasks[i].Waiting?
    ensures Completed(tasks, op, n) == 0
  {
    if n > 0 { NoneCompleted(tasks, op, n - 1); }
  }

  lemma {:induction false} StaysSerial(s: System, steps: seq<Step>)
    requires Serial(s) && Accounted(s)
    ensures Serial(Exec(s, steps)) && Accounted(Exec(s, steps))
    decreases |steps|
  {
    if steps != [] {
      NextIsSerial(s, steps[0]);
      NextIsAccounted(s, steps[0]);
      StaysSerial(Next(s, steps[0]), steps[1..]);
    }
  }

  /** Every interleaving of the five coroutines amounts, for services and watchers, to the local registry run in lock
      order: at most one coroutine is between `lock()` and `unlock()`, the lock is released as often as it is acquired,
      each completed change has run exactly once, and whenever the lock is free every watcher is in step with
      `discoverService`. */
  lemma {:induction false} EveryInterleavingIsSerial(jobs: seq<Job>, steps: seq<Step>)
    ensures var s := Exec(Start(jobs), steps);
            && Serial(s) && Accounted(s)
            && (s.lock.None? ==> s.state == ApplyAll(Empty, s.order) && Synced(s.state) && s.acquired == s.released)
  {
    forall op ensures Completed(Start(jobs).tasks, op, |jobs|) == 0 { NoneCompleted(Start(jobs).tasks, op, |jobs|); }
    StaysSerial(Start(jobs), steps);
    WatchersStaySynced(Exec(Start(jobs), steps).order);
  }
}

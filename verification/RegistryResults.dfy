/**
 What callers of the asynchronous registry read (galay-rpc/kernel/rpc_discovery.h:265-385): the shared fields
 `m_last_error` and `m_last_endpoints`, which every coroutine writes, some of them without the lock.
 */
module RegistryResults {
  import opened Wire
  import opened Registry

  // ---- What is written, and by whom ---------------------------------------------------------------------------------

  /** What a step writes to `m_last_endpoints`: a lookup its result, a lookup that got no lock nothing at all. */
  function EndpointsWrittenBy(s: System, step: Step): Option<seq<Endpoint>> {
    if step.task >= |s.tasks| then None
    else
      match s.tasks[step.task]
      case Locked(Look(name)) => Some(Discover(s.state, name))
      case Clearing(_) => Some([])
      case _ => None
  }

  /** What a step writes to `m_last_error`, with or without the lock. */
  function ErrorWrittenBy(s: System, step: Step): Option<Error> {
    if step.task >= |s.tasks| then None
    else
      match s.tasks[step.task]
      case Waiting(_) => if step.TimeOut? then Some(LockTimeout) else None
      case NoService(_) => Some(NotFound)
      case NoInstance(_) => Some(NotFound)
      case Announced(_) => Some(NoError)
      case Looked(_, _) => Some(NoError)
      case _ => None
  }

  /** Everything that a run writes there, in order. */
  function EndpointsWritten(s: System, steps: seq<Step>): seq<seq<Endpoint>>
    decreases |steps|
  {
    if steps == [] then [] else AsSeq(EndpointsWrittenBy(s, steps[0])) + EndpointsWritten(Next(s, steps[0]), steps[1..])
  }

  function ErrorsWritten(s: System, steps: seq<Step>): seq<Error>
    decreases |steps|
  {
    if steps == [] then [] else AsSeq(ErrorWrittenBy(s, steps[0])) + ErrorsWritten(Next(s, steps[0]), steps[1..])
  }

  function AsSeq<T>(o: Option<T>): seq<T> { if o.Some? then [o.value] else [] }

  function LastOf<T>(own: T, written: seq<T>): T { if written == [] then own else written[|written| - 1] }

  lemma {:induction false} LastOfBoth<T>(own: T, a: seq<T>, b: seq<T>)
    ensures LastOf(own, a + b) == LastOf(LastOf(own, a), b)
  {
  }

  lemma {:induction false} FieldsAfter(s: System, steps: seq<Step>)
    ensures Exec(s, steps).lastEndpoints == LastOf(s.lastEndpoints, EndpointsWritten(s, steps))
    ensures Exec(s, steps).lastError == LastOf(s.lastError, ErrorsWritten(s, steps))
    decreases |steps|
  {
    if steps != [] {
      var s', later := Next(s, steps[0]), steps[1..];
      FieldsAfter(s', later);
      StepWrites(s, steps[0]);
      LastOfBoth(s.lastEndpoints, AsSeq(EndpointsWrittenBy(s, steps[0])), EndpointsWritten(s', later));
      LastOfBoth(s.lastError, AsSeq(ErrorWrittenBy(s, steps[0])), ErrorsWritten(s', later));
    }
  }

  lemma {:induction false} StepWrites(s: System, step: Step)
    ensures Next(s, step).lastEndpoints == LastOf(s.lastEndpoints, AsSeq(EndpointsWrittenBy(s, step)))
    ensures Next(s, step).lastError == LastOf(s.lastError, AsSeq(ErrorWrittenBy(s, step)))
  {
  }

  // ---- What can still happen ----------------------------------------------------------------------------------------

  lemma {:induction false} ExecOne(s: System, step: Step, rest: seq<Step>)
    ensures Exec(s, [step] + rest) == Exec(Next(s, step), rest)
  {
    assert ([step] + rest)[1..] == rest;
  }

  /** Some run leads from `s` to `t`. */
  ghost predicate Leads(s: System, t: System) { exists steps :: Exec(s, steps) == t }

  lemma {:induction false} LeadsNowhere(s: System)
    ensures Leads(s, s)
  {
    assert Exec(s, []) == s;
  }

  lemma {:induction false} LeadsOn(s: System, step: Step, t: System)
    requires Leads(Next(s, step), t)
    ensures Leads(s, t)
  {
    var steps :| Exec(Next(s, step), steps) == t;
    ExecOne(s, step, steps);
  }

  /** The coroutine still has an error to write. */
  predicate ErrorPending(t: Task) { t.Waiting? || Middle(t) }

  /** It still has a list to write, or to clear. */
  predicate EndpointsPending(t: Task) { t.Clearing? || (t.job.Look? && (t.Waiting? || t.Locked?)) }

  // ---- One coroutine on its own -----------------------------------------------------------------------------------

  /** Only coroutine `i` has moved on. */
  ghost predicate OnlyMoved(s: System, t: System, i: nat) {
    |t.tasks| == |s.tasks| && forall j :: 0 <= j < |s.tasks| && j != i ==> t.tasks[j] == s.tasks[j]
  }

  /** No endpoint of the service has the instance id that is to be deregistered. */
  ghost predicate Absent(s: State, op: Op) {
    op.Deregister? && forall ep :: ep in Discover(s, op.endpoint.service) ==> ep.instance != op.endpoint.instance
  }

  /** A change that finds the lock free can do its work and give the lock back, having changed the registry as the local
      one would, and having reported NOT_FOUND exactly when there was no such instance. */
  lemma {:induction false} RunsAlone(s: System, i: nat, op: Op) returns (t: System)
    requires i < |s.tasks| && s.tasks[i] == Waiting(Change(op)) && s.lock.None?
    ensures Leads(s, t) && OnlyMoved(s, t, i) && t.tasks[i] == Finished(Change(op)) && t.lock.None?
    ensures t.state == Apply(s.state, op) && t.order == s.order + [op] && t.lastEndpoints == s.lastEndpoints
    ensures t.lastError == if Absent(s.state, op) then NotFound else NoError
  {
    var s1 := Next(s, Proceed(i));
    if Absent(s.state, op) { t := FindsNothing(s1, i, op); } else { t := DoesItsWork(s1, i, op); }
    LeadsOn(s, Proceed(i), t);
  }

  lemma {:induction false} FindsNothing(s: System, i: nat, op: Op) returns (t: System)
    requires i < |s.tasks| && s.tasks[i] == Locked(Change(op)) && Absent(s.state, op)
    ensures Leads(s, t) && OnlyMoved(s, t, i) && t.tasks[i] == Finished(Change(op)) && t.lock.None?
    ensures t.state == Apply(s.state, op) && t.order == s.order + [op] && t.lastEndpoints == s.lastEndpoints
    ensures t.lastError == NotFound
  {
    DeregisterFindsNone(s.state, op.endpoint);
    assert IndexOf(Discover(s.state, op.endpoint.service), op.endpoint.instance).None?;
    var s1 := Next(s, Proceed(i));
    assert s1.tasks[i].NoService? || s1.tasks[i].NoInstance?;
    var s2 := Next(s1, Proceed(i));
    t := Next(s2, Proceed(i));
    LeadsNowhere(t);
    LeadsOn(s2, Proceed(i), t);
    LeadsOn(s1, Proceed(i), t);
    LeadsOn(s, Proceed(i), t);
  }

  lemma {:induction false} DoesItsWork(s: System, i: nat, op: Op) returns (t: System)
    requires i < |s.tasks| && s.tasks[i] == Locked(Change(op)) && !Absent(s.state, op)
    ensures Leads(s, t) && OnlyMoved(s, t, i) && t.tasks[i] == Finished(Change(op)) && t.lock.None?
    ensures t.state == Apply(s.state, op) && t.order == s.order + [op] && t.lastEndpoints == s.lastEndpoints
    ensures t.lastError == NoError
  {
    if op.Deregister? { IsThere(s.state, op); }
    var s1 := Next(s, Proceed(i));
    assert s1.tasks[i] == Mutated(Change(op), EventOf(s.state, op)) && s1.state == Mutate(s.state, op);
    var s2 := Next(s1, Proceed(i));
    assert s2.tasks[i] == Announced(Change(op)) && s2.state == Apply(s.state, op);
    t := ReportsAndReleases(s2, i, op);
    LeadsOn(s1, Proceed(i), t);
    LeadsOn(s, Proceed(i), t);
  }

  lemma {:induction false} ReportsAndReleases(s: System, i: nat, op: Op) returns (t: System)
    requires i < |s.tasks| && s.tasks[i] == Announced(Change(op))
    ensures Leads(s, t) && OnlyMoved(s, t, i) && t.tasks[i] == Finished(Change(op)) && t.lock.None?
    ensures t.state == s.state && t.order == s.order + [op]
    ensures t.lastEndpoints == s.lastEndpoints && t.lastError == NoError
  {
    var s1 := Next(s, Proceed(i));
    t := Next(s1, Proceed(i));
    LeadsNowhere(t);
    LeadsOn(s1, Proceed(i), t);
    LeadsOn(s, Proceed(i), t);
  }

  lemma {:induction false} IsThere(s: State, op: Op)
    requires !Absent(s, op) && op.Deregister?
    ensures op.endpoint.service in s.services && IndexOf(s.services[op.endpoint.service], op.endpoint.instance).Some?
  {
    var ep :| ep in Discover(s, op.endpoint.service) && ep.instance == op.endpoint.instance;
    var k :| 0 <= k < |Discover(s, op.endpoint.service)| && Discover(s, op.endpoint.service)[k] == ep;
  }

  /** A lookup that finds the lock free leaves the registry alone and reports what it found. */
  lemma {:induction false} LooksAlone(s: System, i: nat, name: Bytes) returns (t: System)
    requires i < |s.tasks| && s.tasks[i] == Waiting(Look(name)) && s.lock.None?
    ensures Leads(s, t) && OnlyMoved(s, t, i) && t.tasks[i] == Finished(Look(name)) && t.lock.None?
    ensures t.state == s.state && t.order == s.order
    ensures t.lastEndpoints == Discover(s.state, name) && t.lastError == NoError
  {
    var p := Proceed(i);
    var s1 := Next(s, p);
    var s2 := Next(s1, p);
    var s3 := Next(s2, p);
    t := Next(s3, p);
    LeadsNowhere(t);
    LeadsOn(s3, p, t);
    LeadsOn(s2, p, t);
    LeadsOn(s1, p, t);
    LeadsOn(s, p, t);
  }

  /** A coroutine that gets no lock changes nothing but the shared results: it reports LOCK_TIMEOUT and, if it is a
      lookup, an empty list. */
  lemma {:induction false} GetsNoLock(s: System, i: nat, job: Job) returns (t: System)
    requires i < |s.tasks| && s.tasks[i] == Waiting(job)
    ensures Leads(s, t) && OnlyMoved(s, t, i) && t.tasks[i] == TimedOut(job) && t.lock == s.lock
    ensures t.state == s.state && t.order == s.order && t.lastError == LockTimeout
    ensures t.lastEndpoints == if job.Look? then [] else s.lastEndpoints
  {
    var s1 := Next(s, TimeOut(i));
    t := if job.Look? then Next(s1, Proceed(i)) else s1;
    LeadsNowhere(t);
    if job.Look? { LeadsOn(s1, Proceed(i), t); }
    LeadsOn(s, TimeOut(i), t);
  }

  // ---- The error ----------------------------------------------------------------------------------------------------

  lemma {:induction false} NoMoreErrors(s: System, steps: seq<Step>)
    requires forall j :: 0 <= j < |s.tasks| ==> !ErrorPending(s.tasks[j])
    ensures Exec(s, steps).lastError == s.lastError
    decreases |steps|
  {
    if steps != [] { NoMoreErrors(Next(s, steps[0]), steps[1..]); }
  }

  /** A coroutine in its critical section that has an error to write comes to write one that is no lock timeout. */
  lemma {:induction false} HolderWrites(s: System, h: nat) returns (t: System)
    requires h < |s.tasks| && Middle(s.tasks[h])
    ensures Leads(s, t) && t.lastError != LockTimeout
    decreases if s.tasks[h].Locked? then 2 else if s.tasks[h].Mutated? then 1 else 0
  {
    var s' := Next(s, Proceed(h));
    if s.tasks[h].Locked? || s.tasks[h].Mutated? {
      t := HolderWrites(s', h);
    } else {
      t := s';
      LeadsNowhere(t);
    }
    LeadsOn(s, Proceed(h), t);
  }

  lemma {:induction false} WaiterWrites(s: System, j: nat) returns (t: System)
    requires j < |s.tasks| && s.tasks[j].Waiting? && s.lock.None?
    ensures Leads(s, t) && t.lastError != LockTimeout
  {
    t := HolderWrites(Next(s, Proceed(j)), j);
    LeadsOn(s, Proceed(j), t);
  }

  /** Whoever still has an error to write, one that is no lock timeout can come to be written. */
  lemma {:induction false} SomeoneWrites(s: System, j: nat) returns (t: System)
    requires Serial(s) && j < |s.tasks| && ErrorPending(s.tasks[j])
    ensures Leads(s, t) && t.lastError != LockTimeout
  {
    if s.lock.None? {
      t := WaiterWrites(s, j);
    } else {
      var h := s.lock.value;
      assert Inside(s.tasks[h]);
      if Middle(s.tasks[h]) {
        t := HolderWrites(s, h);
      } else {
        t := WaiterWrites(Next(s, Proceed(h)), j);
        LeadsOn(s, Proceed(h), t);
      }
    }
  }

  lemma {:induction false} TimesOut(s: System, j: nat) returns (t: System)
    requires j < |s.tasks| && s.tasks[j].Waiting?
    ensures Leads(s, t) && t.lastError == LockTimeout
  {
    t := Next(s, TimeOut(j));
    LeadsNowhere(t);
    LeadsOn(s, TimeOut(j), t);
  }

  /** A run after which the error is another one. */
  lemma {:induction false} ErrorChanges(s0: System, step: Step, j: nat) returns (after: seq<Step>)
    requires Serial(s0) && ErrorWrittenBy(s0, step).Some?
    requires j < |Next(s0, step).tasks| && ErrorPending(Next(s0, step).tasks[j])
    ensures Exec(Next(s0, step), after).lastError != Next(s0, step).lastError
  {
    var s := Next(s0, step);
    NextIsSerial(s0, step);
    var t;
    if s.lastError == LockTimeout {
      t := SomeoneWrites(s, j);
    } else {
      assert Inside(s.tasks[step.task]);
      t := TimesOut(s, j);
    }
    after :| Exec(s, after) == t;
  }

  ghost predicate ErrorStays(s: System) { forall after :: Exec(s, after).lastError == s.lastError }

  /** Whatever happens next, the caller reads the error its coroutine has just written, if and only if no other
      coroutine has an error to write any more: none waits for the lock or is on its way to write one. */
  lemma {:induction false} ErrorIsFinal(s0: System, step: Step)
    requires Serial(s0) && ErrorWrittenBy(s0, step).Some?
    ensures var s := Next(s0, step);
            && s.lastError == ErrorWrittenBy(s0, step).value
            && (ErrorStays(s) <==> forall j :: 0 <= j < |s.tasks| ==> !ErrorPending(s.tasks[j]))
  {
    var s := Next(s0, step);
    if j :| 0 <= j < |s.tasks| && ErrorPending(s.tasks[j]) {
      var after := ErrorChanges(s0, step, j);
      assert !ErrorStays(s);
    } else {
      forall after ensures Exec(s, after).lastError == s.lastError { NoMoreErrors(s, after); }
    }
  }

  // ---- The list -----------------------------------------------------------------------------------------------------

  ghost predicate EndpointsStay(s: System) { forall after :: Exec(s, after).lastEndpoints == s.lastEndpoints }

  lemma {:induction false} NoMoreEndpoints(s: System, steps: seq<Step>)
    requires forall j :: 0 <= j < |s.tasks| ==> !EndpointsPending(s.tasks[j])
    ensures Exec(s, steps).lastEndpoints == s.lastEndpoints
    decreases |steps|
  {
    if steps != [] { NoMoreEndpoints(Next(s, steps[0]), steps[1..]); }
  }

  /** A lookup that waits for the lock, or has not got it, can clear the list. */
  lemma {:induction false} Clears(s: System, j: nat) returns (t: System)
    requires j < |s.tasks| && (s.tasks[j].Clearing? || (s.tasks[j].Waiting? && s.tasks[j].job.Look?))
    ensures Leads(s, t) && t.lastEndpoints == []
    decreases s.tasks[j].Waiting?
  {
    if s.tasks[j].Clearing? {
      t := Next(s, Proceed(j));
      LeadsNowhere(t);
      LeadsOn(s, Proceed(j), t);
    } else {
      t := Clears(Next(s, TimeOut(j)), j);
      LeadsOn(s, TimeOut(j), t);
    }
  }

  /** A lookup that finds the lock free can write what it finds. */
  lemma {:induction false} LooksNow(s: System, j: nat, name: Bytes) returns (t: System)
    requires j < |s.tasks| && s.tasks[j] == Waiting(Look(name)) && s.lock.None?
    ensures Leads(s, t) && t.lastEndpoints == Discover(s.state, name)
  {
    var s1 := Next(s, Proceed(j));
    t := Next(s1, Proceed(j));
    LeadsNowhere(t);
    LeadsOn(s1, Proceed(j), t);
    LeadsOn(s, Proceed(j), t);
  }

  /** A registration that finds the lock free can run, and the lookup behind it. */
  lemma {:induction false} RegistersAndLooks(s: System, k: nat, e: Endpoint, j: nat) returns (t: System)
    requires j < |s.tasks| && k < |s.tasks| && s.lock.None?
    requires s.tasks[k] == Waiting(Change(Register(e))) && s.tasks[j] == Waiting(Look(e.service))
    ensures Leads(s, t) && t.lastEndpoints != []
  {
    var p := Proceed(k);
    var s1 := Next(s, p);
    var s2 := Next(s1, p);
    var s3 := Next(s2, p);
    var s4 := Next(s3, p);
    var s5 := Next(s4, p);
    assert s2.tasks[k].Mutated? && s3.tasks[k].Announced? && s4.tasks[k].UnlockDone?;
    assert |Discover(s5.state, e.service)| > 0 && s5.tasks[j] == s.tasks[j];
    t := LooksNow(s5, j, e.service);
    LeadsOn(s4, p, t);
    LeadsOn(s3, p, t);
    LeadsOn(s2, p, t);
    LeadsOn(s1, p, t);
    LeadsOn(s, p, t);
  }

  /** The lookup that has just written its list gives the lock back. */
  lemma {:induction false} Releases(s: System, i: nat) returns (t: System)
    requires Serial(s) && i < |s.tasks| && s.tasks[i].Looked?
    ensures Leads(s, t) && t.lock.None? && t.state == s.state
    ensures |t.tasks| == |s.tasks| && forall j :: 0 <= j < |s.tasks| && j != i ==> t.tasks[j] == s.tasks[j]
    ensures forall u :: Leads(t, u) ==> Leads(s, u)
  {
    var s1 := Next(s, Proceed(i));
    t := Next(s1, Proceed(i));
    LeadsNowhere(t);
    forall u | Leads(t, u)
      ensures Leads(s, u)
    {
      LeadsOn(s1, Proceed(i), u);
      LeadsOn(s, Proceed(i), u);
    }
  }

  /** Somebody can still put something into an empty list: a lookup waits, and its service has an endpoint, or one is
      waiting to be registered. */
  ghost predicate CanFill(s: System, j: nat) {
    && j < |s.tasks| && s.tasks[j].Waiting? && s.tasks[j].job.Look?
    && var name := s.tasks[j].job.name;
       || Discover(s.state, name) != []
       || exists k, e :: 0 <= k < |s.tasks| && s.tasks[k] == Waiting(Change(Register(e))) && e.service == name
  }

  lemma {:induction false} Fills(s: System, i: nat, j: nat) returns (u: System)
    requires Serial(s) && i < |s.tasks| && s.tasks[i].Looked? && CanFill(s, j)
    ensures Leads(s, u) && u.lastEndpoints != []
  {
    var t := Releases(s, i);
    var name := s.tasks[j].job.name;
    if Discover(s.state, name) != [] {
      u := LooksNow(t, j, name);
    } else {
      var k, e :| 0 <= k < |s.tasks| && s.tasks[k] == Waiting(Change(Register(e))) && e.service == name;
      u := RegistersAndLooks(t, k, e, j);
    }
  }

  predicate Registers(t: Task, name: Bytes) {
    (t.Waiting? || t.Locked?) && t.job.Change? && t.job.op.Register? && t.job.op.endpoint.service == name
  }

  /** The service has no endpoint, and nobody is to register one any more. */
  ghost predicate Deserted(s: System, name: Bytes) {
    Discover(s.state, name) == [] && forall k :: 0 <= k < |s.tasks| ==> !Registers(s.tasks[k], name)
  }

  /** Nobody can put anything into the empty list. */
  ghost predicate Barren(s: System) {
    && s.lastEndpoints == []
    && forall j :: 0 <= j < |s.tasks| && Looks(s.tasks[j]) ==> Deserted(s, s.tasks[j].job.name)
  }

  predicate Looks(t: Task) { (t.Waiting? || t.Locked?) && t.job.Look? }

  lemma {:induction false} StaysDeserted(s: System, step: Step, name: Bytes)
    requires Deserted(s, name)
    ensures Deserted(Next(s, step), name)
  {
    if step.task < |s.tasks| {
      OneTaskMoves(s, step);
      var t, t' := s.tasks[step.task], Next(s, step).tasks[step.task];
      assert Registers(t', name) ==> Registers(t, name);
      if t.Locked? && t.job.Change? { MutationDeserts(s.state, t.job.op, name); }
    }
  }

  lemma {:induction false} MutationDeserts(s: State, op: Op, name: Bytes)
    requires Discover(s, name) == [] && !(op.Register? && op.endpoint.service == name)
    ensures Discover(Mutate(s, op), name) == []
  {
  }

  lemma {:induction false} StaysBarren(s: System, step: Step)
    requires Barren(s)
    ensures Barren(Next(s, step))
  {
    if step.task < |s.tasks| {
      OneTaskMoves(s, step);
      StepWrites(s, step);
      var s' := Next(s, step);
      forall j | 0 <= j < |s'.tasks| && Looks(s'.tasks[j])
        ensures Deserted(s', s'.tasks[j].job.name)
      {
        assert Looks(s.tasks[j]);
        StaysDeserted(s, step, s.tasks[j].job.name);
      }
    }
  }

  lemma {:induction false} BarrenStays(s: System, steps: seq<Step>)
    requires Barren(s)
    ensures Exec(s, steps).lastEndpoints == []
    decreases |steps|
  {
    if steps != [] {
      StaysBarren(s, steps[0]);
      BarrenStays(Next(s, steps[0]), steps[1..]);
    }
  }

  /** Some lookup can still change the list: any that has not got the lock yet can clear one that is not empty, and one
      whose service has an endpoint, or is about to get one, can fill an empty one. */
  ghost predicate CanChange(s: System, j: nat) {
    j < |s.tasks| && if s.lastEndpoints == [] then CanFill(s, j) else EndpointsPending(s.tasks[j])
  }

  lemma {:induction false} ListChanges(s: System, i: nat, j: nat) returns (after: seq<Step>)
    requires Serial(s) && i < |s.tasks| && s.tasks[i].Looked? && CanChange(s, j)
    ensures Exec(s, after).lastEndpoints != s.lastEndpoints
  {
    var t;
    if s.lastEndpoints == [] {
      t := Fills(s, i, j);
    } else {
      assert j != i && !Inside(s.tasks[j]);
      t := Clears(s, j);
    }
    after :| Exec(s, after) == t;
  }

  lemma {:induction false} ListStays(s: System, i: nat, after: seq<Step>)
    requires Serial(s) && i < |s.tasks| && s.tasks[i].Looked? && forall j :: 0 <= j < |s.tasks| ==> !CanChange(s, j)
    ensures Exec(s, after).lastEndpoints == s.lastEndpoints
  {
    if s.lastEndpoints == [] {
      forall j | 0 <= j < |s.tasks| && Looks(s.tasks[j])
        ensures Deserted(s, s.tasks[j].job.name)
      {
        assert !CanChange(s, j) && !Inside(s.tasks[j]);
      }
      BarrenStays(s, after);
    } else {
      forall j | 0 <= j < |s.tasks| ensures !EndpointsPending(s.tasks[j]) { assert !CanChange(s, j); }
      NoMoreEndpoints(s, after);
    }
  }

  /** What the caller of `discoverServiceAsync` reads. Its coroutine looks the service up in a registry that is serial.
      What the caller then reads is that list, whatever happens in between, if and only if no other coroutine can change
      it: for a list with endpoints, if no other lookup waits for the lock or is on its way to clear it; for an empty
      one, if no other lookup waits whose service has an endpoint or one waiting to be registered. */
  lemma {:induction false} DiscoverCallerReads(jobs: seq<Job>, before: seq<Step>, i: nat, name: Bytes)
    requires var s := Exec(Start(jobs), before);
             i < |s.tasks| && s.tasks[i] == Locked(Look(name))
    ensures var s := Exec(Start(jobs), before);
            var s' := Next(s, Proceed(i));
            && s'.lastEndpoints == Discover(ApplyAll(Empty, s.order), name)
            && (EndpointsStay(s') <==> forall j :: 0 <= j < |s'.tasks| ==> !CanChange(s', j))
  {
    EveryInterleavingIsSerial(jobs, before);
    var s' := Next(Exec(Start(jobs), before), Proceed(i));
    NextIsSerial(Exec(Start(jobs), before), Proceed(i));
    if j :| 0 <= j < |s'.tasks| && CanChange(s', j) {
      var after := ListChanges(s', i, j);
      assert !EndpointsStay(s');
    } else {
      forall after ensures Exec(s', after).lastEndpoints == s'.lastEndpoints { ListStays(s', i, after); }
    }
  }
  // ---- A lookup whose caller reads something else -------------------------------------------------------------------

  /** An endpoint is registered, its service is looked up, and another service is about to be. */
  function Jobs(e: Endpoint, other: Bytes): seq<Job> { [Change(Register(e)), Look(e.service), Look(other)] }

  function Before(): seq<Step> { [Proceed(0), Proceed(0), Proceed(0), Proceed(0), Proceed(0), Proceed(1)] }

  /** The first lookup writes its error and unlocks; the other one times out and clears the list. */
  function Afterwards(): seq<Step> { [Proceed(1), Proceed(1), TimeOut(2), Proceed(2)] }

  /** The registry once the endpoint is registered and the first lookup has the lock. */
  lemma {:induction false} RegisteredAndLocked(e: Endpoint, other: Bytes)
    ensures var s := Exec(Start(Jobs(e, other)), Before());
            && s.tasks == [Finished(Change(Register(e))), Locked(Look(e.service)), Waiting(Look(other))]
            && s.lock == Some(1) && s.order == [Register(e)] && Discover(s.state, e.service) == [e]
  {
    var s0, p := Start(Jobs(e, other)), Proceed(0);
    assert Before() == [p] + ([p] + ([p] + ([p] + ([p] + ([Proceed(1)] + [])))));
    ExecOne(s0, p, [p] + ([p] + ([p] + ([p] + ([Proceed(1)] + [])))));
    var s1 := Next(s0, p);
    assert s1.tasks == [Locked(Change(Register(e))), Waiting(Look(e.service)), Waiting(Look(other))];
    ExecOne(s1, p, [p] + ([p] + ([p] + ([Proceed(1)] + []))));
    var s2 := Next(s1, p);
    assert s2.tasks == [Mutated(Change(Register(e)), Some(Added(e))), Waiting(Look(e.service)), Waiting(Look(other))];
    ExecOne(s2, p, [p] + ([p] + ([Proceed(1)] + [])));
    var s3 := Next(s2, p);
    ExecOne(s3, p, [p] + ([Proceed(1)] + []));
    var s4 := Next(s3, p);
    ExecOne(s4, p, [Proceed(1)] + []);
    var s5 := Next(s4, p);
    ExecOne(s5, Proceed(1), []);
  }

  /** For every endpoint and every other service there is a run in which a lookup finds the endpoint, completes without
      error, and its caller reads an empty list and a lock timeout: those of another lookup that never had the lock. */
  lemma {:induction false} LookupIsOverwritten(e: Endpoint, other: Bytes)
    ensures var s := Exec(Start(Jobs(e, other)), Before());
            var s' := Next(s, Proceed(1));
            var end := Exec(s', Afterwards());
            && s.tasks[1] == Locked(Look(e.service)) && s'.lastEndpoints == [e]
            && end.tasks[1] == Finished(Look(e.service)) && end.lastEndpoints == [] && end.lastError == LockTimeout
  {
    RegisteredAndLocked(e, other);
    var s := Exec(Start(Jobs(e, other)), Before());
    var s1 := Next(s, Proceed(1));
    assert s1.tasks == [Finished(Change(Register(e))), Looked(Look(e.service), [e]), Waiting(Look(other))];
    Overwrites(s1, e, other);
  }

  lemma {:induction false} Overwrites(s1: System, e: Endpoint, other: Bytes)
    requires s1.tasks == [Finished(Change(Register(e))), Looked(Look(e.service), [e]), Waiting(Look(other))]
    ensures var end := Exec(s1, Afterwards());
            end.tasks[1] == Finished(Look(e.service)) && end.lastEndpoints == [] && end.lastError == LockTimeout
  {
    assert Afterwards() == [Proceed(1)] + ([Proceed(1)] + ([TimeOut(2)] + ([Proceed(2)] + [])));
    ExecOne(s1, Proceed(1), [Proceed(1)] + ([TimeOut(2)] + ([Proceed(2)] + [])));
    var s2 := Next(s1, Proceed(1));
    assert s2.tasks == [s1.tasks[0], UnlockDone(Look(e.service)), s1.tasks[2]];
    ExecOne(s2, Proceed(1), [TimeOut(2)] + ([Proceed(2)] + []));
    var s3 := Next(s2, Proceed(1));
    assert s3.tasks == [s1.tasks[0], Finished(Look(e.service)), s1.tasks[2]];
    ExecOne(s3, TimeOut(2), [Proceed(2)] + []);
    var s4 := Next(s3, TimeOut(2));
    assert s4.tasks == [s1.tasks[0], Finished(Look(e.service)), Clearing(Look(other))];
    ExecOne(s4, Proceed(2), []);
  }
}

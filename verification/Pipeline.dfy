/**
 The pipelining client (benchmark/b2_rpc.cpp:126-196) against the unary server, over two FIFO byte streams seen as
 message queues (their byte level is `Server.Conversation`).
 */
module Pipeline {
  import opened Wire
  import opened Codec
  import Server
  import S = Service

  // ---- The in-flight table ----------------------------------------------------------------------------------

  /** `*it = move(back()); pop_back()`. */
  function SwapRemove(s: seq<U32>, i: nat): (r: seq<U32>)
    requires i < |s|
    ensures |r| == |s| - 1
  {
    s[i := s[|s| - 1]][..|s| - 1]
  }

  lemma {:induction false} SwapRemoveContents(s: seq<U32>, i: nat)
    requires i < |s|
    ensures multiset(SwapRemove(s, i)) == multiset(s) - multiset{s[i]}
  {
    var t := s[i := s[|s| - 1]];
    assert multiset(t) == multiset(s) - multiset{s[i]} + multiset{s[|s| - 1]};
    assert t == SwapRemove(s, i) + [s[|s| - 1]];
    assert multiset(SwapRemove(s, i)) == multiset(t) - multiset{s[|s| - 1]};
  }

  /** The first position of an id. */
  function Find(s: seq<U32>, id: U32): (i: nat)
    requires id in s
    ensures i < |s| && s[i] == id
  {
    if s[0] == id then 0 else 1 + Find(s[1..], id)
  }

  lemma {:induction false} FindFirst(s: seq<U32>, id: U32, i: nat)
    requires i < |s| && s[i] == id && id !in s[..i]
    ensures Find(s, id) == i
  {
    if i > 0 {
      assert s[0] == s[..i][0] && s[1..][..i - 1] == s[..i][1..];
      FindFirst(s[1..], id, i - 1);
    }
  }

  class Client {
    const depth: nat
    var inflight: seq<U32>
    var nextId: U32

    constructor (depth: nat)
      ensures this.depth == depth && inflight == [] && nextId == 0
    {
      this.depth, inflight, nextId := depth, [], 0;
    }

    /** Takes the next id, with 32-bit wrap-around. */
    method Issue() returns (id: U32)
      requires |inflight| < depth
      modifies `nextId
      ensures id == old(nextId) && nextId == (old(nextId) + 1) % 0x1_0000_0000
    {
      id := nextId;
      nextId := (nextId + 1) % 0x1_0000_0000;
    }

    /** Remembers an id, once its request has been sent; a request that could not be sent leaves no entry. */
    method Remember(id: U32, sent: bool)
      modifies `inflight
      ensures inflight == if sent then old(inflight) + [id] else old(inflight)
    {
      if sent {
        inflight := inflight + [id];
      }
    }

    /** Finds a response's entry and removes it; `false` is the reconnect branch. */
    method Settle(id: U32) returns (found: bool)
      modifies `inflight
      ensures found <==> id in old(inflight)
      ensures inflight == if found then SwapRemove(old(inflight), Find(old(inflight), id)) else old(inflight)
    {
      var i := 0;
      while i < |inflight| && inflight[i] != id
        invariant i <= |inflight| && inflight == old(inflight) && id !in inflight[..i]
      {
        i := i + 1;
      }
      found := i < |inflight|;
      if found {
        FindFirst(inflight, id, i);
        inflight := SwapRemove(inflight, i);
      } else {
        assert inflight[..i] == inflight;
      }
    }
  }

  // ---- The server, seen from the client -------------------------------------------------------------------

  type Answering = Request -> Response

  /** A server that answers with the request's id and mode. */
  ghost predicate Faithful(answer: Answering) { forall q :: answer(q).id == q.id && answer(q).mode == q.mode }

  lemma {:induction false} RespondIsFaithful(catalogue: S.Catalogue, behave: Server.Behaviour)
    ensures Faithful(q => Server.Respond(catalogue, behave, q))
  {
  }

  // ---- The system -------------------------------------------------------------------------------------------

  /** Client table and counters, and the two queues between client and server. */
  datatype System = System(inflight: seq<U32>, sent: nat, received: nat, requests: seq<Request>,
                           responses: seq<Response>,
                           lost: bool)

  datatype Step = Send(request: Request) | Serve | Receive

  const Initially := System([], 0, 0, [], [], false)

  /** The id of the n-th request: in the code, the wrapping 32-bit counter. */
  type Numbering = nat -> U32

  function WrappingId(n: nat): U32 { n % 0x1_0000_0000 }

  /** `Client.nextId` runs through these ids. */
  lemma {:induction false} CounterIsNumbering(n: nat)
    ensures (WrappingId(n) + 1) % 0x1_0000_0000 == WrappingId(n + 1)
  {
  }

  /** One step of one of the two processes; a step that is not enabled changes nothing. The request's other fields are
      the caller's choice; its id is the counter's. */
  function Next(answer: Answering, idOf: Numbering, depth: nat, s: System, step: Step): System {
    match step
    case Send(q) =>
      if |s.inflight| < depth && !s.lost then
        s.(inflight := s.inflight + [idOf(s.sent)], sent := s.sent + 1,
           requests := s.requests + [q.(id := idOf(s.sent))])
      else s
    case Serve =>
      if s.requests != [] then
        s.(requests := s.requests[1..], responses := s.responses + [answer(s.requests[0])])
      else s
    case Receive =>
      if s.responses != [] && s.inflight != [] && !s.lost then
        var id := s.responses[0].id;
        if id in s.inflight then Settled(s, id) else s.(lost := true)
      else s
  }

  /** The client's share of a step, on its own table and counter, is the run model's. */
  method Perform(client: Client, answer: Answering, s: System, step: Step)
    requires client.inflight == s.inflight && client.nextId == WrappingId(s.sent) && !s.lost
    modifies client
    ensures var s' := Next(answer, WrappingId, client.depth, s, step);
            client.inflight == s'.inflight && client.nextId == WrappingId(s'.sent)
  {
    match step {
      case Send(q) =>
        if |client.inflight| < client.depth {
          var id := client.Issue();
          client.Remember(id, true);
        }
      case Receive =>
        if s.responses != [] && client.inflight != [] {
          var found := client.Settle(s.responses[0].id);
        }
      case Serve =>
    }
  }

  function Settled(s: System, id: U32): System
    requires s.responses != [] && id in s.inflight
  {
    s.(inflight := SwapRemove(s.inflight, Find(s.inflight, id)), received := s.received + 1,
       responses := s.responses[1..])
  }

  function Run(answer: Answering, idOf: Numbering, depth: nat, steps: seq<Step>): System {
    if steps == [] then Initially
    else Next(answer, idOf, depth, Run(answer, idOf, depth, steps[..|steps| - 1]), steps[|steps| - 1])
  }

  /** The ids of requests number `from` up to `upto`, in order. */
  function Ids(idOf: Numbering, from: nat, upto: nat): (r: seq<U32>)
    requires from <= upto
    ensures |r| == upto - from
    decreases upto - from
  {
    if from == upto then [] else [idOf(from)] + Ids(idOf, from + 1, upto)
  }

  lemma {:induction false} LastId(idOf: Numbering, from: nat, upto: nat)
    requires from <= upto
    ensures Ids(idOf, from, upto + 1) == Ids(idOf, from, upto) + [idOf(upto)]
    decreases upto - from
  {
    if from < upto {
      LastId(idOf, from + 1, upto);
    } else {
      assert Ids(idOf, upto + 1, upto + 1) == [];
    }
  }

  lemma {:induction false} IdAt(idOf: Numbering, from: nat, upto: nat, i: nat)
    requires from + i < upto
    ensures Ids(idOf, from, upto)[i] == idOf(from + i)
    decreases i
  {
    if i > 0 { IdAt(idOf, from + 1, upto, i - 1); }
  }

  function RequestIds(qs: seq<Request>): (r: seq<U32>)
    ensures |r| == |qs|
  {
    if qs == [] then [] else [qs[0].id] + RequestIds(qs[1..])
  }

  function ResponseIds(rs: seq<Response>): (r: seq<U32>)
    ensures |r| == |rs|
  {
    if rs == [] then [] else [rs[0].id] + ResponseIds(rs[1..])
  }

  lemma {:induction false} RequestIdsSnoc(qs: seq<Request>, q: Request)
    ensures RequestIds(qs + [q]) == RequestIds(qs) + [q.id]
  {
    if qs == [] {
      assert [q][1..] == [];
    } else {
      assert (qs + [q])[1..] == qs[1..] + [q];
      RequestIdsSnoc(qs[1..], q);
    }
  }

  lemma {:induction false} ResponseIdsSnoc(rs: seq<Response>, r: Response)
    ensures ResponseIds(rs + [r]) == ResponseIds(rs) + [r.id]
  {
    if rs == [] {
      assert [r][1..] == [];
    } else {
      assert (rs + [r])[1..] == rs[1..] + [r];
      ResponseIdsSnoc(rs[1..], r);
    }
  }

  /** The ids on their way, the oldest first. */
  function Outstanding(s: System): seq<U32> { ResponseIds(s.responses) + RequestIds(s.requests) }

  /** What every state of every run satisfies: nothing lost, the queues hold every id sent and not yet received, in
      order, and the table holds those same ids. */
  ghost predicate Conserved(idOf: Numbering, depth: nat, s: System) {
    && !s.lost && s.received <= s.sent
    && Outstanding(s) == Ids(idOf, s.received, s.sent)
    && |s.inflight| == s.sent - s.received <= depth
    && multiset(s.inflight) == multiset(Outstanding(s))
  }

  lemma {:induction false} QueueAfterSend(rs: seq<Response>, qs: seq<Request>, q: Request)
    ensures ResponseIds(rs) + RequestIds(qs + [q]) == ResponseIds(rs) + RequestIds(qs) + [q.id]
  {
    RequestIdsSnoc(qs, q);
  }

  lemma {:induction false} SameCounts(a: seq<U32>, b: seq<U32>, id: U32)
    requires multiset(a) == multiset(b)
    ensures multiset(a + [id]) == multiset(b + [id])
  {
  }

  lemma {:induction false} SendConserves(answer: Answering, idOf: Numbering, depth: nat, s: System, q: Request)
    requires Conserved(idOf, depth, s)
    ensures Conserved(idOf, depth, Next(answer, idOf, depth, s, Send(q)))
  {
    if |s.inflight| < depth {
      var id := idOf(s.sent);
      LastId(idOf, s.received, s.sent);
      QueueAfterSend(s.responses, s.requests, q.(id := id));
      SameCounts(s.inflight, Outstanding(s), id);
    }
  }

  lemma {:induction false} QueueAfterServe(rs: seq<Response>, qs: seq<Request>, r: Response)
    requires qs != [] && r.id == qs[0].id
    ensures ResponseIds(rs + [r]) + RequestIds(qs[1..]) == ResponseIds(rs) + RequestIds(qs)
  {
    ResponseIdsSnoc(rs, r);
    var a, b := ResponseIds(rs), RequestIds(qs[1..]);
    assert a + [r.id] + b == a + ([r.id] + b);
  }

  lemma {:induction false} QueueAfterReceive(rs: seq<Response>, qs: seq<Request>)
    requires rs != []
    ensures (ResponseIds(rs) + RequestIds(qs))[0] == rs[0].id
    ensures (ResponseIds(rs) + RequestIds(qs))[1..] == ResponseIds(rs[1..]) + RequestIds(qs)
  {
  }

  lemma {:induction false} ServeConserves(answer: Answering, idOf: Numbering, depth: nat, s: System)
    requires Faithful(answer) && Conserved(idOf, depth, s)
    ensures Conserved(idOf, depth, Next(answer, idOf, depth, s, Serve))
  {
    if s.requests != [] {
      QueueAfterServe(s.responses, s.requests, answer(s.requests[0]));
    }
  }

  /** Removing the oldest outstanding id from the table. */
  lemma {:induction false} SettleOldest(inflight: seq<U32>, queue: seq<U32>)
    requires queue != [] && multiset(inflight) == multiset(queue)
    ensures queue[0] in inflight
    ensures multiset(SwapRemove(inflight, Find(inflight, queue[0]))) == multiset(queue[1..])
  {
    assert queue == [queue[0]] + queue[1..];
    assert queue[0] in multiset(inflight);
    SwapRemoveContents(inflight, Find(inflight, queue[0]));
  }

  lemma {:induction false} SettledConserves(idOf: Numbering, depth: nat, s: System)
    requires Conserved(idOf, depth, s) && s.responses != []
    ensures s.responses[0].id in s.inflight && Conserved(idOf, depth, Settled(s, s.responses[0].id))
  {
    QueueAfterReceive(s.responses, s.requests);
    SettleOldest(s.inflight, Outstanding(s));
    assert Outstanding(s)[1..] == Ids(idOf, s.received + 1, s.sent);
  }

  lemma {:induction false} ReceiveConserves(answer: Answering, idOf: Numbering, depth: nat, s: System)
    requires Conserved(idOf, depth, s)
    ensures Conserved(idOf, depth, Next(answer, idOf, depth, s, Receive))
  {
    if s.responses != [] {
      SettledConserves(idOf, depth, s);
    }
  }

  /** Request/response conservation: in every run, every response finds its entry, nothing is lost or duplicated, and
      the table holds exactly the ids sent and not yet received, never more than the depth. */
  lemma {:induction false} EveryRunConserves(answer: Answering, idOf: Numbering, depth: nat, steps: seq<Step>)
    requires Faithful(answer)
    ensures Conserved(idOf, depth, Run(answer, idOf, depth, steps))
  {
    if steps != [] {
      var before, step := steps[..|steps| - 1], steps[|steps| - 1];
      EveryRunConserves(answer, idOf, depth, before);
      var s := Run(answer, idOf, depth, before);
      match step {
        case Send(q) => SendConserves(answer, idOf, depth, s, q);
        case Serve => ServeConserves(answer, idOf, depth, s);
        case Receive => ReceiveConserves(answer, idOf, depth, s);
      }
    }
  }

  /** What is left to do: a request still has to be answered, and the answer read. */
  function Work(s: System): nat { 2 * |s.requests| + |s.responses| }

  lemma {:induction false} WorkShrinks(answer: Answering, idOf: Numbering, depth: nat, s: System, step: Step)
    requires Conserved(idOf, depth, s)
    requires if step.Serve? then s.requests != [] else step.Receive? && s.requests == [] && s.responses != []
    ensures var s' := Next(answer, idOf, depth, s, step);
            s'.sent == s.sent && Work(s') == Work(s) - 1
  {
    if step.Receive? {
      SettledConserves(idOf, depth, s);
      assert s.inflight != [];
    }
  }

  lemma {:induction false} RunOneMore(answer: Answering, idOf: Numbering, depth: nat, steps: seq<Step>, step: Step)
    ensures Run(answer, idOf, depth, steps + [step])
         == Next(answer, idOf, depth, Run(answer, idOf, depth, steps), step)
  {
    assert (steps + [step])[..|steps|] == steps;
  }

  /** The run goes on from `s`. */
  function Exec(answer: Answering, idOf: Numbering, depth: nat, s: System, steps: seq<Step>): System
    decreases |steps|
  {
    if steps == [] then s else Exec(answer, idOf, depth, Next(answer, idOf, depth, s, steps[0]), steps[1..])
  }

  lemma {:induction false} RunGoesOn(answer: Answering, idOf: Numbering, depth: nat, steps: seq<Step>, rest: seq<Step>)
    ensures Run(answer, idOf, depth, steps + rest)
         == Exec(answer, idOf, depth, Run(answer, idOf, depth, steps), rest)
    decreases |rest|
  {
    if rest == [] {
      assert steps + rest == steps;
    } else {
      var more := steps + [rest[0]];
      assert more + rest[1..] == steps + rest;
      RunOneMore(answer, idOf, depth, steps, rest[0]);
      RunGoesOn(answer, idOf, depth, more, rest[1..]);
    }
  }

  /** Nothing is outstanding. */
  ghost predicate Drained(s: System) {
    s.received == s.sent && s.inflight == [] && s.requests == [] && s.responses == []
  }

  ghost predicate Reached(answer: Answering, idOf: Numbering, depth: nat, s: System) {
    exists steps :: s == Run(answer, idOf, depth, steps)
  }

  /** A step of the server or the client that leaves less to do. */
  lemma {:induction false} DrainStep(answer: Answering, idOf: Numbering, depth: nat, s: System) returns (step: Step)
    requires Faithful(answer) && Reached(answer, idOf, depth, s) && Work(s) > 0
    ensures step.Serve? || step.Receive?
    ensures var s' := Next(answer, idOf, depth, s, step);
            Reached(answer, idOf, depth, s') && s'.sent == s.sent && Work(s') == Work(s) - 1
  {
    var steps :| s == Run(answer, idOf, depth, steps);
    EveryRunConserves(answer, idOf, depth, steps);
    step := if s.requests != [] then Serve else Receive;
    RunOneMore(answer, idOf, depth, steps, step);
    WorkShrinks(answer, idOf, depth, s, step);
  }

  lemma {:induction false} NothingToDo(answer: Answering, idOf: Numbering, depth: nat, s: System)
    requires Faithful(answer) && Reached(answer, idOf, depth, s) && Work(s) == 0
    ensures Drained(s)
  {
    var steps :| s == Run(answer, idOf, depth, steps);
    EveryRunConserves(answer, idOf, depth, steps);
  }

  lemma {:induction false} Drains(answer: Answering, idOf: Numbering, depth: nat, s: System) returns (rest: seq<Step>)
    requires Faithful(answer) && Reached(answer, idOf, depth, s)
    ensures forall step :: step in rest ==> step.Serve? || step.Receive?
    ensures var s' := Exec(answer, idOf, depth, s, rest);
            Drained(s') && s'.sent == s.sent && |rest| == Work(s)
    decreases Work(s)
  {
    if Work(s) == 0 {
      NothingToDo(answer, idOf, depth, s);
      rest := [];
    } else {
      var step := DrainStep(answer, idOf, depth, s);
      var later := Drains(answer, idOf, depth, Next(answer, idOf, depth, s, step));
      rest := [step] + later;
      assert rest[1..] == later;
    }
  }

  /** Every run can be brought to its end: once the server has answered what is queued and the client has read it, as
      many responses have been received as requests were sent in the run, and nothing is outstanding. */
  lemma {:induction false} EveryRunDrains(answer: Answering, idOf: Numbering, depth: nat, steps: seq<Step>)
    returns (rest: seq<Step>)
    requires Faithful(answer)
    ensures forall step :: step in rest ==> step.Serve? || step.Receive?
    ensures var s, s' := Run(answer, idOf, depth, steps), Run(answer, idOf, depth, steps + rest);
            Drained(s') && s'.sent == s.sent && |rest| == 2 * |s.requests| + |s.responses|
  {
    rest := Drains(answer, idOf, depth, Run(answer, idOf, depth, steps));
    RunGoesOn(answer, idOf, depth, steps, rest);
  }

  /** The client may send exactly while fewer than `depth` requests are outstanding; then the request joins the queue
      under the next id. And the oldest request in the queue is the one the server answers. */
  lemma {:induction false} SendsAndAnswers(answer: Answering, idOf: Numbering, depth: nat, steps: seq<Step>, q: Request)
    requires Faithful(answer)
    ensures var s, s' := Run(answer, idOf, depth, steps), Run(answer, idOf, depth, steps + [Send(q)]);
            if s.sent - s.received < depth then
              && s'.sent == s.sent + 1 && s'.received == s.received && s'.responses == s.responses
              && s'.requests == s.requests + [Request(idOf(s.sent), q.mode, q.end, q.service, q.method_, q.payload)]
            else s' == s
    ensures var s, s' := Run(answer, idOf, depth, steps), Run(answer, idOf, depth, steps + [Serve]);
            s.requests != [] ==>
              s'.requests == s.requests[1..] && s'.responses == s.responses + [answer(s.requests[0])]
  {
    EveryRunConserves(answer, idOf, depth, steps);
    RunOneMore(answer, idOf, depth, steps, Send(q));
    RunOneMore(answer, idOf, depth, steps, Serve);
  }

  /** The outstanding ids are distinct exactly while no more than 2^32 requests are outstanding; in particular always,
      if the depth allows no more. */
  lemma {:induction false} OutstandingIdsDistinct(depth: nat, s: System)
    requires Conserved(WrappingId, depth, s)
    ensures (forall id :: multiset(s.inflight)[id] <= 1) <==> s.sent - s.received <= 0x1_0000_0000
  {
    if s.sent - s.received <= 0x1_0000_0000 {
      FewIdsDistinct(s.received, s.sent);
    } else {
      ManyIdsRepeat(s.received, s.sent);
    }
  }

  lemma {:induction false} FewIdsDistinct(from: nat, upto: nat)
    requires from <= upto <= from + 0x1_0000_0000
    ensures forall id :: multiset(Ids(WrappingId, from, upto))[id] <= 1
  {
    var ids := Ids(WrappingId, from, upto);
    forall i, j | 0 <= i < j < |ids|
      ensures ids[i] != ids[j]
    {
      IdAt(WrappingId, from, upto, i);
      IdAt(WrappingId, from, upto, j);
      NearIdsDiffer(from + i, from + j);
    }
    DistinctCounts(ids);
  }

  lemma {:induction false} NearIdsDiffer(m: nat, n: nat)
    requires m < n < m + 0x1_0000_0000
    ensures WrappingId(m) != WrappingId(n)
  {
  }

  lemma {:induction false} ManyIdsRepeat(from: nat, upto: nat)
    requires from + 0x1_0000_0000 < upto
    ensures multiset(Ids(WrappingId, from, upto))[WrappingId(from)] >= 2
  {
    var ids := Ids(WrappingId, from, upto);
    assert ids[0] == WrappingId(from) by { IdAt(WrappingId, from, upto, 0); }
    assert ids[0x1_0000_0000] == WrappingId(from) by {
      IdAt(WrappingId, from, upto, 0x1_0000_0000);
      WrapsAround(from);
    }
    RepeatCounts(ids, 0, 0x1_0000_0000);
  }

  lemma {:induction false} WrapsAround(n: nat)
    ensures WrappingId(n + 0x1_0000_0000) == WrappingId(n)
  {
  }

  lemma {:induction false} DistinctCounts(ids: seq<U32>)
    requires forall i, j :: 0 <= i < j < |ids| ==> ids[i] != ids[j]
    ensures forall id :: multiset(ids)[id] <= 1
  {
    if ids != [] {
      DistinctCounts(ids[1..]);
      assert ids == [ids[0]] + ids[1..];
      assert ids[0] !in ids[1..];
    }
  }

  lemma {:induction false} RepeatCounts(ids: seq<U32>, i: nat, j: nat)
    requires i < j < |ids| && ids[i] == ids[j]
    ensures multiset(ids)[ids[i]] >= 2
  {
    assert ids == ids[..i] + [ids[i]] + ids[i + 1..j] + [ids[j]] + ids[j + 1..];
  }
}

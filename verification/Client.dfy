/**
 The client's calls (`callWithMode`, galay-rpc/kernel/rpc_client.h:288-356): one request, one response, and the two
 comparisons between them.
 */
module Client {
  import opened Wire
  import opened Codec
  import opened Memory
  import opened Ring
  import opened Net
  import opened Awaiting
  import opened Service
  import R = ReadMachine
  import W = WriteMachine
  import Server

  /** The arguments of a call. */
  datatype Call = Call(service: Bytes, method_: Bytes, mode: CallMode, end: bool, payload: Bytes)

  /** How a call ends. Both mismatches are reported as INVALID_RESPONSE. */
  datatype CallResult = Responded(response: Response) | MismatchedId | MismatchedMode | Failed(code: U16)

  function RequestOf(call: Call, id: U32): Request {
    Request(id, call.mode, call.end, call.service, call.method_, call.payload)
  }

  function NextId(id: U32): U32 { (id + 1) % 0x1_0000_0000 }

  /** The comparisons: the id first, then the mode. */
  function Match(q: Request, r: Response): CallResult {
    if r.id != q.id then MismatchedId else if r.mode != q.mode then MismatchedMode else Responded(r)
  }

  /** What a call puts on the wire, field by field: a request reader gets the id and the arguments of the call, and the
      names and the payload stand where a request has them. */
  lemma {:induction false} CallOnWire(call: Call, id: U32, tail: Bytes)
    requires |call.service| <= 0xffff && |call.method_| <= 0xffff
    requires 4 + |call.service| + |call.method_| + |call.payload| <= RPC_MAX_BODY_SIZE
    ensures var b := EncodeRequest(RequestOf(call, id));
            && NamesAt(b, 16, call.service, call.method_, call.payload)
            && HeaderIs(b, 1, EncodeFlags(call.mode, call.end), id, |b| - 16)
            && DecodeRequest(b + tail)
               == Ok(Request(id, call.mode, call.end, call.service, call.method_, call.payload))
  {
    RequestLayout(RequestOf(call, id));
    RequestRoundTrip(RequestOf(call, id), tail);
  }

  /** Which response ends a call how. */
  lemma {:induction false} MatchMeans(call: Call, id: U32, r: Response)
    ensures Match(RequestOf(call, id), r).MismatchedId? <==> r.id != id
    ensures Match(RequestOf(call, id), r).MismatchedMode? <==> r.id == id && r.mode != call.mode
    ensures Match(RequestOf(call, id), r) == Responded(r) <==> r.id == id && r.mode == call.mode
  {
  }

  class RpcClient {
    const ring: RingBuffer
    const socket: Socket
    const max: nat
    var requestId: U32

    ghost predicate Valid()
      reads this, ring
    {
      ring.Valid()
    }

    /** The bytes of the connection that no call has consumed. */
    ghost function Pending(): Bytes
      requires Valid()
      reads this, ring, ring.buf, socket
    {
      ring.Contents() + socket.incoming
    }

    /** A connected client. */
    constructor (ring: RingBuffer, socket: Socket, max: nat)
      requires ring.Valid()
      ensures Valid() && this.ring == ring && this.socket == socket && this.max == max && requestId == 0
    {
      this.ring, this.socket, this.max, this.requestId := ring, socket, max, 0;
    }

    /** `sendRequest`. */
    method SendRequest(call: Call, id: U32) returns (sent: W.WriteResult)
      requires Valid()
      modifies socket`outgoing, socket`writeCount
      ensures var wire := EncodeRequest(RequestOf(call, id));
              var d := Deliver(socket.writePlan, old(socket.writeCount), |wire|);
              && socket.outgoing == old(socket.outgoing) + wire[..d.bytes] && (sent.Sent? <==> d.ok)
              && (d.ok ==> socket.outgoing == old(socket.outgoing) + wire)
              && (!d.ok ==> d.writes > 0 && sent.code == RefusalCode(socket.writePlan(d.writes - 1)))
    {
      var m := RequestMsg(id, call.mode, call.end, call.service, call.method_, Owned(call.payload));
      assert ItemOf(ring.Mem(), m) == RequestItem(RequestOf(call, id));
      sent := W.SendMessage(ring, socket, m);
    }

    /** `getResponse`. */
    method GetResponse() returns (response: Result<Response>)
      requires Valid()
      modifies ring, ring.buf, socket`incoming, socket`readCount
      ensures Valid()
      ensures var a := Await(ResponseReader(max), old(Pending()), ring.Capacity());
              if response.Ok? then a == Outcome(Ok(ResponseItem(response.value)), Pending())
              else
                && Pending() == old(Pending())
                && (NeverFails(socket.readPlan) ==> a.result == Err(response.code))
    {
      ResponseReaderReads(max, Pending(), ring.Capacity());
      ghost var stopped;
      var message;
      message, stopped := R.ReadMessage(ring, socket, ResponseReader(max));
      if message.Err? {
        return Err(message.code);
      }
      response := Ok(ItemOf(ring.Mem(), message.value).response);
    }

    /** `callWithMode`: takes the next id, sends the request and reads one response. If the send fails nothing is
        read. */
    method CallWithMode(call: Call) returns (o: CallResult)
      requires Valid()
      modifies this, ring, ring.buf, socket
      ensures Valid() && requestId == NextId(old(requestId))
      ensures var q := RequestOf(call, old(requestId));
              var d := Deliver(socket.writePlan, old(socket.writeCount), |EncodeRequest(q)|);
              && socket.outgoing == old(socket.outgoing) + EncodeRequest(q)[..d.bytes]
              && (!d.ok ==> o.Failed?) && (o.Failed? ==> Pending() == old(Pending()))
              && (d.ok && !o.Failed? ==>
                    var a := Await(ResponseReader(max), old(Pending()), ring.Capacity());
                    && a.result.Ok? && a.result.value.ResponseItem?
                    && o == Match(q, a.result.value.response) && Pending() == a.rest)
              && (d.ok && o.Failed? && NeverFails(socket.readPlan) ==>
                    Await(ResponseReader(max), old(Pending()), ring.Capacity()).result == Err(o.code))
              && (!d.ok ==> d.writes > 0 && o.code == RefusalCode(socket.writePlan(d.writes - 1)))
              && (d.ok ==> socket.outgoing == old(socket.outgoing) + EncodeRequest(q))
    {
      var id := requestId;
      requestId := NextId(requestId);
      var sent := SendRequest(call, id);
      if sent.SendFailed? {
        return Failed(sent.code);
      }
      var response := GetResponse();
      if response.Err? {
        return Failed(response.code);
      }
      var r := response.value;
      o := if r.id != id then MismatchedId else if r.mode != call.mode then MismatchedMode else Responded(r);
    }
  }

  lemma {:induction false} ResponseReaderReads(max: nat, s: Bytes, cap: nat)
    ensures var o := Await(ResponseReader(max), s, cap);
            if o.result.Ok? then o.result.value.ResponseItem? else o.rest == s
  {
  }

  // ---- Calls against the server -------------------------------------------------------------------------------------

  /** The requests that these calls make, one after the other. */
  function RequestsOf(calls: seq<Call>, id: U32): (qs: seq<Request>)
    ensures |qs| == |calls|
  {
    if calls == [] then [] else [RequestOf(calls[0], id)] + RequestsOf(calls[1..], NextId(id))
  }

  lemma {:induction false} RequestsInOrder(calls: seq<Call>, id: U32, i: nat)
    requires i < |calls|
    ensures RequestsOf(calls, id)[i] == RequestOf(calls[i], (id + i) % 0x1_0000_0000)
  {
    if i > 0 {
      RequestsInOrder(calls[1..], NextId(id), i - 1);
      CountsOn(id, i);
    }
  }

  lemma {:induction false} CountsOn(id: U32, i: nat)
    requires i > 0
    ensures (NextId(id) + (i - 1)) % 0x1_0000_0000 == (id + i) % 0x1_0000_0000
  {
  }

  function AnswersTo(catalogue: Catalogue, behave: Server.Behaviour, qs: seq<Request>): (items: seq<Item>)
    ensures |items| == |qs|
  {
    if qs == [] then []
    else [ResponseItem(Server.Respond(catalogue, behave, qs[0]))] + AnswersTo(catalogue, behave, qs[1..])
  }

  /** Every answer fits its encoding, the client's limit and the client's ring. */
  ghost predicate AllFit(answers: seq<Item>, max: nat, cap: nat) {
    forall i :: 0 <= i < |answers| ==> Fits(ResponseReader(max), answers[i], cap)
  }

  /** What a call reads when the server has sent any prefix of its answers: the next answer, or nothing. */
  lemma {:induction false} NextAnswer(r: Reader, answers: seq<Item>, s: Bytes, cap: nat)
    requires answers != [] && s <= EncodeAll(answers) && Fits(r, answers[0], cap) && r.ResponseReader?
    ensures var o := Await(r, s, cap);
            if |s| >= |EncodeItem(answers[0])| then
              o == Outcome(Ok(answers[0]), s[|EncodeItem(answers[0])|..]) && o.rest <= EncodeAll(answers[1..])
            else o.result == Err(CONNECTION_CLOSED)
  {
    var first, later := EncodeItem(answers[0]), EncodeAll(answers[1..]);
    assert EncodeAll(answers) == first + later;
    if |s| >= |first| {
      PastFirst(s, first, later);
      AwaitEncoded(r, answers[0], s[|first|..], cap);
    } else {
      WithinFirst(s, first, later);
      AwaitPart(r, answers[0], s, cap);
    }
  }

  lemma {:induction false} PastFirst(s: Bytes, first: Bytes, later: Bytes)
    requires s <= first + later && |s| >= |first|
    ensures s == first + s[|first|..] && s[|first|..] <= later
  {
    assert later == (first + later)[|first|..];
  }

  lemma {:induction false} WithinFirst(s: Bytes, first: Bytes, later: Bytes)
    requires s <= first + later && |s| < |first|
    ensures s < first
  {
    assert s == (first + later)[..|s|] == first[..|s|];
  }

  /** A response that a failed call has left behind is what the next call reads: it has a different id, and the call
      ends with a mismatch. That is why calls are only made until one fails. */
  lemma {:induction false} StaleResponseMismatches(q: Request, stale: Response, tail: Bytes, max: nat, cap: nat)
    requires stale.id != q.id && Fits(ResponseReader(max), ResponseItem(stale), cap)
    ensures var o := Await(ResponseReader(max), EncodeResponse(stale) + tail, cap);
            o == Outcome(Ok(ResponseItem(stale)), tail) && Match(q, o.result.value.response) == MismatchedId
  {
    AwaitEncoded(ResponseReader(max), ResponseItem(stale), tail, cap);
  }

  /** One call while the server's answers to it and to later calls are on their way, perhaps only in part. */
  method CallOnce(client: RpcClient, call: Call, ghost catalogue: Catalogue, ghost behave: Server.Behaviour,
                  ghost later: seq<Item>)
    returns (o: CallResult)
    requires client.Valid()
    requires var answer := ResponseItem(Server.Respond(catalogue, behave, RequestOf(call, client.requestId)));
             && Fits(ResponseReader(client.max), answer, client.ring.Capacity())
             && client.Pending() <= EncodeAll([answer] + later)
    modifies client, client.ring, client.ring.buf, client.socket
    ensures client.Valid() && client.requestId == NextId(old(client.requestId))
    ensures var answer := Server.Respond(catalogue, behave, RequestOf(call, old(client.requestId)));
            && (o == Responded(answer) || o.Failed?)
            && (!o.Failed? ==>
                  && client.Pending() <= EncodeAll(later)
                  && |client.Pending()| == |old(client.Pending())| - |EncodeResponse(answer)|)
            && (NeverFails(client.socket.readPlan) && NeverRefuses(client.socket.writePlan) ==>
                  (o.Failed? <==> |old(client.Pending())| < |EncodeResponse(answer)|))
    ensures var out := old(client.socket.outgoing) + EncodeRequest(RequestOf(call, old(client.requestId)));
            client.socket.outgoing <= out && (!o.Failed? ==> client.socket.outgoing == out)
  {
    ghost var q := RequestOf(call, client.requestId);
    ghost var answers := [ResponseItem(Server.Respond(catalogue, behave, q))] + later;
    ghost var d := Deliver(client.socket.writePlan, client.socket.writeCount, |EncodeRequest(q)|);
    assert answers[1..] == later;
    NextAnswer(ResponseReader(client.max), answers, client.Pending(), client.ring.Capacity());
    W.PartOf(client.socket.outgoing, EncodeRequest(q), d.bytes);
    if NeverRefuses(client.socket.writePlan) {
      W.NeverRefused(client.socket.writePlan, client.socket.writeCount, |EncodeRequest(q)|);
    }
    o := client.CallWithMode(call);
  }

  /** Each request got its own answer, up to one whose call failed. */
  ghost predicate InTurn(catalogue: Catalogue, behave: Server.Behaviour, qs: seq<Request>, results: seq<CallResult>) {
    if qs == [] then results == []
    else
      && results != []
      && if results[0].Failed? then |results| == 1
         else
           && results[0] == Responded(Server.Respond(catalogue, behave, qs[0]))
           && InTurn(catalogue, behave, qs[1..], results[1..])
  }

  /** In particular no call ended in a mismatch. */
  lemma {:induction false} NoMismatch(catalogue: Catalogue, behave: Server.Behaviour, qs: seq<Request>,
                                      results: seq<CallResult>, i: nat)
    requires InTurn(catalogue, behave, qs, results) && i < |results|
    ensures i < |qs|
    ensures
      || results[i] == Responded(Server.Respond(catalogue, behave, qs[i]))
      || (results[i].Failed? && i == |results| - 1)
    ensures !results[i].MismatchedId? && !results[i].MismatchedMode?
  {
    if !results[0].Failed? && i > 0 { NoMismatch(catalogue, behave, qs[1..], results[1..], i - 1); }
  }

  function Answered(results: seq<CallResult>): nat {
    if results == [] then 0 else (if results[0].Failed? then 0 else 1) + Answered(results[1..])
  }

  /** How many of these answers are whole in the first `n` bytes of their encodings. */
  function Whole(answers: seq<Item>, n: nat): (k: nat)
    ensures k <= |answers|
  {
    if answers == [] || n < |EncodeItem(answers[0])| then 0
    else 1 + Whole(answers[1..], n - |EncodeItem(answers[0])|)
  }

  lemma {:induction false} AllAreWhole(answers: seq<Item>)
    ensures Whole(answers, |EncodeAll(answers)|) == |answers|
  {
    if answers != [] { AllAreWhole(answers[1..]); }
  }

  /** Any number of calls, one after the other, until one fails, against a server whose answers to these requests arrive
      in whole or in part: whatever the network does, every call but a failed last one gets its own answer, so that no
      call ends in a mismatch, and the client has sent no more than the requests of the calls it made. If nothing fails,
      exactly as many calls are answered as answers arrive in whole; and if all are, what the client has sent is what
      the server was taken to answer. */
  method CallInTurn(client: RpcClient, calls: seq<Call>, ghost catalogue: Catalogue, ghost behave: Server.Behaviour)
    returns (results: seq<CallResult>)
    requires client.Valid()
    requires var answers := AnswersTo(catalogue, behave, RequestsOf(calls, client.requestId));
             client.Pending() <= EncodeAll(answers) && AllFit(answers, client.max, client.ring.Capacity())
    modifies client, client.ring, client.ring.buf, client.socket
    ensures client.Valid() && InTurn(catalogue, behave, RequestsOf(calls, old(client.requestId)), results)
    ensures var qs := RequestsOf(calls, old(client.requestId));
            && |results| <= |calls| && Answered(results) <= |calls|
            && client.socket.outgoing <= old(client.socket.outgoing) + EncodeRequests(qs[..|results|])
            && (Answered(results) == |calls| ==>
                  client.socket.outgoing == old(client.socket.outgoing) + EncodeRequests(qs))
            && (NeverFails(client.socket.readPlan) && NeverRefuses(client.socket.writePlan) ==>
                  Answered(results) == Whole(AnswersTo(catalogue, behave, qs), |old(client.Pending())|))
    decreases |calls|
  {
    if calls == [] {
      assert EncodeRequests(RequestsOf(calls, client.requestId)[..0]) == [];
      return [];
    }
    ghost var qs := RequestsOf(calls, client.requestId);
    ghost var answers := AnswersTo(catalogue, behave, qs);
    FirstAndRest(catalogue, behave, calls, client.requestId);
    var o := CallOnce(client, calls[0], catalogue, behave, answers[1..]);
    if o.Failed? {
      OneRequest(qs);
      results := [o];
      assert EncodeRequests(qs[..|results|]) == EncodeRequest(qs[0]);
      return;
    }
    var later := CallInTurn(client, calls[1..], catalogue, behave);
    results := [o] + later;
    TurnTaken(catalogue, behave, qs, o, later);
    MoreSent(old(client.socket.outgoing), qs, |later|, client.socket.outgoing);
  }

  lemma {:induction false} FirstAndRest(catalogue: Catalogue, behave: Server.Behaviour, calls: seq<Call>, id: U32)
    requires calls != []
    ensures var qs := RequestsOf(calls, id);
            var answers := AnswersTo(catalogue, behave, qs);
            && qs[0] == RequestOf(calls[0], id) && qs[1..] == RequestsOf(calls[1..], NextId(id))
            && answers[1..] == AnswersTo(catalogue, behave, qs[1..])
            && answers == [ResponseItem(Server.Respond(catalogue, behave, qs[0]))] + answers[1..]
  {
  }

  lemma {:induction false} OneRequest(qs: seq<Request>)
    requires qs != []
    ensures EncodeRequests(qs[..1]) == EncodeRequest(qs[0])
  {
    assert qs[..1][1..] == [] && EncodeRequest(qs[0]) + [] == EncodeRequest(qs[0]);
  }

  /** What is sent behind the first request is sent behind where all started. */
  lemma {:induction false} MoreSent(before: Bytes, qs: seq<Request>, n: nat, out: Bytes)
    requires qs != [] && n < |qs| && out <= before + EncodeRequest(qs[0]) + EncodeRequests(qs[1..][..n])
    ensures out <= before + EncodeRequests(qs[..1 + n])
    ensures out == before + EncodeRequest(qs[0]) + EncodeRequests(qs[1..]) ==> out == before + EncodeRequests(qs)
  {
    assert qs[..1 + n][1..] == qs[1..][..n];
    Associate(before, EncodeRequest(qs[0]), EncodeRequests(qs[1..][..n]));
    Associate(before, EncodeRequest(qs[0]), EncodeRequests(qs[1..]));
  }

  lemma {:induction false} TurnTaken(catalogue: Catalogue, behave: Server.Behaviour, qs: seq<Request>, o: CallResult,
                                     later: seq<CallResult>)
    requires qs != [] && o == Responded(Server.Respond(catalogue, behave, qs[0]))
    requires InTurn(catalogue, behave, qs[1..], later)
    ensures InTurn(catalogue, behave, qs, [o] + later) && Answered([o] + later) == 1 + Answered(later)
  {
    assert ([o] + later)[1..] == later;
  }

  function EncodeRequests(qs: seq<Request>): Bytes {
    if qs == [] then [] else EncodeRequest(qs[0]) + EncodeRequests(qs[1..])
  }

  /** What the client is assumed to be sent is what the server sends for what the client sends. */
  lemma {:induction false} ServerAnswers(catalogue: Catalogue, behave: Server.Behaviour, qs: seq<Request>, max: nat,
                                         cap: nat)
    requires forall i :: 0 <= i < |qs| ==> Fits(RequestReader(max), RequestItem(qs[i]), cap)
    ensures Server.AnswerStream(catalogue, behave, max, EncodeRequests(qs), cap)
         == EncodeAll(AnswersTo(catalogue, behave, qs))
  {
    SessionOf(RequestReader(max), Server.Requests(qs), cap);
    AnswersAgree(catalogue, behave, qs);
  }

  lemma {:induction false} AnswersAgree(catalogue: Catalogue, behave: Server.Behaviour, qs: seq<Request>)
    ensures Server.Answers(catalogue, behave, Server.Requests(qs)) == AnswersTo(catalogue, behave, qs)
    ensures EncodeAll(Server.Requests(qs)) == EncodeRequests(qs)
  {
    if qs != [] {
      assert Server.Requests(qs)[1..] == Server.Requests(qs[1..]);
      AnswersAgree(catalogue, behave, qs[1..]);
    }
  }
}

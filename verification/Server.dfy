/**
 The unary server's connection loop, over the real reader, route cache and writer
 (`handleConnection`, galay-rpc/kernel/rpc_server.h:421-520; `RpcContext`, galay-rpc/kernel/rpc_service.h:292-351).
 */
module Server {
  import opened Wire
  import opened Codec
  import opened Memory
  import opened Ring
  import opened Net
  import opened Awaiting
  import opened Service
  import R = ReadMachine
  import W = WriteMachine
  import opened RouteCache

  // ---- What a server answers ------------------------------------------------------------------------------

  /** What a handler leaves in its response: an error code, and either the request's own payload view or data of its
      own. Handlers leave the response's id and mode alone. */
  datatype ReplyBody = Echo | Data(bytes: Bytes)
  datatype Reply = Reply(code: U16, body: ReplyBody)

  type Behaviour = (Handler, Request) -> Reply

  function KeyOf(q: Request): Key { Key(q.service, q.method_, q.mode) }

  function Respond(catalogue: Catalogue, behave: Behaviour, q: Request): Response {
    match Resolve(catalogue, KeyOf(q))
    case Err(c) => Response(q.id, q.mode, true, c, [])
    case Ok(h) =>
      var reply := behave(h, q);
      Response(q.id, q.mode, true, reply.code, if reply.body.Echo? then q.payload else reply.body.bytes)
  }

  function Answer(catalogue: Catalogue, behave: Behaviour, item: Item): Item {
    if item.RequestItem? then ResponseItem(Respond(catalogue, behave, item.request)) else item
  }

  function Answers(catalogue: Catalogue, behave: Behaviour, items: seq<Item>): (r: seq<Item>)
    ensures |r| == |items|
  {
    if items == [] then [] else [Answer(catalogue, behave, items[0])] + Answers(catalogue, behave, items[1..])
  }

  // ---- One iteration ---------------------------------------------------------------------------------------

  datatype Round = Replied | Closed(code: U16)

  /** The cache stands for this catalogue and this hash. */
  ghost predicate Serves(cache: Cache, mix: Mixer, catalogue: Catalogue) {
    forall k :: cache.hashOf(k) == RouteHash(mix, k) && cache.resolve(k) == Resolve(catalogue, k)
  }

  /** The response message for a request message, built while the ring memory holds `mem`: an echoed payload stays
      borrowed. */
  method Handle(mem: Bytes, m: Message, cache: Cache, mix: Mixer, catalogue: Catalogue, behave: Behaviour)
    returns (response: Message)
    requires m.RequestMsg? && PayloadInBounds(m.payload, mem)
    requires cache.Valid() && Serves(cache, mix, catalogue)
    modifies cache, cache.entries
    ensures cache.Valid()
    ensures response.ResponseMsg? && PayloadInBounds(response.payload, mem)
    ensures ItemOf(mem, response) == Answer(catalogue, behave, ItemOf(mem, m))
    ensures response.id == m.id && response.mode == m.mode && response.end
    ensures match Resolve(catalogue, Key(m.service, m.method_, m.mode))
            case Err(c) => response.code == c && response.payload == Owned([])
            case Ok(h) =>
              var reply := behave(h, ItemOf(mem, m).request);
              && response.code == reply.code
              && response.payload == if reply.body.Echo? then m.payload else Owned(reply.body.bytes)
  {
    var request := ItemOf(mem, m).request;
    var key := KeyOf(request);
    var hash := BuildRouteHash(mix, key);
    var handler := cache.Route(key, hash);
    response := ResponseMsg(m.id, m.mode, true, OK, Owned([]));
    if handler.Err? {
      response := response.(code := handler.code);
    } else {
      var reply := behave(handler.value, request);
      var payload := if reply.body.Echo? then m.payload else Owned(reply.body.bytes);
      response := response.(code := reply.code, payload := payload);
    }
  }

  lemma {:induction false} RequestReaderReads(max: nat, s: Bytes, cap: nat)
    ensures var o := Await(RequestReader(max), s, cap);
            o.result.Ok? ==> o.result.value.RequestItem?
  {
  }

  /** The first request of a session is what one read delivers, and the others are what is left. */
  lemma {:induction false} FirstRequest(max: nat, s: Bytes, cap: nat)
    ensures var o, all := Await(RequestReader(max), s, cap), AwaitAll(RequestReader(max), s, cap);
            if o.result.Err? then all.items == [] && all.code == o.result.code
            else
              && o.result.value.RequestItem? && |o.rest| < |s|
              && all == Prepend([o.result.value], AwaitAll(RequestReader(max), o.rest, cap))
              && all.items[0] == o.result.value
  {
    RequestReaderReads(max, s, cap);
    AwaitAllStep(RequestReader(max), s, cap);
  }

  /** Routing, handling and answering one request, while its payload is still borrowed from the ring. */
  method AnswerOne(ring: RingBuffer, socket: Socket, cache: Cache, mix: Mixer, catalogue: Catalogue, behave: Behaviour,
                   m: Message)
    returns (round: Round)
    requires m.RequestMsg? && PayloadInBounds(m.payload, ring.Mem())
    requires cache.Valid() && Serves(cache, mix, catalogue)
    modifies socket`outgoing, socket`writeCount, cache, cache.entries
    ensures cache.Valid()
    ensures var wire := EncodeItem(Answer(catalogue, behave, ItemOf(ring.Mem(), m)));
            && old(socket.outgoing) <= socket.outgoing <= old(socket.outgoing) + wire
            && (round.Replied? <==> socket.outgoing == old(socket.outgoing) + wire)
    ensures NeverRefuses(socket.writePlan) ==> round.Replied?
    ensures round.Closed? ==>
              socket.writeCount > 0 && round.code == RefusalCode(socket.writePlan(socket.writeCount - 1))
  {
    var response := Handle(ring.Mem(), m, cache, mix, catalogue, behave);
    var sent := W.SendMessage(ring, socket, response);
    round := if sent.Sent? then Replied else Closed(sent.code);
  }

  /** One iteration of `handleConnection`. Even when the handler echoes the request's borrowed payload, the bytes sent
      are those of the request as it was read. */
  method ServeOne(ring: RingBuffer, socket: Socket, cache: Cache, mix: Mixer, catalogue: Catalogue, behave: Behaviour,
                  max: nat)
    returns (round: Round)
    requires ring.Valid() && cache.Valid() && Serves(cache, mix, catalogue)
    modifies ring, ring.buf, socket, cache, cache.entries
    ensures ring.Valid() && cache.Valid()
    ensures var before := AwaitAll(RequestReader(max), old(ring.Contents() + socket.incoming), ring.Capacity());
            if before.items == [] then
              && socket.outgoing == old(socket.outgoing) && round.Closed?
              && (NeverFails(socket.readPlan) ==> round.code == before.code)
            else
              var wire := EncodeItem(Answer(catalogue, behave, before.items[0]));
              && old(socket.outgoing) <= socket.outgoing <= old(socket.outgoing) + wire
              && (NeverFails(socket.readPlan) && NeverRefuses(socket.writePlan) ==> round.Replied?)
              && (round.Replied? ==>
                    && socket.outgoing == old(socket.outgoing) + wire
                    && before == Prepend([before.items[0]],
                         AwaitAll(RequestReader(max), ring.Contents() + socket.incoming, ring.Capacity()))
                    && |ring.Contents() + socket.incoming| < |old(ring.Contents() + socket.incoming)|)
  {
    FirstRequest(max, ring.Contents() + socket.incoming, ring.Capacity());
    ghost var stopped;
    var request;
    request, stopped := R.ReadMessage(ring, socket, RequestReader(max));
    if request.Err? {
      return Closed(request.code);
    }
    round := AnswerOne(ring, socket, cache, mix, catalogue, behave, request.value);
  }

  // ---- The connection -----------------------------------------------------------------------------------------

  /** `handleConnection`, stopped after at most `rounds` iterations: whatever the kernel does, the server has sent a
      prefix of the answers to the requests in the byte stream, in order and one per request, and all of them if nothing
      failed and it was not stopped. */
  method HandleConnection(ring: RingBuffer, socket: Socket, catalogue: Catalogue, behave: Behaviour, max: nat,
                          rounds: nat)
    requires ring.Valid()
    modifies ring, ring.buf, socket
    ensures ring.Valid()
    ensures var requests := AwaitAll(RequestReader(max), old(ring.Contents() + socket.incoming), ring.Capacity()).items;
            var answers := EncodeAll(Answers(catalogue, behave, requests));
            && old(socket.outgoing) <= socket.outgoing <= old(socket.outgoing) + answers
            && (NeverFails(socket.readPlan) && NeverRefuses(socket.writePlan)
                && rounds > |old(ring.Contents() + socket.incoming)| ==>
                  socket.outgoing == old(socket.outgoing) + answers)
  {
    var cache := new Cache(key => Resolve(catalogue, key), key => RouteHash(Fnv, key));
    ghost var s0, cap := ring.Contents() + socket.incoming, ring.Capacity();
    ghost var promised := socket.outgoing + AnswerStream(catalogue, behave, max, s0, cap);
    var i := 0;
    while i < rounds
      invariant ring.Valid() && cache.Valid() && fresh(cache) && fresh(cache.entries) && Serves(cache, Fnv, catalogue)
      invariant i <= rounds && old(socket.outgoing) <= socket.outgoing
      invariant socket.outgoing + AnswerStream(catalogue, behave, max, ring.Contents() + socket.incoming, cap)
             == promised
      invariant i + |ring.Contents() + socket.incoming| <= |s0|
    {
      ghost var out, s := socket.outgoing, ring.Contents() + socket.incoming;
      var round := ServeOne(ring, socket, cache, Fnv, catalogue, behave, max);
      AnswerStreamStep(catalogue, behave, max, s, cap, out, socket.outgoing);
      if round.Closed? {
        return;
      }
      i := i + 1;
    }
  }

  /** Everything the server owes for the bytes `s`. */
  ghost function AnswerStream(catalogue: Catalogue, behave: Behaviour, max: nat, s: Bytes, cap: nat): Bytes {
    EncodeAll(Answers(catalogue, behave, AwaitAll(RequestReader(max), s, cap).items))
  }

  lemma {:induction false} AnswerFirst(catalogue: Catalogue, behave: Behaviour, items: seq<Item>)
    ensures items == [] ==> EncodeAll(Answers(catalogue, behave, items)) == []
    ensures items != [] ==>
              EncodeAll(Answers(catalogue, behave, items))
              == EncodeItem(Answer(catalogue, behave, items[0])) + EncodeAll(Answers(catalogue, behave, items[1..]))
  {
  }

  /** Sending any part of the first answer keeps the server within what it owes; sending all of it leaves the rest. */
  lemma {:induction false} AnswerStreamStep(catalogue: Catalogue, behave: Behaviour, max: nat, s: Bytes, cap: nat,
                                            out: Bytes, out': Bytes)
    ensures var before := AwaitAll(RequestReader(max), s, cap);
            if before.items == [] then AnswerStream(catalogue, behave, max, s, cap) == []
            else
              var wire := EncodeItem(Answer(catalogue, behave, before.items[0]));
              var rest := EncodeAll(Answers(catalogue, behave, before.items[1..]));
              && out + wire + rest == out + AnswerStream(catalogue, behave, max, s, cap)
              && (out' <= out + wire ==> out' <= out + AnswerStream(catalogue, behave, max, s, cap))
  {
    var before := AwaitAll(RequestReader(max), s, cap);
    AnswerFirst(catalogue, behave, before.items);
    if before.items != [] {
      Associate(out, EncodeItem(Answer(catalogue, behave, before.items[0])),
                EncodeAll(Answers(catalogue, behave, before.items[1..])));
    }
  }

  // ---- Client and server together ----------------------------------------------------------------------------

  function Requests(qs: seq<Request>): (items: seq<Item>)
    ensures |items| == |qs| && forall i :: 0 <= i < |qs| ==> items[i] == RequestItem(qs[i])
  {
    seq(|qs|, i requires 0 <= i < |qs| => RequestItem(qs[i]))
  }

  lemma {:induction false} AnswersAre(catalogue: Catalogue, behave: Behaviour, items: seq<Item>)
    ensures forall i :: 0 <= i < |items| ==> Answers(catalogue, behave, items)[i] == Answer(catalogue, behave, items[i])
  {
    if items != [] {
      AnswersAre(catalogue, behave, items[1..]);
      assert forall i :: 0 < i < |items| ==>
        && Answers(catalogue, behave, items)[i] == Answers(catalogue, behave, items[1..])[i - 1]
        && items[i] == items[1..][i - 1];
    }
  }

  /** What a response carries: the error of a route that leads nowhere, and nothing else; or the code that the route's
      handler chose for this request, and the request's own payload or the handler's data, as it chose. */
  ghost predicate Fulfils(catalogue: Catalogue, behave: Behaviour, q: Request, r: Response) {
    match Resolve(catalogue, Key(q.service, q.method_, q.mode))
    case Err(c) => r.code == c && r.payload == []
    case Ok(h) =>
      && r.code == behave(h, q).code
      && (behave(h, q).body.Echo? ==> r.payload == q.payload)
      && (behave(h, q).body.Data? ==> r.payload == behave(h, q).body.bytes)
  }

  /** A response belongs to its request. */
  ghost predicate Belongs(catalogue: Catalogue, behave: Behaviour, q: Request, r: Response) {
    r.id == q.id && r.mode == q.mode && r.end && Fulfils(catalogue, behave, q, r)
  }

  lemma {:induction false} RespondBelongs(catalogue: Catalogue, behave: Behaviour, q: Request)
    ensures Belongs(catalogue, behave, q, Respond(catalogue, behave, q))
  {
  }

  /** Conservation across the wire: a client that pipelines any requests to this server and reads responses until the
      server closes gets exactly one response per request, in order, each with its request's id and call mode, and
      with what its route's handler made of the request, an echoed payload included. The only conditions are that every
      message fits its encoding, its reader's limit and its reader's ring. */
  lemma {:induction false} Conversation(catalogue: Catalogue, behave: Behaviour, qs: seq<Request>,
                     serverMax: nat, serverCap: nat, clientMax: nat, clientCap: nat)
    requires forall i :: 0 <= i < |qs| ==>
               && Fits(RequestReader(serverMax), RequestItem(qs[i]), serverCap)
               && Fits(ResponseReader(clientMax), ResponseItem(Respond(catalogue, behave, qs[i])), clientCap)
    ensures var replies := AwaitAll(ResponseReader(clientMax),
                                    AnswerStream(catalogue, behave, serverMax, EncodeAll(Requests(qs)), serverCap),
                                    clientCap).items;
            && |replies| == |qs|
            && forall i :: 0 <= i < |qs| ==>
                 && replies[i] == ResponseItem(Respond(catalogue, behave, qs[i]))
                 && Belongs(catalogue, behave, qs[i], replies[i].response)
  {
    var sent := Requests(qs);
    var reader := RequestReader(serverMax);
    SessionOf(reader, sent, serverCap);
    var answers := Answers(catalogue, behave, sent);
    AnswersAre(catalogue, behave, sent);
    SessionOf(ResponseReader(clientMax), answers, clientCap);
    forall i | 0 <= i < |qs| ensures Belongs(catalogue, behave, qs[i], Respond(catalogue, behave, qs[i])) {
      RespondBelongs(catalogue, behave, qs[i]);
    }
  }
}

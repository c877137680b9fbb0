/**
 What a reader awaiting one message does with the bytes of a connection, independently of how they arrive
 (the `parseFromRingBuffer` members of galay-rpc/kernel/rpc_conn.h, rpc_client.h and rpc_stream.h, and the outcomes of
 `RpcRingBufferReadMachine` in galay-rpc/kernel/rpc_await.h).
 */
module Awaiting {
  import opened Wire
  import opened Codec
  import opened Parser
  import ZeroCopy

  /** The read states: whole-message readers, and the two phases of the stream reader. */
  datatype Reader =
    | RequestReader(max: nat)
    | ResponseReader(max: nat)
    | ExpectedReader(max: nat, expected: U32)
    | FrameReader
    | FrameBodyReader(typ: Byte, id: U32, bodyLength: nat)

  /** `Next` is the stream reader's move from its header to its body phase. */
  datatype Verdict = Wait | Next(consumed: nat, reader: Reader) | Done(consumed: nat, item: Item) | Fail(code: U16)

  function Conclude(p: Parse<Item>): Verdict {
    match p
    case Incomplete => Wait
    case Error(c) => Fail(c)
    case Parsed(n, item) => Done(n, item)
  }

  /** What a reader makes of the readable bytes `s`. */
  function Step(r: Reader, s: Bytes): Verdict {
    match r
    case RequestReader(max) => Conclude(ZeroCopy.RequestVerdict(ParseRequest(s, max)))
    case ResponseReader(max) => Conclude(ZeroCopy.ResponseVerdict(ParseResponse(s, max)))
    case ExpectedReader(max, expected) =>
      (match ParseResponse(s, max)
       case Parsed(n, q) => if q.id != expected then Fail(INVALID_RESPONSE) else Done(n, ResponseItem(q))
       case Incomplete => Wait
       case Error(c) => Fail(c))
    case FrameReader =>
      if |s| < RPC_HEADER_SIZE then Wait
      else (match DecodeHeader(s)
            case None => Fail(INVALID_REQUEST)
            case Some(h) =>
              if h.typ == STREAM_END || h.typ == STREAM_CANCEL || h.bodyLength == 0
              then Done(RPC_HEADER_SIZE, FrameItem(h.typ, h.requestId, []))
              else Next(RPC_HEADER_SIZE, FrameBodyReader(h.typ, h.requestId, h.bodyLength)))
    case FrameBodyReader(typ, id, bodyLength) =>
      if |s| < bodyLength then Wait else Done(bodyLength, FrameItem(typ, id, s[..bodyLength]))
  }

  /** How many bytes the ring must hold at once before the reader can decide. */
  function Demand(r: Reader, s: Bytes): nat {
    match r
    case RequestReader(max) => MessageDemand(s, REQUEST, max)
    case ResponseReader(max) => MessageDemand(s, RESPONSE, max)
    case ExpectedReader(max, _) => MessageDemand(s, RESPONSE, max)
    case FrameReader => RPC_HEADER_SIZE
    case FrameBodyReader(_, _, bodyLength) => bodyLength
  }

  function MessageDemand(s: Bytes, typ: Byte, max: nat): nat {
    if |s| >= RPC_HEADER_SIZE && DecodeHeader(s).Some? && DecodeHeader(s).value.typ == typ
       && DecodeHeader(s).value.bodyLength <= max
    then RPC_HEADER_SIZE + DecodeHeader(s).value.bodyLength
    else RPC_HEADER_SIZE
  }

  /** A reader waits exactly while it has fewer bytes than it demands, and never takes more than it has. */
  lemma {:induction false} WaitsExactlyBelowDemand(r: Reader, s: Bytes)
    ensures Step(r, s).Wait? <==> |s| < Demand(r, s)
    ensures Step(r, s).Done? || Step(r, s).Next? ==> Step(r, s).consumed <= |s|
  {
  }

  /** A decision never changes when more bytes arrive. */
  lemma {:induction false} StepStable(r: Reader, s: Bytes, t: Bytes)
    ensures !Step(r, s).Wait? ==> Step(r, s + t) == Step(r, s)
    ensures Step(r, s).Wait? ==> |s| < Demand(r, s + t)
  {
    if |s| >= RPC_HEADER_SIZE { HeaderLocal(s, t); }
    WaitsExactlyBelowDemand(r, s);
    match r {
      case RequestReader(max) => if !Step(r, s).Wait? { RequestParserStable(s, t, max); }
      case ResponseReader(max) => if !Step(r, s).Wait? { ResponseParserStable(s, t, max); }
      case ExpectedReader(max, _) => if !Step(r, s).Wait? { ResponseParserStable(s, t, max); }
      case FrameReader =>
      case FrameBodyReader(_, _, n) => if |s| >= n { assert (s + t)[..n] == s[..n]; }
    }
  }

  /** Where a read that started as `r0` on the bytes `s0` can stand before it is over: where it started, or, for the
      stream reader, past the header. */
  ghost predicate Underway(r0: Reader, s0: Bytes, r: Reader, s: Bytes) {
    || (r == r0 && s == s0)
    || (&& r0.FrameReader? && |s0| >= RPC_HEADER_SIZE && s == s0[RPC_HEADER_SIZE..]
        && Step(r0, s0) == Next(RPC_HEADER_SIZE, r))
  }

  /** The result of awaiting one message, and the bytes of the connection left for the next await. */
  datatype Outcome = Outcome(result: Result<Item>, rest: Bytes)

  /** What awaiting a message comes to when the peer sends exactly `s` and closes, through a ring of capacity `cap`:
      nothing here depends on how the bytes are split into reads or where the ring wraps. */
  function Await(r: Reader, s: Bytes, cap: nat): Outcome
    decreases if r.FrameReader? then 1 else 0
  {
    if |s| < Demand(r, s) && |s| < cap then Outcome(Err(CONNECTION_CLOSED), s)
    else if cap < Demand(r, s) then Outcome(Err(INTERNAL_ERROR), s)
    else
      WaitsExactlyBelowDemand(r, s);
      match Step(r, s)
      case Wait => Outcome(Err(CONNECTION_CLOSED), s)
      case Fail(c) => Outcome(Err(c), s)
      case Done(n, item) => Outcome(Ok(item), s[n..])
      case Next(n, body) => Await(body, s[n..], cap)
  }

  /** One parsing attempt on the buffered part `c` of the connection's bytes `c + net`. */
  lemma {:induction false} AwaitStep(r: Reader, c: Bytes, net: Bytes, cap: nat)
    requires |c| <= cap
    ensures Step(r, c).Done? || Step(r, c).Next? ==> Step(r, c).consumed <= |c|
    ensures match Step(r, c)
            case Wait =>
              && (|c| == cap ==> Await(r, c + net, cap) == Outcome(Err(INTERNAL_ERROR), c + net))
              && (|c| < cap && net == [] ==> Await(r, c + net, cap) == Outcome(Err(CONNECTION_CLOSED), c + net))
            case Fail(code) => Await(r, c + net, cap) == Outcome(Err(code), c + net)
            case Done(n, item) => Await(r, c + net, cap) == Outcome(Ok(item), c[n..] + net)
            case Next(n, body) => Await(r, c + net, cap) == Await(body, c[n..] + net, cap)
  {
    WaitsExactlyBelowDemand(r, c);
    WaitsExactlyBelowDemand(r, c + net);
    StepStable(r, c, net);
    if !Step(r, c).Wait? { DemandStable(r, c, net); }
    if Step(r, c).Done? || Step(r, c).Next? {
      assert (c + net)[Step(r, c).consumed..] == c[Step(r, c).consumed..] + net;
    }
  }

  lemma {:induction false} DemandStable(r: Reader, s: Bytes, t: Bytes)
    requires |s| >= Demand(r, s)
    ensures Demand(r, s + t) == Demand(r, s)
  {
    if |s| >= RPC_HEADER_SIZE { HeaderLocal(s, t); }
  }

  // ---- One encoded message --------------------------------------------------------------------------

  /** The message is one this reader is for, and its encoding is undamaged by truncation. */
  predicate Suits(r: Reader, item: Item) {
    match item
    case RequestItem(q) => r.RequestReader? && RequestFits(q) && |EncodeRequestBody(q)| <= r.max
    case ResponseItem(q) =>
      && (r.ResponseReader? || (r.ExpectedReader? && r.expected == q.id))
      && ResponseFits(q) && |EncodeResponseBody(q)| <= r.max
    case FrameItem(typ, id, body) =>
      && r.FrameReader? && |body| <= RPC_MAX_BODY_SIZE
      && (typ == STREAM_END || typ == STREAM_CANCEL ==> body == [])
  }

  /** The ring space a message needs: whole-message readers hold all of it at once, the stream reader gives up the
      header before it waits for the body. */
  function Space(r: Reader, item: Item): nat {
    if r.FrameReader? && item.FrameItem? then
      (if |item.payload| > RPC_HEADER_SIZE then |item.payload| else RPC_HEADER_SIZE)
    else |EncodeItem(item)|
  }

  /** A message that a reader with a ring of this capacity can deliver. */
  predicate Fits(r: Reader, item: Item, cap: nat) { Suits(r, item) && Space(r, item) <= cap }

  /** The exact capacity bound: a message some peer sends in full is delivered, leaving exactly what follows it, when
      the ring has the space; otherwise the await ends with INTERNAL_ERROR, and a stream reader that got as far as the
      header has consumed it and left the body behind. */
  lemma {:induction false} AwaitEncoded(r: Reader, item: Item, tail: Bytes, cap: nat)
    requires Suits(r, item)
    ensures Space(r, item) <= cap ==> Await(r, EncodeItem(item) + tail, cap) == Outcome(Ok(item), tail)
    ensures Space(r, item) > cap ==>
              Await(r, EncodeItem(item) + tail, cap)
              == Outcome(Err(INTERNAL_ERROR),
                         if item.FrameItem? && cap >= RPC_HEADER_SIZE then item.payload + tail
                         else EncodeItem(item) + tail)
  {
    match item {
      case RequestItem(q) => AwaitEncodedRequest(r, q, tail, cap);
      case ResponseItem(q) => AwaitEncodedResponse(r, q, tail, cap);
      case FrameItem(typ, id, body) => AwaitEncodedFrame(typ, id, body, tail, cap);
    }
  }

  lemma {:induction false} EncodedRequestStep(r: Reader, q: Request, tail: Bytes)
    requires Suits(r, RequestItem(q))
    ensures var s := EncodeRequest(q) + tail;
            && Step(r, s) == Done(|EncodeRequest(q)|, RequestItem(q)) && Demand(r, s) == |EncodeRequest(q)|
            && s[|EncodeRequest(q)|..] == tail
  {
    var s := EncodeRequest(q) + tail;
    RequestRoundTrip(q, tail);
    EncodedHeader(REQUEST, EncodeFlags(q.mode, q.end), q.id, EncodeRequestBody(q), tail);
    RequestParserAgreesWithCodec(s, r.max);
  }

  lemma {:induction false} AwaitEncodedRequest(r: Reader, q: Request, tail: Bytes, cap: nat)
    requires Suits(r, RequestItem(q))
    ensures var s := EncodeRequest(q) + tail;
            Await(r, s, cap) == if |EncodeRequest(q)| <= cap then Outcome(Ok(RequestItem(q)), tail)
                                else Outcome(Err(INTERNAL_ERROR), s)
  {
    EncodedRequestStep(r, q, tail);
  }

  lemma {:induction false} EncodedResponseStep(r: Reader, q: Response, tail: Bytes)
    requires Suits(r, ResponseItem(q))
    ensures var s := EncodeResponse(q) + tail;
            && Step(r, s) == Done(|EncodeResponse(q)|, ResponseItem(q)) && Demand(r, s) == |EncodeResponse(q)|
            && s[|EncodeResponse(q)|..] == tail
  {
    var s := EncodeResponse(q) + tail;
    ResponseRoundTrip(q, tail);
    EncodedHeader(RESPONSE, EncodeFlags(q.mode, q.end), q.id, EncodeResponseBody(q), tail);
    ResponseParserAgreesWithCodec(s, r.max);
  }

  lemma {:induction false} AwaitEncodedResponse(r: Reader, q: Response, tail: Bytes, cap: nat)
    requires Suits(r, ResponseItem(q))
    ensures var s := EncodeResponse(q) + tail;
            Await(r, s, cap) == if |EncodeResponse(q)| <= cap then Outcome(Ok(ResponseItem(q)), tail)
                                else Outcome(Err(INTERNAL_ERROR), s)
  {
    EncodedResponseStep(r, q, tail);
  }

  lemma {:induction false} EncodedFrameStep(typ: Byte, id: U32, body: Bytes, tail: Bytes)
    requires Suits(FrameReader, FrameItem(typ, id, body))
    ensures var s := EncodeFrame(typ, id, body) + tail;
            && |s| >= RPC_HEADER_SIZE && s[RPC_HEADER_SIZE..] == body + tail
            && Step(FrameReader, s) == if body == [] then Done(RPC_HEADER_SIZE, FrameItem(typ, id, []))
                                       else Next(RPC_HEADER_SIZE, FrameBodyReader(typ, id, |body|))
  {
    EncodedHeader(typ, 0, id, body, tail);
  }

  lemma {:induction false} AwaitBody(typ: Byte, id: U32, body: Bytes, tail: Bytes, cap: nat)
    requires body != []
    ensures Await(FrameBodyReader(typ, id, |body|), body + tail, cap)
         == if |body| <= cap then Outcome(Ok(FrameItem(typ, id, body)), tail)
            else Outcome(Err(INTERNAL_ERROR), body + tail)
  {
  }

  lemma {:induction false} AwaitEncodedFrame(typ: Byte, id: U32, body: Bytes, tail: Bytes, cap: nat)
    requires Suits(FrameReader, FrameItem(typ, id, body))
    ensures var o := Await(FrameReader, EncodeFrame(typ, id, body) + tail, cap);
            if cap < RPC_HEADER_SIZE then o == Outcome(Err(INTERNAL_ERROR), EncodeFrame(typ, id, body) + tail)
            else if |body| <= cap then o == Outcome(Ok(FrameItem(typ, id, body)), tail)
            else o == Outcome(Err(INTERNAL_ERROR), body + tail)
  {
    EncodedFrameStep(typ, id, body, tail);
    if body == [] {
      assert body + tail == tail;
    } else {
      AwaitBody(typ, id, body, tail, cap);
    }
  }

  /** A body behind an END or CANCEL header is not consumed: the reader delivers an empty frame and leaves the body to
      be read as the next header. Together with `AwaitEncodedFrame`, frames come back as sent exactly when such frames
      have empty bodies, as the writer builds them. */
  lemma {:induction false} EndBodyIsLeftBehind(typ: Byte, id: U32, body: Bytes, tail: Bytes, cap: nat)
    requires (typ == STREAM_END || typ == STREAM_CANCEL) && |body| <= RPC_MAX_BODY_SIZE && cap >= RPC_HEADER_SIZE
    ensures Await(FrameReader, EncodeFrame(typ, id, body) + tail, cap)
         == Outcome(Ok(FrameItem(typ, id, [])), body + tail)
  {
    EncodedHeader(typ, 0, id, body, tail);
    assert (EncodeFrame(typ, id, body) + tail)[RPC_HEADER_SIZE..] == body + tail;
  }

  /** A response with another id than the one expected is refused, and stays where it is. */
  lemma {:induction false} ExpectedRefusesOthers(max: nat, expected: U32, q: Response, tail: Bytes, cap: nat)
    requires Fits(ResponseReader(max), ResponseItem(q), cap) && q.id != expected
    ensures var s := EncodeResponse(q) + tail;
            Await(ExpectedReader(max, expected), s, cap) == Outcome(Err(INVALID_RESPONSE), s)
  {
    EncodedResponseStep(ResponseReader(max), q, tail);
  }

  /** What a reader reports when a header has come in that it cannot use: one without the magic or with a body above 16
      MiB, one of another type, or one that announces more than the reader's limit. Nothing of it is consumed. */
  lemma {:induction false} BadHeaderIsRefused(r: Reader, s: Bytes, cap: nat)
    requires !r.FrameBodyReader? && |s| >= 16 && cap >= 16
    requires var valid := s[..4] == [0x47, 0x52, 0x50, 0x43] && U32At(s, 12) <= 16 * 1024 * 1024;
             match r
             case RequestReader(max) => !valid || s[5] != 0x01 || U32At(s, 12) > max
             case ResponseReader(max) => !valid || s[5] != 0x02 || U32At(s, 12) > max
             case ExpectedReader(max, _) => !valid || s[5] != 0x02 || U32At(s, 12) > max
             case FrameReader => !valid
             case FrameBodyReader(_, _, _) => false
    ensures var code := if r.RequestReader? || r.FrameReader? then INVALID_REQUEST else INVALID_RESPONSE;
            Await(r, s, cap) == Outcome(Err(code), s)
  {
    DecodedLayout(s);
  }

  /** A whole message with a good header whose body is not one of its kind: names that run past its end, or no room for
      an error code. */
  lemma {:induction false} BadBodyIsRefused(r: Reader, s: Bytes, cap: nat)
    requires (r.RequestReader? || r.ResponseReader? || r.ExpectedReader?) && |s| >= 16
    requires s[..4] == [0x47, 0x52, 0x50, 0x43] && U32At(s, 12) <= r.max && U32At(s, 12) <= 16 * 1024 * 1024
    requires 16 + U32At(s, 12) <= |s| && 16 + U32At(s, 12) <= cap
    requires if r.RequestReader? then s[5] == 0x01 && DecodeNames(s[16..16 + U32At(s, 12)]).None?
             else s[5] == 0x02 && U32At(s, 12) < 2
    ensures Await(r, s, cap) == Outcome(Err(DESERIALIZATION_ERROR), s)
  {
    DecodedLayout(s);
    if r.RequestReader? { ParseNamesAgrees(s, DecodeHeader(s).value, 16 + U32At(s, 12)); }
  }

  /** A whole-message reader delivers nothing of a message of which only a part arrives. */
  lemma {:induction false} AwaitPart(r: Reader, item: Item, s: Bytes, cap: nat)
    requires Fits(r, item, cap) && !r.FrameReader? && s < EncodeItem(item)
    ensures Await(r, s, cap) == Outcome(Err(CONNECTION_CLOSED), s)
  {
    var t := EncodeItem(item)[|s|..];
    assert s + t == EncodeItem(item) == EncodeItem(item) + [];
    WaitsExactlyBelowDemand(r, s);
    StepStable(r, s, t);
    match item {
      case RequestItem(q) => EncodedRequestStep(r, q, []);
      case ResponseItem(q) => EncodedResponseStep(r, q, []);
      case FrameItem(_, _, _) =>
    }
  }

  /** Of a frame whose body arrives only in part the stream reader takes the header, and leaves that part behind. */
  lemma {:induction false} AwaitPartOfBody(typ: Byte, id: U32, body: Bytes, part: Bytes, cap: nat)
    requires Fits(FrameReader, FrameItem(typ, id, body), cap) && part < body
    ensures Await(FrameReader, EncodeHeader(NewHeader(typ, 0, id, |body|)) + part, cap)
         == Outcome(Err(CONNECTION_CLOSED), part)
  {
    HeaderAndPart(typ, id, body, part);
    assert Await(FrameBodyReader(typ, id, |body|), part, cap) == Outcome(Err(CONNECTION_CLOSED), part);
  }

  lemma {:induction false} HeaderAndPart(typ: Byte, id: U32, body: Bytes, part: Bytes)
    requires Suits(FrameReader, FrameItem(typ, id, body)) && body != []
    ensures var s := EncodeHeader(NewHeader(typ, 0, id, |body|)) + part;
            && s[RPC_HEADER_SIZE..] == part
            && Step(FrameReader, s) == Next(RPC_HEADER_SIZE, FrameBodyReader(typ, id, |body|))
  {
    HeaderRoundTrip(NewHeader(typ, 0, id, |body|), part);
  }

  // ---- A whole connection ---------------------------------------------------------------------------

  function EncodeAll(items: seq<Item>): Bytes {
    if items == [] then [] else EncodeItem(items[0]) + EncodeAll(items[1..])
  }

  /** What repeated awaits with a fresh reader deliver until one of them fails, and that failure. */
  datatype Session = Session(items: seq<Item>, code: U16, rest: Bytes)

  function AwaitAll(r: Reader, s: Bytes, cap: nat): Session
    requires !r.FrameBodyReader?
    decreases |s|
  {
    AwaitShrinks(r, s, cap);
    var o := Await(r, s, cap);
    match o.result
    case Err(c) => Session([], c, o.rest)
    case Ok(item) =>
      var later := AwaitAll(r, o.rest, cap);
      Session([item] + later.items, later.code, later.rest)
  }

  lemma {:induction false} AwaitShrinks(r: Reader, s: Bytes, cap: nat)
    requires !r.FrameBodyReader?
    ensures Await(r, s, cap).result.Ok? ==> |Await(r, s, cap).rest| + RPC_HEADER_SIZE <= |s|
    ensures |Await(r, s, cap).rest| <= |s|
  {
    if |s| >= RPC_HEADER_SIZE {
      match r {
        case RequestReader(max) => RequestParserAgreesWithCodec(s, max);
        case ResponseReader(max) => ResponseParserAgreesWithCodec(s, max);
        case ExpectedReader(max, _) => ResponseParserAgreesWithCodec(s, max);
        case FrameReader =>
        case FrameBodyReader(_, _, _) =>
      }
    }
  }

  lemma {:induction false} AwaitAllStep(r: Reader, s: Bytes, cap: nat)
    requires !r.FrameBodyReader?
    ensures var o := Await(r, s, cap);
            && (o.result.Err? ==> AwaitAll(r, s, cap) == Session([], o.result.code, o.rest))
            && (o.result.Ok? ==>
                  && |o.rest| < |s|
                  && AwaitAll(r, s, cap) == Prepend([o.result.value], AwaitAll(r, o.rest, cap)))
  {
    AwaitShrinks(r, s, cap);
  }

  function Prepend(items: seq<Item>, later: Session): Session { later.(items := items + later.items) }

  lemma {:induction false} DeliversOne(r: Reader, item: Item, s: Bytes, rest: Bytes, cap: nat)
    requires !r.FrameBodyReader? && Fits(r, item, cap) && s == EncodeItem(item) + rest
    ensures AwaitAll(r, s, cap) == Prepend([item], AwaitAll(r, rest, cap))
  {
    AwaitEncoded(r, item, rest, cap);
  }

  /** Messages sent back to back come out one by one, unchanged and in order; what follows them is read as if it had
      come alone. */
  lemma {:induction false} DeliversAll(r: Reader, items: seq<Item>, tail: Bytes, cap: nat)
    requires !r.FrameBodyReader?
    requires forall i :: 0 <= i < |items| ==> Fits(r, items[i], cap)
    ensures AwaitAll(r, EncodeAll(items) + tail, cap) == Prepend(items, AwaitAll(r, tail, cap))
  {
    if items == [] {
      assert EncodeAll(items) + tail == tail;
    } else {
      var s, rest := EncodeAll(items) + tail, EncodeAll(items[1..]) + tail;
      Associate(EncodeItem(items[0]), EncodeAll(items[1..]), tail);
      DeliversOne(r, items[0], s, rest, cap);
      DeliversAll(r, items[1..], tail, cap);
      PrependTwice(items, AwaitAll(r, tail, cap));
    }
  }

  lemma {:induction false} Associate(a: Bytes, b: Bytes, c: Bytes)
    ensures a + b + c == a + (b + c)
  {
  }

  lemma {:induction false} PrependTwice(items: seq<Item>, later: Session)
    requires items != []
    ensures Prepend([items[0]], Prepend(items[1..], later)) == Prepend(items, later)
  {
  }

  lemma {:induction false} SessionOf(r: Reader, items: seq<Item>, cap: nat)
    requires !r.FrameBodyReader?
    requires forall i :: 0 <= i < |items| ==> Fits(r, items[i], cap)
    ensures AwaitAll(r, EncodeAll(items), cap).items == items
  {
    DeliversAll(r, items, [], cap);
    assert EncodeAll(items) + [] == EncodeAll(items);
    NothingToAwait(r, cap);
  }

  lemma {:induction false} NothingToAwait(r: Reader, cap: nat)
    requires !r.FrameBodyReader?
    ensures AwaitAll(r, [], cap).items == []
  {
  }

  lemma {:induction false} FreshFrameLength(s: Bytes, cap: nat)
    ensures var o := Await(FrameReader, s, cap);
            o.result.Ok? ==> o.result.value.FrameItem? && |o.rest| == |s| - RPC_HEADER_SIZE - |o.result.value.payload|
  {
  }

  /** Giving up on a stream read is safe only in its header phase: once the header has been consumed, a fresh reader
      never comes to what the abandoned one would have come to. Even if the body happens to start with a frame of the
      same type, id and payload, it ends up elsewhere in the stream. */
  lemma {:induction false} AbandonedBodyIsLost(typ: Byte, id: U32, n: nat, s: Bytes, cap: nat)
    requires n > 0 && Await(FrameBodyReader(typ, id, n), s, cap).result.Ok?
    ensures Await(FrameReader, s, cap) != Await(FrameBodyReader(typ, id, n), s, cap)
  {
    assert Await(FrameBodyReader(typ, id, n), s, cap) == Outcome(Ok(FrameItem(typ, id, s[..n])), s[n..]);
    FreshFrameLength(s, cap);
  }
}

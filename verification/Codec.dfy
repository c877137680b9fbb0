/**
 Message values, their wire form (`serialize` in galay-rpc/protoc/rpc_message.h and galay-rpc/kernel/rpc_stream.h)
 and the contiguous decoder `RpcCodec` (galay-rpc/protoc/rpc_codec.h).
 */
module Codec {
  import opened Wire

  datatype Result<+T> = Ok(value: T) | Err(code: U16)

  datatype Request = Request(id: U32, mode: CallMode, end: bool, service: Bytes, method_: Bytes, payload: Bytes)
  datatype Response = Response(id: U32, mode: CallMode, end: bool, code: U16, payload: Bytes)

  /** A message as its reader or writer sees it, whichever kind it is. */
  datatype Item =
    | RequestItem(request: Request)
    | ResponseItem(response: Response)
    | FrameItem(typ: Byte, id: U32, payload: Bytes)

  // ---- Encoding -----------------------------------------------------------------------------

  /** A name behind its length, which is cast to 16 bits. */
  function EncodeName(name: Bytes): (b: Bytes)
    ensures |b| == 2 + |name|
  {
    Be16(|name| % 0x1_0000) + name
  }

  function EncodeRequestBody(r: Request): Bytes { EncodeName(r.service) + EncodeName(r.method_) + r.payload }

  function EncodeRequest(r: Request): Bytes {
    var body := EncodeRequestBody(r);
    EncodeHeader(NewHeader(REQUEST, EncodeFlags(r.mode, r.end), r.id, |body|)) + body
  }

  function EncodeResponseBody(r: Response): Bytes { Be16(r.code) + r.payload }

  function EncodeResponse(r: Response): Bytes {
    var body := EncodeResponseBody(r);
    EncodeHeader(NewHeader(RESPONSE, EncodeFlags(r.mode, r.end), r.id, |body|)) + body
  }

  /** A stream frame: control frames have an empty body. */
  function EncodeFrame(typ: Byte, id: U32, body: Bytes): Bytes {
    EncodeHeader(NewHeader(typ, 0, id, |body|)) + body
  }

  function EncodeInitBody(service: Bytes, method_: Bytes): Bytes { EncodeName(service) + EncodeName(method_) }

  function EncodeItem(item: Item): Bytes {
    match item
    case RequestItem(r) => EncodeRequest(r)
    case ResponseItem(r) => EncodeResponse(r)
    case FrameItem(typ, id, body) => EncodeFrame(typ, id, body)
  }

  // ---- Decoding: `RpcCodec` -----------------------------------------------------------------

  datatype Route = Route(service: Bytes, method_: Bytes, rest: Bytes)

  /** The two names at the front of a request or stream-init body, and what follows them;
      `None` when `deserializeBody` returns false. */
  function DecodeNames(body: Bytes): Option<Route> {
    if |body| < 4 then None
    else
      var n := U16At(body, 0);
      if 2 + n > |body| then None
      else if 2 + n + 2 > |body| then None
      else
        var m := U16At(body, 2 + n);
        if 4 + n + m > |body| then None
        else Some(Route(body[2..2 + n], body[4 + n..4 + n + m], body[4 + n + m..]))
  }

  /** `RpcCodec::decodeRequest` on a buffer that may hold more than one message. */
  function DecodeRequest(s: Bytes): Result<Request> {
    if |s| < RPC_HEADER_SIZE then Err(INVALID_REQUEST)
    else match DecodeHeader(s)
      case None => Err(INVALID_REQUEST)
      case Some(h) =>
        if h.typ != REQUEST then Err(INVALID_REQUEST)
        else if |s| < RPC_HEADER_SIZE + h.bodyLength then Err(INVALID_REQUEST)
        else match DecodeNames(s[RPC_HEADER_SIZE..RPC_HEADER_SIZE + h.bodyLength])
          case None => Err(DESERIALIZATION_ERROR)
          case Some(names) =>
            Ok(Request(h.requestId, DecodeMode(h.flags), DecodeEnd(h.flags), names.service, names.method_, names.rest))
  }

  /** `RpcCodec::decodeResponse`. */
  function DecodeResponse(s: Bytes): Result<Response> {
    if |s| < RPC_HEADER_SIZE then Err(INVALID_RESPONSE)
    else match DecodeHeader(s)
      case None => Err(INVALID_RESPONSE)
      case Some(h) =>
        if h.typ != RESPONSE then Err(INVALID_RESPONSE)
        else if |s| < RPC_HEADER_SIZE + h.bodyLength then Err(INVALID_RESPONSE)
        else
          var body := s[RPC_HEADER_SIZE..RPC_HEADER_SIZE + h.bodyLength];
          if |body| < 2 then Err(DESERIALIZATION_ERROR)
          else Ok(Response(h.requestId, DecodeMode(h.flags), DecodeEnd(h.flags), U16At(body, 0), body[2..]))
  }

  /** `RpcCodec::messageLength`: 0 when there is no valid header yet. */
  function MessageLength(s: Bytes): nat {
    if |s| < RPC_HEADER_SIZE then 0
    else match DecodeHeader(s)
      case None => 0
      case Some(h) => RPC_HEADER_SIZE + h.bodyLength
  }

  // ---- The bytes themselves -------------------------------------------------------------------------------------

  /** Two names, each behind its length in network order, the service first, and what follows them. */
  predicate NamesAt(b: Bytes, i: nat, service: Bytes, method_: Bytes, rest: Bytes) {
    var n, m := |service|, |method_|;
    && |b| == i + 2 + n + 2 + m + |rest|
    && U16At(b, i) == n && b[i + 2..i + 2 + n] == service
    && U16At(b, i + 2 + n) == m && b[i + 4 + n..i + 4 + n + m] == method_
    && b[i + 4 + n + m..] == rest
  }

  lemma {:induction false} NamesLayout(front: Bytes, service: Bytes, method_: Bytes, rest: Bytes)
    requires NameFits(service) && NameFits(method_)
    ensures NamesAt(front + (EncodeName(service) + EncodeName(method_) + rest), |front|, service, method_, rest)
  {
    NameLayout(front, service, EncodeName(method_) + rest);
    NameLayout(front + EncodeName(service), method_, rest);
    Regrouped(front, EncodeName(service), EncodeName(method_), rest);
  }

  lemma {:induction false} Regrouped(a: Bytes, b: Bytes, c: Bytes, d: Bytes)
    ensures a + (b + c + d) == a + (b + (c + d)) && a + (b + c + d) == a + b + (c + d)
  {
  }

  lemma {:induction false} NameLayout(front: Bytes, name: Bytes, rest: Bytes)
    requires NameFits(name)
    ensures var b, i, n := front + (EncodeName(name) + rest), |front|, |name|;
            |b| == i + 2 + n + |rest| && U16At(b, i) == n && b[i + 2..i + 2 + n] == name && b[i + 2 + n..] == rest
  {
    var b, i, n := front + (EncodeName(name) + rest), |front|, |name|;
    assert n % 0x1_0000 == n;
    assert b[i] == Be16(n)[0] && b[i + 1] == Be16(n)[1];
    ByteOrderIsPortable16(Big, n);
  }

  /** A header with the values every sender uses. */
  predicate HeaderIs(b: Bytes, typ: Byte, flags: Byte, id: U32, bodyLength: nat) {
    && |b| >= 16 && b[..4] == [0x47, 0x52, 0x50, 0x43] && b[4] == 1 && b[5] == typ && b[6] == flags && b[7] == 0
    && U32At(b, 8) == id && U32At(b, 12) == bodyLength
  }

  lemma {:induction false} NewHeaderLayout(typ: Byte, flags: Byte, id: U32, body: Bytes)
    requires |body| <= RPC_MAX_BODY_SIZE
    ensures HeaderIs(EncodeHeader(NewHeader(typ, flags, id, |body|)) + body, typ, flags, id, |body|)
  {
    var h := NewHeader(typ, flags, id, |body|);
    HeaderLayout(h, body);
    assert h.bodyLength == |body|;
    HeaderRoundTrip(h, body);
    DecodedLayout(EncodeHeader(h) + body);
  }

  /** A request on the wire: type 1, the mode in the low two flag bits and the end mark in the third, then the service
      name, the method name and the payload. */
  lemma {:induction false} RequestLayout(r: Request)
    requires RequestFits(r)
    ensures var b := EncodeRequest(r);
            && HeaderIs(b, 1, EncodeFlags(r.mode, r.end), r.id, |b| - 16)
            && NamesAt(b, 16, r.service, r.method_, r.payload)
  {
    var h := EncodeHeader(NewHeader(REQUEST, EncodeFlags(r.mode, r.end), r.id, |EncodeRequestBody(r)|));
    NewHeaderLayout(REQUEST, EncodeFlags(r.mode, r.end), r.id, EncodeRequestBody(r));
    NamesLayout(h, r.service, r.method_, r.payload);
  }

  /** A response: type 2, then the error code in network order and the payload. */
  lemma {:induction false} ResponseLayout(r: Response)
    requires ResponseFits(r)
    ensures var b := EncodeResponse(r);
            && HeaderIs(b, 2, EncodeFlags(r.mode, r.end), r.id, |b| - 16)
            && |b| == 18 + |r.payload| && U16At(b, 16) == r.code && b[18..] == r.payload
  {
    NewHeaderLayout(RESPONSE, EncodeFlags(r.mode, r.end), r.id, EncodeResponseBody(r));
    var b := EncodeResponse(r);
    assert b[16] == Be16(r.code)[0] && b[17] == Be16(r.code)[1];
    ByteOrderIsPortable16(Big, r.code);
    assert b[18..] == EncodeResponseBody(r)[2..];
  }

  /** A stream frame: its type, no flags, the stream's id, and the payload as its body. */
  lemma {:induction false} FrameLayout(typ: Byte, id: U32, body: Bytes)
    requires |body| <= RPC_MAX_BODY_SIZE
    ensures var b := EncodeFrame(typ, id, body);
            HeaderIs(b, typ, 0, id, |body|) && b[16..] == body
  {
    NewHeaderLayout(typ, 0, id, body);
  }

  /** The body of a STREAM_INIT: the service name and the method name. */
  lemma {:induction false} InitLayout(service: Bytes, method_: Bytes)
    requires NameFits(service) && NameFits(method_)
    ensures NamesAt(EncodeInitBody(service, method_), 0, service, method_, [])
  {
    NamesLayout([], service, method_, []);
    assert [] + (EncodeName(service) + EncodeName(method_) + []) == EncodeInitBody(service, method_);
  }

  /** Whole messages, byte by byte: a request for method "mn" of service "S", a response that reports METHOD_NOT_FOUND,
      and a CANCEL frame. */
  lemma {:induction false} KnownRequest()
    ensures EncodeRequest(Request(1, ServerStreaming, true, [0x53], [0x6d, 0x6e], [0xff]))
         == [0x47, 0x52, 0x50, 0x43, 1, 1, 6, 0, 0, 0, 0, 1, 0, 0, 0, 8] + [0, 1, 0x53, 0, 2, 0x6d, 0x6e, 0xff]
  {
    var r := Request(1, ServerStreaming, true, [0x53], [0x6d, 0x6e], [0xff]);
    assert EncodeRequestBody(r) == [0, 1, 0x53, 0, 2, 0x6d, 0x6e, 0xff];
    KnownHeader(REQUEST, 6, 1, 8, [0, 0, 0, 1], [0, 0, 0, 8]);
  }

  lemma {:induction false} KnownResponse()
    ensures EncodeResponse(Response(0x0102_0304, Unary, true, METHOD_NOT_FOUND, [0xaa]))
         == [0x47, 0x52, 0x50, 0x43, 1, 2, 4, 0, 1, 2, 3, 4, 0, 0, 0, 3] + [0, 3, 0xaa]
  {
    assert EncodeResponseBody(Response(0x0102_0304, Unary, true, METHOD_NOT_FOUND, [0xaa])) == [0, 3, 0xaa];
    KnownHeader(RESPONSE, 4, 0x0102_0304, 3, [1, 2, 3, 4], [0, 0, 0, 3]);
  }

  lemma {:induction false} KnownFrame()
    ensures EncodeFrame(STREAM_CANCEL, 7, []) == [0x47, 0x52, 0x50, 0x43, 1, 0x14, 0, 0, 0, 0, 0, 7, 0, 0, 0, 0]
  {
    KnownHeader(STREAM_CANCEL, 0, 7, 0, [0, 0, 0, 7], [0, 0, 0, 0]);
  }

  lemma {:induction false} KnownHeader(typ: Byte, flags: Byte, id: U32, n: nat, idBytes: Bytes, lengthBytes: Bytes)
    requires n < 0x1_0000_0000 && Be32(id) == idBytes && Be32(n) == lengthBytes
    ensures EncodeHeader(NewHeader(typ, flags, id, n))
         == [0x47, 0x52, 0x50, 0x43, 1, typ, flags, 0] + idBytes + lengthBytes
  {
    assert Be32(RPC_MAGIC) == [0x47, 0x52, 0x50, 0x43];
    assert n % 0x1_0000_0000 == n;
  }

  // ---- Round trips ----------------------------------------------------------------------------

  predicate NameFits(name: Bytes) { |name| <= 0xFFFF }

  predicate RequestFits(r: Request) {
    NameFits(r.service) && NameFits(r.method_) && |EncodeRequestBody(r)| <= RPC_MAX_BODY_SIZE
  }

  predicate ResponseFits(r: Response) { |EncodeResponseBody(r)| <= RPC_MAX_BODY_SIZE }

  /** What the decoder reads out of two names and a rest: always short names that tile the body. */
  lemma {:induction false} NamesTile(body: Bytes, n: nat, m: nat)
    requires n <= 0xFFFF && m <= 0xFFFF && 4 + n + m <= |body|
    requires U16At(body, 0) == n && U16At(body, 2 + n) == m
    ensures EncodeName(body[2..2 + n]) + EncodeName(body[4 + n..4 + n + m]) + body[4 + n + m..] == body
  {
    NameTiles(body, 0, n);
    NameTiles(body, 2 + n, m);
    assert body[0..2 + n] + body[2 + n..4 + n + m] == body[..4 + n + m];
  }

  lemma {:induction false} NameTiles(body: Bytes, i: nat, n: nat)
    requires n <= 0xFFFF && i + 2 + n <= |body| && U16At(body, i) == n
    ensures EncodeName(body[i + 2..i + 2 + n]) == body[i..i + 2 + n]
  {
    Be16Inverse(body, i);
    assert n % 0x1_0000 == n;
    assert body[i..i + 2 + n] == body[i..i + 2] + body[i + 2..i + 2 + n];
  }

  lemma {:induction false} DecodeNamesShape(body: Bytes)
    ensures DecodeNames(body).Some? ==>
              var n := DecodeNames(body).value;
              && NameFits(n.service) && NameFits(n.method_)
              && EncodeName(n.service) + EncodeName(n.method_) + n.rest == body
  {
    if DecodeNames(body).Some? {
      var n: int := U16At(body, 0);
      var m: int := U16At(body, 2 + n);
      NamesTile(body, n, m);
    }
  }

  lemma {:induction false} DecodeNamesOfEncoded(service: Bytes, method_: Bytes, rest: Bytes)
    requires NameFits(service) && NameFits(method_)
    ensures DecodeNames(EncodeName(service) + EncodeName(method_) + rest) == Some(Route(service, method_, rest))
  {
    var body := EncodeName(service) + EncodeName(method_) + rest;
    var n, m := |service|, |method_|;
    assert n % 0x1_0000 == n && m % 0x1_0000 == m;
    assert body == Be16(n) + service + Be16(m) + method_ + rest;
    assert forall k :: 0 <= k < 2 ==> body[k] == Be16(n)[k] && body[2 + n + k] == Be16(m)[k];
    ByteOrderIsPortable16(Big, n);
    ByteOrderIsPortable16(Big, m);
    assert body[2..2 + n] == service && body[4 + n..4 + n + m] == method_ && body[4 + n + m..] == rest;
  }

  /** Decoding two encoded names gives them back exactly when neither length was truncated to 16 bits. */
  lemma {:induction false} NamesRoundTrip(service: Bytes, method_: Bytes, rest: Bytes)
    ensures DecodeNames(EncodeName(service) + EncodeName(method_) + rest) == Some(Route(service, method_, rest))
            <==> NameFits(service) && NameFits(method_)
  {
    if NameFits(service) && NameFits(method_) {
      DecodeNamesOfEncoded(service, method_, rest);
    } else {
      DecodeNamesShape(EncodeName(service) + EncodeName(method_) + rest);
    }
  }

  /** A stream-init body decodes to its route exactly when both names fit. */
  lemma {:induction false} StreamInitRoundTrip(service: Bytes, method_: Bytes)
    ensures DecodeNames(EncodeInitBody(service, method_)) == Some(Route(service, method_, []))
            <==> NameFits(service) && NameFits(method_)
  {
    NamesRoundTrip(service, method_, []);
    assert EncodeInitBody(service, method_) == EncodeName(service) + EncodeName(method_) + [];
  }

  lemma {:induction false} DecodedRequestShape(s: Bytes)
    requires DecodeRequest(s).Ok?
    ensures var q, n := DecodeRequest(s).value, MessageLength(s);
            && RequestFits(q) && RPC_HEADER_SIZE <= n <= |s|
            && s[RPC_HEADER_SIZE..n] == EncodeRequestBody(q)
  {
    var h := DecodeHeader(s).value;
    DecodeNamesShape(s[RPC_HEADER_SIZE..RPC_HEADER_SIZE + h.bodyLength]);
  }

  lemma {:induction false} EncodedHeader(typ: Byte, flags: Byte, id: U32, body: Bytes, tail: Bytes)
    requires |body| <= RPC_MAX_BODY_SIZE
    ensures var s := EncodeHeader(NewHeader(typ, flags, id, |body|)) + body + tail;
            && DecodeHeader(s) == Some(NewHeader(typ, flags, id, |body|))
            && NewHeader(typ, flags, id, |body|).bodyLength == |body|
            && s[RPC_HEADER_SIZE..RPC_HEADER_SIZE + |body|] == body
            && s[RPC_HEADER_SIZE + |body|..] == tail
  {
    var h := NewHeader(typ, flags, id, |body|);
    HeaderRoundTrip(h, body + tail);
    assert EncodeHeader(h) + body + tail == EncodeHeader(h) + (body + tail);
  }

  /** Decoding a serialized request, whatever follows it, returns that request exactly when its names fit 16-bit
      lengths and its body is within the limit. */
  lemma {:induction false} RequestRoundTrip(r: Request, tail: Bytes)
    ensures DecodeRequest(EncodeRequest(r) + tail) == Ok(r) <==> RequestFits(r)
    ensures RequestFits(r) ==> MessageLength(EncodeRequest(r) + tail) == |EncodeRequest(r)|
  {
    var s := EncodeRequest(r) + tail;
    if RequestFits(r) {
      EncodedHeader(REQUEST, EncodeFlags(r.mode, r.end), r.id, EncodeRequestBody(r), tail);
      DecodeNamesOfEncoded(r.service, r.method_, r.payload);
      FlagsRoundTrip(r.mode, r.end, 0);
    } else if DecodeRequest(s) == Ok(r) {
      DecodedRequestShape(s);
      assert false;
    }
  }

  lemma {:induction false} ResponseRoundTrip(r: Response, tail: Bytes)
    ensures DecodeResponse(EncodeResponse(r) + tail) == Ok(r) <==> ResponseFits(r)
    ensures ResponseFits(r) ==> MessageLength(EncodeResponse(r) + tail) == |EncodeResponse(r)|
  {
    var s := EncodeResponse(r) + tail;
    if ResponseFits(r) {
      var body := EncodeResponseBody(r);
      EncodedHeader(RESPONSE, EncodeFlags(r.mode, r.end), r.id, body, tail);
      assert body[0] == Be16(r.code)[0] && body[1] == Be16(r.code)[1] && body[2..] == r.payload;
      ByteOrderIsPortable16(Big, r.code);
      FlagsRoundTrip(r.mode, r.end, 0);
    }
  }

  /** The header a sender would build from a decoded header's fields, against the bytes it was read from. */
  lemma {:induction false} Reencode(s: Bytes, h: Header, body: Bytes)
    requires |s| >= RPC_HEADER_SIZE && DecodeHeader(s) == Some(h)
    requires RPC_HEADER_SIZE + h.bodyLength <= |s| && body == s[RPC_HEADER_SIZE..RPC_HEADER_SIZE + h.bodyLength]
    ensures var flags := EncodeFlags(DecodeMode(h.flags), DecodeEnd(h.flags));
            EncodeHeader(NewHeader(h.typ, flags, h.requestId, |body|)) + body == s[..RPC_HEADER_SIZE + h.bodyLength]
            <==> s[4] == RPC_VERSION && s[7] == 0 && s[6] < 8
  {
    HeaderInverse(s);
    FlagsRoundTrip(Unary, false, h.flags);
    var h' := h.(version := RPC_VERSION, reserved := 0, flags := h.flags % 8);
    assert NewHeader(h.typ, EncodeFlags(DecodeMode(h.flags), DecodeEnd(h.flags)), h.requestId, |body|) == h';
    assert s[..RPC_HEADER_SIZE + h.bodyLength] == EncodeHeader(h) + body;
    HeadersDiffer(h, h', body);
    DecodedLayout(s);
  }

  lemma {:induction false} HeadersDiffer(h: Header, h': Header, body: Bytes)
    requires h' == h.(version := h'.version, flags := h'.flags, reserved := h'.reserved)
    ensures EncodeHeader(h') + body == EncodeHeader(h) + body <==> h' == h
  {
    HeaderShows(h, body);
    HeaderShows(h', body);
  }

  lemma {:induction false} HeaderShows(h: Header, body: Bytes)
    ensures var x := EncodeHeader(h) + body;
            x[4] == h.version && x[6] == h.flags && x[7] == h.reserved
  {
  }

  /** Re-encoding an accepted request reproduces the bytes it was read from exactly when the sender used version 1,
      a zero reserved byte and no flag bits above bit 2. */
  lemma {:induction false} RequestReencodes(s: Bytes)
    requires DecodeRequest(s).Ok?
    ensures EncodeRequest(DecodeRequest(s).value) == s[..MessageLength(s)]
            <==> s[4] == RPC_VERSION && s[7] == 0 && s[6] < 8
  {
    DecodedRequestShape(s);
    Reencode(s, DecodeHeader(s).value, EncodeRequestBody(DecodeRequest(s).value));
  }

  lemma {:induction false} ResponseReencodes(s: Bytes)
    requires DecodeResponse(s).Ok?
    ensures EncodeResponse(DecodeResponse(s).value) == s[..MessageLength(s)]
            <==> s[4] == RPC_VERSION && s[7] == 0 && s[6] < 8
  {
    var body := s[RPC_HEADER_SIZE..MessageLength(s)];
    Be16Inverse(body, 0);
    assert EncodeResponseBody(DecodeResponse(s).value) == body;
    Reencode(s, DecodeHeader(s).value, body);
  }
}

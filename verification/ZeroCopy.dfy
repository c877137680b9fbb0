/**
 The imperative encoders and the zero-copy parsers, proved against the functions in `Codec` and `Parser`
 (galay-rpc/protoc/rpc_message.h:228-267, 459-488, galay-rpc/kernel/rpc_conn.h:152-297).
 */
module ZeroCopy {
  import opened Wire
  import opened Codec
  import opened Parser
  import opened Memory

  // ---- serialize() --------------------------------------------------------------------------------

  function RequestBodySize(m: Message): nat
    requires m.RequestMsg?
  {
    2 + |m.service| + 2 + |m.method_| + ViewSize(ViewOf(m.payload))
  }

  function RequestHeader(m: Message): Header
    requires m.RequestMsg?
  {
    NewHeader(REQUEST, EncodeFlags(m.mode, m.end), m.id, RequestBodySize(m))
  }

  function ResponseHeader(m: Message): Header
    requires m.ResponseMsg?
  {
    NewHeader(RESPONSE, EncodeFlags(m.mode, m.end), m.id, 2 + ViewSize(ViewOf(m.payload)))
  }

  lemma {:induction false} RequestWire(mem: Bytes, m: Message)
    requires m.RequestMsg? && PayloadInBounds(m.payload, mem)
    ensures EncodeItem(ItemOf(mem, m))
         == EncodeHeader(RequestHeader(m)) + EncodeName(m.service) + EncodeName(m.method_)
            + LoadView(mem, ViewOf(m.payload))
  {
  }

  lemma {:induction false} ResponseWire(mem: Bytes, m: Message)
    requires m.ResponseMsg? && PayloadInBounds(m.payload, mem)
    ensures EncodeItem(ItemOf(mem, m))
         == EncodeHeader(ResponseHeader(m)) + Be16(m.code) + LoadView(mem, ViewOf(m.payload))
  {
  }

  function FrameHeader(m: Message): Header
    requires m.FrameMsg?
  {
    NewHeader(m.typ, 0, m.id, ViewSize(ViewOf(m.payload)))
  }

  function InitHeader(id: U32, service: Bytes, method_: Bytes): Header {
    NewHeader(STREAM_INIT, 0, id, 2 + |service| + 2 + |method_|)
  }

  lemma {:induction false} FrameWire(mem: Bytes, m: Message)
    requires m.FrameMsg? && PayloadInBounds(m.payload, mem)
    ensures EncodeItem(ItemOf(mem, m)) == EncodeHeader(FrameHeader(m)) + LoadView(mem, ViewOf(m.payload))
  {
  }

  lemma {:induction false} InitWire(id: U32, service: Bytes, method_: Bytes)
    ensures EncodeFrame(STREAM_INIT, id, EncodeInitBody(service, method_))
         == EncodeHeader(InitHeader(id, service, method_)) + EncodeName(service) + EncodeName(method_)
  {
  }

  /** `memcpy` to the current end of what has been written. */
  method Append(buf: array<Byte>, offset: nat, data: Bytes)
    requires offset + |data| <= buf.Length
    modifies buf
    ensures buf[..offset + |data|] == old(buf[..offset]) + data
  {
    forall i | 0 <= i < |data| { buf[offset + i] := data[i]; }
  }

  /** A name behind its length, which is converted and copied out in the machine's own byte order. */
  method AppendName(e: Endian, buf: array<Byte>, offset: nat, name: Bytes)
    requires offset + 2 + |name| <= buf.Length
    modifies buf
    ensures buf[..offset + 2 + |name|] == old(buf[..offset]) + EncodeName(name)
  {
    ByteOrderIsPortable16(e, |name| % 0x1_0000);
    Append(buf, offset, Stored16(e, Hton16(e, |name| % 0x1_0000)));
    Append(buf, offset + 2, name);
  }

  method AppendView(buf: array<Byte>, offset: nat, mem: Bytes, view: PayloadView)
    requires ViewInBounds(view, mem) && offset + ViewSize(view) == buf.Length
    modifies buf
    ensures buf[..] == old(buf[..offset]) + LoadView(mem, view)
  {
    Append(buf, offset, Load(mem, view.seg1));
    Append(buf, offset + Len(view.seg1), Load(mem, view.seg2));
    assert buf[..] == buf[..offset + ViewSize(view)];
  }

  /** `RpcRequest::serialize`: a buffer written field by field that holds exactly the wire form, whether the payload is
      owned or a two-segment borrow. */
  method SerializeRequest(e: Endian, mem: Bytes, m: Message) returns (buffer: array<Byte>)
    requires m.RequestMsg? && PayloadInBounds(m.payload, mem)
    ensures fresh(buffer) && buffer[..] == EncodeItem(ItemOf(mem, m))
  {
    var view := ViewOf(m.payload);
    buffer := new Byte[RPC_HEADER_SIZE + RequestBodySize(m)];
    SerializeHeader(e, RequestHeader(m), buffer);
    var offset := RPC_HEADER_SIZE;
    AppendName(e, buffer, offset, m.service);
    offset := offset + 2 + |m.service|;
    AppendName(e, buffer, offset, m.method_);
    offset := offset + 2 + |m.method_|;
    assert buffer[..offset] == EncodeHeader(RequestHeader(m)) + EncodeName(m.service) + EncodeName(m.method_);
    AppendView(buffer, offset, mem, view);
    RequestWire(mem, m);
  }

  /** `RpcResponse::serialize`. */
  method SerializeResponse(e: Endian, mem: Bytes, m: Message) returns (buffer: array<Byte>)
    requires m.ResponseMsg? && PayloadInBounds(m.payload, mem)
    ensures fresh(buffer) && buffer[..] == EncodeItem(ItemOf(mem, m))
  {
    var view := ViewOf(m.payload);
    buffer := new Byte[RPC_HEADER_SIZE + 2 + ViewSize(view)];
    SerializeHeader(e, ResponseHeader(m), buffer);
    ByteOrderIsPortable16(e, m.code);
    Append(buffer, RPC_HEADER_SIZE, Stored16(e, Hton16(e, m.code)));
    AppendView(buffer, RPC_HEADER_SIZE + 2, mem, view);
    ResponseWire(mem, m);
  }

  // ---- tryParse*Message -------------------------------------------------------------------------------

  /** The result `r` of a parser over ring memory `mem` means `spec`: same verdict and error code, or the same length
      and a message that denotes the same value without having copied its payload. */
  ghost predicate Means(mem: Bytes, r: Parse<Message>, spec: Parse<Item>) {
    match r
    case Incomplete => spec.Incomplete?
    case Error(c) => spec == Error(c)
    case Parsed(n, m) => m.payload.Borrowed? && PayloadInBounds(m.payload, mem) && spec == Parsed(n, ItemOf(mem, m))
  }

  function RequestVerdict(p: Parse<Request>): Parse<Item> {
    match p
    case Incomplete => Incomplete
    case Error(c) => Error(c)
    case Parsed(n, q) => Parsed(n, RequestItem(q))
  }

  function ResponseVerdict(p: Parse<Response>): Parse<Item> {
    match p
    case Incomplete => Incomplete
    case Error(c) => Error(c)
    case Parsed(n, q) => Parsed(n, ResponseItem(q))
  }

  /** Reads and checks a header: what both parsers do first. */
  method ReadHeader(mem: Bytes, iovs: seq<Iovec>) returns (h: Option<Header>)
    requires AllInBounds(iovs, mem) && |Gather(mem, iovs)| >= RPC_HEADER_SIZE
    ensures h == DecodeHeader(Gather(mem, iovs))
  {
    var ok, headerBuf := CopyFromIovecs(mem, iovs, 0, RPC_HEADER_SIZE);
    HeaderOfPrefix(Gather(mem, iovs));
    h := DecodeHeader(headerBuf);
  }

  /** `tryParseRequestMessage` over at most two vectors: wherever the bytes are split, the outcome is that of
      `ParseRequest` on the bytes as a whole. */
  method TryParseRequestMessage(mem: Bytes, iovs: seq<Iovec>, readable: nat, max: nat) returns (r: Parse<Message>)
    requires AllInBounds(iovs, mem) && |iovs| <= 2 && readable == |Gather(mem, iovs)|
    ensures Means(mem, r, RequestVerdict(ParseRequest(Gather(mem, iovs), max)))
  {
    if readable < RPC_HEADER_SIZE {
      return Incomplete;
    }
    var decoded := ReadHeader(mem, iovs);
    if decoded.None? || decoded.value.typ != REQUEST {
      return Error(INVALID_REQUEST);
    }
    var total := RPC_HEADER_SIZE + decoded.value.bodyLength;
    if total > max + RPC_HEADER_SIZE {
      return Error(INVALID_REQUEST);
    }
    if readable < total {
      return Incomplete;
    }
    r := TryParseNames(mem, iovs, decoded.value, total);
  }

  /** A length-prefixed name at `cursor`: `None` when its length field is not readable or it runs past `total`. */
  method TryParseName(mem: Bytes, iovs: seq<Iovec>, cursor: nat, total: nat) returns (name: Option<Bytes>)
    requires AllInBounds(iovs, mem) && total <= |Gather(mem, iovs)|
    ensures var s := Gather(mem, iovs);
            && (name.Some? <==> cursor + 2 <= |s| && cursor + 2 + U16At(s, cursor) <= total)
            && (name.Some? ==> name.value == s[cursor + 2..cursor + 2 + U16At(s, cursor)])
  {
    var ok, lengthBuf := CopyFromIovecs(mem, iovs, cursor, 2);
    if !ok {
      return None;
    }
    var length: int := U16At(lengthBuf, 0);
    if cursor + 2 + length > total {
      return None;
    }
    var bytes;
    ok, bytes := CopyFromIovecs(mem, iovs, cursor + 2, length);
    name := Some(bytes);
  }

  method TryParseNames(mem: Bytes, iovs: seq<Iovec>, h: Header, total: nat) returns (r: Parse<Message>)
    requires AllInBounds(iovs, mem) && |iovs| <= 2 && RPC_HEADER_SIZE <= total <= |Gather(mem, iovs)|
    ensures Means(mem, r, RequestVerdict(ParseNames(Gather(mem, iovs), h, total)))
  {
    var service := TryParseName(mem, iovs, RPC_HEADER_SIZE, total);
    if service.None? {
      return Error(DESERIALIZATION_ERROR);
    }
    var cursor := RPC_HEADER_SIZE + 2 + |service.value|;
    var method_ := TryParseName(mem, iovs, cursor, total);
    if method_.None? {
      return Error(DESERIALIZATION_ERROR);
    }
    cursor := cursor + 2 + |method_.value|;
    var ok, view := PayloadViewFromIovecs(mem, iovs, cursor, total - cursor);
    assert LoadView(mem, view) == Gather(mem, iovs)[cursor..total];
    r := Parsed(total, RequestMsg(h.requestId, DecodeMode(h.flags), DecodeEnd(h.flags),
                                  service.value, method_.value, Borrowed(view)));
  }

  /** `tryParseResponseMessage`. */
  method TryParseResponseMessage(mem: Bytes, iovs: seq<Iovec>, readable: nat, max: nat) returns (r: Parse<Message>)
    requires AllInBounds(iovs, mem) && |iovs| <= 2 && readable == |Gather(mem, iovs)|
    ensures Means(mem, r, ResponseVerdict(ParseResponse(Gather(mem, iovs), max)))
  {
    if readable < RPC_HEADER_SIZE {
      return Incomplete;
    }
    var decoded := ReadHeader(mem, iovs);
    if decoded.None? || decoded.value.typ != RESPONSE {
      return Error(INVALID_RESPONSE);
    }
    var h := decoded.value;
    var total := RPC_HEADER_SIZE + h.bodyLength;
    if total > max + RPC_HEADER_SIZE {
      return Error(INVALID_RESPONSE);
    }
    if readable < total {
      return Incomplete;
    }
    if h.bodyLength < 2 {
      return Error(DESERIALIZATION_ERROR);
    }
    var ok, codeBuf := CopyFromIovecs(mem, iovs, RPC_HEADER_SIZE, 2);
    var view;
    ok, view := PayloadViewFromIovecs(mem, iovs, RPC_HEADER_SIZE + 2, total - (RPC_HEADER_SIZE + 2));
    assert LoadView(mem, view) == Gather(mem, iovs)[RPC_HEADER_SIZE + 2..total];
    assert U16At(codeBuf, 0) == U16At(Gather(mem, iovs), RPC_HEADER_SIZE);
    r := Parsed(total, ResponseMsg(h.requestId, DecodeMode(h.flags), DecodeEnd(h.flags), U16At(codeBuf, 0),
                                   Borrowed(view)));
  }
}

/**
 Bytes, fixed-width integers, byte order, header flags and the 16-byte message header
 (galay-rpc/protoc/rpc_base.h and the `RpcHeader` part of galay-rpc/protoc/rpc_message.h).
 */
module Wire {
  type Byte = x: int | 0 <= x < 256
  type U16 = x: int | 0 <= x < 0x1_0000
  type U32 = x: int | 0 <= x < 0x1_0000_0000
  type Bytes = seq<Byte>

  datatype Option<+T> = None | Some(value: T)

  const RPC_MAGIC: U32 := 0x47525043
  const RPC_VERSION: Byte := 0x01
  const RPC_HEADER_SIZE: nat := 16
  const RPC_MAX_BODY_SIZE: nat := 16 * 1024 * 1024

  const REQUEST: Byte := 0x01
  const RESPONSE: Byte := 0x02
  const STREAM_INIT: Byte := 0x10
  const STREAM_INIT_ACK: Byte := 0x11
  const STREAM_DATA: Byte := 0x12
  const STREAM_END: Byte := 0x13
  const STREAM_CANCEL: Byte := 0x14

  const OK: U16 := 0
  const SERVICE_NOT_FOUND: U16 := 2
  const METHOD_NOT_FOUND: U16 := 3
  const INVALID_REQUEST: U16 := 4
  const INVALID_RESPONSE: U16 := 5
  const REQUEST_TIMEOUT: U16 := 6
  const CONNECTION_CLOSED: U16 := 7
  const DESERIALIZATION_ERROR: U16 := 9
  const INTERNAL_ERROR: U16 := 10

  /** The numbers that travel in responses and that callers see. */
  lemma {:induction false} ErrorNumbers()
    ensures OK == 0 && SERVICE_NOT_FOUND == 2 && METHOD_NOT_FOUND == 3 && INVALID_REQUEST == 4 && INVALID_RESPONSE == 5
    ensures REQUEST_TIMEOUT == 6 && CONNECTION_CLOSED == 7 && DESERIALIZATION_ERROR == 9 && INTERNAL_ERROR == 10
  {
  }

  function Min(a: nat, b: nat): nat { if a <= b then a else b }

  lemma {:induction false} SliceOfSlice(s: Bytes, a: nat, b: nat, i: nat, j: nat)
    requires a <= b <= |s| && i <= j <= b - a
    ensures s[a..b][i..j] == s[a + i..a + j]
  {
    var x, y := s[a..b][i..j], s[a + i..a + j];
    assert |x| == |y|;
    assert forall k :: 0 <= k < |x| ==> x[k] == s[a + i + k] == y[k];
  }

  // ---- Byte order -------------------------------------------------------------------------

  datatype Endian = Little | Big

  function Swap16(v: U16): U16 { v % 0x100 * 0x100 + v / 0x100 }

  function Swap32(v: U32): U32 { Swap16(v % 0x1_0000) * 0x1_0000 + Swap16(v / 0x1_0000) }

  /** `rpcHtons`/`rpcNtohs`: the identity on a big-endian machine, a byte swap on a little-endian one. */
  function Hton16(e: Endian, v: U16): U16 { if e.Big? then v else Swap16(v) }

  /** `rpcHtonl`/`rpcNtohl`. */
  function Hton32(e: Endian, v: U32): U32 { if e.Big? then v else Swap32(v) }

  /** What `memcpy` of a native integer puts in memory. */
  function Stored16(e: Endian, v: U16): (b: Bytes)
    ensures |b| == 2
  {
    if e.Big? then [v / 0x100, v % 0x100] else [v % 0x100, v / 0x100]
  }

  function Stored32(e: Endian, v: U32): (b: Bytes)
    ensures |b| == 4
  {
    if e.Big? then Stored16(e, v / 0x1_0000) + Stored16(e, v % 0x1_0000)
    else Stored16(e, v % 0x1_0000) + Stored16(e, v / 0x1_0000)
  }

  /** Network order, the wire representation: most significant byte first. */
  function Be16(v: U16): (b: Bytes)
    ensures |b| == 2
  {
    [v / 0x100, v % 0x100]
  }

  function Be32(v: U32): (b: Bytes)
    ensures |b| == 4
  {
    Be16(v / 0x1_0000) + Be16(v % 0x1_0000)
  }

  /** The network-order integers found at offset `i`. */
  function U16At(b: Bytes, i: nat): (v: U16)
    requires i + 2 <= |b|
  {
    var hi: int, lo: int := b[i], b[i + 1];
    hi * 0x100 + lo
  }

  function U32At(b: Bytes, i: nat): (v: U32)
    requires i + 4 <= |b|
  {
    var hi: int, lo: int := U16At(b, i), U16At(b, i + 2);
    hi * 0x1_0000 + lo
  }

  /** On either kind of machine, copying out `rpcHtons(v)` gives network order, and copying it back in and
      applying `rpcNtohs` gives `v`. */
  lemma {:induction false} ByteOrderIsPortable16(e: Endian, v: U16)
    ensures Stored16(e, Hton16(e, v)) == Be16(v)
    ensures Hton16(e, Hton16(e, v)) == v
    ensures U16At(Be16(v), 0) == v
  {
  }

  lemma {:induction false} ByteOrderIsPortable32(e: Endian, v: U32)
    ensures Stored32(e, Hton32(e, v)) == Be32(v)
    ensures Hton32(e, Hton32(e, v)) == v
    ensures U32At(Be32(v), 0) == v
  {
    var hi, lo := v / 0x1_0000, v % 0x1_0000;
    ByteOrderIsPortable16(e, hi);
    ByteOrderIsPortable16(e, lo);
    assert Swap32(v) / 0x1_0000 == Swap16(lo) && Swap32(v) % 0x1_0000 == Swap16(hi);
  }

  /** The native integers that `memcpy` out of memory gives. */
  function Loaded16(e: Endian, b: Bytes, i: nat): (v: U16)
    requires i + 2 <= |b|
  {
    if e.Big? then U16At(b, i)
    else
      var lo: int, hi: int := b[i], b[i + 1];
      hi * 0x100 + lo
  }

  function Loaded32(e: Endian, b: Bytes, i: nat): (v: U32)
    requires i + 4 <= |b|
  {
    if e.Big? then U32At(b, i)
    else
      var lo: int, hi: int := Loaded16(e, b, i), Loaded16(e, b, i + 2);
      hi * 0x1_0000 + lo
  }

  /** On either kind of machine, `rpcNtohs` and `rpcNtohl` of what was copied in are the network-order integers there,
      and what was stored is what is loaded. */
  lemma {:induction false} LoadingIsPortable(e: Endian, b: Bytes, i: nat, v: U32)
    requires i + 4 <= |b|
    ensures Hton16(e, Loaded16(e, b, i)) == U16At(b, i) && Hton32(e, Loaded32(e, b, i)) == U32At(b, i)
    ensures Loaded32(e, Stored32(e, v), 0) == v
  {
    if e.Little? {
      var lo, hi := Loaded16(e, b, i), Loaded16(e, b, i + 2);
      assert Loaded32(e, b, i) % 0x1_0000 == lo && Loaded32(e, b, i) / 0x1_0000 == hi;
      assert Swap16(lo) == U16At(b, i) && Swap16(hi) == U16At(b, i + 2);
    } else {
      ByteOrderIsPortable32(e, v);
    }
  }

  lemma {:induction false} Be16Inverse(b: Bytes, i: nat)
    requires i + 2 <= |b|
    ensures Be16(U16At(b, i)) == b[i..i + 2]
  {
  }

  lemma {:induction false} Be32Inverse(b: Bytes, i: nat)
    requires i + 4 <= |b|
    ensures Be32(U32At(b, i)) == b[i..i + 4]
  {
  }

  // ---- Flags ------------------------------------------------------------------------------

  datatype CallMode = Unary | ClientStreaming | ServerStreaming | BidiStreaming

  function ModeCode(m: CallMode): Byte {
    match m
    case Unary => 0
    case ClientStreaming => 1
    case ServerStreaming => 2
    case BidiStreaming => 3
  }

  /** `rpcEncodeFlags`: bits 0-1 hold the mode, bit 2 the end-of-stream mark. */
  function EncodeFlags(m: CallMode, end: bool): Byte { ModeCode(m) + if end then 4 else 0 }

  /** `rpcDecodeCallMode`: `flags & 3`. */
  function DecodeMode(flags: Byte): CallMode {
    match flags % 4
    case 0 => Unary
    case 1 => ClientStreaming
    case 2 => ServerStreaming
    case _ => BidiStreaming
  }

  /** `rpcIsEndStream`: `flags & 4`. */
  predicate DecodeEnd(flags: Byte) { flags / 4 % 2 == 1 }

  /** The bits themselves. */
  lemma {:induction false} FlagBits(m: CallMode, end: bool)
    ensures EncodeFlags(m, end)
         == (match m
             case Unary => 0x00
             case ClientStreaming => 0x01
             case ServerStreaming => 0x02
             case BidiStreaming => 0x03)
            + if end then 0x04 else 0x00
  {
  }

  lemma {:induction false} FlagsRoundTrip(m: CallMode, end: bool, flags: Byte)
    ensures DecodeMode(EncodeFlags(m, end)) == m && DecodeEnd(EncodeFlags(m, end)) == end
    ensures EncodeFlags(DecodeMode(flags), DecodeEnd(flags)) == flags % 8
  {
  }

  // ---- Header -----------------------------------------------------------------------------

  datatype Header = Header(magic: U32, version: Byte, typ: Byte, flags: Byte, reserved: Byte,
                           requestId: U32, bodyLength: U32)

  /** The header a sender builds: default magic, version and reserved byte; the body size is cast to 32 bits. */
  function NewHeader(typ: Byte, flags: Byte, id: U32, bodySize: nat): Header {
    Header(RPC_MAGIC, RPC_VERSION, typ, flags, 0, id, bodySize % 0x1_0000_0000)
  }

  function EncodeHeader(h: Header): (b: Bytes)
    ensures |b| == RPC_HEADER_SIZE
  {
    Be32(h.magic) + [h.version, h.typ, h.flags, h.reserved] + Be32(h.requestId) + Be32(h.bodyLength)
  }

  /** The place of each field on the wire. */
  predicate HeaderAt(b: Bytes, h: Header)
    requires |b| >= RPC_HEADER_SIZE
  {
    && U32At(b, 0) == h.magic && b[4] == h.version && b[5] == h.typ && b[6] == h.flags && b[7] == h.reserved
    && U32At(b, 8) == h.requestId && U32At(b, 12) == h.bodyLength
  }

  /** A header is read from those places, with the magic as its first four bytes and a body of at most 16 MiB. */
  lemma {:induction false} DecodedLayout(b: Bytes)
    requires |b| >= RPC_HEADER_SIZE
    ensures DecodeHeader(b).Some? <==> b[..4] == [0x47, 0x52, 0x50, 0x43] && U32At(b, 12) <= 16 * 1024 * 1024
    ensures DecodeHeader(b).Some? ==> HeaderAt(b, DecodeHeader(b).value)
  {
    MagicIs(b);
  }

  lemma {:induction false} MagicIs(b: Bytes)
    requires |b| >= 4
    ensures U32At(b, 0) == RPC_MAGIC <==> b[..4] == [0x47, 0x52, 0x50, 0x43]
  {
    assert b[..4] == [b[0], b[1], b[2], b[3]];
    MagicBytes(b[0], b[1], b[2], b[3]);
  }

  lemma {:induction false} MagicBytes(b0: Byte, b1: Byte, b2: Byte, b3: Byte)
    ensures b0 * 0x100_0000 + b1 * 0x1_0000 + b2 * 0x100 + b3 == RPC_MAGIC
       <==> b0 == 0x47 && b1 == 0x52 && b2 == 0x50 && b3 == 0x43
  {
  }

  lemma {:induction false} HeaderLayout(h: Header, tail: Bytes)
    ensures HeaderAt(EncodeHeader(h) + tail, h)
  {
    var b := EncodeHeader(h) + tail;
    assert forall k :: 0 <= k < 4 ==>
      b[k] == Be32(h.magic)[k] && b[8 + k] == Be32(h.requestId)[k] && b[12 + k] == Be32(h.bodyLength)[k];
    ByteOrderIsPortable32(Big, h.magic);
    ByteOrderIsPortable32(Big, h.requestId);
    ByteOrderIsPortable32(Big, h.bodyLength);
  }

  /** `RpcHeader::deserialize` on the first 16 bytes of `b`; `None` when it returns false. */
  function DecodeHeader(b: Bytes): Option<Header>
    requires |b| >= RPC_HEADER_SIZE
  {
    var magic := U32At(b, 0);
    if magic != RPC_MAGIC then None
    else
      var h := Header(magic, b[4], b[5], b[6], b[7], U32At(b, 8), U32At(b, 12));
      if h.bodyLength <= RPC_MAX_BODY_SIZE then Some(h) else None
  }

  /** `memcpy` of `data` to an offset. */
  method Store(buffer: array<Byte>, offset: nat, data: Bytes)
    requires offset + |data| <= buffer.Length
    modifies buffer
    ensures buffer[..offset] == old(buffer[..offset]) && buffer[..offset + |data|] == buffer[..offset] + data
    ensures forall i :: offset + |data| <= i < buffer.Length ==> buffer[i] == old(buffer[i])
  {
    forall i | 0 <= i < |data| { buffer[offset + i] := data[i]; }
  }

  /** `RpcHeader::serialize` into the front of a caller's buffer, on either kind of machine: each field is converted and
      copied out in the machine's own byte order. */
  method SerializeHeader(e: Endian, h: Header, buffer: array<Byte>)
    requires buffer.Length >= RPC_HEADER_SIZE
    modifies buffer
    ensures buffer[..RPC_HEADER_SIZE] == EncodeHeader(h) && HeaderAt(buffer[..RPC_HEADER_SIZE], h)
    ensures forall i :: RPC_HEADER_SIZE <= i < buffer.Length ==> buffer[i] == old(buffer[i])
  {
    ByteOrderIsPortable32(e, h.magic);
    ByteOrderIsPortable32(e, h.requestId);
    ByteOrderIsPortable32(e, h.bodyLength);
    Store(buffer, 0, Stored32(e, Hton32(e, h.magic)));
    Store(buffer, 4, [h.version, h.typ, h.flags, h.reserved]);
    Store(buffer, 8, Stored32(e, Hton32(e, h.requestId)));
    Store(buffer, 12, Stored32(e, Hton32(e, h.bodyLength)));
    HeaderLayout(h, []);
    assert EncodeHeader(h) + [] == EncodeHeader(h);
  }

  /** `RpcHeader::deserialize`, on either kind of machine: fields are copied in and converted one by one. */
  method DeserializeHeader(e: Endian, buffer: Bytes) returns (h: Option<Header>)
    requires |buffer| >= RPC_HEADER_SIZE
    ensures h == DecodeHeader(buffer) && (h.Some? ==> HeaderAt(buffer, h.value))
    ensures h.Some? <==> U32At(buffer, 0) == 0x47525043 && U32At(buffer, 12) <= 0x100_0000
  {
    LoadingIsPortable(e, buffer, 0, 0);
    LoadingIsPortable(e, buffer, 8, 0);
    LoadingIsPortable(e, buffer, 12, 0);
    var magic := Hton32(e, Loaded32(e, buffer, 0));
    if magic != RPC_MAGIC {
      return None;
    }
    var requestId := Hton32(e, Loaded32(e, buffer, 8));
    var bodyLength := Hton32(e, Loaded32(e, buffer, 12));
    if bodyLength > RPC_MAX_BODY_SIZE {
      return None;
    }
    h := Some(Header(magic, buffer[4], buffer[5], buffer[6], buffer[7], requestId, bodyLength));
  }

  /** Decoding ignores whatever follows the header, and inverts encoding exactly when the magic is right and the
      declared body fits. */
  lemma {:induction false} HeaderRoundTrip(h: Header, tail: Bytes)
    ensures DecodeHeader(EncodeHeader(h) + tail) ==
            if h.magic == RPC_MAGIC && h.bodyLength <= RPC_MAX_BODY_SIZE then Some(h) else None
  {
  }

  lemma {:induction false} HeaderInverse(b: Bytes)
    requires |b| >= RPC_HEADER_SIZE && DecodeHeader(b).Some?
    ensures EncodeHeader(DecodeHeader(b).value) == b[..RPC_HEADER_SIZE]
  {
    Be32Inverse(b, 0);
    Be32Inverse(b, 8);
    Be32Inverse(b, 12);
    var e := EncodeHeader(DecodeHeader(b).value);
    assert e == b[0..4] + [b[4], b[5], b[6], b[7]] + b[8..12] + b[12..16];
  }

  lemma {:induction false} HeaderLocal(s: Bytes, t: Bytes)
    requires |s| >= RPC_HEADER_SIZE
    ensures DecodeHeader(s + t) == DecodeHeader(s)
  {
  }

  lemma {:induction false} HeaderOfPrefix(s: Bytes)
    requires |s| >= RPC_HEADER_SIZE
    ensures DecodeHeader(s[..RPC_HEADER_SIZE]) == DecodeHeader(s)
  {
  }
}

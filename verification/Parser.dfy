/**
 What the zero-copy parsers `tryParseRequestMessage` and `tryParseResponseMessage` (galay-rpc/kernel/rpc_conn.h)
 decide about the bytes currently readable, and how that relates to `RpcCodec` and to more bytes arriving.
 */
module Parser {
  import opened Wire
  import opened Codec

  /** `Incomplete` is the return value 0; `Parsed` carries the number of bytes to consume. */
  datatype Parse<+T> = Incomplete | Error(code: U16) | Parsed(length: nat, value: T)

  /** `tryParseRequestMessage` over the readable bytes `s`. The two length fields are read at a cursor into the whole
      buffer, so they may lie beyond the end of the message; the range checks that follow then reject it. */
  function ParseRequest(s: Bytes, max: nat): Parse<Request> {
    if |s| < RPC_HEADER_SIZE then Incomplete
    else match DecodeHeader(s)
      case None => Error(INVALID_REQUEST)
      case Some(h) =>
        if h.typ != REQUEST then Error(INVALID_REQUEST)
        else
          var total := RPC_HEADER_SIZE + h.bodyLength;
          if total > max + RPC_HEADER_SIZE then Error(INVALID_REQUEST)
          else if |s| < total then Incomplete
          else ParseNames(s, h, total)
  }

  function ParseNames(s: Bytes, h: Header, total: nat): Parse<Request>
    requires RPC_HEADER_SIZE <= total <= |s|
  {
    if |s| < 18 then Error(DESERIALIZATION_ERROR)
    else
      var n := U16At(s, 16);
      if 18 + n > total then Error(DESERIALIZATION_ERROR)
      else if 20 + n > |s| then Error(DESERIALIZATION_ERROR)
      else
        var m := U16At(s, 18 + n);
        if 20 + n + m > total then Error(DESERIALIZATION_ERROR)
        else
          Parsed(total, Request(h.requestId, DecodeMode(h.flags), DecodeEnd(h.flags),
                                s[18..18 + n], s[20 + n..20 + n + m], s[20 + n + m..total]))
  }

  /** `tryParseResponseMessage`. */
  function ParseResponse(s: Bytes, max: nat): Parse<Response> {
    if |s| < RPC_HEADER_SIZE then Incomplete
    else match DecodeHeader(s)
      case None => Error(INVALID_RESPONSE)
      case Some(h) =>
        if h.typ != RESPONSE then Error(INVALID_RESPONSE)
        else
          var total := RPC_HEADER_SIZE + h.bodyLength;
          if total > max + RPC_HEADER_SIZE then Error(INVALID_RESPONSE)
          else if |s| < total then Incomplete
          else if h.bodyLength < 2 then Error(DESERIALIZATION_ERROR)
          else
            Parsed(total, Response(h.requestId, DecodeMode(h.flags), DecodeEnd(h.flags), U16At(s, 16), s[18..total]))
  }

  // ---- Agreement with `RpcCodec` ----------------------------------------------------------------

  /** A valid header of the given type that announces a body above the reader's limit. */
  predicate TooLarge(s: Bytes, typ: Byte, max: nat) {
    && |s| >= RPC_HEADER_SIZE && DecodeHeader(s).Some?
    && DecodeHeader(s).value.typ == typ && DecodeHeader(s).value.bodyLength > max
  }

  lemma {:induction false} ParseNamesAgrees(s: Bytes, h: Header, total: nat)
    requires RPC_HEADER_SIZE <= total <= |s|
    ensures ParseNames(s, h, total) ==
            match DecodeNames(s[RPC_HEADER_SIZE..total])
            case None => Error(DESERIALIZATION_ERROR)
            case Some(names) =>
              Parsed(total, Request(h.requestId, DecodeMode(h.flags), DecodeEnd(h.flags),
                                    names.service, names.method_, names.rest))
  {
    var body := s[RPC_HEADER_SIZE..total];
    if |body| >= 4 {
      var n: int := U16At(s, 16);
      if 4 + n <= |body| {
        var m: int := U16At(s, 18 + n);
        if 4 + n + m <= |body| {
          SliceOfSlice(s, 16, total, 2, 2 + n);
          SliceOfSlice(s, 16, total, 4 + n, 4 + n + m);
          assert body[4 + n + m..] == s[20 + n + m..total];
        }
      }
    }
  }

  /** The zero-copy request parser against `RpcCodec::decodeRequest`, on every byte string: it holds back exactly while
      the codec would call the data incomplete, refuses oversized bodies, and otherwise gives the codec's verdict, error
      code and fields, consuming `messageLength` bytes. */
  lemma {:induction false} RequestParserAgreesWithCodec(s: Bytes, max: nat)
    ensures match ParseRequest(s, max)
            case Incomplete =>
              && DecodeRequest(s) == Err(INVALID_REQUEST)
              && (|s| < RPC_HEADER_SIZE || |s| < MessageLength(s))
            case Error(c) => DecodeRequest(s) == Err(c) || (TooLarge(s, REQUEST, max) && c == INVALID_REQUEST)
            case Parsed(n, q) => DecodeRequest(s) == Ok(q) && n == MessageLength(s) <= |s| && !TooLarge(s, REQUEST, max)
    ensures DecodeRequest(s).Ok? && !TooLarge(s, REQUEST, max) ==>
              ParseRequest(s, max) == Parsed(MessageLength(s), DecodeRequest(s).value)
  {
    if |s| >= RPC_HEADER_SIZE && DecodeHeader(s).Some? {
      var h := DecodeHeader(s).value;
      if |s| >= RPC_HEADER_SIZE + h.bodyLength {
        ParseNamesAgrees(s, h, RPC_HEADER_SIZE + h.bodyLength);
      }
    }
  }

  lemma {:induction false} ResponseParserAgreesWithCodec(s: Bytes, max: nat)
    ensures match ParseResponse(s, max)
            case Incomplete =>
              && DecodeResponse(s) == Err(INVALID_RESPONSE)
              && (|s| < RPC_HEADER_SIZE || |s| < MessageLength(s))
            case Error(c) => DecodeResponse(s) == Err(c) || (TooLarge(s, RESPONSE, max) && c == INVALID_RESPONSE)
            case Parsed(n, q) =>
              DecodeResponse(s) == Ok(q) && n == MessageLength(s) <= |s| && !TooLarge(s, RESPONSE, max)
    ensures DecodeResponse(s).Ok? && !TooLarge(s, RESPONSE, max) ==>
              ParseResponse(s, max) == Parsed(MessageLength(s), DecodeResponse(s).value)
  {
  }

  // ---- More bytes never change a verdict -----------------------------------------------------------

  lemma {:induction false} DecodeRequestLocal(s: Bytes, t: Bytes)
    requires RPC_HEADER_SIZE <= |s| && MessageLength(s) <= |s|
    ensures DecodeRequest(s + t) == DecodeRequest(s) && MessageLength(s + t) == MessageLength(s)
  {
    HeaderLocal(s, t);
    if DecodeHeader(s).Some? {
      var n := MessageLength(s);
      assert (s + t)[RPC_HEADER_SIZE..n] == s[RPC_HEADER_SIZE..n];
    }
  }

  /** Once some bytes are parsed or rejected, every extension of them gets the same message and length or the same error
      code: the length fields that may be read beyond the message end cannot change the outcome. */
  lemma {:induction false} RequestParserStable(s: Bytes, t: Bytes, max: nat)
    requires !ParseRequest(s, max).Incomplete?
    ensures ParseRequest(s + t, max) == ParseRequest(s, max)
  {
    HeaderLocal(s, t);
    if MessageLength(s) <= |s| {
      DecodeRequestLocal(s, t);
      RequestParserAgreesWithCodec(s, max);
      RequestParserAgreesWithCodec(s + t, max);
    }
  }

  lemma {:induction false} ResponseParserStable(s: Bytes, t: Bytes, max: nat)
    requires !ParseResponse(s, max).Incomplete?
    ensures ParseResponse(s + t, max) == ParseResponse(s, max)
  {
    HeaderLocal(s, t);
    if DecodeHeader(s).Some? {
      var total := RPC_HEADER_SIZE + DecodeHeader(s).value.bodyLength;
      if 18 <= total <= |s| {
        assert (s + t)[18..total] == s[18..total];
      }
    }
  }
}

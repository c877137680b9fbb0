/**
 `RpcRingBufferReadMachine` and its read states over a ring buffer and a socket
 (galay-rpc/kernel/rpc_await.h:74-180, 285-347; the `parseFromRingBuffer` members of rpc_conn.h, rpc_client.h and
 rpc_stream.h).
 */
module ReadMachine {
  import opened Wire
  import opened Codec
  import opened Parser
  import opened Memory
  import opened Ring
  import opened Awaiting
  import opened Net
  import ZeroCopy

  /** A finished parsing attempt: the phase reached, the bytes consumed on the way there, and its verdict. */
  datatype Attempt = Attempt(reader: Reader, consumed: nat, verdict: Verdict)

  /** The phase after a delivered message: the stream reader starts over with a header. */
  function Reset(r: Reader): Reader { if r.FrameBodyReader? then FrameReader else r }

  /** One call of `parseFromRingBuffer`: the stream reader tries its body phase as soon as its header phase is over. */
  function Try(r: Reader, s: Bytes): Attempt {
    match Step(r, s)
    case Next(n, body) =>
      WaitsExactlyBelowDemand(r, s);
      var v := Step(body, s[n..]);
      Attempt(if v.Done? then Reset(body) else body, n, v)
    case v => Attempt(if v.Done? then Reset(r) else r, 0, v)
  }

  /** The readable bytes that remain after an attempt. */
  function Left(a: Attempt, s: Bytes): Bytes {
    var n := a.consumed + if a.verdict.Done? then a.verdict.consumed else 0;
    if n <= |s| then s[n..] else []
  }

  lemma {:induction false} TryLeaves(r: Reader, s: Bytes)
    ensures var a := Try(r, s);
            && !a.verdict.Next?
            && a.consumed + (if a.verdict.Done? then a.verdict.consumed else 0) <= |s|
            && (!r.FrameReader? ==> a.consumed == 0 && (!a.verdict.Done? ==> a.reader == r))
  {
  }

  /** The two phases of the stream reader in one attempt. */
  lemma {:induction false} TryFrame(s: Bytes)
    ensures var v := Step(FrameReader, s);
            v.Next? ==>
              && v.consumed <= |s|
              && var w := Step(v.reader, s[v.consumed..]);
                 && !w.Next? && (w.Done? ==> w.consumed <= |s| - v.consumed)
                 && Try(FrameReader, s) == Attempt(if w.Done? then FrameReader else v.reader, v.consumed, w)
                 && Left(Try(FrameReader, s), s) == if w.Done? then s[v.consumed..][w.consumed..] else s[v.consumed..]
    ensures var v := Step(FrameReader, s);
            !v.Next? ==>
              && (v.Done? ==> v.consumed <= |s|)
              && Try(FrameReader, s) == Attempt(FrameReader, 0, v)
              && Left(Try(FrameReader, s), s) == if v.Done? then s[v.consumed..] else s
  {
  }

  /** Every other phase is an attempt of its own. */
  lemma {:induction false} TryPhase(r: Reader, s: Bytes)
    requires !r.FrameReader?
    ensures var v := Step(r, s);
            && !v.Next? && (v.Done? ==> v.consumed <= |s|)
            && Try(r, s) == Attempt(if v.Done? then Reset(r) else r, 0, v)
            && Left(Try(r, s), s) == if v.Done? then s[v.consumed..] else s
  {
  }

  /** An attempt never changes what the await will come to. */
  lemma {:induction false} AwaitAttempt(r: Reader, c: Bytes, net: Bytes, cap: nat)
    requires |c| <= cap
    ensures var a := Try(r, c);
            var left := Left(a, c);
            match a.verdict
            case Wait =>
              && Await(r, c + net, cap) == Await(a.reader, left + net, cap)
              && (|left| == cap ==> Await(r, c + net, cap) == Outcome(Err(INTERNAL_ERROR), left + net))
              && (|left| < cap && net == [] ==> Await(r, c + net, cap) == Outcome(Err(CONNECTION_CLOSED), left + net))
            case Fail(code) => Await(r, c + net, cap) == Outcome(Err(code), left + net)
            case Done(_, item) => Await(r, c + net, cap) == Outcome(Ok(item), left + net)
            case Next(_, _) => false
  {
    TryLeaves(r, c);
    AwaitStep(r, c, net, cap);
    if Step(r, c).Next? {
      var n := Step(r, c).consumed;
      AwaitStep(Step(r, c).reader, c[n..], net, cap);
      if Step(Step(r, c).reader, c[n..]).Done? {
        SliceOfSlice(c, n, |c|, Step(Step(r, c).reader, c[n..]).consumed, |c| - n);
      }
    }
  }

  /** An attempt moves a read on only as far as the end of the header. */
  lemma {:induction false} StaysUnderway(r: Reader, c: Bytes, net: Bytes)
    ensures var a := Try(r, c);
            a.verdict.Wait? ==> Underway(r, c + net, a.reader, Left(a, c) + net) && Step(a.reader, Left(a, c)).Wait?
  {
    StepStable(r, c, net);
    TryLeaves(r, c);
    if r.FrameReader? { TryFrame(c); }
    if Step(r, c).Next? {
      assert (c + net)[RPC_HEADER_SIZE..] == c[RPC_HEADER_SIZE..] + net;
    }
  }

  /** The body phase is never left for another. */
  lemma {:induction false} UnderwayTwice(r0: Reader, s0: Bytes, r: Reader, s: Bytes, r': Reader, s': Bytes)
    requires Underway(r0, s0, r, s) && Underway(r, s, r', s')
    ensures Underway(r0, s0, r', s')
  {
  }

  /** An attempt that has to wait would find a closed connection if there were no network. */
  lemma {:induction false} ProbeAlone(r: Reader, c: Bytes, cap: nat)
    requires |c| <= cap
    ensures var a := Try(r, c);
            match a.verdict
            case Wait =>
              Await(r, c, cap)
              == Outcome(Err(if |Left(a, c)| == cap then INTERNAL_ERROR else CONNECTION_CLOSED), Left(a, c))
            case Fail(code) => Await(r, c, cap) == Outcome(Err(code), Left(a, c))
            case Done(_, item) => Await(r, c, cap) == Outcome(Ok(item), Left(a, c))
            case Next(_, _) => false
  {
    AwaitAttempt(r, c, [], cap);
    TryLeaves(r, c);
    assert c + [] == c && Left(Try(r, c), c) + [] == Left(Try(r, c), c);
  }

  /** What the machine asks of the scheduler. */
  datatype Action = Complete(result: Result<Message>) | WaitReadv(iovs: seq<Iovec>)

  /** A message delivered from the ring: borrowed, and denoting `item` while the ring memory is `mem`. */
  ghost predicate Delivers(mem: Bytes, m: Message, item: Item) {
    m.payload.Borrowed? && PayloadInBounds(m.payload, mem) && ItemOf(mem, m) == item
  }

  /** The machine's result is the specification's. */
  ghost predicate Agrees(mem: Bytes, result: Result<Message>, spec: Result<Item>) {
    match result
    case Err(c) => spec == Err(c)
    case Ok(m) => spec.Ok? && Delivers(mem, m, spec.value)
  }

  function WholeVerdict(r: Reader, s: Bytes): Parse<Item>
    requires !r.FrameReader? && !r.FrameBodyReader?
  {
    if r.RequestReader? then ZeroCopy.RequestVerdict(ParseRequest(s, r.max))
    else ZeroCopy.ResponseVerdict(ParseResponse(s, r.max))
  }

  /** What a whole-message reader makes of its parser's result: only a response with an unexpected id is treated
      apart. */
  lemma {:induction false} Interpreted(r: Reader, s: Bytes, mem: Bytes, p: Parse<Message>)
    requires !r.FrameReader? && !r.FrameBodyReader? && ZeroCopy.Means(mem, p, WholeVerdict(r, s))
    ensures match p
            case Incomplete => Step(r, s) == Wait
            case Error(c) => Step(r, s) == Fail(c)
            case Parsed(n, m) =>
              && n <= |s| && Step(r, s) == if r.ExpectedReader? && m.id != r.expected then Fail(INVALID_RESPONSE)
                                           else Done(n, ItemOf(mem, m))
  {
  }

  /** The part of the whole-message read states that looks at the ring, whose readable bytes are `s`. */
  method TryParseWhole(r: Reader, mem: Bytes, iovs: seq<Iovec>, ghost s: Bytes) returns (v: Parse<Message>)
    requires !r.FrameReader? && !r.FrameBodyReader?
    requires AllInBounds(iovs, mem) && |iovs| <= 2 && s == Gather(mem, iovs)
    ensures v.Incomplete? ==> Step(r, s) == Wait
    ensures v.Error? ==> Step(r, s) == Fail(v.code)
    ensures v.Parsed? ==>
              && v.length <= |s| && Step(r, s).Done? && Step(r, s).consumed == v.length
              && Delivers(mem, v.value, Step(r, s).item)
  {
    var readable := ReadableBytes(mem, iovs);
    if r.RequestReader? {
      v := ZeroCopy.TryParseRequestMessage(mem, iovs, readable, r.max);
    } else {
      v := ZeroCopy.TryParseResponseMessage(mem, iovs, readable, r.max);
    }
    Interpreted(r, s, mem, v);
    if v.Parsed? && r.ExpectedReader? && v.value.id != r.expected {
      v := Error(INVALID_RESPONSE);
    }
  }

  /** The result and what is left in the ring are those of a connection that holds nothing but the ring. */
  ghost predicate SeesOnlyRing(o: Outcome, mem: Bytes, r: Result<Message>, contents: Bytes) {
    contents == o.rest && if r.Ok? then Agrees(mem, r, o.result) else o.result.Err?
  }

  /** What one round of a read came to: it is over, or it was given up or failed at a wait point, or the ring holds
      more. */
  datatype Turn = Completed(result: Result<Message>) | Stopped(code: U16) | Filled

  function ResultOf(t: Turn): Result<Message>
    requires !t.Filled?
  {
    if t.Completed? then t.result else Err(t.code)
  }

  /** The bytes that have come in since are in ring memory behind the old write position, and nothing else changed, for
      as long as they have not come full circle. */
  ghost predicate Grown(mem: Bytes, tail: nat, incoming: Bytes, mem': Bytes, tail': nat, incoming': Bytes) {
    var n := |incoming| - |incoming'|;
    && tail < |mem| == |mem'| && n >= 0 && incoming' == incoming[n..]
    && (n <= |mem| ==> mem' == Overwrite(mem, tail, incoming[..n]) && tail' == Wrap(|mem|, tail + n))
  }

  lemma {:induction false} NothingGrew(mem: Bytes, tail: nat, incoming: Bytes)
    requires tail < |mem|
    ensures Grown(mem, tail, incoming, mem, tail, incoming)
  {
    assert Overwrite(mem, tail, []) == mem;
  }

  lemma {:induction false} GrownTwice(mem: Bytes, tail: nat, incoming: Bytes, mem': Bytes, tail': nat, incoming': Bytes,
                                      mem'': Bytes, tail'': nat, incoming'': Bytes)
    requires Grown(mem, tail, incoming, mem', tail', incoming')
    requires Grown(mem', tail', incoming', mem'', tail'', incoming'')
    ensures Grown(mem, tail, incoming, mem'', tail'', incoming'')
  {
    var n, m := |incoming| - |incoming'|, |incoming'| - |incoming''|;
    SliceOfSlice(incoming, n, |incoming|, m, |incoming'|);
    if n + m <= |mem| {
      OverwriteTwice(mem, tail, incoming[..n], incoming'[..m]);
      assert incoming[..n] + incoming'[..m] == incoming[..n + m];
    }
  }

  datatype Progress = Waiting | Moved | Finished(result: Result<Message>)

  class Machine {
    const ring: RingBuffer
    var reader: Reader
    var result: Option<Result<Message>>

    ghost predicate Valid()
      reads this, ring
    {
      ring.Valid()
    }

    constructor (ring: RingBuffer, reader: Reader)
      requires ring.Valid()
      ensures Valid() && this.ring == ring && this.reader == reader && result.None?
    {
      this.ring, this.reader, this.result := ring, reader, None;
    }

    /** What one phase did: nothing yet, move on to the body phase, or finish. */
    ghost predicate Performed(p: Progress, v: Verdict, s: Bytes, before: Reader)
      requires Valid()
      reads this, ring, ring.buf
    {
      match v
      case Wait => p == Waiting && reader == before && ring.Contents() == s
      case Fail(c) => p == Finished(Err(c)) && reader == before && ring.Contents() == s
      case Done(n, item) =>
        && p.Finished? && p.result.Ok? && Delivers(ring.Mem(), p.result.value, item)
        && reader == Reset(before) && n <= |s| && ring.Contents() == s[n..]
      case Next(n, body) => p == Moved && reader == body && n <= |s| && ring.Contents() == s[n..]
    }

    /** `RpcRequestReadState`, `RpcResponseReadState` and `ExpectedRpcResponseReadState`: all or nothing. */
    method ParseWhole() returns (p: Progress)
      requires Valid() && !reader.FrameReader? && !reader.FrameBodyReader?
      modifies ring`head, ring`count
      ensures Valid() && Performed(p, Step(reader, old(ring.Contents())), old(ring.Contents()), reader)
      ensures ring.Tail() == old(ring.Tail())
    {
      if ring.count == 0 {
        assert ring.Contents() == [];
        return Waiting;
      }
      var iovs := ring.GetReadIovecs();
      var r := TryParseWhole(reader, ring.Mem(), iovs, ring.Contents());
      if r.Error? {
        return Finished(Err(r.code));
      }
      if r.Incomplete? {
        return Waiting;
      }
      ring.Consume(r.length);
      p := Finished(Ok(r.value));
    }

    /** The header phase of `StreamMessageReadState`. */
    method ParseFrameHeader() returns (p: Progress)
      requires Valid() && reader.FrameReader?
      modifies `reader, ring`head, ring`count
      ensures Valid() && Performed(p, Step(old(reader), old(ring.Contents())), old(ring.Contents()), old(reader))
      ensures ring.Tail() == old(ring.Tail())
    {
      var iovs := ring.GetReadIovecs();
      var mem := ring.Mem();
      var readable := ReadableBytes(mem, iovs);
      if readable < RPC_HEADER_SIZE {
        return Waiting;
      }
      var decoded := ZeroCopy.ReadHeader(mem, iovs);
      if decoded.None? {
        return Finished(Err(INVALID_REQUEST));
      }
      var h := decoded.value;
      ring.Consume(RPC_HEADER_SIZE);
      if h.typ == STREAM_END || h.typ == STREAM_CANCEL || h.bodyLength == 0 {
        return Finished(Ok(FrameMsg(h.typ, h.requestId, Borrowed(EmptyView))));
      }
      reader := FrameBodyReader(h.typ, h.requestId, h.bodyLength);
      p := Moved;
    }

    /** The body phase of `StreamMessageReadState`. */
    method ParseFrameBody() returns (p: Progress)
      requires Valid() && reader.FrameBodyReader?
      modifies `reader, ring`head, ring`count
      ensures Valid() && Performed(p, Step(old(reader), old(ring.Contents())), old(ring.Contents()), old(reader))
      ensures ring.Tail() == old(ring.Tail())
    {
      var iovs := ring.GetReadIovecs();
      var mem := ring.Mem();
      var readable := ReadableBytes(mem, iovs);
      if readable < reader.bodyLength {
        return Waiting;
      }
      var ok, view := PayloadViewFromIovecs(mem, iovs, 0, reader.bodyLength);
      ring.Consume(reader.bodyLength);
      p := Finished(Ok(FrameMsg(reader.typ, reader.id, Borrowed(view))));
      reader := FrameReader;
    }

    /** A whole attempt has been made: the phase, the ring and the result are what `a` says. */
    ghost predicate Attempted(parsed: Option<Result<Message>>, a: Attempt, s: Bytes)
      requires Valid()
      reads this, ring, ring.buf
    {
      && reader == a.reader && ring.Contents() == Left(a, s)
      && match a.verdict
         case Wait => parsed.None?
         case Fail(c) => parsed == Some(Err(c))
         case Done(_, item) => parsed.Some? && parsed.value.Ok? && Delivers(ring.Mem(), parsed.value.value, item)
         case Next(_, _) => false
    }

    /** `StreamMessageReadState::parseFromRingBuffer` from its header phase. */
    method ParseFrame() returns (parsed: Option<Result<Message>>)
      requires Valid() && reader.FrameReader?
      modifies `reader, ring`head, ring`count
      ensures Valid() && Attempted(parsed, Try(old(reader), old(ring.Contents())), old(ring.Contents()))
      ensures ring.Tail() == old(ring.Tail())
    {
      TryFrame(ring.Contents());
      var p := ParseFrameHeader();
      if p.Moved? {
        p := ParseFrameBody();
      }
      parsed := if p.Finished? then Some(p.result) else None;
    }

    /** `parseFromRingBuffer` of whichever read state this is: `None` while it must wait. */
    method ParseFromRingBuffer() returns (parsed: Option<Result<Message>>)
      requires Valid()
      modifies `reader, ring`head, ring`count
      ensures Valid() && Attempted(parsed, Try(old(reader), old(ring.Contents())), old(ring.Contents()))
      ensures ring.Tail() == old(ring.Tail())
    {
      if reader.FrameReader? {
        parsed := ParseFrame();
        return;
      }
      TryPhase(reader, ring.Contents());
      var p;
      if reader.FrameBodyReader? {
        p := ParseFrameBody();
      } else {
        p := ParseWhole();
      }
      parsed := if p.Finished? then Some(p.result) else None;
    }

    /** `prepareReadWindow`: whether there is any room to read into, and where. */
    method PrepareReadWindow() returns (ok: bool, iovs: seq<Iovec>)
      requires Valid()
      ensures ok <==> ring.count < ring.Capacity()
      ensures iovs == ring.WriteWindow()
    {
      iovs := ring.GetWriteIovecs();
      var writable := ReadableBytes(ring.Mem(), iovs);
      ok := writable > 0;
    }

    /** `advance`: a stored result, else a parsing attempt, else a read into whatever the ring has free; with nothing
        free the await ends instead of waiting for a read that cannot deliver. */
    method Advance() returns (a: Action)
      requires Valid()
      modifies this, ring`head, ring`count
      ensures Valid() && ring.Tail() == old(ring.Tail())
      ensures old(result).Some? ==>
                && a == Complete(old(result).value) && result == old(result) && reader == old(reader)
                && ring.Contents() == old(ring.Contents())
      ensures old(result).None? ==> Advanced(a, Try(old(reader), old(ring.Contents())), old(ring.Contents()))
    {
      if result.Some? {
        return Complete(result.value);
      }
      TryLeaves(reader, ring.Contents());
      result := ParseFromRingBuffer();
      if result.Some? {
        return Complete(result.value);
      }
      var ok, iovs := PrepareReadWindow();
      if !ok {
        result := Some(Err(INTERNAL_ERROR));
        return Complete(result.value);
      }
      a := WaitReadv(iovs);
    }

    ghost predicate Advanced(a: Action, t: Attempt, s: Bytes)
      requires Valid()
      reads this, ring, ring.buf
    {
      && reader == t.reader && ring.Contents() == Left(t, s)
      && (a.Complete? ==> result == Some(a.result))
      && match t.verdict
         case Fail(c) => a == Complete(Err(c))
         case Done(_, item) => a.Complete? && Agrees(ring.Mem(), a.result, Ok(item))
         case Next(_, _) => false
         case Wait =>
           if ring.count == ring.Capacity() then a == Complete(Err(INTERNAL_ERROR))
           else a == WaitReadv(ring.WriteWindow()) && result.None?
    }

    /** `onRead`: an I/O error or a closed peer ends the await, anything else becomes readable. */
    method OnRead(received: Transfer)
      requires Valid()
      requires received.Move? ==> received.amount <= ring.Capacity() - ring.count
      modifies `result, ring`count
      ensures Valid()
      ensures !(received.Move? && received.amount > 0) ==> ring.Tail() == old(ring.Tail())
      ensures received.IoError? ==> result == Some(Err(received.code)) && ring.Contents() == old(ring.Contents())
      ensures received == Move(0) ==> result == Some(Err(CONNECTION_CLOSED)) && ring.Contents() == old(ring.Contents())
      ensures received.Move? && received.amount > 0 ==>
                && result == old(result) && ring.Contents() == old(ring.Contents() + ring.Free()[..received.amount])
                && ring.Tail() == Wrap(ring.Capacity(), old(ring.Tail()) + received.amount)
    {
      if received.IoError? {
        result := Some(Err(received.code));
      } else if received.amount == 0 {
        result := Some(Err(CONNECTION_CLOSED));
      } else {
        ring.Produce(received.amount);
      }
    }

    /** All the bytes of the connection that this reader has not consumed. */
    ghost function Pending(socket: Socket): Bytes
      requires Valid()
      reads this, ring, ring.buf, socket
    {
      ring.Contents() + socket.incoming
    }

    /** One `readv` into the ring: the kernel moves some of the incoming bytes, and the machine is told. */
    method Fill(socket: Socket, iovs: seq<Iovec>, n: nat)
      requires Valid() && result.None?
      requires 0 < n <= Min(ring.Capacity() - ring.count, |socket.incoming|)
      requires iovs == ring.WriteWindow()
      modifies `result, ring`count, ring.buf, socket`incoming
      ensures Valid() && result.None? && Pending(socket) == old(Pending(socket))
      ensures |socket.incoming| == |old(socket.incoming)| - n
      ensures Grown(old(ring.Mem()), old(ring.Tail()), old(socket.incoming), ring.Mem(), ring.Tail(), socket.incoming)
    {
      var data := socket.incoming[..n];
      assert socket.incoming == data + socket.incoming[n..];
      ring.Readv(iovs, data);
      socket.incoming := socket.incoming[n..];
      OnRead(Move(n));
    }

    /** One `advance`, in view of what the network still holds. */
    method Probe(ghost socket: Socket) returns (a: Action)
      requires Valid() && result.None?
      modifies this, ring`head, ring`count
      ensures Valid() && ring.Tail() == old(ring.Tail()) && ring.count <= old(ring.count)
      ensures a.Complete? ==>
                var o := Await(old(reader), old(Pending(socket)), ring.Capacity());
                Agrees(ring.Mem(), a.result, o.result) && Pending(socket) == o.rest
      ensures a.WaitReadv? ==>
                && result.None? && ring.count < ring.Capacity() && a.iovs == ring.WriteWindow()
                && Step(reader, ring.Contents()).Wait?
                && Underway(old(reader), old(Pending(socket)), reader, Pending(socket))
                && Await(reader, Pending(socket), ring.Capacity())
                   == Await(old(reader), old(Pending(socket)), ring.Capacity())
                && (socket.incoming == [] ==>
                      Await(old(reader), old(Pending(socket)), ring.Capacity())
                      == Outcome(Err(CONNECTION_CLOSED), Pending(socket)))
      ensures var alone := Await(old(reader), old(ring.Contents()), ring.Capacity());
              if a.Complete? then SeesOnlyRing(alone, ring.Mem(), a.result, ring.Contents())
              else alone == Outcome(Err(CONNECTION_CLOSED), ring.Contents())
    {
      AwaitAttempt(reader, ring.Contents(), socket.incoming, ring.Capacity());
      ProbeAlone(reader, ring.Contents(), ring.Capacity());
      StaysUnderway(reader, ring.Contents(), socket.incoming);
      TryLeaves(reader, ring.Contents());
      a := Advance();
    }

    /** The peer has closed: the read is told, and so is the next `advance`. */
    method HearClosed() returns (t: Turn)
      requires Valid() && result.None?
      modifies this, ring`head, ring`count
      ensures Valid() && reader == old(reader) && ring.Contents() == old(ring.Contents())
      ensures ring.Tail() == old(ring.Tail())
      ensures t == Completed(Err(CONNECTION_CLOSED))
    {
      OnRead(Move(0));
      var a := Advance();
      t := Completed(a.result);
    }

    /** The read that an `advance` asks for: given up, failed, closed by the peer, or some more bytes. */
    method Wait(socket: Socket, patient: bool, iovs: seq<Iovec>) returns (t: Turn)
      requires Valid() && result.None? && ring.count < ring.Capacity() && iovs == ring.WriteWindow()
      modifies this, ring, ring.buf, socket`incoming, socket`readCount
      ensures Valid() && reader == old(reader) && Pending(socket) == old(Pending(socket))
      ensures socket.readCount >= old(socket.readCount)
      ensures Grown(old(ring.Mem()), old(ring.Tail()), old(socket.incoming), ring.Mem(), ring.Tail(), socket.incoming)
      ensures t.Completed? ==> t.result == Err(CONNECTION_CLOSED) && old(socket.incoming) == []
      ensures !t.Filled? ==> ring.Contents() == old(ring.Contents())
      ensures t.Stopped? ==>
                if patient then socket.readPlan(old(socket.readCount)) == IoError(t.code) else t.code == REQUEST_TIMEOUT
      ensures if t.Filled? then
                && result.None? && |socket.incoming| < |old(socket.incoming)|
                && socket.readCount == old(socket.readCount) + 1 && !socket.readPlan(old(socket.readCount)).IoError?
              else socket.incoming == old(socket.incoming)
    {
      NothingGrew(ring.Mem(), ring.Tail(), socket.incoming);
      if !patient {
        return Stopped(REQUEST_TIMEOUT);
      }
      var transfer := socket.readPlan(socket.readCount);
      socket.readCount := socket.readCount + 1;
      if transfer.IoError? {
        OnRead(transfer);
        return Stopped(transfer.code);
      }
      if socket.incoming == [] {
        t := HearClosed();
        return;
      }
      Fill(socket, iovs, Share(transfer.amount, Min(ring.Capacity() - ring.count, |socket.incoming|)));
      t := Filled;
    }

    /** One `advance` and the read it asks for, if any. */
    method Round(socket: Socket, patient: bool) returns (t: Turn)
      requires Valid() && result.None?
      modifies this, ring, ring.buf, socket`incoming, socket`readCount
      ensures Valid() && |socket.incoming| <= |old(socket.incoming)| && |Pending(socket)| <= |old(Pending(socket))|
      ensures Grown(old(ring.Mem()), old(ring.Tail()), old(socket.incoming), ring.Mem(), ring.Tail(), socket.incoming)
      ensures t.Completed? ==>
                var o := Await(old(reader), old(Pending(socket)), ring.Capacity());
                Agrees(ring.Mem(), t.result, o.result) && Pending(socket) == o.rest
      ensures !t.Completed? ==>
                && Await(reader, Pending(socket), ring.Capacity())
                   == Await(old(reader), old(Pending(socket)), ring.Capacity())
                && Underway(old(reader), old(Pending(socket)), reader, Pending(socket))
      ensures t.Stopped? ==> Step(reader, ring.Contents()).Wait?
      ensures t.Stopped? ==>
                if patient then socket.readPlan(old(socket.readCount)) == IoError(t.code) else t.code == REQUEST_TIMEOUT
      ensures t.Filled? ==>
                && result.None? && |socket.incoming| < |old(socket.incoming)|
                && socket.readCount == old(socket.readCount) + 1 && !socket.readPlan(old(socket.readCount)).IoError?
      ensures socket.readCount >= old(socket.readCount)
      ensures var alone := Await(old(reader), old(ring.Contents()), ring.Capacity());
              var seen := t.Filled? || SeesOnlyRing(alone, ring.Mem(), ResultOf(t), ring.Contents());
              old(socket.readPlan(socket.readCount).IoError?) ==>
                seen && !t.Filled? && socket.incoming == old(socket.incoming)
    {
      ghost var alone := Await(reader, ring.Contents(), ring.Capacity());
      var a := Probe(socket);
      if a.Complete? {
        t := Completed(a.result);
        assert SeesOnlyRing(alone, ring.Mem(), ResultOf(t), ring.Contents());
        return;
      }
      t := Wait(socket, patient, a.iovs);
      assert !t.Filled? ==> SeesOnlyRing(alone, ring.Mem(), ResultOf(t), ring.Contents());
    }

    /** `co_await` of this read, with the kernel splitting the incoming bytes any way it likes, and possibly failing or
        the caller giving up after `patience` reads.

        Completed, it yields what `Await` says about the bytes alone. Interrupted, it has lost nothing: resuming comes
        to the same, and a whole-message reader has not even moved, so a fresh one will do. */
    method Receive(socket: Socket, patience: nat) returns (done: bool, r: Result<Message>)
      requires Valid() && result.None?
      modifies this, ring, ring.buf, socket`incoming, socket`readCount
      ensures Valid() && |socket.incoming| <= |old(socket.incoming)| && |Pending(socket)| <= |old(Pending(socket))|
      ensures Grown(old(ring.Mem()), old(ring.Tail()), old(socket.incoming), ring.Mem(), ring.Tail(), socket.incoming)
      ensures done ==>
                var o := Await(old(reader), old(Pending(socket)), ring.Capacity());
                Agrees(ring.Mem(), r, o.result) && Pending(socket) == o.rest
      ensures !done ==>
                && Await(reader, Pending(socket), ring.Capacity())
                   == Await(old(reader), old(Pending(socket)), ring.Capacity())
                && Underway(old(reader), old(Pending(socket)), reader, Pending(socket))
                && Step(reader, ring.Contents()).Wait? && r.Err?
      ensures !done && patience > |old(socket.incoming)| ==>
                exists i: nat :: old(socket.readCount) <= i <= socket.readCount && socket.readPlan(i) == IoError(r.code)
      ensures socket.readCount >= old(socket.readCount)
      ensures old(socket.readPlan(socket.readCount).IoError?) ==>
                && socket.incoming == old(socket.incoming)
                && SeesOnlyRing(Await(old(reader), old(ring.Contents()), ring.Capacity()),
                                ring.Mem(), r, ring.Contents())
    {
      ghost var r0, s0, cap := reader, Pending(socket), ring.Capacity();
      var waits := 0;
      while true
        invariant Valid() && result.None? && socket.readCount >= old(socket.readCount)
        invariant Await(reader, Pending(socket), cap) == Await(r0, s0, cap) && Underway(r0, s0, reader, Pending(socket))
        invariant waits + |socket.incoming| <= |old(socket.incoming)| && |Pending(socket)| <= |s0|
        invariant Grown(old(ring.Mem()), old(ring.Tail()), old(socket.incoming),
                        ring.Mem(), ring.Tail(), socket.incoming)
        invariant waits == 0 ==>
                    && reader == r0 && ring.Contents() == old(ring.Contents())
                    && socket.incoming == old(socket.incoming)
                    && socket.readCount == old(socket.readCount)
        invariant waits > 0 ==> !old(socket.readPlan(socket.readCount).IoError?)
        decreases |socket.incoming|
      {
        ghost var r1, s1 := reader, Pending(socket);
        ghost var mem, tail, incoming := ring.Mem(), ring.Tail(), socket.incoming;
        var t := Round(socket, waits < patience);
        GrownTwice(old(ring.Mem()), old(ring.Tail()), old(socket.incoming), mem, tail, incoming,
                   ring.Mem(), ring.Tail(), socket.incoming);
        if t.Completed? {
          return true, t.result;
        }
        UnderwayTwice(r0, s0, r1, s1, reader, Pending(socket));
        if t.Stopped? {
          return false, Err(t.code);
        }
        waits := waits + 1;
      }
    }
  }

  /** One read with a fresh read state, as the first step of a session. */
  method ReceiveOne(ring: RingBuffer, socket: Socket, r: Reader, patience: nat)
    returns (done: bool, result: Result<Item>)
    requires ring.Valid() && !r.FrameBodyReader?
    modifies ring, ring.buf, socket`incoming, socket`readCount
    ensures ring.Valid() && |socket.incoming| <= |old(socket.incoming)|
    ensures var before := AwaitAll(r, old(ring.Contents() + socket.incoming), ring.Capacity());
            && (done && result.Err? ==> before.items == [] && before.code == result.code)
            && (done && result.Ok? ==>
                  && before == Prepend([result.value], AwaitAll(r, ring.Contents() + socket.incoming, ring.Capacity()))
                  && |ring.Contents() + socket.incoming| < |old(ring.Contents() + socket.incoming)|)
            && (!done && !r.FrameReader? ==>
                  ring.Contents() + socket.incoming == old(ring.Contents() + socket.incoming))
    ensures patience > |old(socket.incoming)| && NeverFails(socket.readPlan) ==> done
  {
    AwaitAllStep(r, ring.Contents() + socket.incoming, ring.Capacity());
    var m := new Machine(ring, r);
    assert m.Pending(socket) == ring.Contents() + socket.incoming;
    var message;
    done, message := m.Receive(socket, patience);
    assert m.Pending(socket) == ring.Contents() + socket.incoming;
    result := if message.Ok? then Ok(ItemOf(ring.Mem(), message.value)) else Err(message.code);
  }

  /** One read that is not given up: the message borrows ring memory that the reader has already consumed. A read that
      the network interrupts stopped at a wait point; `stopped` says in which phase. */
  method ReadMessage(ring: RingBuffer, socket: Socket, r: Reader)
    returns (result: Result<Message>, ghost stopped: Option<Reader>)
    requires ring.Valid() && !r.FrameBodyReader?
    modifies ring, ring.buf, socket`incoming, socket`readCount
    ensures ring.Valid() && |ring.Contents() + socket.incoming| <= |old(ring.Contents() + socket.incoming)|
    ensures var o := Await(r, old(ring.Contents() + socket.incoming), ring.Capacity());
            && (result.Ok? ==>
                  && stopped.None? && PayloadInBounds(result.value.payload, ring.Mem())
                  && o == Outcome(Ok(ItemOf(ring.Mem(), result.value)), ring.Contents() + socket.incoming))
            && (result.Err? && stopped.None? ==> o == Outcome(Err(result.code), ring.Contents() + socket.incoming))
    ensures stopped.Some? ==>
              && Underway(r, old(ring.Contents() + socket.incoming), stopped.value, ring.Contents() + socket.incoming)
              && Step(stopped.value, ring.Contents()).Wait?
              && result.Err?
              && exists i: nat ::
                   old(socket.readCount) <= i <= socket.readCount && socket.readPlan(i) == IoError(result.code)
    ensures old(socket.readPlan(socket.readCount).IoError?) ==>
              && socket.incoming == old(socket.incoming)
              && SeesOnlyRing(Await(r, old(ring.Contents()), ring.Capacity()), ring.Mem(), result, ring.Contents())
    ensures socket.readCount >= old(socket.readCount)
    ensures Grown(old(ring.Mem()), old(ring.Tail()), old(socket.incoming), ring.Mem(), ring.Tail(), socket.incoming)
  {
    var machine := new Machine(ring, r);
    assert machine.Pending(socket) == ring.Contents() + socket.incoming;
    var done;
    done, result := machine.Receive(socket, |socket.incoming| + 1);
    assert machine.Pending(socket) == ring.Contents() + socket.incoming;
    stopped := if done then None else Some(machine.reader);
  }

  /** Of `n` borrowed bytes at `at`, `free` ahead of the write position, byte `i` is intact exactly until `free + i`
      more bytes have arrived, and then it is the byte that arrived. */
  ghost predicate Survives(mem: Bytes, mem': Bytes, at: nat, n: nat, free: nat, arrived: Bytes) {
    at < |mem| == |mem'| && n <= |mem| &&
    forall i :: 0 <= i < n ==>
      Ringed(mem', at, n)[i] == if free + i < |arrived| then arrived[free + i] else Ringed(mem, at, n)[i]
  }

  /** A payload borrowed before a read: a message consumed when `free` bytes were writable lies `free` bytes ahead of
      the write position. `Grown` is what every read promises, however many pieces it comes in, so this says exactly
      which of the borrowed bytes are still there after it, for as long as no more than a ringful has arrived. */
  lemma {:induction false} GrowthSpares(mem: Bytes, tail: nat, incoming: Bytes, mem': Bytes, tail': nat,
                                        incoming': Bytes,
                                        free: nat, n: nat)
    requires Grown(mem, tail, incoming, mem', tail', incoming') && free + n <= |mem| && free < |mem|
    requires |incoming| - |incoming'| <= |mem|
    ensures Survives(mem, mem', Wrap(|mem|, tail + free), n, free, incoming[..|incoming| - |incoming'|])
  {
    BorrowedBytesAfterReceive(mem, tail, free, n, incoming[..|incoming| - |incoming'|]);
  }

  /** Repeated reads on one connection, each with a fresh read state, some of them failing or abandoned on the way.

      However the kernel splits the bytes, wherever the ring wraps and whichever reads were interrupted, what has been
      delivered is what `AwaitAll` says about the bytes alone, in the same order and with the same fields, and a session
      that ran to its end delivered all of it. (An interrupted stream read may have consumed a header; see
      `Awaiting.AbandonedBodyIsLost`.) */
  method ReceiveAll(ring: RingBuffer, socket: Socket, r: Reader, attempts: nat, patience: nat -> nat)
    returns (items: seq<Item>, finished: Option<U16>)
    requires ring.Valid() && !r.FrameBodyReader?
    modifies ring, ring.buf, socket`incoming, socket`readCount
    ensures ring.Valid()
    ensures var all := AwaitAll(r, old(ring.Contents() + socket.incoming), ring.Capacity());
            && items <= all.items
            && (finished.Some? ==> items == all.items && finished.value == all.code)
            && (!r.FrameReader? && finished.None? ==>
                  all == Prepend(items, AwaitAll(r, ring.Contents() + socket.incoming, ring.Capacity())))
    ensures attempts > |old(ring.Contents() + socket.incoming)| ==>
            NeverFails(socket.readPlan) && (forall i: nat :: patience(i) > |old(socket.incoming)|) ==>
            finished.Some?
  {
    ghost var s0, cap := ring.Contents() + socket.incoming, ring.Capacity();
    ghost var all := AwaitAll(r, s0, cap);
    items := [];
    var i := 0;
    while i < attempts
      invariant ring.Valid() && i <= attempts && |socket.incoming| <= |old(socket.incoming)|
      invariant all == Prepend(items, AwaitAll(r, ring.Contents() + socket.incoming, cap))
      invariant NeverFails(socket.readPlan) && (forall k: nat :: patience(k) > |old(socket.incoming)|) ==>
                  i + |ring.Contents() + socket.incoming| <= |s0|
    {
      var done, result := ReceiveOne(ring, socket, r, patience(i));
      if done {
        if result.Err? {
          return items, Some(result.code);
        }
        items := items + [result.value];
        PrependSnoc(items, AwaitAll(r, ring.Contents() + socket.incoming, cap));
      } else if r.FrameReader? {
        return items, None;
      }
      i := i + 1;
    }
    finished := None;
  }

  lemma {:induction false} PrependSnoc(items: seq<Item>, later: Session)
    requires items != []
    ensures Prepend(items[..|items| - 1], Prepend([items[|items| - 1]], later)) == Prepend(items, later)
  {
  }

  /** Fragmentation independence: whatever way the kernel splits the bytes of messages sent back to back, and wherever
      the ring wraps, repeated reads deliver exactly those messages, in order, and then find the connection closed. */
  method ReceiveEncoded(ring: RingBuffer, socket: Socket, r: Reader, ghost sent: seq<Item>) returns (items: seq<Item>)
    requires ring.Valid() && !r.FrameBodyReader? && NeverFails(socket.readPlan)
    requires ring.Contents() + socket.incoming == EncodeAll(sent)
    requires forall i :: 0 <= i < |sent| ==> Fits(r, sent[i], ring.Capacity())
    modifies ring, ring.buf, socket`incoming, socket`readCount
    ensures ring.Valid() && items == sent
  {
    SessionOf(r, sent, ring.Capacity());
    var bound := |socket.incoming| + 1;
    var finished;
    items, finished := ReceiveAll(ring, socket, r, ring.count + bound, _ => bound);
  }
}

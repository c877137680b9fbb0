/**
 The windowed stream client down to the bytes: one stream of benchmark/b5_stream.cpp:126-247, over the real reader and
 gather writer, against what the stream server owes for what the client sends.
 */
module StreamClient {
  import opened Wire
  import opened Codec
  import opened Memory
  import opened Ring
  import opened Net
  import opened Awaiting
  import opened Service
  import opened StreamTrace
  import EchoTrace
  import R = ReadMachine
  import W = WriteMachine
  import SP = StreamProtocol

  /** A stream: its id and route, and how many frames of which payload it carries through which window. */
  datatype Job = Job(id: U32, service: Bytes, method_: Bytes, payload: Bytes, frames: nat, frameWindow: nat)

  function Init(j: Job): Frame { SP.Frame(STREAM_INIT, j.id, EncodeInitBody(j.service, j.method_)) }
  function Data(j: Job): Frame { SP.Frame(STREAM_DATA, j.id, j.payload) }
  function End(j: Job): Frame { SP.Frame(STREAM_END, j.id, []) }

  function WindowOf(j: Job): (n: nat)
    ensures n > 0
  {
    SP.Max(1, Min(j.frameWindow, j.frames))
  }

  /** It is the window of the two-process protocol. */
  lemma {:induction false} WindowIs(j: Job, c: SP.Config)
    requires c.frames == j.frames && c.frameWindow == j.frameWindow
    ensures WindowOf(j) == SP.Window(c)
    ensures j.frameWindow == 0 || j.frames == 0 ==> WindowOf(j) == 1
    ensures 1 <= j.frameWindow <= j.frames ==> WindowOf(j) == j.frameWindow
    ensures 1 <= j.frames <= j.frameWindow ==> WindowOf(j) == j.frames
  {
  }

  function Copies(f: Frame, n: nat): seq<Frame> { if n == 0 then [] else [f] + Copies(f, n - 1) }

  /** What the client says in the course of the stream, and what it is to hear. */
  function Said(j: Job): seq<Frame> { [Init(j)] + (Copies(Data(j), j.frames) + [End(j)]) }
  function Heard(j: Job): seq<Frame> { [InitAck(j.id)] + (Copies(Data(j), j.frames) + [End(j)]) }

  /** Frame by frame, with the wire's numbers: STREAM_INIT with the names of the route, the payload as DATA as often as
      the stream is long, END; and INIT_ACK, the same DATA, END. All carry the stream's id. */
  lemma {:induction false} SaidAndHeard(j: Job)
    ensures |Said(j)| == |Heard(j)| == j.frames + 2
    ensures Said(j)[0].typ == 0x10 && Said(j)[0].id == j.id && Heard(j)[0] == SP.Frame(0x11, j.id, [])
    ensures |j.service| <= 0xffff && |j.method_| <= 0xffff ==>
              NamesAt(Said(j)[0].payload, 0, j.service, j.method_, [])
    ensures forall i :: 1 <= i <= j.frames ==> Said(j)[i] == Heard(j)[i] == SP.Frame(0x12, j.id, j.payload)
    ensures Said(j)[j.frames + 1] == Heard(j)[j.frames + 1] == SP.Frame(0x13, j.id, [])
  {
    CopiesAre(Data(j), j.frames);
    if |j.service| <= 0xffff && |j.method_| <= 0xffff {
      InitLayout(j.service, j.method_);
    }
  }

  /** The stream goes to the last handler registered for sessions of its method of its service. */
  lemma {:induction false} OpensItsRoute(catalogue: Catalogue, histories: map<Bytes, seq<Registration>>, j: Job)
    requires MadeBy(catalogue, histories) && |j.service| <= 0xffff && |j.method_| <= 0xffff
    ensures HandlerFor(catalogue, Init(j))
         == if j.service in histories then LastForSession(histories[j.service], j.method_) else None
  {
    SaidAndHeard(j);
    HandlerOfFirstFrame(catalogue, histories, Init(j), j.service, j.method_, []);
  }

  /** All frames of the stream fit the ring of whoever reads them. */
  ghost predicate JobFits(j: Job, cap: nat) {
    && Fits(FrameReader, AsItem(Init(j)), cap) && Fits(FrameReader, AsItem(Data(j)), cap)
    && Fits(FrameReader, AsItem(End(j)), cap) && Fits(FrameReader, AsItem(InitAck(j.id)), cap)
  }

  // ---- The server's side --------------------------------------------------------------------------------------------

  /** The stream server with the echo handler, sent what the client says, sends what the client is to hear. */
  lemma {:induction false} ServerSaysWhatIsHeard(catalogue: Catalogue, j: Job, cap: nat)
    requires HandlerFor(catalogue, Init(j)).Some? && JobFits(j, cap)
    ensures EchoTrace.Owed(catalogue, EchoTrace.Idle, EchoTrace.EncodeFrames(Said(j)), cap)
         == EchoTrace.EncodeFrames(Heard(j))
  {
    var tail := Copies(Data(j), j.frames) + [End(j)];
    CopiesAre(Data(j), j.frames);
    EchoTrace.OwedForFrames(catalogue, EchoTrace.Idle, Said(j), cap);
    assert Said(j)[1..] == tail;
    EchoesInStream(catalogue, j, j.frames);
  }

  lemma {:induction false} CopiesAre(f: Frame, n: nat)
    ensures |Copies(f, n)| == n && forall i :: 0 <= i < |Copies(f, n)| ==> Copies(f, n)[i] == f
  {
    if n > 0 { CopiesAre(f, n - 1); }
  }

  lemma {:induction false} EchoesInStream(catalogue: Catalogue, j: Job, n: nat)
    ensures EchoTrace.Replies(catalogue, EchoTrace.InStream(j.id), Copies(Data(j), n) + [End(j)])
         == Copies(Data(j), n) + [End(j)]
  {
    var frames := Copies(Data(j), n) + [End(j)];
    if n == 0 {
      assert frames == [End(j)] && frames[1..] == [];
    } else {
      assert frames[1..] == Copies(Data(j), n - 1) + [End(j)];
      EchoesInStream(catalogue, j, n - 1);
    }
  }

  // ---- The client's side --------------------------------------------------------------------------------------------

  /** The bytes of `n` data frames. */
  function DataBytes(j: Job, n: nat): Bytes { if n == 0 then [] else DataBytes(j, n - 1) + OnWire(Data(j)) }

  /** The bytes that are still to be heard after `recv` echoes. */
  function Rest(j: Job, recv: nat): Bytes
    requires recv <= j.frames
    decreases j.frames - recv
  {
    if recv == j.frames then OnWire(End(j)) else OnWire(Data(j)) + Rest(j, recv + 1)
  }

  /** What one read gives when a prefix of `f` and what follows it is on its way: that frame, or nothing at all. */
  lemma {:induction false} NextFrame(f: Frame, later: Bytes, s: Bytes, cap: nat)
    requires Fits(FrameReader, AsItem(f), cap) && s <= OnWire(f) + later
    ensures var o := Await(FrameReader, s, cap);
            if |s| >= |OnWire(f)| then
              && o == Outcome(Ok(AsItem(f)), s[|OnWire(f)|..]) && o.rest <= later
              && (s == OnWire(f) + later ==> o.rest == later)
            else o.result == Err(CONNECTION_CLOSED)
  {
    var wire := OnWire(f);
    if |s| >= |wire| {
      assert s == wire + s[|wire|..] && later == (wire + later)[|wire|..];
      AwaitEncoded(FrameReader, AsItem(f), s[|wire|..], cap);
    } else {
      assert s == (wire + later)[..|s|] == wire[..|s|];
      FrameInPart(f, s, cap);
    }
  }

  lemma {:induction false} FrameInPart(f: Frame, s: Bytes, cap: nat)
    requires Fits(FrameReader, AsItem(f), cap) && s < OnWire(f)
    ensures Await(FrameReader, s, cap).result == Err(CONNECTION_CLOSED)
  {
    if |s| >= RPC_HEADER_SIZE {
      var header := EncodeHeader(NewHeader(f.typ, 0, f.id, |f.payload|));
      assert OnWire(f) == header + f.payload;
      assert s == header + s[RPC_HEADER_SIZE..] && s[RPC_HEADER_SIZE..] < f.payload;
      AwaitPartOfBody(f.typ, f.id, f.payload, s[RPC_HEADER_SIZE..], cap);
    }
  }

  lemma {:induction false} DataBytesGrow(j: Job, k: nat, n: nat)
    requires k <= n
    ensures DataBytes(j, k) <= DataBytes(j, n)
  {
    if k < n { DataBytesGrow(j, k, n - 1); }
  }

  /** One read while `f` and what follows it are on their way, perhaps only in part: `f`, or a failure. */
  method Hear(ring: RingBuffer, socket: Socket, ghost f: Frame, ghost later: Bytes) returns (m: Result<Message>)
    requires ring.Valid() && Fits(FrameReader, AsItem(f), ring.Capacity())
    requires ring.Contents() + socket.incoming <= OnWire(f) + later
    modifies ring, ring.buf, socket`incoming, socket`readCount
    ensures ring.Valid()
    ensures m.Ok? ==>
              && PayloadInBounds(m.value.payload, ring.Mem()) && ItemOf(ring.Mem(), m.value) == AsItem(f)
              && ring.Contents() + socket.incoming <= later
    ensures NeverFails(socket.readPlan) && old(ring.Contents() + socket.incoming) == OnWire(f) + later ==>
              m.Ok? && ring.Contents() + socket.incoming == later
  {
    NextFrame(f, later, ring.Contents() + socket.incoming, ring.Capacity());
    ghost var stopped;
    m, stopped := R.ReadMessage(ring, socket, FrameReader);
  }

  /** How a stream ends for the client: completed, broken by the network, or by a frame it does not expect. */
  datatype Ending = Completed | Broken(code: U16) | Unexpected

  /** What the client has said when it has sent `sent` data frames. */
  function Spoken(j: Job, before: Bytes, sent: nat): Bytes { before + OnWire(Init(j)) + DataBytes(j, sent) }

  /** Opens the stream: `None` when it is open. */
  method Open(ring: RingBuffer, socket: Socket, j: Job) returns (e: Option<Ending>)
    requires ring.Valid() && JobFits(j, ring.Capacity())
    requires ring.Contents() + socket.incoming <= OnWire(InitAck(j.id)) + Rest(j, 0)
    modifies ring, ring.buf, socket
    ensures ring.Valid() && (e.Some? ==> e.value.Broken?)
    ensures socket.outgoing <= Spoken(j, old(socket.outgoing), 0)
    ensures e.None? ==>
              socket.outgoing == Spoken(j, old(socket.outgoing), 0) && ring.Contents() + socket.incoming <= Rest(j, 0)
    ensures NeverFails(socket.readPlan) && NeverRefuses(socket.writePlan)
            && old(ring.Contents() + socket.incoming) == OnWire(InitAck(j.id)) + Rest(j, 0) ==>
              e.None? && ring.Contents() + socket.incoming == Rest(j, 0)
  {
    var init := FrameMsg(STREAM_INIT, j.id, Owned(EncodeInitBody(j.service, j.method_)));
    assert EncodeItem(ItemOf(ring.Mem(), init)) == OnWire(Init(j));
    assert Spoken(j, socket.outgoing, 0) == socket.outgoing + OnWire(Init(j));
    var sent := W.SendMessage(ring, socket, init);
    if sent.SendFailed? {
      return Some(Broken(sent.code));
    }
    var ack := Hear(ring, socket, InitAck(j.id), Rest(j, 0));
    if ack.Err? {
      return Some(Broken(ack.code));
    }
    var f := AsFrame(ItemOf(ring.Mem(), ack.value));
    e := if f.typ != STREAM_INIT_ACK || f.id != j.id then Some(Unexpected) else None;
  }

  /** Sends data frames until the window or the stream is full. */
  method FillWindow(ring: RingBuffer, socket: Socket, j: Job, recv: nat, sent0: nat, ghost before: Bytes)
    returns (sent: nat, e: Option<Ending>)
    requires recv <= sent0 <= j.frames && sent0 - recv <= WindowOf(j)
    requires socket.outgoing == Spoken(j, before, sent0)
    modifies socket`outgoing, socket`writeCount
    ensures recv <= sent <= j.frames && sent - recv <= WindowOf(j) && (e.Some? ==> e.value.Broken?)
    ensures if e.None? then
              (sent == j.frames || sent - recv == WindowOf(j)) && socket.outgoing == Spoken(j, before, sent)
            else socket.outgoing <= Spoken(j, before, j.frames)
    ensures NeverRefuses(socket.writePlan) ==> e.None?
  {
    sent := sent0;
    while sent < j.frames && sent - recv < WindowOf(j)
      invariant recv <= sent <= j.frames && sent - recv <= WindowOf(j)
      invariant socket.outgoing == Spoken(j, before, sent)
    {
      SpokenGrows(j, before, sent, j.frames);
      var m := FrameMsg(STREAM_DATA, j.id, Owned(j.payload));
      assert EncodeItem(ItemOf(ring.Mem(), m)) == OnWire(Data(j));
      var ok := W.SendMessage(ring, socket, m);
      if ok.SendFailed? {
        return sent, Some(Broken(ok.code));
      }
      sent := sent + 1;
    }
    e := None;
  }

  lemma {:induction false} SpokenGrows(j: Job, before: Bytes, k: nat, n: nat)
    requires k < n
    ensures Spoken(j, before, k) + OnWire(Data(j)) == Spoken(j, before, k + 1)
    ensures Spoken(j, before, k + 1) <= Spoken(j, before, n)
  {
    DataBytesGrow(j, k + 1, n);
  }

  /** Sends and receives until every frame has come back: `None` when all have. */
  method Flow(ring: RingBuffer, socket: Socket, j: Job, ghost before: Bytes) returns (e: Option<Ending>)
    requires ring.Valid() && JobFits(j, ring.Capacity())
    requires ring.Contents() + socket.incoming <= Rest(j, 0) && socket.outgoing == Spoken(j, before, 0)
    modifies ring, ring.buf, socket
    ensures ring.Valid() && (e.Some? ==> e.value.Broken?)
    ensures if e.None? then
              socket.outgoing == Spoken(j, before, j.frames) && ring.Contents() + socket.incoming <= OnWire(End(j))
            else socket.outgoing <= Spoken(j, before, j.frames)
    ensures NeverFails(socket.readPlan) && NeverRefuses(socket.writePlan)
            && old(ring.Contents() + socket.incoming) == Rest(j, 0) ==>
              e.None? && ring.Contents() + socket.incoming == OnWire(End(j))
  {
    var sent, recv := 0, 0;
    while recv < j.frames
      invariant ring.Valid() && recv <= sent <= j.frames && sent - recv <= WindowOf(j)
      invariant ring.Contents() + socket.incoming <= Rest(j, recv) && socket.outgoing == Spoken(j, before, sent)
      invariant NeverFails(socket.readPlan) && NeverRefuses(socket.writePlan)
                && old(ring.Contents() + socket.incoming) == Rest(j, 0) ==>
                  ring.Contents() + socket.incoming == Rest(j, recv)
    {
      sent, e := FillWindow(ring, socket, j, recv, sent, before);
      if e.Some? {
        return;
      }
      if sent < j.frames { SpokenGrows(j, before, sent, j.frames); }
      var echo := Hear(ring, socket, Data(j), Rest(j, recv + 1));
      if echo.Err? {
        return Some(Broken(echo.code));
      }
      var f := AsFrame(ItemOf(ring.Mem(), echo.value));
      if f.typ != STREAM_DATA || f.id != j.id || f.payload != j.payload {
        return Some(Unexpected);
      }
      recv := recv + 1;
    }
    e := None;
  }

  /** Ends the stream. */
  method Close(ring: RingBuffer, socket: Socket, j: Job, ghost before: Bytes) returns (e: Ending)
    requires ring.Valid() && JobFits(j, ring.Capacity())
    requires ring.Contents() + socket.incoming <= OnWire(End(j)) && socket.outgoing == Spoken(j, before, j.frames)
    modifies ring, ring.buf, socket
    ensures ring.Valid() && !e.Unexpected?
    ensures socket.outgoing <= Spoken(j, before, j.frames) + OnWire(End(j))
    ensures e.Completed? ==>
              socket.outgoing == Spoken(j, before, j.frames) + OnWire(End(j)) && ring.Contents() + socket.incoming == []
    ensures NeverFails(socket.readPlan) && NeverRefuses(socket.writePlan)
            && old(ring.Contents() + socket.incoming) == OnWire(End(j)) ==>
              e.Completed?
  {
    var m := FrameMsg(STREAM_END, j.id, Owned([]));
    assert EncodeItem(ItemOf(ring.Mem(), m)) == OnWire(End(j));
    var sent := W.SendMessage(ring, socket, m);
    if sent.SendFailed? {
      return Broken(sent.code);
    }
    ClosingTail(j, ring.Contents() + socket.incoming, ring.Capacity());
    e := ReadTail(ring, socket);
  }

  /** With a part of an END on its way, nothing but that END can end the loop. */
  lemma {:induction false} ClosingTail(j: Job, s: Bytes, cap: nat)
    requires JobFits(j, cap) && s <= OnWire(End(j))
    ensures var o := Await(FrameReader, s, cap);
            if s == OnWire(End(j)) then o == Outcome(Ok(AsItem(End(j))), []) && Tail(s, cap) == (Completed, [])
            else o.result.Err? && Tail(s, cap).0.Broken?
  {
    assert OnWire(End(j)) + [] == OnWire(End(j));
    NextFrame(End(j), [], s, cap);
  }

  /** How the closing loop ends on the bytes `s`, and what it leaves of them: it ends at the first END or CANCEL,
      whatever frames come before, or when the bytes give out. */
  function Tail(s: Bytes, cap: nat): (Ending, Bytes)
    decreases |s|
  {
    FrameReaderReads(s, cap);
    var o := Await(FrameReader, s, cap);
    match o.result
    case Err(c) => (Broken(c), o.rest)
    case Ok(item) =>
      if item.typ == STREAM_END then (Completed, o.rest)
      else if item.typ == STREAM_CANCEL then (Unexpected, o.rest)
      else Tail(o.rest, cap)
  }

  /** An END completes the stream, a CANCEL does not, and any other frame is passed over. */
  lemma {:induction false} TailEndsAt(f: Frame, rest: Bytes, cap: nat)
    requires Fits(FrameReader, AsItem(f), cap)
    ensures Tail(OnWire(f) + rest, cap)
         == if f.typ == 0x13 then (Completed, rest) else if f.typ == 0x14 then (Unexpected, rest) else Tail(rest, cap)
  {
    AwaitEncoded(FrameReader, AsItem(f), rest, cap);
  }

  /** Reads whatever comes until an END, a CANCEL or a failure. */
  method ReadTail(ring: RingBuffer, socket: Socket) returns (e: Ending)
    requires ring.Valid()
    modifies ring, ring.buf, socket`incoming, socket`readCount
    ensures ring.Valid()
    ensures var end := Tail(old(ring.Contents() + socket.incoming), ring.Capacity());
            e.Broken? || (e, ring.Contents() + socket.incoming) == end
    ensures NeverFails(socket.readPlan) ==> e == Tail(old(ring.Contents() + socket.incoming), ring.Capacity()).0
  {
    ghost var cap, unread := ring.Capacity(), ring.Contents() + socket.incoming;
    ghost var end := Tail(unread, cap);
    while true
      invariant ring.Valid() && unread == ring.Contents() + socket.incoming && Tail(unread, cap) == end
      decreases |unread|
    {
      FrameReaderReads(unread, cap);
      ghost var stopped;
      var tail;
      tail, stopped := R.ReadMessage(ring, socket, FrameReader);
      if tail.Err? {
        return Broken(tail.code);
      }
      var f := AsFrame(ItemOf(ring.Mem(), tail.value));
      assert Await(FrameReader, unread, cap) == Outcome(Ok(AsItem(f)), ring.Contents() + socket.incoming);
      unread := ring.Contents() + socket.incoming;
      if f.typ == STREAM_END {
        return Completed;
      }
      if f.typ == STREAM_CANCEL {
        return Unexpected;
      }
    }
  }

  /** One stream of the client, whatever the network does, while what the server says to it is on its way, in whole or
      in part: no frame is ever unexpected, the client says no more than its part, and all of it if the stream
      completes, as it does when nothing fails and everything arrives. */
  method RunStream(ring: RingBuffer, socket: Socket, j: Job) returns (e: Ending)
    requires ring.Valid() && JobFits(j, ring.Capacity())
    requires ring.Contents() + socket.incoming <= EchoTrace.EncodeFrames(Heard(j))
    modifies ring, ring.buf, socket
    ensures ring.Valid() && !e.Unexpected?
    ensures socket.outgoing <= old(socket.outgoing) + EchoTrace.EncodeFrames(Said(j))
    ensures e.Completed? ==>
              socket.outgoing == old(socket.outgoing) + EchoTrace.EncodeFrames(Said(j))
              && ring.Contents() + socket.incoming == []
    ensures NeverFails(socket.readPlan) && NeverRefuses(socket.writePlan)
            && old(ring.Contents() + socket.incoming) == EchoTrace.EncodeFrames(Heard(j)) ==>
              e.Completed?
  {
    ghost var before := socket.outgoing;
    HeardBytes(j);
    SaidBytes(j, before);
    var early := Open(ring, socket, j);
    if early.Some? {
      return early.value;
    }
    early := Flow(ring, socket, j, before);
    if early.Some? {
      return early.value;
    }
    e := Close(ring, socket, j, before);
  }

  lemma {:induction false} HeardBytes(j: Job)
    ensures EchoTrace.EncodeFrames(Heard(j)) == OnWire(InitAck(j.id)) + Rest(j, 0)
  {
    assert Heard(j)[1..] == Copies(Data(j), j.frames) + [End(j)];
    RestBytes(j, 0);
  }

  lemma {:induction false} RestBytes(j: Job, recv: nat)
    requires recv <= j.frames
    ensures EchoTrace.EncodeFrames(Copies(Data(j), j.frames - recv) + [End(j)]) == Rest(j, recv)
    decreases j.frames - recv
  {
    var frames := Copies(Data(j), j.frames - recv) + [End(j)];
    if recv == j.frames {
      assert frames == [End(j)] && frames[1..] == [] && OnWire(End(j)) + [] == OnWire(End(j));
    } else {
      assert frames[1..] == Copies(Data(j), j.frames - recv - 1) + [End(j)];
      RestBytes(j, recv + 1);
    }
  }

  lemma {:induction false} SaidBytes(j: Job, before: Bytes)
    ensures Spoken(j, before, j.frames) + OnWire(End(j)) == before + EchoTrace.EncodeFrames(Said(j))
    ensures Spoken(j, before, 0) <= before + EchoTrace.EncodeFrames(Said(j))
    ensures Spoken(j, before, j.frames) <= before + EchoTrace.EncodeFrames(Said(j))
  {
    var tail := Copies(Data(j), j.frames) + [End(j)];
    assert Said(j)[1..] == tail;
    RestBytes(j, 0);
    RestIsData(j, j.frames);
    Associate(before, OnWire(Init(j)), DataBytes(j, j.frames) + OnWire(End(j)));
    Associate(before + OnWire(Init(j)), DataBytes(j, j.frames), OnWire(End(j)));
    DataBytesGrow(j, 0, j.frames);
  }

  lemma {:induction false} RestIsData(j: Job, n: nat)
    requires n <= j.frames
    ensures DataBytes(j, n) + Rest(j, n) == Rest(j, 0)
  {
    if n > 0 {
      RestIsData(j, n - 1);
      Associate(DataBytes(j, n - 1), OnWire(Data(j)), Rest(j, n));
    }
  }
}

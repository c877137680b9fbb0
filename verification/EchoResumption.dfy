/**
 A stream server that is not silent once it is damaged: the kernel takes a part of an echoed frame, refuses the rest,
 and then takes writes again. The handler returns, the loop goes on, and its next answer lands in the middle of the
 frame.
 */
module EchoResumption {
  import opened Wire
  import opened Codec
  import opened Net
  import opened Awaiting
  import opened Service
  import opened Runs
  import opened StreamTrace
  import opened EchoTrace
  import SP = StreamProtocol

  // ---- Steps that can only go one way -----------------------------------------------------------------------------

  lemma {:induction false} GoesOn(w: World, l: Log, n: nat)
    requires Legal(w, l) && Now(l).phase.Closed? && n <= |l.trace| && !At(l, n).phase.Closed?
    ensures n < |l.trace| && Possible(w, At(l, n), l.trace[n]) && At(l, n + 1) == Following(w, At(l, n), l.trace[n])
  {
    StepAt(w, l, n);
  }

  lemma {:induction false} OnlyRead(w: World, c: Conn, e: Event, f: Frame, rest: Bytes)
    requires Possible(w, c, e) && IntentOf(w, c.phase).Reads? && w.steady
    requires Await(FrameReader, c.unread, w.cap) == Outcome(Ok(AsItem(f)), rest)
    ensures e == Received(f)
    ensures Following(w, c, e) == c.(phase := NextPhase(w, c.phase, Received(f)), unread := rest, cut := Uncut,
                                      rounds := if c.phase.Waiting? then c.rounds + 1 else c.rounds)
  {
  }

  lemma {:induction false} OnlySend(w: World, c: Conn, e: Event, f: Frame)
    requires Possible(w, c, e) && IntentOf(w, c.phase) == Sends(f)
    ensures var d := Deliver(w.writePlan, c.writes, |OnWire(f)|);
            && e == (if d.ok then Sent(f) else SendFailed(f))
            && Following(w, c, e)
               == c.(phase := NextPhase(w, c.phase, e), out := c.out + OnWire(f)[..d.bytes], writes := d.writes)
  {
  }

  lemma {:induction false} OnlyMove(w: World, c: Conn, e: Event)
    requires Possible(w, c, e) && (IntentOf(w, c.phase).Starts? || IntentOf(w, c.phase).Returns?)
    ensures e == if IntentOf(w, c.phase).Starts? then Started else Returned
    ensures Following(w, c, e) == c.(phase := NextPhase(w, c.phase, e))
  {
  }

  // ---- The plan -----------------------------------------------------------------------------------------------------

  /** Takes the acknowledgement, five bytes of the echo, nothing, and then whole frames again. */
  function HiccupPlan(i: nat): Transfer {
    if i == 0 then Move(16) else if i == 1 then Move(5) else if i == 2 then IoError(INTERNAL_ERROR) else Move(16)
  }

  lemma {:induction false} Hiccup(len: nat)
    requires len >= RPC_HEADER_SIZE
    ensures Deliver(HiccupPlan, 0, 16) == Delivery(16, 1, true)
    ensures Deliver(HiccupPlan, 1, len) == Delivery(5, 3, false)
    ensures Deliver(HiccupPlan, 3, 16) == Delivery(16, 4, true)
  {
    TakesWhole(0);
    TakesWhole(3);
    ShareIsArbitrary(5, len);
    assert Deliver(HiccupPlan, 2, len - 5) == Delivery(0, 3, false);
  }

  lemma {:induction false} TakesWhole(i: nat)
    requires HiccupPlan(i) == Move(16)
    ensures Deliver(HiccupPlan, i, 16) == Delivery(16, i + 1, true)
  {
    ShareIsArbitrary(16, 16);
    assert Deliver(HiccupPlan, i + 1, 0) == Delivery(0, i + 1, true);
  }

  lemma {:induction false} HiccupIsNotForGood()
    ensures !RefusesForGood(HiccupPlan)
  {
    assert Refuses(HiccupPlan(2)) && !Refuses(HiccupPlan(3));
  }

  // ---- The run ------------------------------------------------------------------------------------------------------

  /** The peer opens a stream and sends two DATA frames. */
  datatype Peer = Peer(init: Frame, first: Frame, second: Frame)

  function Stream(p: Peer): Bytes { OnWire(p.init) + (OnWire(p.first) + (OnWire(p.second) + [])) }

  ghost predicate Scene(w: World, p: Peer) {
    w.steady && Echoes(w) && w.writePlan == HiccupPlan && Opens(w.catalogue, p, w.cap)
  }

  /** Its first frame is accepted, the others are DATA frames, and all of them fit the ring. */
  predicate Opens(catalogue: Catalogue, p: Peer, cap: nat) {
    && HandlerFor(catalogue, p.init).Some? && p.first.typ == STREAM_DATA && p.second.typ == STREAM_DATA
    && Fits(FrameReader, AsItem(p.init), cap) && Fits(FrameReader, AsItem(p.first), cap)
    && Fits(FrameReader, AsItem(p.second), cap)
  }

  ghost predicate Served(w: World, l: Log, p: Peer) {
    Legal(w, l) && Now(l).phase.Closed? && l.start == Conn(Waiting, Stream(p), Uncut, [], 0, 0)
  }

  function Echo(p: Peer): Frame { SP.Frame(STREAM_DATA, p.init.id, p.first.payload) }

  /** The stream is opened. */
  lemma {:induction false} OpensStream(w: World, l: Log, p: Peer)
    requires Scene(w, p) && Served(w, l, p)
    ensures 3 <= |l.trace|
    ensures At(l, 3) == Conn(Running(HandlerFor(w.catalogue, p.init).value, p.init.id, []),
                             OnWire(p.first) + (OnWire(p.second) + []), Uncut, OnWire(InitAck(p.init.id)), 1, 1)
  {
    var rest, ack := OnWire(p.first) + (OnWire(p.second) + []), InitAck(p.init.id);
    AwaitEncoded(FrameReader, AsItem(p.init), rest, w.cap);
    Hiccup(RPC_HEADER_SIZE);
    GoesOn(w, l, 0);
    OnlyRead(w, At(l, 0), l.trace[0], p.init, rest);
    GoesOn(w, l, 1);
    OnlySend(w, At(l, 1), l.trace[1], ack);
    assert [] + OnWire(ack)[..16] == OnWire(ack);
    GoesOn(w, l, 2);
    OnlyMove(w, At(l, 2), l.trace[2]);
  }

  /** The handler reads the first DATA frame. */
  lemma {:induction false} Reads(w: World, l: Log, p: Peer)
    requires Scene(w, p) && Served(w, l, p)
    ensures 4 <= |l.trace|
    ensures At(l, 4) == Conn(Running(HandlerFor(w.catalogue, p.init).value, p.init.id, [Got(p.first)]),
                             OnWire(p.second) + [], Uncut, OnWire(InitAck(p.init.id)), 1, 1)
  {
    OpensStream(w, l, p);
    AwaitEncoded(FrameReader, AsItem(p.first), OnWire(p.second) + [], w.cap);
    assert w.scripts(At(l, 3).phase.handler)(p.init.id, []) == EchoScript(p.init.id, []);
    GoesOn(w, l, 3);
    OnlyRead(w, At(l, 3), l.trace[3], p.first, OnWire(p.second) + []);
    assert [] + [Got(p.first)] == [Got(p.first)];
  }

  /** It is echoed in part, and the handler returns. */
  lemma {:induction false} Hiccups(w: World, l: Log, p: Peer)
    requires Scene(w, p) && Served(w, l, p)
    ensures 6 <= |l.trace|
    ensures At(l, 6) == Conn(Waiting, OnWire(p.second) + [], Uncut,
                             OnWire(InitAck(p.init.id)) + OnWire(Echo(p))[..5], 3, 1)
  {
    Reads(w, l, p);
    var h, id := HandlerFor(w.catalogue, p.init).value, p.init.id;
    Hiccup(|OnWire(Echo(p))|);
    assert w.scripts(h)(id, [Got(p.first)]) == EchoScript(id, [Got(p.first)]);
    assert w.scripts(h)(id, [Got(p.first), SendError]) == EchoScript(id, [Got(p.first), SendError]);
    GoesOn(w, l, 4);
    OnlySend(w, At(l, 4), l.trace[4], Echo(p));
    assert [Got(p.first)] + [SendError] == [Got(p.first), SendError];
    GoesOn(w, l, 5);
    OnlyMove(w, At(l, 5), l.trace[5]);
  }

  /** The second one is refused by the loop, with a frame that now follows five bytes of the echo. */
  lemma {:induction false} Resumes(w: World, l: Log, p: Peer)
    requires Scene(w, p) && Served(w, l, p)
    ensures 8 <= |l.trace|
    ensures At(l, 8).out == OnWire(InitAck(p.init.id)) + OnWire(Echo(p))[..5] + OnWire(Cancel(p.second.id))
  {
    Hiccups(w, l, p);
    AwaitEncoded(FrameReader, AsItem(p.second), [], w.cap);
    Hiccup(RPC_HEADER_SIZE);
    GoesOn(w, l, 6);
    OnlyRead(w, At(l, 6), l.trace[6], p.second, []);
    GoesOn(w, l, 7);
    OnlySend(w, At(l, 7), l.trace[7], Cancel(p.second.id));
    assert OnWire(Cancel(p.second.id))[..16] == OnWire(Cancel(p.second.id));
  }

  lemma {:induction false} OutGrows(w: World, l: Log, i: nat, j: nat)
    requires Legal(w, l) && i <= j <= |l.trace|
    ensures At(l, i).out <= At(l, j).out
  {
    if i < j {
      OutGrows(w, l, i, j - 1);
      OutStep(w, l, j - 1);
    }
  }

  lemma {:induction false} OutStep(w: World, l: Log, n: nat)
    requires Legal(w, l) && n < |l.trace|
    ensures At(l, n).out <= At(l, n + 1).out
  {
    StepAt(w, l, n);
  }

  lemma {:induction false} OwedInScene(w: World, p: Peer)
    requires Scene(w, p)
    ensures OnWire(InitAck(p.init.id)) + OnWire(Echo(p)) <= Owed(w.catalogue, Idle, Stream(p), w.cap)
  {
    var s2, s1 := OnWire(p.second) + [], OnWire(p.first) + (OnWire(p.second) + []);
    AwaitEncoded(FrameReader, AsItem(p.init), s1, w.cap);
    AwaitEncoded(FrameReader, AsItem(p.first), s2, w.cap);
    OwedStep(w.catalogue, Idle, Stream(p), w.cap);
    OwedStep(w.catalogue, InStream(p.init.id), s1, w.cap);
    Associate(OnWire(InitAck(p.init.id)), OnWire(Echo(p)), Owed(w.catalogue, InStream(p.init.id), s2, w.cap));
  }

  /** Byte 5 of a header is its type, byte 0 the first of the magic. */
  lemma {:induction false} HeaderBytes(f: Frame)
    ensures |OnWire(f)| >= RPC_HEADER_SIZE && OnWire(f)[0] == 0x47 && OnWire(f)[5] == f.typ
  {
  }

  /** So what the server sent is no prefix of what it owed, whatever the route, the ids and the payloads. */
  lemma {:induction false} NotAPrefix(w: World, l: Log, p: Peer)
    requires Scene(w, p) && Served(w, l, p)
    ensures !(Now(l).out <= Owed(w.catalogue, Idle, Stream(p), w.cap))
  {
    Resumes(w, l, p);
    OutGrows(w, l, 8, |l.trace|);
    OwedInScene(w, p);
    var ack, echo, cancel := OnWire(InitAck(p.init.id)), OnWire(Echo(p)), OnWire(Cancel(p.second.id));
    HeaderBytes(InitAck(p.init.id));
    HeaderBytes(Echo(p));
    HeaderBytes(Cancel(p.second.id));
    assert Now(l).out[|ack| + 5] == (ack + echo[..5] + cancel)[|ack| + 5] == cancel[0];
    assert Owed(w.catalogue, Idle, Stream(p), w.cap)[|ack| + 5] == (ack + echo)[|ack| + 5] == echo[5];
  }

  // ---- Reads that fail for good -------------------------------------------------------------------------------------

  /** The peer opens a stream and sends a DATA frame whose payload starts like another frame. */
  datatype Nested = Nested(init: Frame, first: Frame, inner: Frame, more: Bytes)

  ghost predicate Nests(catalogue: Catalogue, p: Nested, cap: nat) {
    && HandlerFor(catalogue, p.init).Some? && p.first.typ == STREAM_DATA && p.inner.typ == STREAM_DATA
    && p.first.payload == OnWire(p.inner) + p.more && p.more != []
    && Fits(FrameReader, AsItem(p.init), cap) && Fits(FrameReader, AsItem(p.first), cap)
    && Fits(FrameReader, AsItem(p.inner), cap)
  }

  /** All of it, and the part that has arrived when the network dies: the inner frame is there, the rest of the payload
      is not. */
  function AllOf(p: Nested): Bytes { OnWire(p.init) + (OnWire(p.first) + []) }

  function Arrived(p: Nested): Bytes { OnWire(p.init) + (HeaderOf(p.first) + OnWire(p.inner)) }

  function HeaderOf(f: Frame): Bytes { EncodeHeader(NewHeader(f.typ, 0, f.id, |f.payload|)) }

  lemma {:induction false} ArrivedFirst(p: Nested)
    requires p.first.payload == OnWire(p.inner) + p.more
    ensures Arrived(p) + p.more == AllOf(p)
  {
    var header := HeaderOf(p.first);
    assert OnWire(p.first) == header + (OnWire(p.inner) + p.more);
  }

  /** What the server owes for the part: it takes the inner frame for the next first frame, and refuses it. */
  lemma {:induction false} OwedForArrived(catalogue: Catalogue, p: Nested, cap: nat)
    requires Nests(catalogue, p, cap)
    ensures Owed(catalogue, Idle, Arrived(p), cap) == OnWire(InitAck(p.init.id)) + (OnWire(Cancel(p.inner.id)) + [])
  {
    var body := HeaderOf(p.first) + OnWire(p.inner);
    AwaitEncoded(FrameReader, AsItem(p.init), body, cap);
    OwedStep(catalogue, Idle, Arrived(p), cap);
    assert OnWire(p.inner) < p.first.payload;
    AwaitPartOfBody(p.first.typ, p.first.id, p.first.payload, OnWire(p.inner), cap);
    OwedStep(catalogue, InStream(p.init.id), body, cap);
    AwaitEncoded(FrameReader, AsItem(p.inner), [], cap);
    assert OnWire(p.inner) + [] == OnWire(p.inner);
    OwedStep(catalogue, Idle, OnWire(p.inner), cap);
    OwedNothing(catalogue, Idle, cap);
  }

  /** Byte 5 behind the acknowledgement is the type of the frame that follows it. */
  lemma {:induction false} WrongAnswer(catalogue: Catalogue, p: Nested, cap: nat)
    requires Nests(catalogue, p, cap)
    ensures !(OnWire(InitAck(p.init.id)) + (OnWire(Cancel(p.inner.id)) + []) <= Owed(catalogue, Idle, AllOf(p), cap))
  {
    var ack, cancel := OnWire(InitAck(p.init.id)), OnWire(Cancel(p.inner.id));
    var echo := SP.Frame(STREAM_DATA, p.init.id, p.first.payload);
    AwaitEncoded(FrameReader, AsItem(p.init), OnWire(p.first) + [], cap);
    AwaitEncoded(FrameReader, AsItem(p.first), [], cap);
    OwedStep(catalogue, Idle, AllOf(p), cap);
    OwedStep(catalogue, InStream(p.init.id), OnWire(p.first) + [], cap);
    HeaderBytes(Cancel(p.inner.id));
    HeaderBytes(echo);
    assert Owed(catalogue, Idle, AllOf(p), cap)[|ack| + 5] == OnWire(echo)[5];
    assert (ack + (cancel + []))[|ack| + 5] == cancel[5];
  }

  lemma {:induction false} ArrivedIsNoPrefix(catalogue: Catalogue, p: Nested, cap: nat)
    requires Nests(catalogue, p, cap)
    ensures !(Owed(catalogue, Idle, Arrived(p), cap) <= Owed(catalogue, Idle, AllOf(p), cap))
  {
    OwedForArrived(catalogue, p, cap);
    WrongAnswer(catalogue, p, cap);
  }
}

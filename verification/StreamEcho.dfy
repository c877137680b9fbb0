/**
 The stream server with the echo handler, over the real two-phase reader and gather writer
 (galay-rpc/kernel/streamsvc.h:300-424, benchmark/b4_stream.cpp:37-71).
 */
module StreamEcho {
  import opened Wire
  import opened Memory
  import opened Ring
  import opened Net
  import opened Service
  import opened Runs
  import opened StreamTrace
  import opened StreamServer
  import opened EchoTrace
  import opened EchoResumption

  lemma {:induction false} EchoActs(id: U32, since: seq<Observation>, f: Frame)
    ensures EchoScript(id, since + [Got(f)]) ==
            if f.typ == STREAM_DATA then Send(STREAM_DATA, f.payload)
            else if f.typ == STREAM_END then Send(STREAM_END, [])
            else if f.typ == STREAM_CANCEL then Return
            else Send(STREAM_CANCEL, [])
    ensures EchoScript(id, since + [ReadError]) == Return
    ensures EchoScript(id, since + [Got(f)] + [SendError]) == Return
    ensures EchoScript(id, since + [Got(f)] + [SendDone]) == if f.typ == STREAM_DATA then Read else Return
  {
    assert (since + [Got(f)] + [SendDone])[|since|] == Got(f);
  }

  /** The echo handler stands where its script says. */
  ghost predicate InEcho(w: World, l: Log, ring: RingBuffer, socket: Socket, id: U32)
    reads ring, ring.buf, socket
  {
    Kept(w, l, ring, socket) && Echoes(w) && Now(l).phase.Running? && Now(l).phase.id == id
  }

  /** What the script wants next. */
  ghost function Wanted(l: Log): Act
    requires Now(l).phase.Running?
  {
    EchoScript(Now(l).phase.id, Now(l).phase.since)
  }

  /** The handler sends a frame through its stream. */
  method EchoSend(ring: RingBuffer, socket: Socket, id: U32, typ: Byte, payload: Payload, ghost w: World, ghost l: Log)
    returns (ok: bool, ghost l': Log)
    requires PayloadInBounds(payload, ring.Mem()) && InEcho(w, l, ring, socket, id)
    requires Wanted(l) == Send(typ, PayloadBytes(ring.Mem(), payload))
    modifies socket`outgoing, socket`writeCount
    ensures InEcho(w, l', ring, socket, id) && l'.start == l.start
    ensures Now(l').unread == Now(l).unread && Now(l').rounds == Now(l).rounds
    ensures Now(l').phase.since == Now(l).phase.since + [if ok then SendDone else SendError]
  {
    ok, l' := SendFrame(ring, socket, FrameMsg(typ, id, payload), w, l);
  }

  /** What the echo handler does with one frame. The payload it echoes is still borrowed from the ring. */
  method EchoFrame(ring: RingBuffer, socket: Socket, id: U32, m: Message, ghost w: World, ghost l: Log,
                   ghost since: seq<Observation>)
    returns (goOn: bool, ghost l': Log)
    requires m.FrameMsg? && PayloadInBounds(m.payload, ring.Mem()) && InEcho(w, l, ring, socket, id)
    requires Now(l).phase.since == since + [Got(AsFrame(ItemOf(ring.Mem(), m)))]
    modifies socket`outgoing, socket`writeCount
    ensures InEcho(w, l', ring, socket, id) && l'.start == l.start
    ensures Now(l').unread == Now(l).unread && Now(l').rounds == Now(l).rounds
    ensures Wanted(l') == if goOn then Read else Return
  {
    EchoActs(id, since, AsFrame(ItemOf(ring.Mem(), m)));
    l' := l;
    if m.typ == STREAM_DATA {
      goOn, l' := EchoSend(ring, socket, id, STREAM_DATA, m.payload, w, l);
      return;
    }
    if m.typ != STREAM_CANCEL {
      var typ := if m.typ == STREAM_END then STREAM_END else STREAM_CANCEL;
      var ok;
      ok, l' := EchoSend(ring, socket, id, typ, Owned([]), w, l);
    }
    goOn := false;
  }

  /** The echo handler: reads frames of its stream until END, CANCEL, anything unexpected, or a failure. Whatever
      happens, it does what its script says. */
  method EchoHandler(ring: RingBuffer, socket: Socket, id: U32, ghost w: World, ghost l: Log) returns (ghost l': Log)
    requires InEcho(w, l, ring, socket, id) && Now(l).phase.since == []
    modifies ring, ring.buf, socket
    ensures Kept(w, l', ring, socket) && Now(l').phase.Waiting? && l'.start == l.start
    ensures |Now(l').unread| <= |Now(l).unread| && Now(l').rounds == Now(l).rounds
  {
    l' := l;
    var goOn := true;
    while goOn
      invariant InEcho(w, l', ring, socket, id) && l'.start == l.start
      invariant |Now(l').unread| <= |Now(l).unread| && Now(l').rounds == Now(l).rounds
      invariant Wanted(l') == if goOn then Read else Return
      decreases |Now(l').unread|, goOn
    {
      ghost var since := Now(l').phase.since;
      var read;
      read, l' := ReadFrame(ring, socket, w, l');
      if read.Err? {
        EchoActs(id, since, Cancel(0));
        goOn := false;
      } else {
        goOn, l' := EchoFrame(ring, socket, id, read.value, w, l', since);
      }
    }
    l' := Note(w, l', Returned, ring, socket);
  }

  /** The world of a server all of whose handlers echo. */
  ghost function EchoWorld(ring: RingBuffer, socket: Socket, catalogue: Catalogue): (w: World)
    ensures Echoes(w)
  {
    WorldOf(ring, socket, catalogue, _ => EchoScript)
  }

  /** The loop of `handleConnection` with the echo handler, from any state in which it waits for a first frame. */
  method Serve(ring: RingBuffer, socket: Socket, catalogue: Catalogue, rounds: nat, ghost w: World, ghost start: Conn)
    returns (ghost l: Log)
    requires Mirrors(w, start, ring, socket) && start.phase.Waiting? && start.rounds == 0
    requires Echoes(w) && w.catalogue == catalogue
    modifies ring, ring.buf, socket
    ensures l.start == start && Kept(w, l, ring, socket)
    ensures Now(l).phase.Closed? || (Now(l).phase.Waiting? && Now(l).rounds == rounds)
    ensures rounds > |start.unread| ==> Now(l).phase.Closed?
  {
    l := Run(ServerIn(w), start, []);
    for i := 0 to rounds
      invariant Kept(w, l, ring, socket) && l.start == start
      invariant Now(l).phase.Waiting? && Now(l).rounds == i && i + |Now(l).unread| <= |start.unread|
    {
      var o;
      o, l := Open(ring, socket, catalogue, w, l);
      if o.Shut? {
        return;
      }
      if o.Opened? {
        l := EchoHandler(ring, socket, o.id, w, l);
      }
    }
  }

  /** The stream server's `handleConnection` with the echo handler, for any bytes and any read and write plan, stopped
      after at most `rounds` iterations. The log of what happened is legal and accounts for every byte read and sent.
      What is sent is a prefix of what is owed if nothing fails inside a handler, or if writes that fail never recover
      and reads never fail, or never recover and come from a plain stream; and it is all of it if nothing fails and the
      server is not stopped. */
  method HandleConnection(ring: RingBuffer, socket: Socket, catalogue: Catalogue, rounds: nat) returns (ghost l: Log)
    requires ring.Valid()
    modifies ring, ring.buf, socket
    ensures l.start == old(Fresh(ring, socket)) && Kept(EchoWorld(ring, socket, catalogue), l, ring, socket)
    ensures Now(l).phase.Closed? || (Now(l).phase.Waiting? && Now(l).rounds == rounds)
    ensures rounds > |old(ring.Contents() + socket.incoming)| ==> Now(l).phase.Closed?
    ensures var s, cap := old(ring.Contents() + socket.incoming), ring.Capacity();
            var owed := old(socket.outgoing) + Owed(catalogue, Idle, s, cap);
            && (UndamagedInside(EchoWorld(ring, socket, catalogue), l)
                || (RefusesForGood(socket.writePlan)
                    && (NeverFails(socket.readPlan) || (FailsForGood(socket.readPlan) && Plain(s, cap)))) ==>
                  socket.outgoing <= owed)
            && (NeverFails(socket.readPlan) && NeverRefuses(socket.writePlan) && rounds > |s| ==>
                  socket.outgoing == owed)
  {
    ghost var w := EchoWorld(ring, socket, catalogue);
    l := Serve(ring, socket, catalogue, rounds, w, Fresh(ring, socket));
    Conclude(w, l);
  }

  /** No read or write failed inside a handler, except for what the bytes themselves call for. */
  ghost predicate UndamagedInside(w: World, l: Log) {
    forall k :: 0 <= k < |l.trace| && !Tidy(w, At(l, k), l.trace[k]) ==> !At(l, k).phase.Running?
  }

  /** What the log of a whole connection says about the bytes sent. */
  lemma {:induction false} Conclude(w: World, l: Log)
    requires Echoes(w) && Legal(w, l) && l.start.phase.Waiting?
    ensures var owed := l.start.out + Owed(w.catalogue, Idle, l.start.unread, w.cap);
            && (UndamagedInside(w, l)
                || (RefusesForGood(w.writePlan) && (w.steady || (w.forGood && Plain(l.start.unread, w.cap)))) ==>
                  Now(l).out <= owed)
            && (w.steady && NeverRefuses(w.writePlan) && Now(l).phase.Closed? ==> Now(l).out == owed)
  {
    if UndamagedInside(w, l) {
      LoopDamageIsSilent(w, l, |l.trace|);
      PrefixIfSilent(w, l);
    }
    if RefusesForGood(w.writePlan) && (w.steady || (w.forGood && Plain(l.start.unread, w.cap))) {
      FailuresForGoodAreSilent(w, l, |l.trace|);
      PrefixIfSilent(w, l);
    }
    if w.steady && NeverRefuses(w.writePlan) {
      NoDamage(w, l, |l.trace|);
      PrefixIfSilent(w, l);
    }
  }

  /** Without those conditions it need not be a prefix: on a plan that takes five bytes of an echoed frame, fails once
      and then recovers, it never is, for any registered route, any ids, any payloads and any ring that holds the
      frames. */
  method HiccupCorruptsTheStream(catalogue: Catalogue, p: Peer, cap: nat) returns (socket: Socket)
    requires cap > 0 && Opens(catalogue, p, cap)
    ensures fresh(socket) && NeverFails(socket.readPlan) && !RefusesForGood(socket.writePlan)
    ensures !(socket.outgoing <= Owed(catalogue, Idle, Stream(p), cap))
  {
    var ring := new RingBuffer(cap);
    socket := new Socket(Stream(p), _ => Transfer.Move(0), HiccupPlan);
    HiccupIsNotForGood();
    assert ring.Contents() + socket.incoming == Stream(p);
    ghost var l := HandleConnection(ring, socket, catalogue, |Stream(p)| + 1);
    NotAPrefix(EchoWorld(ring, socket, catalogue), l, p);
  }

  /** A ring into which these bytes have been received. */
  method Holding(data: Bytes, cap: nat) returns (ring: RingBuffer)
    requires |data| <= cap && cap > 0
    ensures fresh(ring) && fresh(ring.buf) && ring.Valid() && ring.Capacity() == cap && ring.Contents() == data
  {
    ring := new RingBuffer(cap);
    var iovs := ring.GetWriteIovecs();
    ring.Readv(iovs, data);
    ring.Produce(|data|);
  }

  /** On a network that delivers nothing any more the server sends what it owes for the bytes in the ring. */
  method ServeDead(ring: RingBuffer, socket: Socket, catalogue: Catalogue, rounds: nat)
    requires ring.Valid() && Dead(socket.readPlan, socket.readCount) && NeverRefuses(socket.writePlan)
    requires rounds > ring.count
    modifies ring, ring.buf, socket
    ensures socket.outgoing
         == old(socket.outgoing) + Owed(catalogue, Idle, old(ring.Contents()), ring.Capacity())
  {
    ghost var w := World(catalogue, _ => EchoScript, ring.Capacity(), socket.writePlan, true, false, true);
    ghost var l := Serve(ring, socket, catalogue, rounds, w,
                         Conn(Waiting, ring.Contents(), Uncut, socket.outgoing, socket.writeCount, 0));
    Conclude(w, l);
  }

  /** Nor is it enough that reads which fail never recover. If the payload of a DATA frame starts like a frame, and the
      network dies when that much of it has arrived, the handler gives up on the frame, the loop takes its payload for
      the next first frame and answers it: the bytes sent are no prefix of what is owed. */
  method PlainnessIsNeeded(catalogue: Catalogue, p: Nested, cap: nat) returns (ring: RingBuffer, socket: Socket)
    requires Nests(catalogue, p, cap) && |Arrived(p)| <= cap
    ensures fresh(socket) && FailsForGood(socket.readPlan) && NeverRefuses(socket.writePlan)
    ensures !(socket.outgoing <= Owed(catalogue, Idle, AllOf(p), cap))
  {
    var arrived := Arrived(p);
    ring := Holding(arrived, cap);
    socket := new Socket(p.more, _ => IoError(CONNECTION_CLOSED), _ => Transfer.Move(16));
    ArrivedFirst(p);
    assert ring.Contents() + socket.incoming == AllOf(p);
    ServeDead(ring, socket, catalogue, |arrived| + 1);
    assert socket.outgoing == Owed(catalogue, Idle, arrived, cap);
    ArrivedIsNoPrefix(catalogue, p, cap);
  }
}

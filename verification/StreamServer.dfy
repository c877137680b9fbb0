/**
 The stream server's connection loop (galay-rpc/kernel/streamsvc.h:300-424) over the real two-phase reader and gather
 writer, with arbitrary handlers: whatever the network does, its run is one of the runs in `StreamTrace`.
 */
module StreamServer {
  import opened Wire
  import opened Codec
  import opened Memory
  import opened Ring
  import opened Net
  import opened Awaiting
  import opened Service
  import opened Runs
  import opened StreamTrace
  import R = ReadMachine
  import W = WriteMachine

  /** The state `c` is that of this connection. */
  ghost predicate Mirrors(w: World, c: Conn, ring: RingBuffer, socket: Socket)
    reads ring, ring.buf, socket
  {
    && ring.Valid() && w.cap == ring.Capacity() && w.writePlan == socket.writePlan
    && c.unread == Unread(w, ring, socket) && c.out == socket.outgoing && c.writes == socket.writeCount
    && (w.steady ==> w.dead || NeverFails(socket.readPlan)) && (w.forGood ==> FailsForGood(socket.readPlan))
    && (w.dead ==> c.cut.Uncut? && Dead(socket.readPlan, socket.readCount))
    && (w.forGood && !c.cut.Uncut? ==> Dead(socket.readPlan, socket.readCount) && TooShort(c.cut, ring.Contents()))
  }

  /** The bytes the connection can still read. */
  ghost function Unread(w: World, ring: RingBuffer, socket: Socket): Bytes
    requires ring.Valid()
    reads ring, ring.buf, socket
  {
    if w.dead then ring.Contents() else ring.Contents() + socket.incoming
  }

  /** The readable bytes are not enough for the read that was cut off. */
  ghost predicate TooShort(cut: Cut, contents: Bytes) {
    && (cut.InHeader? ==> Step(FrameReader, contents).Wait?)
    && (cut.InBody? ==> |contents| < cut.length)
  }

  /** The log tells everything that happened on this connection. */
  ghost predicate Kept(w: World, l: Log, ring: RingBuffer, socket: Socket)
    reads ring, ring.buf, socket
  {
    Legal(w, l) && Mirrors(w, Now(l), ring, socket)
  }

  /** With all later reads failing, a ring that holds no whole header, or no valid one, delivers nothing. */
  lemma {:induction false} StrandedReads(c: Conn, contents: Bytes, net: Bytes, cap: nat)
    requires Stranded(c) && TooShort(c.cut, contents) && c.unread == contents + net && |contents| <= cap
    ensures Await(FrameReader, contents, cap).result.Err?
  {
    AwaitStep(FrameReader, contents, [], cap);
    assert contents + [] == contents;
    if |contents| >= RPC_HEADER_SIZE { HeaderLocal(contents, net); }
  }

  /** The event that a read which left `rest` comes to. */
  ghost function ReadEvent(mem: Bytes, m: Result<Message>, rest: Bytes): Event
    requires m.Ok? ==> m.value.FrameMsg? && PayloadInBounds(m.value.payload, mem)
  {
    if m.Ok? then Received(AsFrame(ItemOf(mem, m.value))) else ReceiveFailed(rest)
  }

  lemma {:induction false} DeliveredFrame(w: World, c: Conn, item: Item, rest: Bytes)
    requires Await(FrameReader, c.unread, w.cap) == Outcome(Ok(item), rest)
    requires w.forGood ==> !Stranded(c)
    ensures item.FrameItem? && Feasible(w, c, Received(AsFrame(item))) && |rest| < |c.unread|
    ensures var c' := Following(w, c, Received(AsFrame(item)));
            && c'.unread == rest && c'.cut.Uncut? && c'.out == c.out && c'.writes == c.writes
            && c'.rounds == if c.phase.Waiting? then c.rounds + 1 else c.rounds
  {
    FrameReaderReads(c.unread, w.cap);
  }

  lemma {:induction false} FailedRead(w: World, c: Conn, stopped: Option<Reader>, code: U16, rest: Bytes,
                                      contents: Bytes)
    requires stopped.None? ==> Await(FrameReader, c.unread, w.cap) == Outcome(Err(code), rest)
    requires stopped.Some? ==>
               Underway(FrameReader, c.unread, stopped.value, rest) && !w.steady && Step(stopped.value, contents).Wait?
    ensures Feasible(w, c, ReceiveFailed(rest))
    ensures var c' := Following(w, c, ReceiveFailed(rest));
            && c'.unread == rest && c'.out == c.out && c'.writes == c.writes
            && (!c'.cut.Uncut? ==> stopped.Some? && TooShort(c'.cut, contents))
  {
  }

  /** What a read that ended in event `e` has done to the state. */
  ghost predicate AfterRead(w: World, c: Conn, e: Event, rest: Bytes, contents: Bytes, plan: nat -> Transfer,
                            count: nat) {
    var c' := Following(w, c, e);
    && Feasible(w, c, e) && c'.unread == rest && c'.out == c.out && c'.writes == c.writes
    && c'.rounds == (if e.Received? && c.phase.Waiting? then c.rounds + 1 else c.rounds)
    && (w.dead ==> c'.cut.Uncut?)
    && (w.forGood && !c'.cut.Uncut? ==> Dead(plan, count) && TooShort(c'.cut, contents))
  }

  lemma {:induction false} ReadDone(w: World, c: Conn, item: Option<Item>, stopped: Option<Reader>, rest: Bytes,
                                    contents: Bytes,
                                    plan: nat -> Transfer, count: nat)
    requires var o := Await(FrameReader, c.unread, w.cap);
             if item.Some? then o == Outcome(Ok(item.value), rest) && (w.forGood ==> !Stranded(c))
             else if stopped.None? || w.dead then o.result.Err? && rest == o.rest
             else
               && Underway(FrameReader, c.unread, stopped.value, rest) && Step(stopped.value, contents).Wait?
               && !w.steady && (w.forGood ==> Dead(plan, count))
    ensures item.Some? ==> item.value.FrameItem? && |rest| < |c.unread|
    ensures |rest| <= |c.unread|
    ensures var e := if item.Some? then Received(AsFrame(item.value)) else ReceiveFailed(rest);
            AfterRead(w, c, e, rest, contents, plan, count)
  {
    FrameReaderReads(c.unread, w.cap);
    if item.Some? {
      DeliveredFrame(w, c, item.value, rest);
    } else if stopped.None? || w.dead {
      FailedRead(w, c, None, Await(FrameReader, c.unread, w.cap).result.code, rest, contents);
    } else {
      FailedRead(w, c, stopped, 0, rest, contents);
    }
  }

  /** One read of a frame, from a connection in state `c`. */
  method TakeFrame(ring: RingBuffer, socket: Socket, ghost w: World, ghost c: Conn)
    returns (m: Result<Message>, ghost e: Event)
    requires Mirrors(w, c, ring, socket)
    modifies ring, ring.buf, socket`incoming, socket`readCount
    ensures m.Ok? ==> m.value.FrameMsg? && PayloadInBounds(m.value.payload, ring.Mem())
    ensures ring.Valid() && e == ReadEvent(ring.Mem(), m, Unread(w, ring, socket))
    ensures var unread := Unread(w, ring, socket);
            var after := AfterRead(w, c, e, unread, ring.Contents(), socket.readPlan, socket.readCount);
            after && |Unread(w, ring, socket)| <= |c.unread| && (m.Ok? ==> |Unread(w, ring, socket)| < |c.unread|)
    ensures socket.readCount >= old(socket.readCount)
  {
    if w.forGood && Stranded(c) { StrandedReads(c, ring.Contents(), socket.incoming, w.cap); }
    ghost var stopped;
    m, stopped := R.ReadMessage(ring, socket, FrameReader);
    ghost var rest := Unread(w, ring, socket);
    if stopped.Some? && w.forGood { DeadAfter(socket.readPlan, socket.readCount); }
    ReadDone(w, c, if m.Ok? then Some(ItemOf(ring.Mem(), m.value)) else None, stopped, rest, ring.Contents(),
             socket.readPlan, socket.readCount);
    e := ReadEvent(ring.Mem(), m, rest);
  }

  /** One read of a frame, by the loop or a handler. */
  method ReadFrame(ring: RingBuffer, socket: Socket, ghost w: World, ghost l: Log)
    returns (m: Result<Message>, ghost l': Log)
    requires Kept(w, l, ring, socket) && IntentOf(w, Now(l).phase).Reads?
    modifies ring, ring.buf, socket`incoming, socket`readCount
    ensures Kept(w, l', ring, socket) && l'.start == l.start && |Now(l').unread| <= |Now(l).unread|
    ensures Now(l').rounds == if m.Ok? && Now(l).phase.Waiting? then Now(l).rounds + 1 else Now(l).rounds
    ensures m.Ok? ==>
              && m.value.FrameMsg? && PayloadInBounds(m.value.payload, ring.Mem()) && |Now(l').unread| < |Now(l).unread|
              && Now(l').phase == NextPhase(w, Now(l).phase, Received(AsFrame(ItemOf(ring.Mem(), m.value))))
    ensures m.Err? ==> Now(l').phase == NextPhase(w, Now(l).phase, ReceiveFailed(Now(l').unread))
  {
    ghost var e;
    m, e := TakeFrame(ring, socket, w, Now(l));
    AddIsLegal(w, l, e);
    l' := Add(l, e);
  }

  /** One send of a frame. */
  method SendFrame(ring: RingBuffer, socket: Socket, m: Message, ghost w: World, ghost l: Log)
    returns (ok: bool, ghost l': Log)
    requires m.FrameMsg? && PayloadInBounds(m.payload, ring.Mem()) && Kept(w, l, ring, socket)
    requires IntentOf(w, Now(l).phase) == Sends(AsFrame(ItemOf(ring.Mem(), m)))
    modifies socket`outgoing, socket`writeCount
    ensures Kept(w, l', ring, socket) && l'.start == l.start
    ensures Now(l').unread == Now(l).unread && Now(l').rounds == Now(l).rounds
    ensures var f := AsFrame(ItemOf(ring.Mem(), m));
            Now(l').phase == NextPhase(w, Now(l).phase, if ok then Sent(f) else SendFailed(f))
  {
    ghost var f := AsFrame(ItemOf(ring.Mem(), m));
    var sent := W.SendMessage(ring, socket, m);
    ok := sent.Sent?;
    ghost var e := if ok then Sent(f) else SendFailed(f);
    AddIsLegal(w, l, e);
    l' := Add(l, e);
  }

  /** A step without I/O: a handler is started or returns. */
  ghost method Note(w: World, l: Log, e: Event, ring: RingBuffer, socket: Socket) returns (l': Log)
    requires Kept(w, l, ring, socket) && (e.Started? || e.Returned?) && Intended(IntentOf(w, Now(l).phase), e)
    ensures Kept(w, l', ring, socket) && l'.start == l.start
    ensures Now(l').unread == Now(l).unread && Now(l').rounds == Now(l).rounds
    ensures Now(l').phase == NextPhase(w, Now(l).phase, e)
  {
    AddIsLegal(w, l, e);
    l' := Add(l, e);
  }

  // ---- The loop ---------------------------------------------------------------------------------------------------

  datatype Opening = Shut | Refused | Opened(handler: Handler, id: U32)

  /** One iteration of the connection loop, up to the point where a handler takes over. */
  method Open(ring: RingBuffer, socket: Socket, catalogue: Catalogue, ghost w: World, ghost l: Log)
    returns (o: Opening, ghost l': Log)
    requires Kept(w, l, ring, socket) && w.catalogue == catalogue && Now(l).phase.Waiting?
    modifies ring, ring.buf, socket
    ensures Kept(w, l', ring, socket) && l'.start == l.start
    ensures o.Shut? ==> Now(l').phase.Closed?
    ensures !o.Shut? ==> |Now(l').unread| < |Now(l).unread| && Now(l').rounds == Now(l).rounds + 1
    ensures o.Refused? ==> Now(l').phase.Waiting?
    ensures o.Opened? ==> Now(l').phase == Running(o.handler, o.id, [])
  {
    var read;
    read, l' := ReadFrame(ring, socket, w, l);
    if read.Err? {
      return Shut, l';
    }
    var f := AsFrame(ItemOf(ring.Mem(), read.value));
    var handler := Admit(catalogue, f);
    var answer := FrameMsg(if handler.Some? then STREAM_INIT_ACK else STREAM_CANCEL, f.id, Owned([]));
    var ok;
    ok, l' := SendFrame(ring, socket, answer, w, l');
    if !ok {
      return Shut, l';
    }
    if handler.None? {
      return Refused, l';
    }
    l' := Note(w, l', Started, ring, socket);
    o := Opened(handler.value, f.id);
  }

  /** The checks on a first frame: its type, its body, its route. */
  method Admit(catalogue: Catalogue, f: Frame) returns (handler: Option<Handler>)
    ensures handler == HandlerFor(catalogue, f)
  {
    if f.typ != STREAM_INIT {
      return None;
    }
    var names := DecodeNames(f.payload);
    if names.None? {
      return None;
    }
    var resolved := ResolveStream(catalogue, names.value.service, names.value.method_);
    handler := if resolved.Ok? then Some(resolved.value) else None;
  }

  /** A handler at work, for at most `steps` steps. */
  method RunHandler(ring: RingBuffer, socket: Socket, script: Script, id: U32, steps: nat, ghost w: World, ghost l: Log)
    returns (returned: bool, ghost l': Log)
    requires Kept(w, l, ring, socket) && Now(l).phase.Running? && Now(l).phase.id == id && Now(l).phase.since == []
    requires w.scripts(Now(l).phase.handler) == script
    modifies ring, ring.buf, socket
    ensures Kept(w, l', ring, socket) && l'.start == l.start
    ensures |Now(l').unread| <= |Now(l).unread| && Now(l').rounds == Now(l).rounds
    ensures if returned then Now(l').phase.Waiting? else Now(l').phase.Running? && |Now(l').phase.since| == steps
  {
    l' := l;
    var since := [];
    ghost var h := Now(l).phase.handler;
    for i := 0 to steps
      invariant Kept(w, l', ring, socket) && l'.start == l.start && |since| == i
      invariant |Now(l').unread| <= |Now(l).unread| && Now(l').rounds == Now(l).rounds
      invariant Now(l').phase == Running(h, id, since)
    {
      var seen;
      seen, l' := Perform(ring, socket, script(id, since), id, w, l');
      if seen.None? {
        return true, l';
      }
      since := since + [seen.value];
    }
    returned := false;
  }

  /** One step of a handler, and what it sees of it unless it returns. */
  method Perform(ring: RingBuffer, socket: Socket, act: Act, id: U32, ghost w: World, ghost l: Log)
    returns (seen: Option<Observation>, ghost l': Log)
    requires Kept(w, l, ring, socket) && Now(l).phase.Running? && Now(l).phase.id == id
    requires w.scripts(Now(l).phase.handler)(id, Now(l).phase.since) == act
    modifies ring, ring.buf, socket
    ensures Kept(w, l', ring, socket) && l'.start == l.start
    ensures |Now(l').unread| <= |Now(l).unread| && Now(l').rounds == Now(l).rounds
    ensures var p := Now(l).phase;
            Now(l').phase == if seen.None? then Waiting else Running(p.handler, id, p.since + [seen.value])
  {
    match act {
      case Return =>
        l' := Note(w, l, Returned, ring, socket);
        seen := None;
      case Read =>
        var read;
        read, l' := ReadFrame(ring, socket, w, l);
        seen := Some(if read.Ok? then Got(AsFrame(ItemOf(ring.Mem(), read.value))) else ReadError);
      case Send(typ, payload) =>
        var ok;
        ok, l' := SendFrame(ring, socket, FrameMsg(typ, id, Owned(payload)), w, l);
        seen := Some(if ok then SendDone else SendError);
    }
  }

  /** The state of a connection that is about to be served. */
  ghost function Fresh(ring: RingBuffer, socket: Socket): Conn
    requires ring.Valid()
    reads ring, ring.buf, socket
  {
    Conn(Waiting, ring.Contents() + socket.incoming, Uncut, socket.outgoing, socket.writeCount, 0)
  }

  /** What the connection lives in, for this catalogue and these handlers. */
  ghost function WorldOf(ring: RingBuffer, socket: Socket, catalogue: Catalogue, scripts: Handler -> Script): World {
    World(catalogue, scripts, ring.Capacity(), socket.writePlan,
          NeverFails(socket.readPlan), FailsForGood(socket.readPlan), false)
  }

  /** `handleConnection`, for any handlers, any bytes, any read and write plan, stopped after `rounds` iterations or
      inside a handler that has taken `steps` steps: the log of what happened is legal and accounts for every byte read
      and sent. It ends where the loop ends: closed, or stopped after exactly that many iterations or steps, and never
      between a frame and what it leads to; a loop that is not stopped closes the connection. */
  method HandleConnection(ring: RingBuffer, socket: Socket, catalogue: Catalogue, scripts: Handler -> Script,
                          rounds: nat, steps: nat)
    returns (ghost l: Log)
    requires ring.Valid()
    modifies ring, ring.buf, socket
    ensures l.start == old(Fresh(ring, socket)) && Kept(WorldOf(ring, socket, catalogue, scripts), l, ring, socket)
    ensures var phase := Now(l).phase;
            && !phase.Answering? && !phase.Starting?
            && (phase.Waiting? ==> Now(l).rounds == rounds)
            && (phase.Running? ==> |phase.since| == steps)
    ensures rounds > |old(ring.Contents() + socket.incoming)| ==> Now(l).phase.Running? || Now(l).phase.Closed?
  {
    ghost var w := WorldOf(ring, socket, catalogue, scripts);
    l := Run(ServerIn(w), Fresh(ring, socket), []);
    for i := 0 to rounds
      invariant Kept(w, l, ring, socket) && l.start == old(Fresh(ring, socket))
      invariant Now(l).phase.Waiting? && Now(l).rounds == i
      invariant i + |Now(l).unread| <= |old(ring.Contents() + socket.incoming)|
    {
      var o;
      o, l := Open(ring, socket, catalogue, w, l);
      if o.Shut? {
        return;
      }
      if o.Opened? {
        var returned;
        returned, l := RunHandler(ring, socket, scripts(o.handler), o.id, steps, w, l);
        if !returned {
          return;
        }
      }
    }
  }
}

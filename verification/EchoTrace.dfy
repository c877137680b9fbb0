/**
 What a stream server with the echo handler (benchmark/b4_stream.cpp:37-71) owes its peer for the bytes it is sent, and
 when the bytes it sends are a prefix of that although reads or writes fail.
 */
module EchoTrace {
  import opened Wire
  import opened Codec
  import opened Net
  import opened Awaiting
  import opened Service
  import opened Runs
  import opened StreamTrace
  import SP = StreamProtocol

  // ---- What the server replies --------------------------------------------------------------------------------

  /** Waiting for a STREAM_INIT, or inside the handler of a stream. */
  datatype Mode = Idle | InStream(id: U32)

  datatype Reply = Reply(frame: Option<Frame>, next: Mode)

  /** One frame: at most one reply. The handler answers with its own stream's id, whatever the frame's. */
  function React(catalogue: Catalogue, mode: Mode, f: Frame): Reply {
    match mode
    case Idle => Reply(Some(Answer(catalogue, f)), if HandlerFor(catalogue, f).Some? then InStream(f.id) else Idle)
    case InStream(id) =>
      if f.typ == STREAM_DATA then Reply(Some(SP.Frame(STREAM_DATA, id, f.payload)), mode)
      else if f.typ == STREAM_END then Reply(Some(SP.Frame(STREAM_END, id, [])), Idle)
      else if f.typ == STREAM_CANCEL then Reply(None, Idle)
      else Reply(Some(Cancel(id)), Idle)
  }

  /** What the server says to a frame, frame by frame. Waiting, it answers an acceptable first frame with INIT_ACK and
      any other with CANCEL, under the frame's id. In a stream, and under the stream's id, it sends DATA back, answers
      END with END and falls silent on CANCEL; anything else it answers with CANCEL. After all but DATA it waits again.
      */
  lemma {:induction false} SaysTo(catalogue: Catalogue, id: U32, f: Frame)
    ensures HandlerFor(catalogue, f).Some? ==>
              React(catalogue, Idle, f) == Reply(Some(SP.Frame(0x11, f.id, [])), InStream(f.id))
    ensures HandlerFor(catalogue, f).None? ==> React(catalogue, Idle, f) == Reply(Some(SP.Frame(0x14, f.id, [])), Idle)
    ensures f.typ == 0x12 ==>
              React(catalogue, InStream(id), f) == Reply(Some(SP.Frame(0x12, id, f.payload)), InStream(id))
    ensures f.typ == 0x13 ==> React(catalogue, InStream(id), f) == Reply(Some(SP.Frame(0x13, id, [])), Idle)
    ensures f.typ == 0x14 ==> React(catalogue, InStream(id), f) == Reply(None, Idle)
    ensures f.typ !in {0x12, 0x13, 0x14} ==>
              React(catalogue, InStream(id), f) == Reply(Some(SP.Frame(0x14, id, [])), Idle)
  {
  }

  function ReplyBytes(reply: Option<Frame>): Bytes { if reply.Some? then OnWire(reply.value) else [] }

  function Replies(catalogue: Catalogue, mode: Mode, frames: seq<Frame>): seq<Frame>
    decreases |frames|
  {
    if frames == [] then []
    else
      var t := React(catalogue, mode, frames[0]);
      (if t.frame.Some? then [t.frame.value] else []) + Replies(catalogue, t.next, frames[1..])
  }

  /** This is the server process of `StreamProtocol`: from the same mode and the same next frame, it sends the same
      reply and ends in the same mode. */
  lemma {:induction false} ReactIsServerStep(catalogue: Catalogue, c: SP.Config, s: SP.System, mode: Mode)
    requires s.toServer != [] && (c.accepts(s.toServer[0]) <==> HandlerFor(catalogue, s.toServer[0]).Some?)
    requires s.server == if mode.Idle? then SP.AwaitingInit else SP.Reading(mode.id)
    ensures var t := React(catalogue, mode, s.toServer[0]);
            var s1 := SP.ServerStep(c, s);
            var s2 := if t.frame.Some? then SP.ServerStep(c, s1) else s1;
            && s2 == s.(server := if t.next.Idle? then SP.AwaitingInit else SP.Reading(t.next.id),
                        toServer := s.toServer[1..],
                        toClient := s.toClient + if t.frame.Some? then [t.frame.value] else [])
  {
  }

  /** The real server's admission test accepts every STREAM_INIT that a client sends for a registered route whose names
      fit their length fields. */
  lemma {:induction false} RegisteredRouteIsAccepted(catalogue: Catalogue, histories: map<Bytes, seq<Registration>>,
                                                     c: SP.Config, service: Bytes, method_: Bytes)
    requires MadeBy(catalogue, histories) && NameFits(service) && NameFits(method_)
    requires service in histories && LastForSession(histories[service], method_).Some?
    requires c.initBody == EncodeInitBody(service, method_)
    requires forall f :: c.accepts(f) <==> HandlerFor(catalogue, f).Some?
    ensures SP.Registered(c)
  {
    StreamInitRoundTrip(service, method_);
    StreamRoute(catalogue, histories, service, method_);
  }

  // ---- What it owes for a byte stream ----------------------------------------------------------------------------

  /** Everything the server sends for the bytes `s` when no read or write fails. A read that finds the bytes unusable at
      connection level closes the connection; inside the handler it only ends the handler, and the loop goes on with
      whatever bytes are left. */
  function Owed(catalogue: Catalogue, mode: Mode, s: Bytes, cap: nat): Bytes
    decreases |s|, if mode.Idle? then 0 else 1
  {
    FrameReaderReads(s, cap);
    var o := Await(FrameReader, s, cap);
    match o.result
    case Ok(item) =>
      var t := React(catalogue, mode, AsFrame(item));
      ReplyBytes(t.frame) + Owed(catalogue, t.next, o.rest, cap)
    case Err(_) => if mode.Idle? then [] else Owed(catalogue, Idle, o.rest, cap)
  }

  function EncodeFrames(frames: seq<Frame>): Bytes {
    if frames == [] then [] else OnWire(frames[0]) + EncodeFrames(frames[1..])
  }

  /** For a stream of whole frames, each within the ring, that is one reply per frame (none for a CANCEL inside a
      stream), encoded in order. */
  lemma {:induction false} OwedForFrames(catalogue: Catalogue, mode: Mode, frames: seq<Frame>, cap: nat)
    requires forall i :: 0 <= i < |frames| ==> Fits(FrameReader, AsItem(frames[i]), cap)
    ensures Owed(catalogue, mode, EncodeFrames(frames), cap) == EncodeFrames(Replies(catalogue, mode, frames))
    decreases |frames|
  {
    if frames == [] {
      OwedNothing(catalogue, mode, cap);
    } else {
      AwaitEncoded(FrameReader, AsItem(frames[0]), EncodeFrames(frames[1..]), cap);
      OwedForFrames(catalogue, React(catalogue, mode, frames[0]).next, frames[1..], cap);
      EncodeFirstReply(catalogue, mode, frames);
    }
  }

  lemma {:induction false} OwedNothing(catalogue: Catalogue, mode: Mode, cap: nat)
    ensures Owed(catalogue, mode, [], cap) == []
  {
    AwaitNothing(cap);
    assert Owed(catalogue, Idle, [], cap) == [];
  }

  lemma {:induction false} EncodeFirstReply(catalogue: Catalogue, mode: Mode, frames: seq<Frame>)
    requires frames != []
    ensures var t := React(catalogue, mode, frames[0]);
            EncodeFrames(Replies(catalogue, mode, frames))
            == ReplyBytes(t.frame) + EncodeFrames(Replies(catalogue, t.next, frames[1..]))
  {
    var t := React(catalogue, mode, frames[0]);
    var rest := Replies(catalogue, t.next, frames[1..]);
    if t.frame.Some? {
      assert ([t.frame.value] + rest)[1..] == rest;
    } else {
      assert [] + rest == rest;
    }
  }

  /** A frame that does not fit the ring gets no reply at all. At connection level it closes the connection. In a stream
      it ends the handler, and the loop reads the body as if it were the next frames. */
  lemma {:induction false} OversizedFrame(catalogue: Catalogue, mode: Mode, f: Frame, tail: Bytes, cap: nat)
    requires Suits(FrameReader, AsItem(f)) && RPC_HEADER_SIZE <= cap < |f.payload|
    ensures Await(FrameReader, OnWire(f) + tail, cap) == Outcome(Err(INTERNAL_ERROR), f.payload + tail)
    ensures Owed(catalogue, mode, OnWire(f) + tail, cap)
         == if mode.Idle? then [] else Owed(catalogue, Idle, f.payload + tail, cap)
  {
    AwaitEncoded(FrameReader, AsItem(f), tail, cap);
  }

  /** What is owed before and after one read. */
  lemma {:induction false} OwedStep(catalogue: Catalogue, mode: Mode, s: Bytes, cap: nat)
    ensures var o := Await(FrameReader, s, cap);
            && |o.rest| <= |s|
            && (o.result.Err? ==>
                  Owed(catalogue, mode, s, cap) == if mode.Idle? then [] else Owed(catalogue, Idle, o.rest, cap))
            && (o.result.Ok? ==>
                  && o.result.value.FrameItem? && |o.rest| < |s|
                  && var t := React(catalogue, mode, AsFrame(o.result.value));
                     Owed(catalogue, mode, s, cap) == ReplyBytes(t.frame) + Owed(catalogue, t.next, o.rest, cap))
  {
    FrameReaderReads(s, cap);
  }

  // ---- The echo handler as a script -------------------------------------------------------------------------------

  /** Reads; echoes DATA and reads on; answers END with END and anything unexpected with CANCEL; then returns. */
  function EchoScript(id: U32, since: seq<Observation>): Act {
    if since == [] then Read
    else
      match since[|since| - 1]
      case Got(f) =>
        if f.typ == STREAM_DATA then Send(STREAM_DATA, f.payload)
        else if f.typ == STREAM_END then Send(STREAM_END, [])
        else if f.typ == STREAM_CANCEL then Return
        else Send(STREAM_CANCEL, [])
      case SendDone =>
        if |since| > 1 && since[|since| - 2].Got? && since[|since| - 2].frame.typ == STREAM_DATA then Read else Return
      case _ => Return
  }

  /** Every handler echoes. */
  ghost predicate Echoes(w: World) { forall h, id, since :: w.scripts(h)(id, since) == EchoScript(id, since) }

  /** What the server is about to send. */
  function DueNow(w: World, phase: Phase): Bytes {
    var i := IntentOf(w, phase);
    if i.Sends? then OnWire(i.frame) else []
  }

  /** The mode it is in once that is sent. */
  function ModeOf(w: World, phase: Phase): Mode {
    match phase
    case Waiting => Idle
    case Answering(f) => React(w.catalogue, Idle, f).next
    case Starting(_, id) => InStream(id)
    case Running(_, id, since) =>
      (match EchoScript(id, since)
       case Read => InStream(id)
       case Send(typ, _) => if typ == STREAM_DATA then InStream(id) else Idle
       case Return => Idle)
    case Closed => Idle
  }

  /** What it still owes. */
  function Outlook(w: World, c: Conn): Bytes {
    if c.phase.Closed? then [] else DueNow(w, c.phase) + Owed(w.catalogue, ModeOf(w, c.phase), c.unread, w.cap)
  }

  /** The event is not a failure, or one that the bytes themselves call for. */
  predicate Tidy(w: World, c: Conn, e: Event) { !e.SendFailed? && (e.ReceiveFailed? ==> Due(w, c, e)) }

  /** What the next phase is, in terms of replies, after a frame has been read. */
  lemma {:induction false} ReplyTo(w: World, phase: Phase, f: Frame)
    requires Echoes(w) && IntentOf(w, phase).Reads?
    ensures var t := React(w.catalogue, ModeOf(w, phase), f);
            var next := NextPhase(w, phase, Received(f));
            !next.Closed? && DueNow(w, next) == ReplyBytes(t.frame) && ModeOf(w, next) == t.next
    ensures DueNow(w, phase) == []
  {
    if phase.Running? {
      var since := phase.since + [Got(f)];
      assert NextPhase(w, phase, Received(f)) == Running(phase.handler, phase.id, since);
      assert since[|since| - 1] == Got(f);
      assert w.scripts(phase.handler)(phase.id, since) == EchoScript(phase.id, since);
      assert w.scripts(phase.handler)(phase.id, phase.since) == EchoScript(phase.id, phase.since);
    }
  }

  /** And after anything else. */
  lemma {:induction false} PhaseAfter(w: World, phase: Phase, e: Event)
    requires Echoes(w) && Intended(IntentOf(w, phase), e) && !e.Received? && !e.SendFailed?
    ensures var next := NextPhase(w, phase, e);
            && DueNow(w, next) == []
            && (e.Sent? ==> !next.Closed? && ModeOf(w, next) == ModeOf(w, phase) && DueNow(w, phase) == OnWire(e.frame))
            && (e.Started? || e.Returned? ==>
                  !next.Closed? && ModeOf(w, next) == ModeOf(w, phase) && DueNow(w, phase) == [])
            && (e.ReceiveFailed? ==>
                  DueNow(w, phase) == [] && ModeOf(w, next) == Idle && (next.Closed? <==> phase.Waiting?))
            && (e.ReceiveFailed? && ModeOf(w, phase).Idle? ==> phase.Waiting?)
  {
    if phase.Running? {
      var since := phase.since + [Observe(e)];
      assert since[|since| - 1] == Observe(e) && (|since| > 1 ==> since[|since| - 2] == phase.since[|phase.since| - 1]);
      assert w.scripts(phase.handler)(phase.id, since) == EchoScript(phase.id, since);
      assert w.scripts(phase.handler)(phase.id, phase.since) == EchoScript(phase.id, phase.since);
      if !e.Returned? {
        assert NextPhase(w, phase, e) == Running(phase.handler, phase.id, since);
      }
    } else if phase.Starting? {
      assert w.scripts(phase.handler)(phase.id, []) == EchoScript(phase.id, []);
    }
  }

  /** Every tidy event keeps the books: sent plus owed stays the same. */
  lemma {:induction false} TidyBalances(w: World, c: Conn, e: Event)
    requires Echoes(w) && Possible(w, c, e) && Tidy(w, c, e)
    ensures var c' := Following(w, c, e);
            c'.out + Outlook(w, c') == c.out + Outlook(w, c)
  {
    if e.Received? {
      ReceivedBalances(w, c, e.frame);
    } else if e.Sent? {
      SentBalances(w, c, e.frame);
    } else {
      PhaseAfter(w, c.phase, e);
      if e.ReceiveFailed? { OwedStep(w.catalogue, ModeOf(w, c.phase), c.unread, w.cap); }
    }
  }

  lemma {:induction false} ReceivedBalances(w: World, c: Conn, f: Frame)
    requires Echoes(w) && Possible(w, c, Received(f))
    ensures var c' := Following(w, c, Received(f));
            c'.out + Outlook(w, c') == c.out + Outlook(w, c)
  {
    ReadingOutlook(w, c);
    ReceivedOutlook(w, c, f);
    ReadOwed(w.catalogue, ModeOf(w, c.phase), c.unread, w.cap, f);
  }

  lemma {:induction false} ReadOwed(catalogue: Catalogue, mode: Mode, s: Bytes, cap: nat, f: Frame)
    requires Await(FrameReader, s, cap).result == Ok(AsItem(f))
    ensures var t := React(catalogue, mode, f);
            Owed(catalogue, mode, s, cap)
            == ReplyBytes(t.frame) + Owed(catalogue, t.next, Await(FrameReader, s, cap).rest, cap)
  {
    OwedStep(catalogue, mode, s, cap);
    assert AsFrame(AsItem(f)) == f;
  }

  lemma {:induction false} ReadingOutlook(w: World, c: Conn)
    requires IntentOf(w, c.phase).Reads?
    ensures Outlook(w, c) == Owed(w.catalogue, ModeOf(w, c.phase), c.unread, w.cap)
  {
  }

  lemma {:induction false} ReceivedOutlook(w: World, c: Conn, f: Frame)
    requires Echoes(w) && IntentOf(w, c.phase).Reads?
    ensures var t, c' := React(w.catalogue, ModeOf(w, c.phase), f), Following(w, c, Received(f));
            && c'.out == c.out
            && Outlook(w, c') == ReplyBytes(t.frame)
                                 + Owed(w.catalogue, t.next, Await(FrameReader, c.unread, w.cap).rest, w.cap)
  {
    ReplyTo(w, c.phase, f);
  }

  lemma {:induction false} SentBalances(w: World, c: Conn, f: Frame)
    requires Echoes(w) && Possible(w, c, Sent(f))
    ensures var c' := Following(w, c, Sent(f));
            c'.out + Outlook(w, c') == c.out + Outlook(w, c)
  {
    PhaseAfter(w, c.phase, Sent(f));
    assert OnWire(f)[..|OnWire(f)|] == OnWire(f);
    Associate(c.out, OnWire(f), Owed(w.catalogue, ModeOf(w, c.phase), c.unread, w.cap));
  }

  /** Any event stays within what was owed. */
  lemma {:induction false} NothingBeyondOwed(w: World, c: Conn, e: Event)
    requires Echoes(w) && Possible(w, c, e)
    ensures Following(w, c, e).out <= c.out + Outlook(w, c)
  {
    if e.Sent? || e.SendFailed? {
      var n := Deliver(w.writePlan, c.writes, |OnWire(e.frame)|).bytes;
      PartOfOwed(c.out, OnWire(e.frame), n, Owed(w.catalogue, ModeOf(w, c.phase), c.unread, w.cap));
    }
  }

  lemma {:induction false} PartOfOwed(out: Bytes, wire: Bytes, n: nat, later: Bytes)
    requires n <= |wire|
    ensures out + wire[..n] <= out + (wire + later)
  {
    assert wire == wire[..n] + wire[n..];
    assert out + (wire + later) == out + wire[..n] + (wire[n..] + later);
  }

  // ---- Whole connections --------------------------------------------------------------------------------------------

  /** What had been sent when the first untidy event among the first `n` was over, if there was one. */
  function SentAtDamage(w: World, l: Log, n: nat): Option<Bytes>
    requires n <= |l.trace|
  {
    if n == 0 then None else Damage(w, SentAtDamage(w, l, n - 1), At(l, n - 1), l.trace[n - 1], At(l, n))
  }

  function Damage(w: World, before: Option<Bytes>, c: Conn, e: Event, c': Conn): Option<Bytes> {
    if before.Some? || Tidy(w, c, e) then before else Some(c'.out)
  }

  /** The connection sent nothing more once a read or write had failed on it. */
  ghost predicate SilentAfterDamage(w: World, l: Log, n: nat)
    requires n <= |l.trace|
  {
    SentAtDamage(w, l, n).Some? ==> At(l, n).out == SentAtDamage(w, l, n).value
  }

  /** An undamaged connection has its books balanced; a damaged one had sent a part of what it owed, and no more, when
      it was damaged. */
  lemma {:induction false} SentIsOwed(w: World, l: Log, n: nat)
    requires Echoes(w) && Legal(w, l) && n <= |l.trace|
    ensures var owed := l.start.out + Outlook(w, l.start);
            Booked(w, owed, SentAtDamage(w, l, n), At(l, n))
  {
    if n > 0 {
      SentIsOwed(w, l, n - 1);
      BookedAt(w, l, n - 1, l.start.out + Outlook(w, l.start));
    }
  }

  lemma {:induction false} BookedAt(w: World, l: Log, n: nat, owed: Bytes)
    requires Echoes(w) && Legal(w, l) && n < |l.trace| && Booked(w, owed, SentAtDamage(w, l, n), At(l, n))
    ensures Booked(w, owed, SentAtDamage(w, l, n + 1), At(l, n + 1))
  {
    StepAt(w, l, n);
    StaysBooked(w, owed, SentAtDamage(w, l, n), At(l, n), l.trace[n], At(l, n + 1));
  }

  ghost predicate Booked(w: World, owed: Bytes, damage: Option<Bytes>, c: Conn) {
    if damage.None? then c.out + Outlook(w, c) == owed else damage.value <= owed
  }

  lemma {:induction false} StaysBooked(w: World, owed: Bytes, damage: Option<Bytes>, c: Conn, e: Event, c': Conn)
    requires Echoes(w) && Booked(w, owed, damage, c) && Possible(w, c, e) && c' == Following(w, c, e)
    ensures Booked(w, owed, Damage(w, damage, c, e, c'), c')
  {
    if Tidy(w, c, e) { TidyBalances(w, c, e); } else { NothingBeyondOwed(w, c, e); }
  }

  /** The server never sends anything but a prefix of what it owes, as long as it is silent once a read or write has
      failed; and if none has failed and the connection is closed, it has sent all of it. */
  lemma {:induction false} PrefixIfSilent(w: World, l: Log)
    requires Echoes(w) && Legal(w, l) && l.start.phase.Waiting? && SilentAfterDamage(w, l, |l.trace|)
    ensures var owed := l.start.out + Owed(w.catalogue, Idle, l.start.unread, w.cap);
            && Now(l).out <= owed
            && (SentAtDamage(w, l, |l.trace|).None? && Now(l).phase.Closed? ==> Now(l).out == owed)
  {
    SentIsOwed(w, l, |l.trace|);
    assert Outlook(w, l.start) == Owed(w.catalogue, Idle, l.start.unread, w.cap);
  }

  // ---- When it is silent --------------------------------------------------------------------------------------------

  /** Behind no header that announces a body of more than 16 bytes does another valid header follow. */
  ghost predicate Plain(s: Bytes, cap: nat)
    decreases |s|
  {
    FrameReaderReads(s, cap);
    var v, o := Step(FrameReader, s), Await(FrameReader, s, cap);
    && (v.Next? && |s| >= RPC_HEADER_SIZE && v.reader.FrameBodyReader? && v.reader.bodyLength > RPC_HEADER_SIZE ==>
          !HeaderLike(s[RPC_HEADER_SIZE..]))
    && (o.result.Ok? ==> Plain(o.rest, cap))
  }

  /** For whole frames that says that no long payload starts like a header. */
  lemma {:induction false} PlainFrames(frames: seq<Frame>, cap: nat)
    requires forall i :: 0 <= i < |frames| ==> Fits(FrameReader, AsItem(frames[i]), cap)
    requires forall i :: 0 <= i < |frames| && |frames[i].payload| > RPC_HEADER_SIZE ==> !HeaderLike(frames[i].payload)
    ensures Plain(EncodeFrames(frames), cap)
    decreases |frames|
  {
    if frames == [] {
      AwaitNothing(cap);
    } else {
      var f, tail := frames[0], EncodeFrames(frames[1..]);
      AwaitEncoded(FrameReader, AsItem(f), tail, cap);
      EncodedFrameStep(f.typ, f.id, f.payload, tail);
      if |f.payload| > RPC_HEADER_SIZE { HeaderLocal(f.payload, tail); }
      PlainFrames(frames[1..], cap);
    }
  }

  /** What a read that the bytes themselves fail leaves behind. */
  lemma {:induction false} FailureLeaves(s: Bytes, cap: nat)
    ensures var o := Await(FrameReader, s, cap);
            o.result.Err? && o.rest != s ==>
              |s| >= RPC_HEADER_SIZE && Step(FrameReader, s).Next? && o.rest == s[RPC_HEADER_SIZE..]
  {
  }

  /** Plainness is kept by reads that succeed and by reads that the bytes fail. */
  lemma {:induction false} StaysPlain(s: Bytes, cap: nat)
    requires Plain(s, cap)
    ensures Plain(Await(FrameReader, s, cap).rest, cap)
  {
    var v, o := Step(FrameReader, s), Await(FrameReader, s, cap);
    FailureLeaves(s, cap);
    if o.result.Err? && o.rest != s {
      BodyTooShort(s, cap);
      assert Step(FrameReader, o.rest).Wait? || Step(FrameReader, o.rest).Fail?;
    }
  }

  lemma {:induction false} BodyTooShort(s: Bytes, cap: nat)
    requires |s| >= RPC_HEADER_SIZE && Step(FrameReader, s).Next? && Await(FrameReader, s, cap).result.Err?
    requires Await(FrameReader, s, cap).rest != s
    ensures Step(FrameReader, s).reader.FrameBodyReader?
    ensures Step(FrameReader, s).reader.bodyLength <= RPC_HEADER_SIZE ==> |s| - RPC_HEADER_SIZE < RPC_HEADER_SIZE
  {
  }

  /** No write from number `from` on succeeds. */
  ghost predicate Muted(plan: nat -> Transfer, from: nat) { forall i: nat :: i >= from ==> Refuses(plan(i)) }

  /** The next thing that can happen is that the connection is closed. */
  ghost predicate AboutToClose(w: World, c: Conn) {
    w.forGood && Stranded(c) && (c.phase.Waiting? || IntentOf(w, c.phase).Returns?)
  }

  /** What keeps a damaged connection silent, and lets an undamaged one be. */
  ghost predicate Hushed(w: World, damage: Option<Bytes>, c: Conn) {
    if damage.None? then w.steady || Plain(c.unread, w.cap)
    else c.out == damage.value && (Muted(w.writePlan, c.writes) || c.phase.Closed? || AboutToClose(w, c))
  }

  lemma {:induction false} MutedSends(w: World, c: Conn, e: Event)
    requires Possible(w, c, e) && Muted(w.writePlan, c.writes)
    ensures Following(w, c, e).out == c.out && Muted(w.writePlan, Following(w, c, e).writes)
  {
    if e.Sent? || e.SendFailed? {
      DeliverFails(w.writePlan, c.writes, |OnWire(e.frame)|);
    }
  }

  lemma {:induction false} FailedSendMutes(w: World, c: Conn, e: Event)
    requires Possible(w, c, e) && e.SendFailed? && RefusesForGood(w.writePlan)
    ensures Muted(w.writePlan, Following(w, c, e).writes)
  {
    DeliverFails(w.writePlan, c.writes, |OnWire(e.frame)|);
  }

  /** A read cut off for good inside the handler leaves nothing but to return and close. */
  lemma {:induction false} CutStrands(w: World, c: Conn, e: Event)
    requires Echoes(w) && w.forGood && Plain(c.unread, w.cap) && Possible(w, c, e) && e.ReceiveFailed? && !Tidy(w, c, e)
    ensures var c' := Following(w, c, e);
            c'.out == c.out && (c'.phase.Closed? || AboutToClose(w, c'))
  {
    if c.phase.Running? {
      var since := c.phase.since + [ReadError];
      assert since[|since| - 1] == ReadError;
      assert w.scripts(c.phase.handler)(c.phase.id, since) == EchoScript(c.phase.id, since);
    }
  }

  lemma {:induction false} StaysHushed(w: World, damage: Option<Bytes>, c: Conn, e: Event, c': Conn)
    requires Echoes(w) && RefusesForGood(w.writePlan) && (w.steady || w.forGood)
    requires Hushed(w, damage, c) && Possible(w, c, e) && c' == Following(w, c, e)
    ensures Hushed(w, Damage(w, damage, c, e, c'), c')
  {
    if damage.Some? {
      if Muted(w.writePlan, c.writes) { MutedSends(w, c, e); }
    } else if e.SendFailed? {
      FailedSendMutes(w, c, e);
    } else if !Tidy(w, c, e) {
      CutStrands(w, c, e);
    } else if !w.steady {
      StaysPlain(c.unread, w.cap);
    }
  }

  /** A server whose failed writes never recover, and whose reads never fail, or never recover and come from a plain
      stream, is silent once it is damaged. */
  lemma {:induction false} FailuresForGoodAreSilent(w: World, l: Log, n: nat)
    requires Echoes(w) && Legal(w, l) && n <= |l.trace| && RefusesForGood(w.writePlan)
    requires w.steady || (w.forGood && Plain(l.start.unread, w.cap))
    ensures Hushed(w, SentAtDamage(w, l, n), At(l, n))
  {
    if n > 0 {
      FailuresForGoodAreSilent(w, l, n - 1);
      HushedAt(w, l, n - 1);
    }
  }

  lemma {:induction false} HushedAt(w: World, l: Log, n: nat)
    requires Echoes(w) && Legal(w, l) && n < |l.trace| && RefusesForGood(w.writePlan) && (w.steady || w.forGood)
    requires Hushed(w, SentAtDamage(w, l, n), At(l, n))
    ensures Hushed(w, SentAtDamage(w, l, n + 1), At(l, n + 1))
  {
    StepAt(w, l, n);
    StaysHushed(w, SentAtDamage(w, l, n), At(l, n), l.trace[n], At(l, n + 1));
  }

  /** A connection on which nothing fails is not damaged. */
  lemma {:induction false} NoDamage(w: World, l: Log, n: nat)
    requires Legal(w, l) && n <= |l.trace| && w.steady && NeverRefuses(w.writePlan)
    ensures SentAtDamage(w, l, n).None?
  {
    if n > 0 {
      NoDamage(w, l, n - 1);
      StepAt(w, l, n - 1);
      AlwaysTidy(w, At(l, n - 1), l.trace[n - 1]);
    }
  }

  lemma {:induction false} AlwaysTidy(w: World, c: Conn, e: Event)
    requires Possible(w, c, e) && w.steady && NeverRefuses(w.writePlan)
    ensures Tidy(w, c, e)
  {
    if e.SendFailed? { DeliverFails(w.writePlan, c.writes, |OnWire(e.frame)|); }
  }

  /** Damage done outside a handler closes the connection, so whatever the plans, it leaves the server silent. */
  lemma {:induction false} LoopDamageIsSilent(w: World, l: Log, n: nat)
    requires Legal(w, l) && n <= |l.trace|
    requires forall k :: 0 <= k < n && !Tidy(w, At(l, k), l.trace[k]) ==> !At(l, k).phase.Running?
    ensures SilentAfterDamage(w, l, n) && (SentAtDamage(w, l, n).Some? ==> At(l, n).phase.Closed?)
  {
    if n > 0 {
      LoopDamageIsSilent(w, l, n - 1);
      PhaseAt(w, l, n - 1);
    }
  }
}

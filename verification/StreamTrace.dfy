/**
 What can happen on a connection of the stream server (galay-rpc/kernel/streamsvc.h:184-196, 300-424), as a machine
 whose events are whole reads and sends: the loop itself, arbitrary handlers, and reads and writes that may fail.
 `StreamServer` shows that the loop over the real reader and writer is such a machine, whatever the network does.
 */
module StreamTrace {
  import opened Wire
  import opened Codec
  import opened Net
  import opened Awaiting
  import opened Service
  import opened Runs
  import SP = StreamProtocol

  // ---- Frames and routes ----------------------------------------------------------------------------------------

  type Frame = SP.Frame

  function Cancel(id: U32): Frame { SP.Frame(STREAM_CANCEL, id, []) }
  function InitAck(id: U32): Frame { SP.Frame(STREAM_INIT_ACK, id, []) }

  function AsItem(f: Frame): Item { FrameItem(f.typ, f.id, f.payload) }

  function AsFrame(item: Item): Frame
    requires item.FrameItem?
  {
    SP.Frame(item.typ, item.id, item.payload)
  }

  function OnWire(f: Frame): Bytes { EncodeFrame(f.typ, f.id, f.payload) }

  /** The handler a first frame leads to: only a STREAM_INIT whose body parses and whose route is registered has one. */
  function HandlerFor(catalogue: Catalogue, f: Frame): Option<Handler> {
    if f.typ != STREAM_INIT then None
    else match DecodeNames(f.payload)
      case None => None
      case Some(names) =>
        match ResolveStream(catalogue, names.service, names.method_)
        case Err(_) => None
        case Ok(h) => Some(h)
  }

  /** What the connection loop answers a first frame with. */
  function Answer(catalogue: Catalogue, f: Frame): Frame {
    if HandlerFor(catalogue, f).Some? then InitAck(f.id) else Cancel(f.id)
  }

  // ---- What can happen ------------------------------------------------------------------------------------------

  /** `rest` is what a failed read leaves of the unread bytes. */
  datatype Event =
    | Received(frame: Frame)
    | ReceiveFailed(rest: Bytes)
    | Sent(frame: Frame)
    | SendFailed(frame: Frame)
    | Started
    | Returned

  /** What a handler learns from its own reads and sends. */
  datatype Observation = Got(frame: Frame) | ReadError | SendDone | SendError

  function Observe(e: Event): Observation {
    match e
    case Received(f) => Got(f)
    case ReceiveFailed(_) => ReadError
    case SendFailed(_) => SendError
    case _ => SendDone
  }

  /** A handler decides what to do next from its stream's id and what it has learnt since it was started. It sends
      through its stream, which puts its own id on every frame. */
  datatype Act = Read | Send(typ: Byte, payload: Bytes) | Return
  type Script = (U32, seq<Observation>) -> Act

  datatype Phase =
    | Waiting
    | Answering(frame: Frame)
    | Starting(handler: Handler, id: U32)
    | Running(handler: Handler, id: U32, since: seq<Observation>)
    | Closed

  /** Whether the last read was cut off by the network, and in which of its phases: waiting for a header, or for a body
      of some length behind a header already consumed. */
  datatype Cut = Uncut | InHeader | InBody(length: nat)

  /** A connection between two events: the bytes not yet read, the bytes sent and the writes they took, and how many
      frames the loop itself has read. */
  datatype Conn = Conn(phase: Phase, unread: Bytes, cut: Cut, out: Bytes, writes: nat, rounds: nat)

  /** What the connection lives in. Reads that are `steady` fail only for what the unread bytes are; ones that fail
      `forGood` never recover. On a `dead` network no byte comes in any more, so that the unread bytes are those in the
      ring. */
  datatype World = World(catalogue: Catalogue, scripts: Handler -> Script, cap: nat, writePlan: nat -> Transfer,
                         steady: bool, forGood: bool, dead: bool)

  datatype Intent = Reads | Sends(frame: Frame) | Starts | Returns | Stops

  function IntentOf(w: World, phase: Phase): Intent {
    match phase
    case Waiting => Reads
    case Answering(f) => Sends(Answer(w.catalogue, f))
    case Starting(_, _) => Starts
    case Running(h, id, since) =>
      (match w.scripts(h)(id, since)
       case Read => Reads
       case Send(typ, payload) => Sends(SP.Frame(typ, id, payload))
       case Return => Returns)
    case Closed => Stops
  }

  /** The unread bytes start with a valid header. */
  predicate HeaderLike(s: Bytes) { |s| >= RPC_HEADER_SIZE && DecodeHeader(s).Some? }

  /** A read that fails because of the bytes themselves: they are malformed, too many for the ring, or at an end. */
  predicate Due(w: World, c: Conn, e: Event) {
    var o := Await(FrameReader, c.unread, w.cap);
    e.ReceiveFailed? && o.result.Err? && e.rest == o.rest
  }

  /** A read that the network cuts off: nothing is consumed, or only the header. */
  predicate CutOff(c: Conn, rest: Bytes) {
    || rest == c.unread
    || (|c.unread| >= RPC_HEADER_SIZE && Step(FrameReader, c.unread).Next? && rest == c.unread[RPC_HEADER_SIZE..])
  }

  /** After a read that was cut off, and with no byte coming in any more, the ring cannot hold a frame: it has not even
      a header, or only the beginning of a body that does not read like one. */
  predicate Stranded(c: Conn) {
    match c.cut
    case Uncut => false
    case InHeader => true
    case InBody(length) => length <= RPC_HEADER_SIZE || !HeaderLike(c.unread)
  }

  /** The event is one that the server is out for. */
  predicate Intended(i: Intent, e: Event) {
    match e
    case Received(_) => i.Reads?
    case ReceiveFailed(_) => i.Reads?
    case Sent(f) => i == Sends(f)
    case SendFailed(f) => i == Sends(f)
    case Started => i.Starts?
    case Returned => i.Returns?
  }

  /** The network lets the event happen. */
  predicate Feasible(w: World, c: Conn, e: Event) {
    match e
    case Received(f) =>
      && Await(FrameReader, c.unread, w.cap).result == Ok(AsItem(f))
      && (w.forGood ==> !Stranded(c))
    case ReceiveFailed(rest) => Due(w, c, e) || (!w.steady && CutOff(c, rest))
    case Sent(f) => Deliver(w.writePlan, c.writes, |OnWire(f)|).ok
    case SendFailed(f) => !Deliver(w.writePlan, c.writes, |OnWire(f)|).ok
    case Started => true
    case Returned => true
  }

  lemma {:induction false} FrameReaderReads(s: Bytes, cap: nat)
    ensures var o := Await(FrameReader, s, cap);
            |o.rest| <= |s| && (o.result.Ok? ==> o.result.value.FrameItem? && |o.rest| < |s|)
  {
    AwaitShrinks(FrameReader, s, cap);
  }

  /** Which events can happen next. */
  predicate Possible(w: World, c: Conn, e: Event) { Intended(IntentOf(w, c.phase), e) && Feasible(w, c, e) }

  function NextPhase(w: World, phase: Phase, e: Event): Phase {
    match phase
    case Waiting => if e.Received? then Answering(e.frame) else Closed
    case Answering(f) =>
      if e.SendFailed? then Closed
      else (match HandlerFor(w.catalogue, f)
            case None => Waiting
            case Some(h) => Starting(h, f.id))
    case Starting(h, id) => Running(h, id, [])
    case Running(h, id, since) => if e.Returned? then Waiting else Running(h, id, since + [Observe(e)])
    case Closed => Closed
  }

  function Following(w: World, c: Conn, e: Event): Conn {
    var c' := c.(phase := NextPhase(w, c.phase, e));
    match e
    case Received(_) =>
      c'.(unread := Await(FrameReader, c.unread, w.cap).rest, cut := Uncut,
          rounds := if c.phase.Waiting? then c.rounds + 1 else c.rounds)
    case ReceiveFailed(rest) =>
      c'.(unread := rest, cut := if Due(w, c, e) then Uncut else CutAt(c, rest))
    case Sent(f) => Delivered(w, c', f)
    case SendFailed(f) => Delivered(w, c', f)
    case Started => c'
    case Returned => c'
  }

  function CutAt(c: Conn, rest: Bytes): Cut {
    var v := Step(FrameReader, c.unread);
    if rest != c.unread && v.Next? && v.reader.FrameBodyReader? then InBody(v.reader.bodyLength) else InHeader
  }

  function Delivered(w: World, c: Conn, f: Frame): Conn {
    var d := Deliver(w.writePlan, c.writes, |OnWire(f)|);
    c.(out := c.out + OnWire(f)[..d.bytes], writes := d.writes)
  }

  /** The server as a state machine; a log of it records the events of a connection. */
  function ServerIn(w: World): Machine<Conn, Event> {
    Machine((c, e) => Possible(w, c, e), (c, e) => Following(w, c, e))
  }

  type Log = Run<Conn, Event>

  /** Marks the pairs of a state and an event whose step is of interest. */
  predicate Mark(c: Conn, e: Event) { true }

  ghost predicate IsServerIn(w: World, m: Machine<Conn, Event>) {
    forall c, e {:trigger Mark(c, e)} :: Mark(c, e) ==>
      m.possible(c, e) == Possible(w, c, e) && m.after(c, e) == Following(w, c, e)
  }

  ghost predicate Legal(w: World, l: Log) { IsServerIn(w, l.m) && Lawful(l) }

  /** One more event. */
  lemma {:induction false} AddIsLegal(w: World, l: Log, e: Event)
    requires Legal(w, l) && Possible(w, Now(l), e)
    ensures Legal(w, Add(l, e)) && Now(Add(l, e)) == Following(w, Now(l), e)
  {
    assert Mark(Now(l), e);
    AddIsLawful(l, e);
  }

  // ---- What every legal log is like -------------------------------------------------------------------------------

  lemma {:induction false} StepAt(w: World, l: Log, n: nat)
    requires Legal(w, l) && n < |l.trace|
    ensures Possible(w, At(l, n), l.trace[n]) && At(l, n + 1) == Following(w, At(l, n), l.trace[n])
  {
    assert Mark(At(l, n), l.trace[n]);
  }

  lemma {:induction false} PhaseAt(w: World, l: Log, n: nat)
    requires Legal(w, l) && n < |l.trace|
    ensures Intended(IntentOf(w, At(l, n).phase), l.trace[n])
    ensures At(l, n + 1).phase == NextPhase(w, At(l, n).phase, l.trace[n])
  {
    StepAt(w, l, n);
  }

  /** A frame read at connection level is answered next, with its own id: by a CANCEL, and the loop waits again, or by
      an INIT_ACK, and then its handler is started, the latter exactly when it is a STREAM_INIT that parses and whose
      route is registered. A failed answer is the last event of all. This holds of every log that does not end between
      the frame and what it leads to, and the loop never stops there. */
  lemma {:induction false} FirstFrameIsAnswered(w: World, l: Log, n: nat)
    requires Legal(w, l) && !Now(l).phase.Answering? && !Now(l).phase.Starting?
    requires n < |l.trace| && At(l, n).phase.Waiting? && l.trace[n].Received?
    ensures var f, h := l.trace[n].frame, HandlerFor(w.catalogue, l.trace[n].frame);
            var answer := if h.Some? then InitAck(f.id) else Cancel(f.id);
            && n + 1 < |l.trace| && (l.trace[n + 1] == Sent(answer) || l.trace[n + 1] == SendFailed(answer))
            && (l.trace[n + 1] == SendFailed(answer) ==> n + 2 == |l.trace|)
            && (l.trace[n + 1] == Sent(answer) && h.None? ==> At(l, n + 2).phase == Waiting)
            && (l.trace[n + 1] == Sent(answer) && h.Some? ==>
                  && n + 2 < |l.trace| && l.trace[n + 2] == Started
                  && At(l, n + 3).phase == Running(h.value, f.id, []))
  {
    PhaseAt(w, l, n);
    AnswerFollows(w, l, n + 1);
    if n + 1 < |l.trace| && At(l, n + 2).phase.Starting? { StartFollows(w, l, n + 2); }
    if n + 1 < |l.trace| && At(l, n + 2).phase.Closed? { NothingAfterClosing(w, l, n + 2); }
  }

  lemma {:induction false} AnswerFollows(w: World, l: Log, n: nat)
    requires Legal(w, l) && n <= |l.trace| && At(l, n).phase.Answering? && !Now(l).phase.Answering?
    ensures n < |l.trace|
    ensures var f := At(l, n).phase.frame;
            var h, answer := HandlerFor(w.catalogue, f), Answer(w.catalogue, f);
            if l.trace[n] == Sent(answer) then
              At(l, n + 1).phase == if h.Some? then Starting(h.value, f.id) else Waiting
            else l.trace[n] == SendFailed(answer) && At(l, n + 1).phase == Closed
  {
    PhaseAt(w, l, n);
  }

  lemma {:induction false} StartFollows(w: World, l: Log, n: nat)
    requires Legal(w, l) && n <= |l.trace| && At(l, n).phase.Starting? && !Now(l).phase.Starting?
    ensures n < |l.trace| && l.trace[n] == Started
    ensures At(l, n + 1).phase == Running(At(l, n).phase.handler, At(l, n).phase.id, [])
  {
    PhaseAt(w, l, n);
  }

  /** The handler of a first frame, from what was registered: it is a STREAM_INIT whose body starts with a service name
      and a method name, each behind its length, and the handler is the last one registered for sessions of that method
      of that service. */
  lemma {:induction false} HandlerOfFirstFrame(catalogue: Catalogue, histories: map<Bytes, seq<Registration>>, f: Frame,
                                               service: Bytes, method_: Bytes, rest: Bytes)
    requires MadeBy(catalogue, histories) && NamesAt(f.payload, 0, service, method_, rest)
    ensures HandlerFor(catalogue, f)
         == if f.typ == 0x10 && service in histories then LastForSession(histories[service], method_) else None
  {
    NamesFound(f.payload, service, method_, rest);
    StreamRoute(catalogue, histories, service, method_);
  }

  lemma {:induction false} NamesFound(body: Bytes, service: Bytes, method_: Bytes, rest: Bytes)
    requires NamesAt(body, 0, service, method_, rest)
    ensures DecodeNames(body) == Some(Route(service, method_, rest))
  {
  }

  /** And a frame whose body does not start so has none. */
  lemma {:induction false} NoHandlerWithoutNames(catalogue: Catalogue, f: Frame)
    ensures HandlerFor(catalogue, f).Some? ==>
              exists service, method_, rest :: NamesAt(f.payload, 0, service, method_, rest)
  {
    if HandlerFor(catalogue, f).Some? {
      var names := DecodeNames(f.payload).value;
      DecodeNamesShape(f.payload);
      assert NamesAt(f.payload, 0, names.service, names.method_, names.rest);
    }
  }

  /** So a client that opens a stream for a registered route has that route's handler started, with its stream's id,
      behind one INIT_ACK; any other first frame gets one CANCEL. */
  lemma {:induction false} FirstFrameStartsItsRoute(w: World, l: Log, n: nat, histories: map<Bytes, seq<Registration>>,
                                                    service: Bytes, method_: Bytes, rest: Bytes)
    requires Legal(w, l) && !Now(l).phase.Answering? && !Now(l).phase.Starting? && MadeBy(w.catalogue, histories)
    requires n < |l.trace| && At(l, n).phase.Waiting? && l.trace[n].Received?
    requires NamesAt(l.trace[n].frame.payload, 0, service, method_, rest)
    ensures n + 1 < |l.trace|
    ensures var f := l.trace[n].frame;
            var known := f.typ == 0x10 && service in histories;
            var h := if known then LastForSession(histories[service], method_) else None;
            var answer := SP.Frame(if h.Some? then 0x11 else 0x14, f.id, []);
            && (l.trace[n + 1] == Sent(answer) || l.trace[n + 1] == SendFailed(answer))
            && (l.trace[n + 1] == Sent(answer) && h.Some? ==>
                  && n + 2 < |l.trace| && l.trace[n + 2] == Started
                  && At(l, n + 3).phase == Running(h.value, f.id, []))
  {
    HandlerOfFirstFrame(w.catalogue, histories, l.trace[n].frame, service, method_, rest);
    FirstFrameIsAnswered(w, l, n);
  }

  /** A failed read or send at connection level closes it, and nothing happens on a closed connection. */
  lemma {:induction false} NothingAfterClosing(w: World, l: Log, n: nat)
    requires Legal(w, l) && n <= |l.trace| && At(l, n).phase.Closed?
    ensures n == |l.trace|
  {
    if n < |l.trace| { PhaseAt(w, l, n); }
  }

  /** Handlers never overlap: between two starts the first one returned. */
  lemma {:induction false} RunsNeverOverlap(w: World, l: Log, i: nat, j: nat)
    requires Legal(w, l) && i < j < |l.trace| && l.trace[i].Started? && l.trace[j].Started?
    ensures exists k :: i < k < j && l.trace[k].Returned?
  {
    if forall k :: i < k < j ==> !l.trace[k].Returned? {
      StartsRunning(w, l, i);
      StaysRunning(w, l, i + 1, j);
      PhaseAt(w, l, j);
    }
  }

  lemma {:induction false} StartsRunning(w: World, l: Log, n: nat)
    requires Legal(w, l) && n < |l.trace| && l.trace[n].Started?
    ensures At(l, n + 1).phase.Running?
  {
    PhaseAt(w, l, n);
  }

  lemma {:induction false} StaysRunning(w: World, l: Log, i: nat, j: nat)
    requires Legal(w, l) && i <= j <= |l.trace| && At(l, i).phase.Running?
    requires forall k :: i <= k < j ==> !l.trace[k].Returned?
    ensures At(l, j).phase.Running?
  {
    if i < j {
      StaysRunning(w, l, i, j - 1);
      StillRunning(w, l, j - 1);
    }
  }

  lemma {:induction false} StillRunning(w: World, l: Log, n: nat)
    requires Legal(w, l) && n < |l.trace| && At(l, n).phase.Running? && !l.trace[n].Returned?
    ensures At(l, n + 1).phase.Running?
  {
    PhaseAt(w, l, n);
  }

  /** The frames among the first `n` events, taken off the connection by the loop or by handlers. */
  function Taken(l: Log, n: nat): seq<Item>
    requires n <= |l.trace|
  {
    if n == 0 then [] else Taken(l, n - 1) + if l.trace[n - 1].Received? then [AsItem(l.trace[n - 1].frame)] else []
  }

  ghost predicate AllFit(items: seq<Item>, cap: nat) {
    forall i :: 0 <= i < |items| ==> Fits(FrameReader, items[i], cap)
  }

  /** The frames taken by then are the first ones sent, and the others are still unread. */
  ghost predicate InOrder(l: Log, items: seq<Item>, n: nat)
    requires n <= |l.trace|
  {
    var k := |Taken(l, n)|;
    k <= |items| && Taken(l, n) == items[..k] && At(l, n).unread == EncodeAll(items[k..])
  }

  /** When reads are steady and the peer sends whole frames that fit, loop and handlers between them take those frames
      in order, none twice and none skipped. */
  lemma {:induction false} TakesFramesInOrder(w: World, l: Log, items: seq<Item>, n: nat)
    requires Legal(w, l) && w.steady && l.start.unread == EncodeAll(items) && n <= |l.trace| && AllFit(items, w.cap)
    ensures InOrder(l, items, n)
  {
    StartsInOrder(l, items);
    OrderIsKept(w, l, items, n);
  }

  lemma {:induction false} OrderIsKept(w: World, l: Log, items: seq<Item>, n: nat)
    requires Legal(w, l) && w.steady && n <= |l.trace| && AllFit(items, w.cap) && InOrder(l, items, 0)
    ensures InOrder(l, items, n)
  {
    if n > 0 {
      OrderIsKept(w, l, items, n - 1);
      StaysInOrder(w, l, items, n - 1);
    }
  }

  lemma {:induction false} StartsInOrder(l: Log, items: seq<Item>)
    requires l.start.unread == EncodeAll(items)
    ensures InOrder(l, items, 0)
  {
    assert items[0..] == items;
  }

  lemma {:induction false} StaysInOrder(w: World, l: Log, items: seq<Item>, n: nat)
    requires Legal(w, l) && w.steady && n < |l.trace| && InOrder(l, items, n) && AllFit(items, w.cap)
    ensures InOrder(l, items, n + 1)
  {
    FrameAt(w, l, n, items, |Taken(l, n)|);
    OneMoreTaken(l, items, n);
  }

  lemma {:induction false} OneMoreTaken(l: Log, items: seq<Item>, n: nat)
    requires n < |l.trace| && InOrder(l, items, n) && TakesNext(l, items, n, |Taken(l, n)|)
    ensures InOrder(l, items, n + 1)
  {
    var k := |Taken(l, n)|;
    if l.trace[n].Received? {
      assert Taken(l, n + 1) == Taken(l, n) + [AsItem(l.trace[n].frame)] == items[..k + 1];
      assert |items[..k + 1]| == k + 1;
    } else {
      assert Taken(l, n + 1) == Taken(l, n) + [] == Taken(l, n);
    }
  }

  /** Event `n` takes the frame numbered `k`, or takes nothing. */
  ghost predicate TakesNext(l: Log, items: seq<Item>, n: nat, k: nat)
    requires n < |l.trace|
  {
    if l.trace[n].Received? then
      && k < |items| && items[..k] + [AsItem(l.trace[n].frame)] == items[..k + 1]
      && At(l, n + 1).unread == EncodeAll(items[k + 1..])
    else At(l, n + 1).unread == At(l, n).unread
  }

  lemma {:induction false} FrameAt(w: World, l: Log, n: nat, items: seq<Item>, k: nat)
    requires Legal(w, l) && n < |l.trace| && w.steady && k <= |items| && At(l, n).unread == EncodeAll(items[k..])
    requires AllFit(items, w.cap)
    ensures TakesNext(l, items, n, k)
  {
    StepAt(w, l, n);
    NextFrame(w, At(l, n), l.trace[n], items, k);
  }

  lemma {:induction false} NextFrame(w: World, c: Conn, e: Event, items: seq<Item>, k: nat)
    requires Possible(w, c, e) && w.steady && k <= |items| && c.unread == EncodeAll(items[k..]) && AllFit(items, w.cap)
    ensures if e.Received? then
              && k < |items| && items[..k] + [AsItem(e.frame)] == items[..k + 1]
              && Following(w, c, e).unread == EncodeAll(items[k + 1..])
            else Following(w, c, e).unread == c.unread
  {
    if k == |items| {
      AwaitNothing(w.cap);
    } else {
      assert items[k..][1..] == items[k + 1..];
      AwaitEncoded(FrameReader, items[k], EncodeAll(items[k + 1..]), w.cap);
    }
  }

  lemma {:induction false} AwaitNothing(cap: nat)
    ensures Await(FrameReader, [], cap).result.Err? && Await(FrameReader, [], cap).rest == []
  {
  }
}

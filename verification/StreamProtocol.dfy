/**
 The windowed stream client (benchmark/b5_stream.cpp:126-247) against the stream server and its echo handler
 (galay-rpc/kernel/streamsvc.h:300-424, benchmark/b4_stream.cpp:37-71): two processes over two FIFO channels, every
 interleaving.
 */
module StreamProtocol {
  import opened Wire

  datatype Frame = Frame(typ: Byte, id: U32, payload: Bytes)

  /** What the parties are configured with. The client's payload may differ from frame to frame here; in the code it is
      the same every time. `accepts` is the server's test for a well-formed STREAM_INIT with a registered route. */
  datatype Config = Config(frames: nat, frameWindow: nat, idOf: nat -> U32, payload: nat -> Bytes,
                           initBody: Bytes, accepts: Frame -> bool)

  function Max(a: nat, b: nat): nat { if a >= b then a else b }

  function Window(c: Config): nat { Max(1, Min(c.frameWindow, c.frames)) }

  /** At least one frame and at most the whole stream, and otherwise as many as configured. */
  lemma {:induction false} WindowIs(c: Config)
    ensures c.frameWindow == 0 || c.frames == 0 ==> Window(c) == 1
    ensures 1 <= c.frameWindow <= c.frames ==> Window(c) == c.frameWindow
    ensures 1 <= c.frames <= c.frameWindow ==> Window(c) == c.frames
  {
  }

  datatype Client = Starting | AwaitingAck | Streaming | AwaitingEnd | Failed
  datatype Server =
    | AwaitingInit
    | Acknowledging(id: U32)
    | Reading(id: U32)
    | Echoing(id: U32, payload: Bytes)
    | Ending(id: U32)
    | Cancelling(id: U32)

  /** `stream` numbers the current stream, `done` counts those completed. */
  datatype System = System(client: Client, running: bool, stream: nat, sent: nat, recv: nat, done: nat,
                           server: Server, toServer: seq<Frame>, toClient: seq<Frame>)

  const Initially := System(Starting, true, 0, 0, 0, 0, AwaitingInit, [], [])

  datatype Step = ClientMoves | ServerMoves | Stop

  // ---- The processes ----------------------------------------------------------------------------------------

  function DataFrame(c: Config, stream: nat, k: nat): Frame { Frame(STREAM_DATA, c.idOf(stream), c.payload(k)) }

  /** The client's next action; it stays put while it has to wait for a frame. */
  function ClientStep(c: Config, s: System): System {
    match s.client
    case Starting =>
      if !s.running then s
      else
        s.(client := AwaitingAck, sent := 0, recv := 0,
           toServer := s.toServer + [Frame(STREAM_INIT, c.idOf(s.stream), c.initBody)])
    case AwaitingAck =>
      if s.toClient == [] then s
      else
        var f := s.toClient[0];
        s.(client := if f.typ == STREAM_INIT_ACK && f.id == c.idOf(s.stream) then Streaming else Failed,
           toClient := s.toClient[1..])
    case Streaming =>
      if !s.running then s
      else if s.recv >= c.frames then
        s.(client := AwaitingEnd, toServer := s.toServer + [Frame(STREAM_END, c.idOf(s.stream), [])])
      else if s.sent < c.frames && s.sent - s.recv < Window(c) then
        s.(sent := s.sent + 1, toServer := s.toServer + [DataFrame(c, s.stream, s.sent)])
      else if s.recv >= s.sent || s.toClient == [] then s
      else
        var f := s.toClient[0];
        if f == DataFrame(c, s.stream, s.recv) then s.(recv := s.recv + 1, toClient := s.toClient[1..])
        else s.(client := Failed, toClient := s.toClient[1..])
    case AwaitingEnd =>
      if s.toClient == [] then s
      else
        var f := s.toClient[0];
        if f.typ == STREAM_END then
          s.(client := Starting, stream := s.stream + 1, done := s.done + 1, toClient := s.toClient[1..])
        else if f.typ == STREAM_CANCEL then s.(client := Failed, toClient := s.toClient[1..])
        else s.(toClient := s.toClient[1..])
    case Failed => s
  }

  /** The connection loop and, between acknowledgement and return, the echo handler. */
  function ServerStep(c: Config, s: System): System {
    match s.server
    case AwaitingInit =>
      if s.toServer == [] then s
      else
        var f := s.toServer[0];
        s.(server := if c.accepts(f) then Acknowledging(f.id) else Cancelling(f.id), toServer := s.toServer[1..])
    case Acknowledging(id) => s.(server := Reading(id), toClient := s.toClient + [Frame(STREAM_INIT_ACK, id, [])])
    case Reading(id) =>
      if s.toServer == [] then s
      else
        var f := s.toServer[0];
        s.(server := if f.typ == STREAM_DATA then Echoing(id, f.payload)
                     else if f.typ == STREAM_END then Ending(id)
                     else if f.typ == STREAM_CANCEL then AwaitingInit
                     else Cancelling(id),
           toServer := s.toServer[1..])
    case Echoing(id, payload) => s.(server := Reading(id), toClient := s.toClient + [Frame(STREAM_DATA, id, payload)])
    case Ending(id) => s.(server := AwaitingInit, toClient := s.toClient + [Frame(STREAM_END, id, [])])
    case Cancelling(id) => s.(server := AwaitingInit, toClient := s.toClient + [Frame(STREAM_CANCEL, id, [])])
  }

  /** What each party puts on its channel, with the wire's numbers. */
  lemma {:induction false} Says(c: Config, s: System)
    ensures var says, id := ClientStep(c, s).toServer, c.idOf(s.stream);
            || says == s.toServer
            || (s.client.Starting? && says == s.toServer + [Frame(0x10, id, c.initBody)])
            || (s.client.Streaming? && s.recv < c.frames
                && says == s.toServer + [Frame(0x12, id, c.payload(s.sent))])
            || (s.client.Streaming? && s.recv >= c.frames && says == s.toServer + [Frame(0x13, id, [])])
    ensures ServerStep(c, s).toClient
         == s.toClient + match s.server
                         case AwaitingInit => []
                         case Reading(_) => []
                         case Acknowledging(id) => [Frame(0x11, id, [])]
                         case Echoing(id, payload) => [Frame(0x12, id, payload)]
                         case Ending(id) => [Frame(0x13, id, [])]
                         case Cancelling(id) => [Frame(0x14, id, [])]
  {
  }

  function Next(c: Config, s: System, step: Step): System {
    match step
    case ClientMoves => ClientStep(c, s)
    case ServerMoves => ServerStep(c, s)
    case Stop => s.(running := false)
  }

  function Run(c: Config, steps: seq<Step>): System {
    if steps == [] then Initially else Next(c, Run(c, steps[..|steps| - 1]), steps[|steps| - 1])
  }

  // ---- The invariant ----------------------------------------------------------------------------------------

  /** The DATA frames `from` up to `upto` of a stream, in order. */
  function Data(c: Config, stream: nat, from: nat, upto: nat): (r: seq<Frame>)
    requires from <= upto
    ensures |r| == upto - from
    decreases upto - from
  {
    if from == upto then [] else [DataFrame(c, stream, from)] + Data(c, stream, from + 1, upto)
  }

  lemma {:induction false} DataGrows(c: Config, stream: nat, from: nat, upto: nat)
    requires from <= upto
    ensures Data(c, stream, from, upto + 1) == Data(c, stream, from, upto) + [DataFrame(c, stream, upto)]
    decreases upto - from
  {
    if from < upto {
      DataGrows(c, stream, from + 1, upto);
    } else {
      assert Data(c, stream, upto + 1, upto + 1) == [];
    }
  }

  function Held(s: System): nat { if s.server.Echoing? then 1 else 0 }

  ghost predicate Handshake(c: Config, s: System) {
    var id := c.idOf(s.stream);
    && s.sent == s.recv == 0
    && (|| (s.server == AwaitingInit && s.toServer == [Frame(STREAM_INIT, id, c.initBody)] && s.toClient == [])
        || (s.server == Acknowledging(id) && s.toServer == [] && s.toClient == [])
        || (s.server == Reading(id) && s.toServer == [] && s.toClient == [Frame(STREAM_INIT_ACK, id, [])]))
  }

  /** Frames `recv..echoed` are on their way back, the server holds at most the next one, and the rest up to `sent` are
      on their way out. */
  ghost predicate Flow(c: Config, s: System) {
    var id := c.idOf(s.stream);
    var echoed := s.recv + |s.toClient|;
    && echoed + Held(s) + |s.toServer| == s.sent
    && s.toClient == Data(c, s.stream, s.recv, echoed)
    && s.toServer == Data(c, s.stream, echoed + Held(s), s.sent)
    && (s.server == Reading(id) || s.server == Echoing(id, c.payload(echoed)))
  }

  ghost predicate Farewell(c: Config, s: System) {
    var id := c.idOf(s.stream);
    && s.sent == s.recv == c.frames
    && (|| (s.server == Reading(id) && s.toServer == [Frame(STREAM_END, id, [])] && s.toClient == [])
        || (s.server == Ending(id) && s.toServer == [] && s.toClient == [])
        || (s.server == AwaitingInit && s.toServer == [] && s.toClient == [Frame(STREAM_END, id, [])]))
  }

  /** Between streams nothing is left anywhere. */
  predicate Quiet(s: System) { s.server == AwaitingInit && s.toServer == [] && s.toClient == [] }

  ghost predicate Inv(c: Config, s: System) {
    && s.stream == s.done
    && s.recv <= s.sent <= c.frames && s.sent - s.recv <= Window(c)
    && match s.client
       case Starting => Quiet(s)
       case AwaitingAck => Handshake(c, s)
       case Streaming => Flow(c, s)
       case AwaitingEnd => Farewell(c, s)
       case Failed => false
  }

  /** A server that knows the route the client asks for. */
  ghost predicate Registered(c: Config) { forall id :: c.accepts(Frame(STREAM_INIT, id, c.initBody)) }

  lemma {:induction false} SendKeepsFlow(c: Config, s: System)
    requires Flow(c, s)
    ensures Flow(c, s.(sent := s.sent + 1, toServer := s.toServer + [DataFrame(c, s.stream, s.sent)]))
  {
    DataGrows(c, s.stream, s.recv + |s.toClient| + Held(s), s.sent);
  }

  lemma {:induction false} ReceiveKeepsFlow(c: Config, s: System)
    requires Flow(c, s) && s.toClient != []
    ensures s.toClient[0] == DataFrame(c, s.stream, s.recv)
    ensures Flow(c, s.(recv := s.recv + 1, toClient := s.toClient[1..]))
  {
  }

  lemma {:induction false} ClientKeepsInv(c: Config, s: System)
    requires Inv(c, s)
    ensures Inv(c, ClientStep(c, s))
  {
    if s.client.Streaming? {
      SendKeepsFlow(c, s);
      if s.toClient != [] { ReceiveKeepsFlow(c, s); }
    }
  }

  lemma {:induction false} TakeKeepsFlow(c: Config, s: System)
    requires Flow(c, s) && s.server.Reading? && s.toServer != []
    ensures s.toServer[0] == DataFrame(c, s.stream, s.recv + |s.toClient|)
    ensures Flow(c, s.(server := Echoing(s.server.id, s.toServer[0].payload), toServer := s.toServer[1..]))
  {
  }

  lemma {:induction false} EchoKeepsFlow(c: Config, s: System)
    requires Flow(c, s) && s.server.Echoing?
    ensures Flow(c, s.(server := Reading(s.server.id),
                       toClient := s.toClient + [Frame(STREAM_DATA, s.server.id, s.server.payload)]))
  {
    DataGrows(c, s.stream, s.recv, s.recv + |s.toClient|);
  }

  lemma {:induction false} ServerKeepsInv(c: Config, s: System)
    requires Inv(c, s) && Registered(c)
    ensures Inv(c, ServerStep(c, s))
  {
    if s.client.Streaming? {
      if s.server.Echoing? {
        EchoKeepsFlow(c, s);
      } else if s.toServer != [] {
        TakeKeepsFlow(c, s);
      }
    }
  }

  /** In every interleaving the client never meets an unexpected frame; at most a window of frames is outstanding, each
      either in a channel, in order, or held by the server; and whenever a stream has been counted the channels are
      empty and the server waits for a STREAM_INIT, so streams never mix. */
  lemma {:induction false} EveryRunIsOrderly(c: Config, steps: seq<Step>)
    requires Registered(c)
    ensures Inv(c, Run(c, steps))
  {
    if steps != [] {
      var s := Run(c, steps[..|steps| - 1]);
      EveryRunIsOrderly(c, steps[..|steps| - 1]);
      match steps[|steps| - 1] {
        case ClientMoves => ClientKeepsInv(c, s);
        case ServerMoves => ServerKeepsInv(c, s);
        case Stop =>
      }
    }
  }

  /** What the invariant says about a stream in progress, in the client's own counters. */
  lemma {:induction false} FramesInTransit(c: Config, s: System)
    requires Inv(c, s) && s.client.Streaming?
    ensures s.sent - s.recv == |s.toServer| + |s.toClient| + Held(s)
    ensures s.sent - s.recv <= Window(c) && s.recv <= s.sent <= c.frames
    ensures forall f :: f in s.toServer || f in s.toClient ==> f.typ == STREAM_DATA && f.id == c.idOf(s.stream)
  {
    var echoed := s.recv + |s.toClient|;
    DataIsData(c, s.stream, s.recv, echoed);
    DataIsData(c, s.stream, echoed + Held(s), s.sent);
  }

  lemma {:induction false} DataIsData(c: Config, stream: nat, from: nat, upto: nat)
    requires from <= upto
    ensures forall f :: f in Data(c, stream, from, upto) ==> f.typ == STREAM_DATA && f.id == c.idOf(stream)
    decreases upto - from
  {
    if from < upto { DataIsData(c, stream, from + 1, upto); }
  }

  // ---- Progress ---------------------------------------------------------------------------------------------

  /** How many actions of either process remain in the current stream. */
  function Remaining(c: Config, s: System): int {
    match s.client
    case Starting => 4 * c.frames + 8
    case AwaitingAck => 4 * c.frames + (if s.server.AwaitingInit? then 7 else if s.server.Acknowledging? then 6 else 5)
    case Streaming => 4 * (c.frames - s.sent) + 3 * |s.toServer| + 2 * Held(s) + |s.toClient| + 4
    case AwaitingEnd => if s.server.Reading? then 3 else if s.server.Ending? then 2 else 1
    case Failed => 0
  }

  /** One action: the stream is one step closer to its end, or that was its last. */
  ghost predicate Closer(c: Config, s: System, s': System) {
    if s'.done == s.done then Remaining(c, s') == Remaining(c, s) - 1
    else Remaining(c, s) == 1 && s'.done == s.done + 1 && Quiet(s') && s'.client.Starting?
  }

  lemma {:induction false} ClientActionCounts(c: Config, s: System)
    requires Inv(c, s) && ClientStep(c, s) != s
    ensures Closer(c, s, ClientStep(c, s))
  {
    if s.client.Streaming? && s.toClient != [] { ReceiveKeepsFlow(c, s); }
  }

  lemma {:induction false} ServerActionCounts(c: Config, s: System)
    requires Inv(c, s) && Registered(c) && ServerStep(c, s) != s
    ensures Closer(c, s, ServerStep(c, s))
  {
    if s.client.Streaming? && s.server.Reading? && s.toServer != [] { TakeKeepsFlow(c, s); }
  }

  function Exec(c: Config, s: System, steps: seq<Step>): System
    decreases |steps|
  {
    if steps == [] then s else Exec(c, Next(c, s, steps[0]), steps[1..])
  }

  /** A schedule in which every step is an action of one of the processes. */
  ghost predicate Effective(c: Config, s: System, steps: seq<Step>)
    decreases |steps|
  {
    steps != [] ==>
      steps[0] != Stop && Next(c, s, steps[0]) != s && Effective(c, Next(c, s, steps[0]), steps[1..])
  }

  /** Whatever the schedule, the current stream has been completed after exactly `Remaining` actions (4 per frame and 8
      for opening and closing, for a whole stream), and both channels are then empty again. */
  lemma {:induction false} StreamCompletes(c: Config, s: System, steps: seq<Step>)
    requires Inv(c, s) && Registered(c) && Effective(c, s, steps) && |steps| == Remaining(c, s) > 0
    ensures var s' := Exec(c, s, steps);
            s'.done == s.done + 1 && Quiet(s') && s'.client.Starting?
    decreases |steps|
  {
    var s1 := Next(c, s, steps[0]);
    if steps[0] == ClientMoves {
      ClientKeepsInv(c, s);
      ClientActionCounts(c, s);
    } else {
      ServerKeepsInv(c, s);
      ServerActionCounts(c, s);
    }
    if s1.done == s.done {
      RemainingPositive(c, s1);
      StreamCompletes(c, s1, steps[1..]);
    }
  }

  lemma {:induction false} RemainingPositive(c: Config, s: System)
    requires Inv(c, s)
    ensures Remaining(c, s) > 0
  {
  }

  /** While the client has not been stopped, one of the two processes can always act. */
  lemma {:induction false} NeverStuck(c: Config, s: System)
    requires Inv(c, s) && s.running
    ensures Next(c, s, ClientMoves) != s || Next(c, s, ServerMoves) != s
  {
  }

  // ---- Channels of limited size -------------------------------------------------------------------------------------

  /** A step through channels with room for `room` frames each: a send into a full channel has to wait. */
  function BoundedNext(c: Config, room: nat, s: System, step: Step): System {
    var s' := Next(c, s, step);
    if |s'.toServer| > Max(room, |s.toServer|) || |s'.toClient| > Max(room, |s.toClient|) then s else s'
  }

  function BoundedRun(c: Config, room: nat, steps: seq<Step>): System {
    if steps == [] then Initially
    else BoundedNext(c, room, BoundedRun(c, room, steps[..|steps| - 1]), steps[|steps| - 1])
  }

  ghost predicate Within(room: nat, s: System) { |s.toServer| <= room && |s.toClient| <= room }

  /** Neither process can do anything. */
  ghost predicate Stuck(c: Config, room: nat, s: System) {
    BoundedNext(c, room, s, ClientMoves) == s && BoundedNext(c, room, s, ServerMoves) == s
  }

  lemma {:induction false} BoundedStepKeeps(c: Config, room: nat, s: System, step: Step)
    requires Registered(c) && Inv(c, s) && Within(room, s)
    ensures Inv(c, BoundedNext(c, room, s, step)) && Within(room, BoundedNext(c, room, s, step))
  {
    match step {
      case ClientMoves => ClientKeepsInv(c, s);
      case ServerMoves => ServerKeepsInv(c, s);
      case Stop =>
    }
  }

  lemma {:induction false} BoundedRunIsOrderly(c: Config, room: nat, steps: seq<Step>)
    requires Registered(c) && room > 0
    ensures Inv(c, BoundedRun(c, room, steps)) && Within(room, BoundedRun(c, room, steps))
  {
    if steps != [] {
      BoundedRunIsOrderly(c, room, steps[..|steps| - 1]);
      BoundedStepKeeps(c, room, BoundedRun(c, room, steps[..|steps| - 1]), steps[|steps| - 1]);
    }
  }

  /** The only way to get stuck: the client fills its window before it reads, into a full channel, while the server
      echoes into a full channel. */
  lemma {:induction false} StuckExactly(c: Config, room: nat, s: System)
    requires Inv(c, s) && Within(room, s) && s.running && room > 0
    ensures Stuck(c, room, s) <==>
            && s.client.Streaming? && s.server.Echoing? && |s.toServer| == room && |s.toClient| == room
            && s.sent < c.frames && s.sent - s.recv < Window(c)
  {
    if s.client.Streaming? && s.toClient != [] { ReceiveKeepsFlow(c, s); }
  }

  /** With channels of `room` frames each no run gets stuck if the window is at most `2 * room + 1`. */
  lemma {:induction false} RoomEnough(c: Config, room: nat, steps: seq<Step>)
    requires Registered(c) && room > 0 && Window(c) <= 2 * room + 1 && BoundedRun(c, room, steps).running
    ensures !Stuck(c, room, BoundedRun(c, room, steps))
  {
    BoundedRunIsOrderly(c, room, steps);
    StuckExactly(c, room, BoundedRun(c, room, steps));
  }

  ghost predicate Reachable(c: Config, room: nat, s: System) { exists steps :: BoundedRun(c, room, steps) == s }

  lemma {:induction false} ReachNext(c: Config, room: nat, s: System, step: Step)
    requires Reachable(c, room, s)
    ensures Reachable(c, room, BoundedNext(c, room, s, step))
  {
    var steps :| BoundedRun(c, room, steps) == s;
    assert (steps + [step])[..|steps|] == steps;
    assert BoundedRun(c, room, steps + [step]) == BoundedNext(c, room, s, step);
  }

  /** In the first stream: `k` frames echoed and not yet read, `held` of them at the server, `n` more on their way. */
  function Congested(c: Config, k: nat, held: bool, n: nat): System {
    var h := if held then 1 else 0;
    System(Streaming, true, 0, k + h + n, 0, 0, if held then Echoing(c.idOf(0), c.payload(k)) else Reading(c.idOf(0)),
           Data(c, 0, k + h, k + h + n), Data(c, 0, 0, k))
  }

  lemma {:induction false} StreamOpens(c: Config, room: nat)
    requires Registered(c) && room > 0
    ensures Reachable(c, room, Congested(c, 0, false, 0))
  {
    assert BoundedRun(c, room, []) == Initially;
    ReachNext(c, room, Initially, ClientMoves);
    var s1 := BoundedNext(c, room, Initially, ClientMoves);
    ReachNext(c, room, s1, ServerMoves);
    var s2 := BoundedNext(c, room, s1, ServerMoves);
    ReachNext(c, room, s2, ServerMoves);
    var s3 := BoundedNext(c, room, s2, ServerMoves);
    ReachNext(c, room, s3, ClientMoves);
    assert BoundedNext(c, room, s3, ClientMoves) == Congested(c, 0, false, 0);
  }

  lemma {:induction false} ClientSends(c: Config, room: nat, k: nat, held: bool, n: nat)
    requires k + n + 1 < Window(c) && n < room && Reachable(c, room, Congested(c, k, held, n))
    ensures Reachable(c, room, Congested(c, k, held, n + 1))
  {
    ClientWouldSend(c, k, held, n);
    ReachNext(c, room, Congested(c, k, held, n), ClientMoves);
  }

  lemma {:induction false} ClientWouldSend(c: Config, k: nat, held: bool, n: nat)
    requires k + n + 1 < Window(c)
    ensures ClientStep(c, Congested(c, k, held, n)) == Congested(c, k, held, n + 1)
  {
    var h := if held then 1 else 0;
    DataGrows(c, 0, k + h, k + h + n);
  }

  lemma {:induction false} ServerTakes(c: Config, room: nat, k: nat)
    requires Reachable(c, room, Congested(c, k, false, 1))
    ensures Reachable(c, room, Congested(c, k, true, 0))
  {
    ReachNext(c, room, Congested(c, k, false, 1), ServerMoves);
    assert Data(c, 0, k, k + 1) == [DataFrame(c, 0, k)] + Data(c, 0, k + 1, k + 1);
  }

  lemma {:induction false} ServerEchoes(c: Config, room: nat, k: nat)
    requires k < room && Reachable(c, room, Congested(c, k, true, 0))
    ensures Reachable(c, room, Congested(c, k + 1, false, 0))
  {
    ReachNext(c, room, Congested(c, k, true, 0), ServerMoves);
    DataGrows(c, 0, 0, k);
  }

  lemma {:induction false} FillsBack(c: Config, room: nat, k: nat)
    requires Registered(c) && 0 < room && k <= room && 2 * room + 1 < Window(c)
    ensures Reachable(c, room, Congested(c, k, false, 0))
  {
    if k == 0 {
      StreamOpens(c, room);
    } else {
      FillsBack(c, room, k - 1);
      ClientSends(c, room, k - 1, false, 0);
      ServerTakes(c, room, k - 1);
      ServerEchoes(c, room, k - 1);
    }
  }

  lemma {:induction false} FillsForth(c: Config, room: nat, n: nat)
    requires Registered(c) && 0 < room && n <= room && 2 * room + 1 < Window(c)
    ensures Reachable(c, room, Congested(c, room, true, n))
  {
    if n == 0 {
      FillsBack(c, room, room);
      ClientSends(c, room, room, false, 0);
      ServerTakes(c, room, room);
    } else {
      FillsForth(c, room, n - 1);
      ClientSends(c, room, room, true, n - 1);
    }
  }

  /** And with a larger window some run does get stuck: the bound is exact. */
  lemma {:induction false} LargerWindowDeadlocks(c: Config, room: nat)
    requires Registered(c) && 0 < room && 2 * room + 1 < Window(c)
    ensures exists steps :: BoundedRun(c, room, steps).running && Stuck(c, room, BoundedRun(c, room, steps))
  {
    FillsForth(c, room, room);
    var steps :| BoundedRun(c, room, steps) == Congested(c, room, true, room);
    BoundedRunIsOrderly(c, room, steps);
    StuckExactly(c, room, BoundedRun(c, room, steps));
  }
}

/**
 The runs of `StreamProtocol` and the byte streams of `EchoTrace`: in every interleaving, what the server process has
 sent is what the stream server owes for what the client process has sent, as far as it has come.
 */
module EchoRuns {
  import opened Wire
  import opened Awaiting
  import opened Service
  import opened StreamTrace
  import opened EchoTrace
  import SP = StreamProtocol

  /** A state of the two processes, with everything that has ever been sent either way. */
  datatype History = History(s: SP.System, up: seq<Frame>, down: seq<Frame>)

  /** What a step appends to a channel; a step that takes a frame off it appends nothing. */
  function Appended(before: seq<Frame>, after: seq<Frame>): seq<Frame> {
    if |after| > |before| then after[|before|..] else []
  }

  function NextOf(c: SP.Config, h: History, step: SP.Step): History {
    var s' := SP.Next(c, h.s, step);
    History(s', h.up + Appended(h.s.toServer, s'.toServer), h.down + Appended(h.s.toClient, s'.toClient))
  }

  function RunOf(c: SP.Config, steps: seq<SP.Step>): History {
    if steps == [] then History(SP.Initially, [], [])
    else NextOf(c, RunOf(c, steps[..|steps| - 1]), steps[|steps| - 1])
  }

  lemma {:induction false} SameStates(c: SP.Config, steps: seq<SP.Step>)
    ensures RunOf(c, steps).s == SP.Run(c, steps)
  {
    if steps != [] { SameStates(c, steps[..|steps| - 1]); }
  }

  // ---- Replies, frame by frame --------------------------------------------------------------------------------------

  /** The mode after these frames. */
  function ModeAfter(catalogue: Catalogue, mode: Mode, frames: seq<Frame>): Mode
    decreases |frames|
  {
    if frames == [] then mode else ModeAfter(catalogue, React(catalogue, mode, frames[0]).next, frames[1..])
  }

  function AsSeq(reply: Option<Frame>): seq<Frame> { if reply.Some? then [reply.value] else [] }

  lemma {:induction false} OneMore(catalogue: Catalogue, mode: Mode, frames: seq<Frame>, f: Frame)
    ensures var t := React(catalogue, ModeAfter(catalogue, mode, frames), f);
            && Replies(catalogue, mode, frames + [f]) == Replies(catalogue, mode, frames) + AsSeq(t.frame)
            && ModeAfter(catalogue, mode, frames + [f]) == t.next
    decreases |frames|
  {
    if frames == [] {
      OneReply(catalogue, mode, f);
      assert [] + [f] == [f];
    } else {
      var t := React(catalogue, mode, frames[0]);
      assert (frames + [f])[0] == frames[0] && (frames + [f])[1..] == frames[1..] + [f];
      OneMore(catalogue, t.next, frames[1..], f);
      Regroup(AsSeq(t.frame), Replies(catalogue, t.next, frames[1..]),
              AsSeq(React(catalogue, ModeAfter(catalogue, mode, frames), f).frame));
    }
  }

  lemma {:induction false} OneReply(catalogue: Catalogue, mode: Mode, f: Frame)
    ensures var t := React(catalogue, mode, f);
            Replies(catalogue, mode, [f]) == AsSeq(t.frame) && ModeAfter(catalogue, mode, [f]) == t.next
  {
    assert [f][1..] == [];
    assert AsSeq(React(catalogue, mode, f).frame) + [] == AsSeq(React(catalogue, mode, f).frame);
  }

  lemma {:induction false} Regroup(a: seq<Frame>, b: seq<Frame>, c: seq<Frame>)
    ensures a + (b + c) == a + b + c
  {
  }

  // ---- The invariant ------------------------------------------------------------------------------------------------

  /** The frame that the server process has yet to send for what it has taken. */
  function Owing(server: SP.Server): seq<Frame> {
    match server
    case AwaitingInit => []
    case Acknowledging(id) => [InitAck(id)]
    case Reading(_) => []
    case Echoing(id, payload) => [SP.Frame(STREAM_DATA, id, payload)]
    case Ending(id) => [SP.Frame(STREAM_END, id, [])]
    case Cancelling(id) => [Cancel(id)]
  }

  /** And the mode it is in once that is sent. */
  function Heading(server: SP.Server): Mode {
    match server
    case AwaitingInit => Idle
    case Acknowledging(id) => InStream(id)
    case Reading(id) => InStream(id)
    case Echoing(id, _) => InStream(id)
    case Ending(_) => Idle
    case Cancelling(_) => Idle
  }

  /** Everything sent up has been taken by the server or is in the channel; what the server has sent and has yet to send
      are the replies to what it has taken. */
  ghost predicate Keeps(catalogue: Catalogue, h: History, taken: seq<Frame>) {
    && h.up == taken + h.s.toServer
    && Replies(catalogue, Idle, taken) == h.down + Owing(h.s.server)
    && ModeAfter(catalogue, Idle, taken) == Heading(h.s.server)
  }

  lemma {:induction false} ClientStepKeeps(catalogue: Catalogue, c: SP.Config, h: History, taken: seq<Frame>)
    requires Keeps(catalogue, h, taken)
    ensures Keeps(catalogue, NextOf(c, h, SP.ClientMoves), taken)
  {
    ClientOnlySpeaksUp(c, h.s);
    Regroup(taken, h.s.toServer, Appended(h.s.toServer, SP.ClientStep(c, h.s).toServer));
    assert h.down + [] == h.down;
  }

  lemma {:induction false} ClientOnlySpeaksUp(c: SP.Config, s: SP.System)
    ensures var s' := SP.ClientStep(c, s);
            && s'.server == s.server && Appended(s.toClient, s'.toClient) == []
            && s'.toServer == s.toServer + Appended(s.toServer, s'.toServer)
  {
  }

  /** Taking a frame, the server process comes to owe the reply to it. */
  lemma {:induction false} TakesAsReacts(catalogue: Catalogue, c: SP.Config, s: SP.System)
    requires (s.server.AwaitingInit? || s.server.Reading?) && s.toServer != []
    requires c.accepts(s.toServer[0]) <==> HandlerFor(catalogue, s.toServer[0]).Some?
    ensures var t, s' := React(catalogue, Heading(s.server), s.toServer[0]), SP.ServerStep(c, s);
            && Owing(s'.server) == AsSeq(t.frame) && Heading(s'.server) == t.next
            && s'.toServer == s.toServer[1..] && s'.toClient == s.toClient
  {
  }

  /** Sending, it sends what it owes. */
  lemma {:induction false} SendsAsOwed(c: SP.Config, s: SP.System)
    requires !s.server.AwaitingInit? && !s.server.Reading?
    ensures var s' := SP.ServerStep(c, s);
            && Appended(s.toClient, s'.toClient) == Owing(s.server) && Owing(s'.server) == []
            && Heading(s'.server) == Heading(s.server) && s'.toServer == s.toServer
  {
  }

  /** The server takes a frame, or sends what it owes for the last one. */
  lemma {:induction false} ServerStepKeeps(catalogue: Catalogue, c: SP.Config, h: History, taken: seq<Frame>)
    returns (taken': seq<Frame>)
    requires Keeps(catalogue, h, taken) && forall f :: c.accepts(f) <==> HandlerFor(catalogue, f).Some?
    ensures Keeps(catalogue, NextOf(c, h, SP.ServerMoves), taken')
  {
    taken' := taken;
    if !h.s.server.AwaitingInit? && !h.s.server.Reading? {
      SendsAsOwed(c, h.s);
      assert h.down + Owing(h.s.server) + [] == h.down + Owing(h.s.server);
    } else if h.s.toServer != [] {
      TakeKeeps(catalogue, c, h, taken);
      taken' := taken + [h.s.toServer[0]];
    }
  }

  lemma {:induction false} TakeKeeps(catalogue: Catalogue, c: SP.Config, h: History, taken: seq<Frame>)
    requires Keeps(catalogue, h, taken) && forall f :: c.accepts(f) <==> HandlerFor(catalogue, f).Some?
    requires (h.s.server.AwaitingInit? || h.s.server.Reading?) && h.s.toServer != []
    ensures Keeps(catalogue, NextOf(c, h, SP.ServerMoves), taken + [h.s.toServer[0]])
  {
    var f := h.s.toServer[0];
    TakesAsReacts(catalogue, c, h.s);
    OneMore(catalogue, Idle, taken, f);
    assert taken + [f] + h.s.toServer[1..] == taken + h.s.toServer;
    assert h.down + [] == h.down;
  }

  lemma {:induction false} EveryRunKeeps(catalogue: Catalogue, c: SP.Config, steps: seq<SP.Step>)
    returns (taken: seq<Frame>)
    requires forall f :: c.accepts(f) <==> HandlerFor(catalogue, f).Some?
    ensures Keeps(catalogue, RunOf(c, steps), taken)
  {
    if steps == [] {
      taken := [];
    } else {
      taken := EveryRunKeeps(catalogue, c, steps[..|steps| - 1]);
      var h := RunOf(c, steps[..|steps| - 1]);
      match steps[|steps| - 1] {
        case ClientMoves => ClientStepKeeps(catalogue, c, h, taken);
        case ServerMoves => taken := ServerStepKeeps(catalogue, c, h, taken);
        case Stop =>
      }
    }
  }

  // ---- The bytes ----------------------------------------------------------------------------------------------------

  lemma {:induction false} EncodeBoth(a: seq<Frame>, b: seq<Frame>)
    ensures EncodeFrames(a + b) == EncodeFrames(a) + EncodeFrames(b)
  {
    if a == [] {
      assert a + b == b;
    } else {
      assert (a + b)[1..] == a[1..] + b;
      EncodeBoth(a[1..], b);
      Associate(OnWire(a[0]), EncodeFrames(a[1..]), EncodeFrames(b));
    }
  }

  lemma {:induction false} RepliesBoth(catalogue: Catalogue, mode: Mode, a: seq<Frame>, b: seq<Frame>)
    ensures Replies(catalogue, mode, a + b)
         == Replies(catalogue, mode, a) + Replies(catalogue, ModeAfter(catalogue, mode, a), b)
    decreases |a|
  {
    if a == [] {
      assert a + b == b;
    } else {
      var t := React(catalogue, mode, a[0]);
      assert (a + b)[0] == a[0] && (a + b)[1..] == a[1..] + b;
      RepliesBoth(catalogue, t.next, a[1..], b);
      Regroup(AsSeq(t.frame), Replies(catalogue, t.next, a[1..]), Replies(catalogue, ModeAfter(catalogue, mode, a), b));
    }
  }

  /** In every run of the two processes, the bytes of what the server process has sent are a prefix of what the
      byte-level server owes for the bytes of what the client process has sent; and all of it whenever the server
      process has taken everything and owes no reply. The client's frames are to fit the server's ring. */
  lemma {:induction false} RunsOweTheirBytes(catalogue: Catalogue, c: SP.Config, steps: seq<SP.Step>, cap: nat)
    requires forall f :: c.accepts(f) <==> HandlerFor(catalogue, f).Some?
    requires forall i :: 0 <= i < |RunOf(c, steps).up| ==> Fits(FrameReader, AsItem(RunOf(c, steps).up[i]), cap)
    ensures var h := RunOf(c, steps);
            var owed := Owed(catalogue, Idle, EncodeFrames(h.up), cap);
            && EncodeFrames(h.down) <= owed
            && (h.s.toServer == [] && Owing(h.s.server) == [] ==> EncodeFrames(h.down) == owed)
  {
    var h := RunOf(c, steps);
    var taken := EveryRunKeeps(catalogue, c, steps);
    OwedForFrames(catalogue, Idle, h.up, cap);
    RepliesBoth(catalogue, Idle, taken, h.s.toServer);
    FirstPart(Replies(catalogue, Idle, h.up), h.down, Owing(h.s.server),
              Replies(catalogue, Heading(h.s.server), h.s.toServer));
  }

  lemma {:induction false} FirstPart(all: seq<Frame>, a: seq<Frame>, b: seq<Frame>, c: seq<Frame>)
    requires all == a + b + c
    ensures EncodeFrames(a) <= EncodeFrames(all) && (b == [] && c == [] ==> EncodeFrames(a) == EncodeFrames(all))
  {
    assert all == a + (b + c);
    EncodeBoth(a, b + c);
    assert b == [] && c == [] ==> all == a;
  }
}

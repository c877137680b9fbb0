/**
 Gather lists and `RpcWritevMachine` (galay-rpc/kernel/rpc_await.h:38-65, 189-276, 356-421; the write states of
 galay-rpc/kernel/rpc_conn.h:515-649 and galay-rpc/kernel/rpc_stream.h:450-574).
 */
module WriteMachine {
  import opened Wire
  import opened Codec
  import opened Memory
  import opened Ring
  import opened Net
  import opened ZeroCopy

  predicate NoEmpty(iovs: seq<Iovec>) { forall i :: 0 <= i < |iovs| ==> Len(iovs[i]) > 0 }

  // ---- Building gather lists --------------------------------------------------------------------------

  lemma {:induction false} GatherSnoc(mem: Bytes, iovs: seq<Iovec>, v: Iovec)
    requires AllInBounds(iovs, mem) && InBounds(v, mem)
    ensures AllInBounds(iovs + [v], mem) && Gather(mem, iovs + [v]) == Gather(mem, iovs) + Load(mem, v)
  {
    if iovs == [] {
      assert iovs + [v] == [v] && [v][1..] == [];
    } else {
      assert (iovs + [v])[1..] == iovs[1..] + [v] && (iovs + [v])[0] == iovs[0];
      GatherSnoc(mem, iovs[1..], v);
      assert Gather(mem, iovs + [v]) == Load(mem, iovs[0]) + (Gather(mem, iovs[1..]) + Load(mem, v));
    }
  }

  /** Appends a vector unless it is empty. */
  method Push(iovs: seq<Iovec>, v: Iovec, ghost mem: Bytes) returns (r: seq<Iovec>)
    requires AllInBounds(iovs, mem) && InBounds(v, mem) && NoEmpty(iovs)
    ensures AllInBounds(r, mem) && NoEmpty(r) && Gather(mem, r) == Gather(mem, iovs) + Load(mem, v)
  {
    if Len(v) == 0 {
      return iovs;
    }
    GatherSnoc(mem, iovs, v);
    r := iovs + [v];
  }

  method PushView(iovs: seq<Iovec>, view: PayloadView, ghost mem: Bytes) returns (r: seq<Iovec>)
    requires AllInBounds(iovs, mem) && ViewInBounds(view, mem) && NoEmpty(iovs)
    ensures AllInBounds(r, mem) && NoEmpty(r) && Gather(mem, r) == Gather(mem, iovs) + LoadView(mem, view)
  {
    r := Push(iovs, view.seg1, mem);
    r := Push(r, view.seg2, mem);
  }

  method PushName(iovs: seq<Iovec>, name: Bytes, ghost mem: Bytes) returns (r: seq<Iovec>)
    requires AllInBounds(iovs, mem) && NoEmpty(iovs)
    ensures AllInBounds(r, mem) && NoEmpty(r) && Gather(mem, r) == Gather(mem, iovs) + EncodeName(name)
  {
    r := Push(iovs, Own(Be16(|name| % 0x1_0000)), mem);
    r := Push(r, Own(name), mem);
  }

  /** `RpcRequestWriteState::rebuildIovecs`: a gather list that borrows the payload and denotes, without any empty
      vector, what `serialize()` would write. */
  method RequestIovecs(m: Message, ghost mem: Bytes) returns (iovs: seq<Iovec>)
    requires m.RequestMsg? && PayloadInBounds(m.payload, mem)
    ensures AllInBounds(iovs, mem) && NoEmpty(iovs) && Gather(mem, iovs) == EncodeItem(ItemOf(mem, m))
  {
    iovs := Push([], Own(EncodeHeader(RequestHeader(m))), mem);
    iovs := PushName(iovs, m.service, mem);
    iovs := PushName(iovs, m.method_, mem);
    iovs := PushView(iovs, ViewOf(m.payload), mem);
    RequestWire(mem, m);
  }

  /** `RpcResponseWriteState::rebuildIovecs`. */
  method ResponseIovecs(m: Message, ghost mem: Bytes) returns (iovs: seq<Iovec>)
    requires m.ResponseMsg? && PayloadInBounds(m.payload, mem)
    ensures AllInBounds(iovs, mem) && NoEmpty(iovs) && Gather(mem, iovs) == EncodeItem(ItemOf(mem, m))
  {
    iovs := Push([], Own(EncodeHeader(ResponseHeader(m))), mem);
    iovs := Push(iovs, Own(Be16(m.code)), mem);
    iovs := PushView(iovs, ViewOf(m.payload), mem);
    ResponseWire(mem, m);
  }

  /** `StreamFrameWriteState` for control and data frames: a header, then the payload if there is one. */
  method FrameIovecs(m: Message, ghost mem: Bytes) returns (iovs: seq<Iovec>)
    requires m.FrameMsg? && PayloadInBounds(m.payload, mem)
    ensures AllInBounds(iovs, mem) && NoEmpty(iovs) && Gather(mem, iovs) == EncodeItem(ItemOf(mem, m))
  {
    iovs := Push([], Own(EncodeHeader(FrameHeader(m))), mem);
    iovs := PushView(iovs, ViewOf(m.payload), mem);
    FrameWire(mem, m);
  }

  /** `StreamFrameWriteState` for a STREAM_INIT frame. */
  method InitIovecs(id: U32, service: Bytes, method_: Bytes, ghost mem: Bytes) returns (iovs: seq<Iovec>)
    ensures AllInBounds(iovs, mem) && NoEmpty(iovs)
    ensures Gather(mem, iovs) == EncodeFrame(STREAM_INIT, id, EncodeInitBody(service, method_))
  {
    iovs := Push([], Own(EncodeHeader(InitHeader(id, service, method_))), mem);
    iovs := PushName(iovs, service, mem);
    iovs := PushName(iovs, method_, mem);
    InitWire(id, service, method_);
  }

  // ---- Consuming them ----------------------------------------------------------------------------------

  /** `consumeWritevIovecs`: the list that remains denotes exactly the bytes not yet written, and gains no empty
      vector. */
  method ConsumeWritevIovecs(iovs: seq<Iovec>, written: nat, ghost mem: Bytes) returns (r: seq<Iovec>)
    requires AllInBounds(iovs, mem)
    ensures AllInBounds(r, mem) && Gather(mem, r) == After(Gather(mem, iovs), written)
    ensures NoEmpty(iovs) ==> NoEmpty(r)
  {
    if written == 0 || iovs == [] {
      return iovs;
    }
    var idx, consumed: nat := 0, written;
    assert iovs[0..] == iovs;
    while idx < |iovs| && consumed >= Len(iovs[idx])
      invariant idx <= |iovs|
      invariant After(Gather(mem, iovs[idx..]), consumed) == After(Gather(mem, iovs), written)
    {
      AfterGather(mem, iovs, idx, consumed);
      consumed := consumed - Len(iovs[idx]);
      idx := idx + 1;
    }
    if idx >= |iovs| {
      return [];
    }
    AfterGather(mem, iovs, idx, consumed);
    AdvanceLoads(mem, iovs[idx], consumed);
    r := [Advance(iovs[idx], consumed)] + iovs[idx + 1..];
    assert r[1..] == iovs[idx + 1..];
  }

  lemma {:induction false} Rejoin(out: Bytes, offered: Bytes, n: nat)
    requires n <= |offered|
    ensures out + offered[..n] + offered[n..] == out + offered
  {
  }

  // ---- The machine --------------------------------------------------------------------------------------

  datatype WriteResult = Sent | SendFailed(code: U16)
  datatype Action = Complete(result: WriteResult) | WaitWritev(iovs: seq<Iovec>)

  class Machine {
    var iovecs: seq<Iovec>
    var result: Option<WriteResult>

    constructor (iovecs: seq<Iovec>)
      ensures this.iovecs == iovecs && result.None?
    {
      this.iovecs, this.result := iovecs, None;
    }

    /** `advance`: finished as soon as nothing is left to write. */
    method Advance() returns (a: Action)
      modifies `result
      ensures a == if old(result).Some? then Complete(old(result).value)
                   else if iovecs == [] then Complete(Sent) else WaitWritev(iovecs)
      ensures result == if a.Complete? then Some(a.result) else None
    {
      if result.Some? {
        return Complete(result.value);
      }
      if iovecs == [] {
        result := Some(Sent);
        return Complete(Sent);
      }
      a := WaitWritev(iovecs);
    }

    /** `onWrite`: an error and a zero-byte write both fail the send. */
    method OnWrite(written: Transfer, ghost mem: Bytes)
      requires AllInBounds(iovecs, mem)
      modifies this
      ensures AllInBounds(iovecs, mem) && (old(NoEmpty(iovecs)) ==> NoEmpty(iovecs))
      ensures written.IoError? ==> result == Some(SendFailed(written.code)) && iovecs == old(iovecs)
      ensures written == Move(0) ==> result == Some(SendFailed(INTERNAL_ERROR)) && iovecs == old(iovecs)
      ensures written.Move? && written.amount > 0 ==>
                && Gather(mem, iovecs) == After(old(Gather(mem, iovecs)), written.amount)
                && result == if iovecs == [] then Some(Sent) else old(result)
    {
      if written.IoError? {
        result := Some(SendFailed(written.code));
      } else if written.amount == 0 {
        result := Some(SendFailed(INTERNAL_ERROR));
      } else {
        iovecs := ConsumeWritevIovecs(iovecs, written.amount, mem);
        if iovecs == [] {
          result := Some(Sent);
        }
      }
    }

    /** One `writev`: the kernel fetches a positive part of the offered bytes from memory, and the machine is told. */
    method Transmit(socket: Socket, ring: RingBuffer, iovs: seq<Iovec>, amount: nat)
      requires AllInBounds(iovecs, ring.Mem()) && NoEmpty(iovecs) && iovs == iovecs != [] && result.None?
      modifies this, socket`outgoing
      ensures AllInBounds(iovecs, ring.Mem()) && NoEmpty(iovecs)
      ensures var whole := old(Gather(ring.Mem(), iovecs));
              && old(socket.outgoing) < socket.outgoing && |whole| > 0
              && |socket.outgoing| == |old(socket.outgoing)| + Share(amount, |whole|)
      ensures socket.outgoing + Gather(ring.Mem(), iovecs) == old(socket.outgoing + Gather(ring.Mem(), iovecs))
      ensures result == if iovecs == [] then Some(Sent) else None
    {
      var offered := Gather(ring.Mem(), iovs);
      var n := Share(amount, |offered|);
      Rejoin(socket.outgoing, offered, n);
      OnWrite(Move(n), ring.Mem());
      socket.outgoing := socket.outgoing + offered[..n];
    }

    /** One `advance` and the write it asks for, if any. */
    method Round(socket: Socket, ring: RingBuffer) returns (r: Option<WriteResult>)
      requires result.None? && AllInBounds(iovecs, ring.Mem()) && NoEmpty(iovecs)
      modifies this, socket`outgoing, socket`writeCount
      ensures AllInBounds(iovecs, ring.Mem()) && NoEmpty(iovecs)
      ensures var whole := old(Gather(ring.Mem(), iovecs));
              var rest := Gather(ring.Mem(), iovecs);
              var d := Deliver(socket.writePlan, old(socket.writeCount), |whole|);
              && socket.outgoing + rest == old(socket.outgoing) + whole
              && (r.Some? ==> |rest| == |whole| - d.bytes && socket.writeCount == d.writes && (r.value.Sent? <==> d.ok))
              && (r.Some? && r.value.SendFailed? ==>
                    socket.writeCount > 0 && r.value.code == RefusalCode(socket.writePlan(socket.writeCount - 1)))
              && (r.None? ==> result.None? && |rest| < |whole|
                              && Remains(d, |whole|, Deliver(socket.writePlan, socket.writeCount, |rest|), |rest|))
    {
      var a := Advance();
      if a.Complete? {
        return Some(a.result);
      }
      var transfer := socket.writePlan(socket.writeCount);
      socket.writeCount := socket.writeCount + 1;
      ghost var offered := |Gather(ring.Mem(), iovecs)|;
      OneWrite(socket.writePlan, socket.writeCount - 1, offered);
      if Refuses(transfer) {
        OnWrite(transfer, ring.Mem());
      } else {
        Transmit(socket, ring, a.iovs, transfer.amount - 1);
      }
      if result.None? {
        return None;
      }
      a := Advance();
      r := Some(a.result);
    }

    /** `co_await` of this send, the kernel accepting any positive part of what is offered, or failing, at each step.
        The bytes of borrowed payloads are fetched from ring memory only now, write by write.

        What goes out is always a prefix of the message, all of it exactly when the send succeeds, and otherwise as much
        as the kernel took before it refused, with the code of that refusal. */
    method Send(socket: Socket, ring: RingBuffer) returns (r: WriteResult)
      requires result.None? && AllInBounds(iovecs, ring.Mem()) && NoEmpty(iovecs)
      modifies this, socket`outgoing, socket`writeCount
      ensures var whole := old(Gather(ring.Mem(), iovecs));
              var d := Deliver(socket.writePlan, old(socket.writeCount), |whole|);
              && socket.outgoing == old(socket.outgoing) + whole[..d.bytes] && socket.writeCount == d.writes
              && (r.Sent? <==> d.ok)
      ensures r.SendFailed? ==>
                socket.writeCount > 0 && r.code == RefusalCode(socket.writePlan(socket.writeCount - 1))
    {
      ghost var whole := Gather(ring.Mem(), iovecs);
      ghost var d := Deliver(socket.writePlan, socket.writeCount, |whole|);
      while true
        invariant result.None? && AllInBounds(iovecs, ring.Mem()) && NoEmpty(iovecs)
        invariant socket.outgoing + Gather(ring.Mem(), iovecs) == old(socket.outgoing) + whole
        invariant Remains(d, |whole|, Deliver(socket.writePlan, socket.writeCount, |Gather(ring.Mem(), iovecs)|),
                          |Gather(ring.Mem(), iovecs)|)
        decreases |Gather(ring.Mem(), iovecs)|
      {
        var done := Round(socket, ring);
        if done.Some? {
          SentSoFar(old(socket.outgoing), whole, socket.outgoing, Gather(ring.Mem(), iovecs));
          return done.value;
        }
      }
    }
  }

  /** With `rest` bytes still to go, `later` is what remains of the delivery `d` of `all` bytes. */
  ghost predicate Remains(d: Delivery, all: nat, later: Delivery, rest: nat) {
    all - d.bytes == rest - later.bytes && d.writes == later.writes && d.ok == later.ok
  }

  /** A refused write ends the delivery; another one leaves the rest of it. */
  lemma {:induction false} OneWrite(plan: nat -> Transfer, from: nat, len: nat)
    requires len > 0
    ensures var d := Deliver(plan, from, len);
            if Refuses(plan(from)) then d == Delivery(0, from + 1, false)
            else
              var rest := len - Share(plan(from).amount - 1, len);
              Remains(d, len, Deliver(plan, from + 1, rest), rest)
              && (rest == 0 ==> d == Delivery(len, from + 1, true))
  {
  }

  lemma {:induction false} SentSoFar(before: Bytes, whole: Bytes, out: Bytes, rest: Bytes)
    requires out + rest == before + whole
    ensures |rest| <= |whole| ==> out == before + whole[..|whole| - |rest|]
  {
    if |rest| <= |whole| {
      var n := |whole| - |rest|;
      assert before + whole == before + whole[..n] + whole[n..];
      assert out == (out + rest)[..|out|] && before + whole[..n] == (before + whole)[..|out|];
    }
  }

  lemma {:induction false} PartOf(before: Bytes, whole: Bytes, n: nat)
    requires n <= |whole|
    ensures before <= before + whole[..n] <= before + whole
    ensures before + whole[..n] == before + whole <==> n == |whole|
  {
    assert whole == whole[..n] + whole[n..];
    assert before + whole == before + whole[..n] + whole[n..];
  }

  lemma {:induction false} NeverRefused(plan: nat -> Transfer, from: nat, len: nat)
    requires NeverRefuses(plan)
    ensures Deliver(plan, from, len).ok
    decreases len
  {
    if len > 0 { NeverRefused(plan, from + 1, len - Share(plan(from).amount - 1, len)); }
  }

  /** Sends one message: the borrowed bytes are fetched from the ring only while sending. */
  method SendMessage(ring: RingBuffer, socket: Socket, m: Message) returns (r: WriteResult)
    requires PayloadInBounds(m.payload, ring.Mem())
    modifies socket`outgoing, socket`writeCount
    ensures var wire := EncodeItem(ItemOf(ring.Mem(), m));
            && old(socket.outgoing) <= socket.outgoing <= old(socket.outgoing) + wire
            && (r.Sent? <==> socket.outgoing == old(socket.outgoing) + wire)
    ensures NeverRefuses(socket.writePlan) ==> r.Sent?
    ensures var wire := EncodeItem(ItemOf(ring.Mem(), m));
            var d := Deliver(socket.writePlan, old(socket.writeCount), |wire|);
            && socket.outgoing == old(socket.outgoing) + wire[..d.bytes] && socket.writeCount == d.writes
            && (r.Sent? <==> d.ok)
    ensures r.SendFailed? ==>
              socket.writeCount > 0 && r.code == RefusalCode(socket.writePlan(socket.writeCount - 1))
  {
    var iovs;
    match m {
      case RequestMsg(_, _, _, _, _, _) => iovs := RequestIovecs(m, ring.Mem());
      case ResponseMsg(_, _, _, _, _) => iovs := ResponseIovecs(m, ring.Mem());
      case FrameMsg(_, _, _) => iovs := FrameIovecs(m, ring.Mem());
    }
    var machine := new Machine(iovs);
    r := machine.Send(socket, ring);
    ghost var wire := EncodeItem(ItemOf(ring.Mem(), m));
    PartOf(old(socket.outgoing), wire, Deliver(socket.writePlan, old(socket.writeCount), |wire|).bytes);
    if NeverRefuses(socket.writePlan) { NeverRefused(socket.writePlan, old(socket.writeCount), |wire|); }
  }
}

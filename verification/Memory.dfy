/**
 Scatter/gather lists, borrowed payload views, and messages whose payload is owned or borrowed
 (galay-rpc/kernel/rpc_conn.h:45-142 and the payload parts of galay-rpc/protoc/rpc_message.h).

 The only memory that is shared and overwritten while messages refer to it is the connection's ring buffer. A vector
 therefore either points into that memory, whose current contents are passed as `mem`, or into storage that its owner
 leaves alone (a header, a name, an owned payload), which is represented by its bytes.
 */
module Memory {
  import opened Wire
  import opened Codec

  // ---- I/O vectors ----------------------------------------------------------------------------

  /** `struct iovec`. */
  datatype Iovec = InRing(off: nat, len: nat) | Own(data: Bytes)

  const NoBytes := Own([])

  function Len(v: Iovec): nat { if v.InRing? then v.len else |v.data| }

  predicate InBounds(v: Iovec, mem: Bytes) { v.InRing? ==> v.off + v.len <= |mem| }

  function Load(mem: Bytes, v: Iovec): (b: Bytes)
    requires InBounds(v, mem)
    ensures |b| == Len(v)
  {
    if v.InRing? then mem[v.off..v.off + v.len] else v.data
  }

  predicate AllInBounds(iovs: seq<Iovec>, mem: Bytes) { forall i :: 0 <= i < |iovs| ==> InBounds(iovs[i], mem) }

  /** The bytes a list of vectors denotes, in order. */
  function Gather(mem: Bytes, iovs: seq<Iovec>): Bytes
    requires AllInBounds(iovs, mem)
  {
    if iovs == [] then [] else Load(mem, iovs[0]) + Gather(mem, iovs[1..])
  }

  /** `iovecsReadableBytes`. */
  method ReadableBytes(mem: Bytes, iovs: seq<Iovec>) returns (total: nat)
    requires AllInBounds(iovs, mem)
    ensures total == |Gather(mem, iovs)|
  {
    total := 0;
    assert iovs[0..] == iovs;
    for i := 0 to |iovs|
      invariant total + |Gather(mem, iovs[i..])| == |Gather(mem, iovs)|
    {
      assert iovs[i..][1..] == iovs[i + 1..];
      total := total + Len(iovs[i]);
    }
  }

  /** The part of a vector that starts `n` bytes in. */
  function Advance(v: Iovec, n: nat): Iovec
    requires n <= Len(v)
  {
    if v.InRing? then InRing(v.off + n, v.len - n) else Own(v.data[n..])
  }

  /** The first `n` bytes of a vector. */
  function Front(v: Iovec, n: nat): Iovec
    requires n <= Len(v)
  {
    if v.InRing? then InRing(v.off, n) else Own(v.data[..n])
  }

  lemma {:induction false} AdvanceLoads(mem: Bytes, v: Iovec, n: nat)
    requires InBounds(v, mem) && n <= Len(v)
    ensures InBounds(Advance(v, n), mem) && Len(Advance(v, n)) == Len(v) - n
    ensures Load(mem, Advance(v, n)) == Load(mem, v)[n..]
  {
    if v.InRing? { SliceOfSlice(mem, v.off, v.off + v.len, n, v.len); }
  }

  lemma {:induction false} FrontLoads(mem: Bytes, v: Iovec, n: nat)
    requires InBounds(v, mem) && n <= Len(v)
    ensures InBounds(Front(v, n), mem) && Len(Front(v, n)) == n
    ensures Load(mem, Front(v, n)) == Load(mem, v)[..n]
  {
    if v.InRing? { SliceOfSlice(mem, v.off, v.off + v.len, 0, n); }
  }

  // ---- The copying loops --------------------------------------------------------------------------

  /** What is left of `s` after skipping `n` bytes. */
  function After(s: Bytes, n: nat): Bytes { if n <= |s| then s[n..] else [] }

  /** One round: vector `i` is either skipped whole or contributes what it holds from `offset` on. */
  lemma {:induction false} AfterGather(mem: Bytes, iovs: seq<Iovec>, i: nat, offset: nat)
    requires i < |iovs| && AllInBounds(iovs, mem)
    ensures offset >= Len(iovs[i]) ==>
              After(Gather(mem, iovs[i..]), offset) == After(Gather(mem, iovs[i + 1..]), offset - Len(iovs[i]))
    ensures offset < Len(iovs[i]) ==>
              After(Gather(mem, iovs[i..]), offset) == Load(mem, iovs[i])[offset..] + Gather(mem, iovs[i + 1..])
  {
    assert iovs[i..][1..] == iovs[i + 1..];
    var v, rest := Load(mem, iovs[i]), Gather(mem, iovs[i + 1..]);
    if offset >= |v| {
      assert offset <= |v + rest| ==> (v + rest)[offset..] == rest[offset - |v|..];
    } else {
      assert (v + rest)[offset..] == v[offset..] + rest;
    }
  }

  lemma {:induction false} TakePiece(out: Bytes, whole: Bytes, rest: Bytes, take: nat)
    requires take <= |whole|
    ensures out + whole[..take] <= out + (whole + rest)
    ensures take == |whole| ==> out + (whole + rest) == out + whole[..take] + After(rest, 0)
  {
    assert whole == whole[..take] + whole[take..];
    assert out + (whole + rest) == out + whole[..take] + (whole[take..] + rest);
  }

  lemma {:induction false} Copied(all: Bytes, srcOffset: nat, bytes: nat, out: Bytes)
    requires |out| == bytes > 0 && out <= After(all, srcOffset)
    ensures srcOffset + bytes <= |all| && out == all[srcOffset..srcOffset + bytes]
  {
    assert After(all, srcOffset)[..bytes] == all[srcOffset..][..bytes];
  }

  /** `copyFromIovecs`: the bytes asked for, or failure exactly when the range runs past the end. */
  method CopyFromIovecs(mem: Bytes, iovs: seq<Iovec>, srcOffset: nat, bytes: nat) returns (ok: bool, out: Bytes)
    requires AllInBounds(iovs, mem)
    ensures ok <==> bytes == 0 || srcOffset + bytes <= |Gather(mem, iovs)|
    ensures ok && bytes == 0 ==> out == []
    ensures ok && bytes > 0 ==> out == Gather(mem, iovs)[srcOffset..srcOffset + bytes]
  {
    out := [];
    var offset: nat, i := srcOffset, 0;
    ghost var want := After(Gather(mem, iovs), srcOffset);
    assert iovs[0..] == iovs;
    while i < |iovs| && |out| < bytes
      invariant i <= |iovs| && |out| <= bytes && out <= want
      invariant |out| < bytes ==> want == out + After(Gather(mem, iovs[i..]), offset)
    {
      AfterGather(mem, iovs, i, offset);
      var v := iovs[i];
      if offset >= Len(v) {
        offset := offset - Len(v);
      } else {
        var take := Min(Len(v) - offset, bytes - |out|);
        TakePiece(out, Load(mem, v)[offset..], Gather(mem, iovs[i + 1..]), take);
        out := out + Load(mem, v)[offset..][..take];
        offset := 0;
      }
      i := i + 1;
    }
    ok := |out| == bytes;
    if ok && bytes > 0 { Copied(Gather(mem, iovs), srcOffset, bytes, out); }
  }

  // ---- Payload views ---------------------------------------------------------------------------

  /** `RpcPayloadView`: at most two borrowed segments. */
  datatype PayloadView = PayloadView(seg1: Iovec, seg2: Iovec)

  const EmptyView := PayloadView(NoBytes, NoBytes)

  predicate ViewInBounds(view: PayloadView, mem: Bytes) { InBounds(view.seg1, mem) && InBounds(view.seg2, mem) }

  function ViewSize(view: PayloadView): nat { Len(view.seg1) + Len(view.seg2) }

  function LoadView(mem: Bytes, view: PayloadView): (b: Bytes)
    requires ViewInBounds(view, mem)
    ensures |b| == ViewSize(view)
  {
    Load(mem, view.seg1) + Load(mem, view.seg2)
  }

  /** The first free segment takes the new piece. */
  function ExtendView(view: PayloadView, segment: Iovec): PayloadView {
    if Len(view.seg1) == 0 then view.(seg1 := segment) else view.(seg2 := segment)
  }

  function Filled(view: PayloadView): nat {
    (if Len(view.seg1) > 0 then 1 else 0) + (if Len(view.seg2) > 0 then 1 else 0)
  }

  /** The piece of `v` that one round takes, and what adding it does to the view. */
  lemma {:induction false} ExtendLoads(mem: Bytes, view: PayloadView, v: Iovec, offset: nat, take: nat)
    requires ViewInBounds(view, mem) && InBounds(v, mem) && Len(view.seg2) == 0 && take > 0 && offset + take <= Len(v)
    ensures var view' := ExtendView(view, Front(Advance(v, offset), take));
            && ViewInBounds(view', mem) && Filled(view') == Filled(view) + 1 && Len(view'.seg1) > 0
            && LoadView(mem, view') == LoadView(mem, view) + Load(mem, v)[offset..][..take]
  {
    AdvanceLoads(mem, v, offset);
    FrontLoads(mem, Advance(v, offset), take);
    var piece := Load(mem, v)[offset..][..take];
    assert Load(mem, view.seg2) == [] && piece + [] == piece;
    assert Len(view.seg1) == 0 ==> Load(mem, view.seg1) == [] && [] + piece == piece;
    assert Len(view.seg1) > 0 ==> Load(mem, view.seg1) + [] + piece == Load(mem, view.seg1) + piece;
  }

  /** How many vectors contribute to the range of `n` bytes that starts `offset` bytes into vector `i`. */
  function Pieces(iovs: seq<Iovec>, i: nat, offset: nat, n: nat): (p: nat)
    requires i <= |iovs|
    ensures p <= |iovs| - i
    decreases |iovs| - i
  {
    if i == |iovs| || n == 0 then 0
    else if offset >= Len(iovs[i]) then Pieces(iovs, i + 1, offset - Len(iovs[i]), n)
    else 1 + Pieces(iovs, i + 1, 0, n - Min(Len(iovs[i]) - offset, n))
  }

  /** How far the collecting loop has come: what the view denotes, what is still to come, and in how many pieces. */
  ghost predicate Collecting(mem: Bytes, iovs: seq<Iovec>, srcOffset: nat, bytes: nat, i: nat, offset: nat,
                             view: PayloadView)
    requires AllInBounds(iovs, mem)
  {
    var want := After(Gather(mem, iovs), srcOffset);
    && i <= |iovs| && ViewInBounds(view, mem) && ViewSize(view) <= bytes
    && (Len(view.seg1) == 0 ==> Len(view.seg2) == 0)
    && LoadView(mem, view) <= want
    && (ViewSize(view) < bytes ==> want == LoadView(mem, view) + After(Gather(mem, iovs[i..]), offset))
    && Pieces(iovs, 0, srcOffset, bytes) == Filled(view) + Pieces(iovs, i, offset, bytes - ViewSize(view))
  }

  lemma {:induction false} SkipRound(mem: Bytes, iovs: seq<Iovec>, srcOffset: nat, bytes: nat, i: nat, offset: nat,
                                     view: PayloadView)
    requires AllInBounds(iovs, mem) && Collecting(mem, iovs, srcOffset, bytes, i, offset, view)
    requires i < |iovs| && ViewSize(view) < bytes && offset >= Len(iovs[i])
    ensures Collecting(mem, iovs, srcOffset, bytes, i + 1, offset - Len(iovs[i]), view)
  {
    AfterGather(mem, iovs, i, offset);
  }

  /** What taking a piece of vector `i` does to the view. */
  lemma {:induction false} ViewRound(mem: Bytes, iovs: seq<Iovec>, i: nat, offset: nat, view: PayloadView, want: Bytes,
                                     take: nat)
    requires AllInBounds(iovs, mem) && i < |iovs| && take > 0 && offset + take <= Len(iovs[i])
    requires ViewInBounds(view, mem) && Len(view.seg2) == 0
    requires want == LoadView(mem, view) + After(Gather(mem, iovs[i..]), offset)
    ensures var view' := ExtendView(view, Front(Advance(iovs[i], offset), take));
            && ViewInBounds(view', mem) && Filled(view') == Filled(view) + 1 && Len(view'.seg1) > 0
            && ViewSize(view') == ViewSize(view) + take && LoadView(mem, view') <= want
            && (offset + take == Len(iovs[i]) ==> want == LoadView(mem, view') + After(Gather(mem, iovs[i + 1..]), 0))
  {
    AfterGather(mem, iovs, i, offset);
    TakePiece(LoadView(mem, view), Load(mem, iovs[i])[offset..], Gather(mem, iovs[i + 1..]), take);
    ExtendLoads(mem, view, iovs[i], offset, take);
  }

  /** A round that takes a piece of vector `i`. */
  lemma {:induction false} TakeRound(mem: Bytes, iovs: seq<Iovec>, srcOffset: nat, bytes: nat, i: nat, offset: nat,
                                     view: PayloadView,
                                     take: nat, view': PayloadView)
    requires AllInBounds(iovs, mem) && Collecting(mem, iovs, srcOffset, bytes, i, offset, view)
    requires i < |iovs| && ViewSize(view) < bytes && offset < Len(iovs[i]) && Len(view.seg2) == 0
    requires take == Min(Len(iovs[i]) - offset, bytes - ViewSize(view))
    requires view' == ExtendView(view, Front(Advance(iovs[i], offset), take))
    ensures Collecting(mem, iovs, srcOffset, bytes, i + 1, 0, view') && ViewSize(view') == ViewSize(view) + take
  {
    ViewRound(mem, iovs, i, offset, view, After(Gather(mem, iovs), srcOffset), take);
  }

  /** `payloadViewFromIovecs`: a view of exactly the bytes asked for, or failure exactly when the range runs past the
      end or lies in more than two vectors. */
  method PayloadViewFromIovecs(mem: Bytes, iovs: seq<Iovec>, srcOffset: nat, bytes: nat)
    returns (ok: bool, view: PayloadView)
    requires AllInBounds(iovs, mem)
    ensures ViewInBounds(view, mem)
    ensures ok <==> bytes == 0 || (srcOffset + bytes <= |Gather(mem, iovs)| && Pieces(iovs, 0, srcOffset, bytes) <= 2)
    ensures ok && bytes == 0 ==> LoadView(mem, view) == []
    ensures ok && bytes > 0 ==> LoadView(mem, view) == Gather(mem, iovs)[srcOffset..srcOffset + bytes]
  {
    view := EmptyView;
    if bytes == 0 {
      return true, view;
    }
    var tooMany;
    tooMany, view := CollectView(mem, iovs, srcOffset, bytes);
    ok := !tooMany && ViewSize(view) == bytes;
    if ok { Copied(Gather(mem, iovs), srcOffset, bytes, LoadView(mem, view)); }
  }

  /** The loop of `payloadViewFromIovecs`: takes pieces until it has enough bytes, runs out of vectors, or would need a
      third segment. */
  method CollectView(mem: Bytes, iovs: seq<Iovec>, srcOffset: nat, bytes: nat)
    returns (tooMany: bool, view: PayloadView)
    requires AllInBounds(iovs, mem) && bytes > 0
    ensures ViewInBounds(view, mem) && (tooMany <==> Pieces(iovs, 0, srcOffset, bytes) > 2)
    ensures LoadView(mem, view) <= After(Gather(mem, iovs), srcOffset)
    ensures !tooMany ==> ViewSize(view) == bytes || |After(Gather(mem, iovs), srcOffset)| == ViewSize(view) < bytes
  {
    view := EmptyView;
    var offset, remaining := srcOffset, bytes;
    assert iovs[0..] == iovs;
    tooMany := false;
    for i := 0 to |iovs|
      invariant Collecting(mem, iovs, srcOffset, bytes, i, offset, view) && remaining == bytes - ViewSize(view)
    {
      if remaining == 0 {
        return;
      }
      tooMany, offset, remaining, view := CollectRound(mem, iovs, srcOffset, bytes, i, offset, remaining, view);
      if tooMany {
        return;
      }
    }
  }

  /** One of its rounds: vector `i` is skipped whole, or contributes what it has from `offset` on. */
  method CollectRound(mem: Bytes, iovs: seq<Iovec>, ghost srcOffset: nat, ghost bytes: nat, i: nat, offset: nat,
                      remaining: nat,
                      view: PayloadView)
    returns (tooMany: bool, offset': nat, remaining': nat, view': PayloadView)
    requires AllInBounds(iovs, mem) && i < |iovs| && Collecting(mem, iovs, srcOffset, bytes, i, offset, view)
    requires remaining == bytes - ViewSize(view) > 0
    ensures tooMany ==> view' == view && Pieces(iovs, 0, srcOffset, bytes) > 2
    ensures var goesOn := Collecting(mem, iovs, srcOffset, bytes, i + 1, offset', view');
            !tooMany ==> goesOn && remaining' == bytes - ViewSize(view')
  {
    var v := iovs[i];
    if offset >= Len(v) {
      SkipRound(mem, iovs, srcOffset, bytes, i, offset, view);
      return false, offset - Len(v), remaining, view;
    }
    if Len(view.seg2) > 0 {
      return true, offset, remaining, view;
    }
    var take := Min(Len(v) - offset, remaining);
    tooMany, offset', remaining' := false, 0, remaining - take;
    view' := ExtendView(view, Front(Advance(v, offset), take));
    TakeRound(mem, iovs, srcOffset, bytes, i, offset, view, take, view');
  }

  // ---- Payloads and messages ---------------------------------------------------------------------

  /** A message's payload: its own bytes, or a view of memory that belongs to somebody else. */
  datatype Payload = Owned(data: Bytes) | Borrowed(view: PayloadView)

  /** `payloadView()`. */
  function ViewOf(p: Payload): PayloadView {
    match p
    case Owned(data) => PayloadView(Own(data), NoBytes)
    case Borrowed(view) => view
  }

  predicate PayloadInBounds(p: Payload, mem: Bytes) { ViewInBounds(ViewOf(p), mem) }

  function PayloadBytes(mem: Bytes, p: Payload): Bytes
    requires PayloadInBounds(p, mem)
  {
    LoadView(mem, ViewOf(p))
  }

  /** `materializePayloadIfNeeded`: the same bytes, but owned, so that no later write to the ring can change them. */
  method Materialize(mem: Bytes, p: Payload) returns (q: Payload)
    requires PayloadInBounds(p, mem)
    ensures q.Owned?
    ensures forall later: Bytes :: PayloadBytes(later, q) == PayloadBytes(mem, p)
  {
    if p.Owned? {
      return p;
    }
    q := Owned(Load(mem, p.view.seg1) + Load(mem, p.view.seg2));
  }

  datatype Message =
    | RequestMsg(id: U32, mode: CallMode, end: bool, service: Bytes, method_: Bytes, payload: Payload)
    | ResponseMsg(id: U32, mode: CallMode, end: bool, code: U16, payload: Payload)
    | FrameMsg(typ: Byte, id: U32, payload: Payload)

  /** The value a message denotes while the ring memory holds `mem`. */
  function ItemOf(mem: Bytes, m: Message): Item
    requires PayloadInBounds(m.payload, mem)
  {
    match m
    case RequestMsg(id, mode, end, service, method_, payload) =>
      RequestItem(Request(id, mode, end, service, method_, PayloadBytes(mem, payload)))
    case ResponseMsg(id, mode, end, code, payload) =>
      ResponseItem(Response(id, mode, end, code, PayloadBytes(mem, payload)))
    case FrameMsg(typ, id, payload) => FrameItem(typ, id, PayloadBytes(mem, payload))
  }
}

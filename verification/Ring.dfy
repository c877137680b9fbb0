/**
 The connection's ring buffer. Its implementation lives in galay-kernel; this is the contract the readers rely on:
 a fixed array, at most two vectors per window, `produce` and `consume` that only move indices.
 */
module Ring {
  import opened Wire
  import opened Memory

  function Wrap(cap: nat, i: nat): nat
    requires i < 2 * cap
  {
    if i < cap then i else i - cap
  }

  /** The `n` bytes that start at index `start` and wrap around the end of the memory. */
  function Ringed(mem: Bytes, start: nat, n: nat): (b: Bytes)
    requires start < |mem| && n <= |mem|
    ensures |b| == n && forall i :: 0 <= i < n ==> b[i] == mem[Wrap(|mem|, start + i)]
  {
    seq(n, i requires 0 <= i < n => mem[Wrap(|mem|, start + i)])
  }

  /** The memory after `data` has been written from index `start` on, wrapping. */
  function Overwrite(mem: Bytes, start: nat, data: Bytes): (b: Bytes)
    requires start < |mem| && |data| <= |mem|
    ensures |b| == |mem|
  {
    seq(|mem|, i requires 0 <= i < |mem| =>
      var d := if start <= i then i - start else i + |mem| - start;
      if d < |data| then data[d] else mem[i])
  }

  /** Two writes, one behind the other, are one write as long as they do not meet. */
  lemma {:induction false} OverwriteTwice(mem: Bytes, start: nat, a: Bytes, b: Bytes)
    requires start < |mem| && |a| + |b| <= |mem|
    ensures Overwrite(Overwrite(mem, start, a), Wrap(|mem|, start + |a|), b) == Overwrite(mem, start, a + b)
  {
  }

  /** The vectors that cover a wrapping stretch. */
  function Window(cap: nat, start: nat, n: nat): seq<Iovec>
    requires start < cap
  {
    if n == 0 then []
    else if start + n <= cap then [InRing(start, n)]
    else [InRing(start, cap - start), InRing(0, start + n - cap)]
  }

  lemma {:induction false} GatherWindow(mem: Bytes, start: nat, n: nat)
    requires start < |mem| && n <= |mem|
    ensures |Window(|mem|, start, n)| <= 2 && AllInBounds(Window(|mem|, start, n), mem)
    ensures Gather(mem, Window(|mem|, start, n)) == Ringed(mem, start, n)
  {
    var w := Window(|mem|, start, n);
    if n > 0 && start + n <= |mem| {
      assert w[1..] == [] && mem[start..start + n] == Ringed(mem, start, n);
    } else if n > 0 {
      assert w[1..] == [w[1]] && w[1..][1..] == [];
      var a, b := mem[start..start + (|mem| - start)], mem[0..0 + (start + n - |mem|)];
      assert Gather(mem, [w[1]]) == b by { assert [w[1]][1..] == []; }
      assert Gather(mem, w) == a + b;
      assert forall i :: 0 <= i < n ==> (a + b)[i] == Ringed(mem, start, n)[i];
    }
  }

  lemma {:induction false} RingedJoins(mem: Bytes, head: nat, count: nat, n: nat)
    requires head < |mem| && count + n <= |mem|
    ensures Ringed(mem, head, count + n)
         == Ringed(mem, head, count) + Ringed(mem, Wrap(|mem|, head + count), |mem| - count)[..n]
  {
  }

  lemma {:induction false} RingedDrops(mem: Bytes, head: nat, count: nat, n: nat)
    requires head < |mem| && n <= count <= |mem|
    ensures Ringed(mem, Wrap(|mem|, head + n), count - n) == Ringed(mem, head, count)[n..]
  {
  }

  /** What a borrowed stretch of the ring reads after `data` has been received. Seen from the write position `tail`, a
      message consumed when `free` bytes were writable lies `free` bytes ahead: its byte `i` is intact exactly until
      `free + i` more bytes have arrived. */
  lemma {:induction false} BorrowedBytesAfterReceive(mem: Bytes, tail: nat, free: nat, n: nat, data: Bytes)
    requires tail < |mem| && free + n <= |mem| && |data| <= |mem| && free < |mem|
    ensures var at := Wrap(|mem|, tail + free);
            forall i :: 0 <= i < n ==>
              Ringed(Overwrite(mem, tail, data), at, n)[i]
              == if free + i < |data| then data[free + i] else Ringed(mem, at, n)[i]
  {
  }

  class RingBuffer {
    const buf: array<Byte>
    var head: nat
    var count: nat

    ghost predicate Valid()
      reads this
    {
      buf.Length > 0 && head < buf.Length && count <= buf.Length
    }

    function Capacity(): nat { buf.Length }

    /** The memory behind the ring, consumed or not. */
    function Mem(): Bytes
      reads buf
    {
      buf[..]
    }

    /** The readable bytes. */
    ghost function Contents(): Bytes
      requires Valid()
      reads this, buf
    {
      Ringed(buf[..], head, count)
    }

    function Tail(): nat
      requires Valid()
      reads this
    {
      Wrap(buf.Length, head + count)
    }

    /** What the write window currently holds. */
    ghost function Free(): Bytes
      requires Valid()
      reads this, buf
    {
      Ringed(buf[..], Tail(), buf.Length - count)
    }

    /** The vectors a read may fill. */
    function WriteWindow(): seq<Iovec>
      requires Valid()
      reads this
    {
      Window(buf.Length, Tail(), buf.Length - count)
    }

    constructor (capacity: nat)
      requires capacity > 0
      ensures Valid() && fresh(buf) && Capacity() == capacity && Contents() == []
    {
      buf := new Byte[capacity];
      head, count := 0, 0;
    }

    method GetReadIovecs() returns (iovs: seq<Iovec>)
      requires Valid()
      ensures |iovs| <= 2 && AllInBounds(iovs, Mem()) && Gather(Mem(), iovs) == Contents()
    {
      iovs := Window(buf.Length, head, count);
      GatherWindow(buf[..], head, count);
    }

    method GetWriteIovecs() returns (iovs: seq<Iovec>)
      requires Valid()
      ensures iovs == WriteWindow()
      ensures |iovs| <= 2 && AllInBounds(iovs, Mem()) && Gather(Mem(), iovs) == Free()
    {
      iovs := WriteWindow();
      GatherWindow(buf[..], Tail(), buf.Length - count);
    }

    method Produce(n: nat)
      requires Valid() && n <= Capacity() - count
      modifies `count
      ensures Valid() && Contents() == old(Contents() + Free()[..n]) && Tail() == Wrap(buf.Length, old(Tail()) + n)
    {
      RingedJoins(buf[..], head, count, n);
      count := count + n;
    }

    method Consume(n: nat)
      requires Valid() && n <= count
      modifies `head, `count
      ensures Valid() && Contents() == old(Contents()[n..]) && Tail() == old(Tail())
    {
      RingedDrops(buf[..], head, count, n);
      head := Wrap(buf.Length, head + n);
      count := count - n;
    }

    /** The kernel's `readv` into the vectors of the write window: the only operation that writes ring memory. */
    method Readv(iovs: seq<Iovec>, data: Bytes)
      requires Valid() && |data| <= Capacity() - count
      requires iovs == WriteWindow()
      modifies buf
      ensures Mem() == Overwrite(old(Mem()), Tail(), data)
      ensures Contents() == old(Contents()) && Free()[..|data|] == data
    {
      if data == [] {
        assert Mem() == Overwrite(Mem(), Tail(), data);
        return;
      }
      var first := Min(iovs[0].len, |data|);
      forall i | 0 <= i < first { buf[iovs[0].off + i] := data[i]; }
      if first < |data| {
        forall i | 0 <= i < |data| - first { buf[iovs[1].off + i] := data[first + i]; }
      }
      assert Mem() == Overwrite(old(Mem()), Tail(), data);
      WindowAfterWrite(old(Mem()), head, count, Tail(), data);
    }
  }

  lemma {:induction false} WindowAfterWrite(mem: Bytes, head: nat, count: nat, tail: nat, data: Bytes)
    requires head < |mem| && count + |data| <= |mem| && tail == Wrap(|mem|, head + count)
    ensures var mem' := Overwrite(mem, tail, data);
            && Ringed(mem', head, count) == Ringed(mem, head, count)
            && Ringed(mem', tail, |mem| - count)[..|data|] == data
  {
  }
}

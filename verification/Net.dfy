/**
 The peer and the kernel, as far as one connection can see them: the bytes still to come, the bytes already sent, and an
 arbitrary plan for how much each `readv` or `writev` moves and when it fails.
 */
module Net {
  import opened Wire

  datatype Transfer = Move(amount: nat) | IoError(code: U16)

  /** Any positive amount up to `limit`: as the plan ranges over all functions, so does this over `1..limit`. */
  function Share(amount: nat, limit: nat): (n: nat)
    requires limit > 0
    ensures 1 <= n <= limit
  {
    1 + amount % limit
  }

  lemma {:induction false} ShareIsArbitrary(n: nat, limit: nat)
    requires 1 <= n <= limit
    ensures Share(n - 1, limit) == n
  {
  }

  class Socket {
    const readPlan: nat -> Transfer
    const writePlan: nat -> Transfer
    var readCount: nat
    var writeCount: nat
    var incoming: Bytes
    var outgoing: Bytes

    constructor (incoming: Bytes, readPlan: nat -> Transfer, writePlan: nat -> Transfer)
      ensures this.incoming == incoming && outgoing == [] && readCount == 0 && writeCount == 0
      ensures this.readPlan == readPlan && this.writePlan == writePlan
    {
      this.incoming, this.outgoing, this.readCount, this.writeCount := incoming, [], 0, 0;
      this.readPlan, this.writePlan := readPlan, writePlan;
    }
  }

  /** What a write comes to that counts as failed: an error, or no byte accepted. */
  predicate Refuses(t: Transfer) { t.IoError? || t.amount == 0 }

  /** The code such a write is reported with. */
  function RefusalCode(t: Transfer): U16 { if t.IoError? then t.code else INTERNAL_ERROR }

  /** How much of an offer goes out, how many writes have been made by then, and whether it was all. */
  datatype Delivery = Delivery(bytes: nat, writes: nat, ok: bool)

  /** What sending `len` bytes comes to when the plan is followed from write number `from` on. */
  function Deliver(plan: nat -> Transfer, from: nat, len: nat): (d: Delivery)
    ensures d.bytes <= len && d.writes >= from && (d.ok <==> d.bytes == len)
    decreases len
  {
    if len == 0 then Delivery(0, from, true)
    else if Refuses(plan(from)) then Delivery(0, from + 1, false)
    else
      var n := Share(plan(from).amount - 1, len);
      var d := Deliver(plan, from + 1, len - n);
      d.(bytes := n + d.bytes)
  }

  /** A delivery fails only at a refused write, and nothing goes out when the first one is refused. */
  lemma {:induction false} DeliverFails(plan: nat -> Transfer, from: nat, len: nat)
    ensures var d := Deliver(plan, from, len);
            && (!d.ok ==> d.writes > from && Refuses(plan(d.writes - 1)))
            && (len > 0 && Refuses(plan(from)) ==> !d.ok && d.bytes == 0)
    decreases len
  {
    if len > 0 && !Refuses(plan(from)) {
      DeliverFails(plan, from + 1, len - Share(plan(from).amount - 1, len));
    }
  }

  /** Once a write is refused, every later one is. */
  ghost predicate RefusesForGood(plan: nat -> Transfer) {
    forall i: nat, j: nat :: i < j && Refuses(plan(i)) ==> Refuses(plan(j))
  }

  /** Once a read fails, every later one does. */
  ghost predicate FailsForGood(plan: nat -> Transfer) {
    forall i: nat, j: nat :: i < j && plan(i).IoError? ==> plan(j).IoError?
  }

  /** No read from number `from` on succeeds. */
  ghost predicate Dead(plan: nat -> Transfer, from: nat) { forall i: nat :: i >= from ==> plan(i).IoError? }

  lemma {:induction false} DeadAfter(plan: nat -> Transfer, from: nat)
    requires FailsForGood(plan) && exists i: nat :: i <= from && plan(i).IoError?
    ensures Dead(plan, from)
  {
  }

  ghost predicate NeverFails(plan: nat -> Transfer) { forall i: nat :: plan(i).Move? }

  /** For writes, accepting no byte at all counts as a failure too. */
  ghost predicate NeverRefuses(plan: nat -> Transfer) { forall i: nat :: plan(i).Move? && plan(i).amount > 0 }
}

/** uTP's send queue: what is counted as in flight, what leaves the queue, and that the packets cut
    from the written bytes always join back to exactly those bytes. */
module UtpSend {
  import opened ModMath
  import opened Options
  import opened UtpBuffer

  import opened Octets

  const QUEUE_MAX := 1024
  const DUPLICATE_ACKS_BEFORE_RESEND := 3
  const MAX_EACK := 128

  datatype Packet = Packet(seqNr: nat, payload: Bytes, transmissions: nat, needResend: bool)

  /** One transmission: the 16-bit number and the payload on the wire, and the unbounded number `n` that
      the 16 bits stand for. */
  datatype Datagram = Datagram(n: int, pkSeq: nat, payload: Bytes)

  /** Transmitted and not given up for lost. */
  predicate InFlight(p: Packet) {
    p.transmissions > 0 && !p.needResend
  }

  function Sent(p: Packet): Packet {
    p.(transmissions := p.transmissions + 1, needResend := false)
  }

  function Load(queue: map<int, Packet>, n: int): nat {
    if n in queue && InFlight(queue[n]) then |queue[n].payload| else 0
  }

  /** The payload bytes in flight among the packets numbered `lo` up to `hi`. */
  function Flight(queue: map<int, Packet>, lo: int, hi: int): nat
    decreases hi - lo
  {
    if lo >= hi then 0 else Flight(queue, lo, hi - 1) + Load(queue, hi - 1)
  }

  lemma {:induction false} FlightSame(q: map<int, Packet>, q': map<int, Packet>, lo: int, hi: int)
    requires forall n :: lo <= n < hi ==> Load(q, n) == Load(q', n)
    ensures Flight(q, lo, hi) == Flight(q', lo, hi)
    decreases hi - lo
  {
    if lo < hi {
      FlightSame(q, q', lo, hi - 1);
    }
  }

  /** Changing one packet changes the total by that packet's load. */
  lemma {:induction false} FlightChange(q: map<int, Packet>, q': map<int, Packet>, lo: int, hi: int, n: int)
    requires lo <= n < hi
    requires forall k {:trigger Load(q', k)} :: lo <= k < hi && k != n ==> Load(q, k) == Load(q', k)
    ensures Flight(q', lo, hi) + Load(q, n) == Flight(q, lo, hi) + Load(q', n)
    decreases hi - lo
  {
    if n == hi - 1 {
      FlightSame(q, q', lo, hi - 1);
    } else {
      FlightChange(q, q', lo, hi - 1, n);
    }
  }

  lemma {:induction false} FlightFrom(q: map<int, Packet>, lo: int, hi: int)
    requires lo < hi
    ensures Flight(q, lo, hi) == Load(q, lo) + Flight(q, lo + 1, hi)
    decreases hi - lo
  {
    if lo + 1 < hi {
      FlightFrom(q, lo, hi - 1);
    }
  }

  lemma {:induction false} FlightNone(q: map<int, Packet>, lo: int, hi: int)
    requires forall n :: lo <= n < hi ==> Load(q, n) == 0
    ensures Flight(q, lo, hi) == 0
    decreases hi - lo
  {
    if lo < hi {
      FlightNone(q, lo, hi - 1);
    }
  }

  /** A new packet has not been sent, so it adds nothing. */
  lemma {:induction false} FlightPush(q: map<int, Packet>, lo: int, hi: int, p: Packet)
    requires lo <= hi && p.transmissions == 0
    ensures Flight(q[hi := p], lo, hi + 1) == Flight(q, lo, hi)
  {
    FlightSame(q, q[hi := p], lo, hi);
  }

  lemma FlattenExtend(parts: seq<Bytes>, more: Bytes)
    requires parts != []
    ensures Flatten(parts[|parts| - 1 := parts[|parts| - 1] + more]) == Flatten(parts) + more
  {
    var i := |parts| - 1;
    var longer := parts[i := parts[i] + more];
    assert longer[..i] == parts[..i];
    assert Flatten(parts[..i]) + (parts[i] + more) == Flatten(parts[..i]) + parts[i] + more;
  }

  /** Is `lhs` before `rhs` on the circle of 16-bit numbers? */
  predicate WrappingLess(lhs: int, rhs: int) {
    U16(rhs - lhs) < U16(lhs - rhs)
  }

  /** On numbers less than half a turn apart the circular order is the true order. */
  lemma WrappingLessIsLess(a: int, b: int)
    requires -0x8000 < a - b < 0x8000
    ensures WrappingLess(U16(a), U16(b)) <==> a < b
  {
    hide U16;
    U16Sub(a, b, 0);
    U16Sub(b, a, 0);
    U16Small(a - b);
    U16Small(b - a);
  }

  /** Some set bit of the mask names packet `n`; bit `b` names the 16-bit number `base + b`. */
  ghost predicate Flagged(base: int, mask: seq<bool>, from: int, n: int) {
    exists b :: 0 <= b < |mask| && from <= b && mask[b] && U16(base + b) == U16(n)
  }

  /** Same packets, same payloads; none forgotten to have been sent. */
  ghost predicate SamePackets(q: map<int, Packet>, q': map<int, Packet>) {
    && q.Keys == q'.Keys
    && forall n <- q :: q'[n].payload == q[n].payload && q'[n].transmissions >= q[n].transmissions
  }

  /** Everything ever transmitted as packet `n` carried `n`'s 16 bits and the payload recorded for `n`,
      and a packet once transmitted is still known to have been. */
  ghost predicate LogOk(log: seq<Datagram>, start: int, next: int, queue: map<int, Packet>, wire: seq<Bytes>) {
    && |wire| == next - start
    && forall d <- log ::
         && start <= d.n < next && d.payload == wire[d.n - start] && d.pkSeq == U16(d.n)
         && (d.n in queue ==> queue[d.n].transmissions > 0)
  }

  /** The numbered payloads join to the written bytes, and the queued packets are those numbered. */
  ghost predicate Genuine(start: int, next: int, queue: map<int, Packet>, wire: seq<Bytes>, written: Bytes) {
    && |wire| == next - start
    && (forall n <- queue :: start <= n < next && wire[n - start] == queue[n].payload && queue[n].seqNr == U16(n))
    && Flatten(wire) == written
  }

  lemma GenuineLasts(start: int, next: int, queue: map<int, Packet>, queue': map<int, Packet>, wire: seq<Bytes>,
      written: Bytes)
    requires Genuine(start, next, queue, wire, written)
    requires forall n <- queue' ::
               n in queue && queue'[n].payload == queue[n].payload && queue'[n].seqNr == queue[n].seqNr
    ensures Genuine(start, next, queue', wire, written)
  {
    hide U16, Flatten;
  }

  lemma {:induction false} GenuineGrows(start: int, next: int, queue: map<int, Packet>, wire: seq<Bytes>,
      written: Bytes,
      p: Packet)
    requires Genuine(start, next, queue, wire, written) && start <= next && p.seqNr == U16(next)
    ensures Genuine(start, next + 1, queue[next := p], wire + [p.payload], written + p.payload)
  {
    hide U16, Flatten;
    FlattenSnoc(wire, p.payload);
  }

  lemma {:induction false} GenuineFills(start: int, next: int, queue: map<int, Packet>, wire: seq<Bytes>,
      written: Bytes,
      more: Bytes)
    requires Genuine(start, next, queue, wire, written) && start < next && next - 1 in queue
    ensures var p := queue[next - 1];
            var longer := p.(payload := p.payload + more);
            Genuine(start, next, queue[next - 1 := longer], wire[|wire| - 1 := longer.payload], written + more)
  {
    hide U16, Flatten;
    FlattenExtend(wire, more);
  }

  /** A number the queue no longer holds, or holds as sent: its payload is final. */
  ghost predicate Final(n: int, start: int, next: int, queue: map<int, Packet>) {
    start <= n < next && (n in queue ==> queue[n].transmissions > 0)
  }

  /** What was final stays so, with the same payload. */
  ghost predicate Keeps(start: int, next: int, queue: map<int, Packet>, wire: seq<Bytes>,
      next': int, queue': map<int, Packet>, wire': seq<Bytes>) {
    && next <= next' && |wire| == next - start && |wire'| == next' - start
    && forall n :: Final(n, start, next, queue) ==>
         Final(n, start, next', queue') && wire'[n - start] == wire[n - start]
  }

  /** Topping up the last packet, which was never sent. */
  lemma KeepsFilled(start: int, next: int, queue: map<int, Packet>, wire: seq<Bytes>,
      queue': map<int, Packet>, wire': seq<Bytes>)
    requires |wire| == |wire'| == next - start > 0 && queue'.Keys == queue.Keys
    requires next - 1 in queue && queue[next - 1].transmissions == 0
    requires forall n <- queue' :: queue'[n].transmissions == queue[n].transmissions
    requires wire'[..|wire'| - 1] == wire[..|wire| - 1]
    ensures Keeps(start, next, queue, wire, next, queue', wire')
  {
    forall n | Final(n, start, next, queue)
      ensures Final(n, start, next, queue') && wire'[n - start] == wire[n - start]
    {
      assert wire'[..|wire'| - 1][n - start] == wire[..|wire| - 1][n - start];
    }
  }

  /** One more packet behind the others. */
  lemma KeepsQueued(start: int, next: int, queue: map<int, Packet>, wire: seq<Bytes>, pkt: Packet)
    requires |wire| == next - start
    ensures Keeps(start, next, queue, wire, next + 1, queue[next := pkt], wire + [pkt.payload])
  {
  }

  lemma KeepsOn(start: int, next: int, queue: map<int, Packet>, wire: seq<Bytes>,
      next1: int, queue1: map<int, Packet>, wire1: seq<Bytes>, next2: int, queue2: map<int, Packet>, wire2: seq<Bytes>)
    requires Keeps(start, next, queue, wire, next1, queue1, wire1)
    requires Keeps(start, next1, queue1, wire1, next2, queue2, wire2)
    ensures Keeps(start, next, queue, wire, next2, queue2, wire2)
  {
  }

  lemma LogSends(log: seq<Datagram>, start: int, next: int, queue: map<int, Packet>, wire: seq<Bytes>, d: Datagram)
    requires LogOk(log, start, next, queue, wire)
    requires start <= d.n < next && d.payload == wire[d.n - start] && d.pkSeq == U16(d.n)
    requires d.n in queue ==> queue[d.n].transmissions > 0
    ensures LogOk(log + [d], start, next, queue, wire)
  {
  }

  lemma LogLasts(log: seq<Datagram>, start: int, next: int, queue: map<int, Packet>, queue': map<int, Packet>,
      wire: seq<Bytes>)
    requires LogOk(log, start, next, queue, wire)
    requires forall n <- queue' :: n in queue && queue'[n].transmissions >= queue[n].transmissions
    ensures LogOk(log, start, next, queue', wire)
  {
  }

  /** A packet never transmitted may grow. */
  lemma LogFills(log: seq<Datagram>, start: int, next: int, queue: map<int, Packet>, wire: seq<Bytes>, p: Packet)
    requires LogOk(log, start, next, queue, wire) && start < next
    requires next - 1 in queue && queue[next - 1].transmissions == 0
    ensures LogOk(log, start, next, queue[next - 1 := p], wire[|wire| - 1 := p.payload])
  {
  }

  /** A new packet is not in the log yet. */
  lemma LogGrows(log: seq<Datagram>, start: int, next: int, queue: map<int, Packet>, wire: seq<Bytes>, p: Packet)
    requires LogOk(log, start, next, queue, wire) && start <= next
    ensures LogOk(log, start, next + 1, queue[next := p], wire + [p.payload])
  {
  }

  /** The next part of what is being written. */
  lemma Further(data: Bytes, sent: nat, num: nat)
    requires sent + num <= |data|
    ensures forall w: Bytes :: (w + data[..sent]) + data[sent..sent + num] == w + data[..sent + num]
  {
    assert data[..sent] + data[sent..sent + num] == data[..sent + num];
  }

  class Sender {
    var seqNr: nat
    var curWindowPackets: nat
    var curWindow: nat
    var finSent: bool
    var fastResendSeqNr: nat
    var duplicateAck: nat
    const outbuf: CircularBuffer<Packet>
    ghost const start: int
    ghost var next: int
    ghost var queue: map<int, Packet>
    ghost var wire: seq<Bytes>
    ghost var written: Bytes
    /** Every transmission so far. */
    ghost var log: seq<Datagram>

    ghost function First(): int
      reads this`next, this`curWindowPackets
    {
      next - curWindowPackets
    }

    /** The ring shows the queued packets, all numbered within the window. */
    ghost predicate Ring()
      reads this, outbuf
    {
      && outbuf.Valid() && 15 <= outbuf.mask < 2 * QUEUE_MAX
      && seqNr == U16(next)
      && curWindowPackets <= outbuf.mask + 1
      && curWindowPackets <= (if finSent then QUEUE_MAX else QUEUE_MAX - 1)
      && Shows(outbuf.elements, First(), queue)
      && (forall n <- queue :: First() <= n < next)
      && (forall n <- queue :: queue[n].needResend ==> queue[n].transmissions > 0)
      && Recorded()
    }

    /** The ring, and `cur_window` is the payload in flight. */
    ghost predicate Accounted()
      reads this, outbuf
    {
      Ring() && curWindow == Flight(queue, First(), next)
    }

    /** The packets ever numbered join to the bytes ever written; those queued are among them. */
    ghost predicate Recorded()
      reads this`next, this`curWindowPackets, this`queue, this`wire, this`written, this`log
    {
      start <= First() && Genuine(start, next, queue, wire, written) && LogOk(log, start, next, queue, wire)
    }

    /** The state between calls: in addition the oldest packet of the window is still queued. */
    ghost predicate Valid()
      reads this, outbuf
    {
      Accounted() && (curWindowPackets > 0 ==> First() in queue)
    }

    constructor (seq0: nat)
      requires seq0 < SEQ_SPACE
      ensures Valid() && fresh(outbuf) && written == [] && log == [] && !finSent && curWindowPackets == 0
    {
      seqNr, curWindowPackets, curWindow := seq0, 0, 0;
      finSent, fastResendSeqNr, duplicateAck := false, seq0, 0;
      outbuf := new CircularBuffer<Packet>();
      start, next, queue, wire, written, log := seq0, seq0, map[], [], [], [];
      new;
      U16Small(seq0);
    }

    /** The slot that a 16-bit number `d` away from the next one names. */
    lemma Peek(d: int)
      requires Ring() && 0 <= d + curWindowPackets && d < 0
      ensures outbuf.Get(seqNr + d) == Lookup(queue, next + d)
      ensures Slot(seqNr + d, outbuf.mask + 1) == Slot(next + d, outbuf.mask + 1)
    {
      hide Slot, IsPow2, U16;
      SlotOfWrapped(next, d, outbuf.mask + 1);
    }

    /** Storing a changed packet, or none, in the slot of queued packet `n`. */
    method Store(i: int, p: Option<Packet>, ghost n: int)
      requires Ring() && n in queue
      requires Slot(i, outbuf.mask + 1) == Slot(n, outbuf.mask + 1)
      requires p.Some? ==>
                 && p.value.payload == queue[n].payload && p.value.seqNr == queue[n].seqNr
                 && p.value.transmissions >= queue[n].transmissions
      requires p.Some? && p.value.needResend ==> p.value.transmissions > 0
      modifies outbuf, this`queue
      ensures Ring() && outbuf.mask == old(outbuf.mask)
      ensures queue == if p.Some? then old(queue)[n := p.value] else old(queue) - {n}
      ensures Flight(queue, First(), next) + Load(old(queue), n) == Flight(old(queue), First(), next) + Load(queue, n)
    {
      hide Slot, IsPow2, U16, LogOk, Genuine, Shows, Flight;
      ghost var queue' := if p.Some? then queue[n := p.value] else queue - {n};
      ShowsPut(outbuf.elements, First(), queue, n, p);
      FlightChange(queue, queue', First(), next, n);
      LogLasts(log, start, next, queue, queue', wire);
      GenuineLasts(start, next, queue, queue', wire, written);
      outbuf.Put(i, p);
      queue := queue';
    }

    method SendPacket(i: int, ghost n: int)
      requires Accounted() && n in queue
      requires Slot(i, outbuf.mask + 1) == Slot(n, outbuf.mask + 1)
      modifies outbuf, this`queue, this`curWindow, this`log
      ensures Accounted() && outbuf.mask == old(outbuf.mask)
      ensures queue == old(queue)[n := Sent(old(queue)[n])]
      ensures log == old(log) + [Datagram(n, U16(n), queue[n].payload)]
    {
      hide Slot, IsPow2, U16, Shows, LogOk;
      SlotHolds(i, n);
      var pkt := outbuf.Get(i).value;
      if pkt.transmissions == 0 || pkt.needResend {
        curWindow := curWindow + |pkt.payload|;
      }
      Store(i, Some(Sent(pkt)), n);
      ghost var d := Datagram(n, pkt.seqNr, pkt.payload);
      LogSends(log, start, next, queue, wire, d);
      log := log + [d];
    }

    lemma SlotHolds(i: int, n: int)
      requires Ring() && First() <= n < next && Slot(i, outbuf.mask + 1) == Slot(n, outbuf.mask + 1)
      ensures outbuf.Get(i) == Lookup(queue, n)
    {
      hide Slot, IsPow2, U16;
    }

    /** Whether quota forbids `bytes` more: a full queue, less one place kept for the FIN, or a full
        window. `maxSend` is the smallest of the congestion, buffer and peer windows. */
    predicate IsFull(bytes: nat, packetSize: nat, maxSend: nat)
      reads this
    {
      || curWindowPackets >= QUEUE_MAX - 1
      || curWindow + (if bytes < packetSize then bytes else packetSize) > maxSend
    }

    /** A packet left behind by a flush: the last one, short, with others before it. */
    ghost predicate HeldBack(n: int, p: Packet, packetSize: nat)
      reads this
    {
      n == next - 1 && curWindowPackets != 1 && |p.payload| < packetSize
    }

    /** Transmit what waits. If quota did not stop it, only a short last packet may still wait. */
    method FlushPackets(packetSize: nat, maxSend: nat) returns (full: bool)
      requires Accounted()
      modifies outbuf, this`queue, this`curWindow, this`log
      ensures Accounted() && outbuf.mask == old(outbuf.mask) && SamePackets(old(queue), queue) && old(log) <= log
      ensures !full ==> forall n <- queue :: InFlight(queue[n]) || HeldBack(n, queue[n], packetSize)
    {
      hide Slot, IsPow2, U16, Shows, Flight, LogOk, Recorded;
      full := false;
      var i := U16(seqNr - curWindowPackets);
      ghost var n := First();
      U16Add(next, -(curWindowPackets as int));
      while i != seqNr
        invariant First() <= n <= next && i == U16(n)
        invariant Accounted() && outbuf.mask == old(outbuf.mask) && SamePackets(old(queue), queue) && old(log) <= log
        invariant forall k <- queue :: k < n ==> InFlight(queue[k]) || HeldBack(k, queue[k], packetSize)
        decreases next - n
      {
        assert n < next;
        full := FlushOne(i, packetSize, maxSend, n);
        if full {
          return;
        }
        U16Add(n, 1);
        n := n + 1;
        i := U16(i + 1);
      }
      NotWrapped(n);
    }

    method FlushOne(i: nat, packetSize: nat, maxSend: nat, ghost n: int) returns (full: bool)
      requires Accounted() && First() <= n < next && i == U16(n)
      modifies outbuf, this`queue, this`curWindow, this`log
      ensures Accounted() && outbuf.mask == old(outbuf.mask) && old(log) <= log
      ensures queue == old(queue) || (n in old(queue) && queue == old(queue)[n := Sent(old(queue)[n])])
      ensures !full && n in queue ==> InFlight(queue[n]) || HeldBack(n, queue[n], packetSize)
    {
      hide Slot, IsPow2, U16, Shows, Flight, LogOk;
      SlotOfWrapped(n, 0, outbuf.mask + 1);
      SlotHolds(i, n);
      var e := outbuf.Get(i);
      if e.Some? && !InFlight(e.value) {
        if IsFull(packetSize, packetSize, maxSend) {
          return true;
        }
        LastNumber(n);
        if i != U16(seqNr - 1) || curWindowPackets == 1 || |e.value.payload| >= packetSize {
          SendPacket(i, n);
        }
      }
      return false;
    }

    lemma LastNumber(n: int)
      requires Ring() && First() <= n < next
      ensures U16(n) == U16(seqNr - 1) <==> n == next - 1
    {
      hide U16, Shows;
      U16Add(next, -1);
      U16Distinct(n, next - 1);
    }

    lemma NotWrapped(n: int)
      requires Ring() && First() <= n <= next && U16(n) == seqNr
      ensures n == next
    {
      hide U16, Shows;
      U16Distinct(n, next);
    }

    /** Mark every packet in flight as lost. */
    method MarkLost()
      requires Valid()
      modifies outbuf, this`queue, this`curWindow
      ensures Valid() && outbuf.mask == old(outbuf.mask) && SamePackets(old(queue), queue)
      ensures forall n <- queue :: !InFlight(queue[n])
      ensures curWindow == 0
    {
      hide Slot, IsPow2, U16, Shows, Flight, Recorded, LogOk;
      for i := 0 to curWindowPackets
        invariant Accounted() && outbuf.mask == old(outbuf.mask) && SamePackets(old(queue), queue)
        invariant forall n <- queue :: next - i <= n ==> !InFlight(queue[n])
      {
        LoseOne(i);
      }
      FlightNone(queue, First(), next);
    }

    method LoseOne(i: nat)
      requires Accounted() && i < curWindowPackets
      modifies outbuf, this`queue, this`curWindow
      ensures Accounted() && outbuf.mask == old(outbuf.mask)
      ensures var n := next - i - 1;
              queue == if n in old(queue) && InFlight(old(queue)[n])
                       then old(queue)[n := old(queue)[n].(needResend := true)] else old(queue)
    {
      hide Slot, IsPow2, U16, Shows, Flight, LogOk;
      Peek(-1 - (i as int));
      var e := outbuf.Get(seqNr - i - 1);
      if e.Some? && InFlight(e.value) {
        FlightAtLeast(queue, First(), next, next - i - 1);
        Store(seqNr - i - 1, Some(e.value.(needResend := true)), next - i - 1);
        curWindow := curWindow - |e.value.payload|;
      }
    }

    /** A retransmission timeout: everything in flight is lost and the oldest packet is sent again. */
    method OnTimeout()
      requires Valid()
      modifies outbuf, this`queue, this`curWindow, this`log
      ensures Valid() && SamePackets(old(queue), queue)
      ensures |log| == |old(log)| + (if curWindowPackets > 0 then 1 else 0) && old(log) <= log
      ensures curWindowPackets > 0 ==> log[|log| - 1].n == First()
      ensures forall n <- queue :: InFlight(queue[n]) <==> n == First()
      ensures curWindow == if curWindowPackets > 0 then |queue[First()].payload| else 0
    {
      hide Slot, IsPow2, U16, Shows, Flight, LogOk, Recorded;
      MarkLost();
      if curWindowPackets > 0 {
        Peek(-(curWindowPackets as int));
        SendPacket(seqNr - curWindowPackets, First());
        FlightFrom(queue, First(), next);
        FlightNone(queue, First() + 1, next);
      }
    }

    /** 0: acked and removed; 1: already acked; 2: not sent yet. */
    method AckPacket(i: int, ghost n: int) returns (status: nat)
      requires Accounted() && First() <= n < next
      requires Slot(i, outbuf.mask + 1) == Slot(n, outbuf.mask + 1)
      modifies outbuf, this`queue, this`curWindow
      ensures Accounted() && outbuf.mask == old(outbuf.mask)
      ensures status == if n !in old(queue) then 1 else if old(queue)[n].transmissions == 0 then 2 else 0
      ensures queue == if status == 0 then old(queue) - {n} else old(queue)
    {
      hide Slot, IsPow2, U16, Shows, LogOk;
      SlotHolds(i, n);
      var e := outbuf.Get(i);
      if e == None {
        return 1;
      }
      if e.value.transmissions == 0 {
        return 2;
      }
      FlightAtLeast(queue, First(), next, n);
      Store(i, None, n);
      if !e.value.needResend {
        curWindow := curWindow - |e.value.payload|;
      }
      return 0;
    }

    /** The window loses its oldest number, whose packet has gone. */
    method DropOldest()
      requires Accounted() && curWindowPackets > 0 && First() !in queue
      modifies this`curWindowPackets
      ensures Accounted() && curWindowPackets == old(curWindowPackets) - 1
    {
      hide Slot, IsPow2, U16, LogOk;
      ShowsSlide(outbuf.elements, First(), queue, First() + 1);
      FlightFrom(queue, First(), next);
      curWindowPackets := curWindowPackets - 1;
    }

    /** Acknowledge the `acks` oldest numbers, stopping at the first packet never sent. */
    method AckOldest(acks: nat)
      requires Accounted() && acks <= curWindowPackets
      modifies outbuf, this`queue, this`curWindow, this`curWindowPackets
      ensures Accounted() && outbuf.mask == old(outbuf.mask)
      ensures old(First()) <= First() <= old(First()) + acks && queue == From(old(queue), First())
      ensures forall n <- old(queue) :: n < First() ==> old(queue)[n].transmissions > 0
      ensures First() == old(First()) + acks || (First() in queue && queue[First()].transmissions == 0)
    {
      hide Slot, IsPow2, U16, Shows, Flight, LogOk, Recorded;
      for i := 0 to acks
        invariant First() == old(First()) + i
        invariant Accounted() && outbuf.mask == old(outbuf.mask)
        invariant queue == From(old(queue), First())
        invariant forall n <- old(queue) :: n < First() ==> old(queue)[n].transmissions > 0
      {
        Peek(-(curWindowPackets as int));
        FromNext(old(queue), First());
        var status := AckPacket(seqNr - curWindowPackets, First());
        if status == 2 {
          break;
        }
        DropOldest();
      }
    }

    /** Pass over numbers at the front whose packets selective acks have already removed. */
    method SkipAcked()
      requires Accounted()
      modifies this`curWindowPackets
      ensures Valid() && First() >= old(First())
    {
      hide Slot, IsPow2, U16, Shows, Flight, LogOk, Recorded;
      while curWindowPackets > 0 && outbuf.Get(seqNr - curWindowPackets) == None
        invariant Accounted() && First() >= old(First())
        decreases curWindowPackets
      {
        Peek(-(curWindowPackets as int));
        DropOldest();
      }
      if curWindowPackets > 0 {
        Peek(-(curWindowPackets as int));
      }
    }

    /** Add bytes to the last packet, which has not been sent. */
    method FillLast(more: Bytes)
      requires Accounted() && curWindowPackets > 0
      requires next - 1 in queue && queue[next - 1].transmissions == 0
      modifies outbuf, this`queue, this`wire, this`written
      ensures Accounted() && queue.Keys == old(queue).Keys
      ensures written == old(written) + more
      ensures forall n <- queue :: queue[n].transmissions == old(queue)[n].transmissions
      ensures |wire| == |old(wire)| && wire[..|wire| - 1] == old(wire)[..|wire| - 1]
    {
      hide Slot, IsPow2, U16, LogOk, Genuine, Shows, Flight;
      Peek(-1);
      WireSize();
      ghost var n := next - 1;
      var pkt := outbuf.Get(seqNr - 1).value;
      var longer := pkt.(payload := pkt.payload + more);
      ShowsPut(outbuf.elements, First(), queue, n, Some(longer));
      FlightSame(queue, queue[n := longer], First(), next);
      GenuineFills(start, next, queue, wire, written, more);
      LogFills(log, start, next, queue, wire, longer);
      outbuf.Put(seqNr - 1, Some(longer));
      queue := queue[n := longer];
      wire := wire[|wire| - 1 := pkt.payload + more];
      written := written + more;
    }

    /** Make room in the ring for one more packet. */
    method MakeRoom()
      requires Accounted() && curWindowPackets < QUEUE_MAX
      modifies outbuf
      ensures Accounted() && curWindowPackets <= outbuf.mask
    {
      hide Slot, IsPow2, U16, Shows, Flight, Flatten, LogOk;
      U16Add(next, -(curWindowPackets as int));
      outbuf.EnsureSize(seqNr, curWindowPackets, First(), queue);
    }

    /** Queue a new packet. */
    method Enqueue(payload: Bytes)
      requires Accounted()
      requires curWindowPackets < (if finSent then QUEUE_MAX else QUEUE_MAX - 1)
      modifies outbuf, this`queue, this`wire, this`written, this`seqNr, this`next, this`curWindowPackets
      ensures Accounted() && curWindowPackets == old(curWindowPackets) + 1 && next == old(next) + 1
      ensures queue == old(queue)[next - 1 := Packet(U16(next - 1), payload, 0, false)]
      ensures written == old(written) + payload && wire == old(wire) + [payload]
    {
      hide Slot, IsPow2, U16, Shows, LogOk, Flight, Genuine;
      MakeRoom();
      Append(Packet(seqNr, payload, 0, false));
    }

    /** Put a new packet behind the last one. */
    method Append(pkt: Packet)
      requires Accounted() && curWindowPackets <= outbuf.mask
      requires curWindowPackets < (if finSent then QUEUE_MAX else QUEUE_MAX - 1)
      requires pkt == Packet(seqNr, pkt.payload, 0, false)
      modifies outbuf, this`queue, this`wire, this`written, this`seqNr, this`next, this`curWindowPackets
      ensures Accounted() && curWindowPackets == old(curWindowPackets) + 1 && next == old(next) + 1
      ensures queue == old(queue)[next - 1 := pkt]
      ensures written == old(written) + pkt.payload && wire == old(wire) + [pkt.payload]
    {
      hide Slot, IsPow2, U16, Shows, LogOk, Flight, Genuine;
      SlotOfWrapped(next, 0, outbuf.mask + 1);
      ShowsPut(outbuf.elements, First(), queue, next, Some(pkt));
      FlightPush(queue, First(), next, pkt);
      GenuineGrows(start, next, queue, wire, written, pkt);
      LogGrows(log, start, next, queue, wire, pkt);
      U16Add(next, 1);
      outbuf.Put(seqNr, Some(pkt));
      queue := queue[next := pkt];
      wire, written := wire + [pkt.payload], written + pkt.payload;
      seqNr := U16(seqNr + 1);
      next := next + 1;
      curWindowPackets := curWindowPackets + 1;
    }

    lemma WireSize()
      requires Accounted()
      ensures |wire| == next - start
      ensures forall n <- queue :: start <= n < next
    {
    }

    /** One turn of the cutting loop: top up an unsent last packet, or else queue all of `data`. */
    method Cut(data: Bytes, packetSize: nat) returns (taken: nat)
      requires Valid() && packetSize > 0
      requires curWindowPackets < (if finSent then QUEUE_MAX else QUEUE_MAX - 1)
      modifies outbuf, this`queue, this`wire, this`written, this`seqNr, this`next, this`curWindowPackets
      ensures Valid() && taken <= |data| && written == old(written) + data[..taken]
      ensures taken == 0 ==> data == []
      ensures taken < |data| ==>
                && next == old(next) && curWindowPackets == old(curWindowPackets)
                && queue.Keys == old(queue).Keys
                && forall n <- queue :: queue[n].transmissions == old(queue)[n].transmissions
      ensures Keeps(start, old(next), old(queue), old(wire), next, queue, wire)
    {
      hide Slot, IsPow2, U16, Shows, Flight, Flatten, LogOk, Keeps;
      WireSize();
      ghost var queue0, wire0 := queue, wire;
      var last := if curWindowPackets > 0 then outbuf.Get(seqNr - 1) else None;
      if curWindowPackets > 0 {
        Peek(-1);
      }
      if data != [] && last.Some? && last.value.transmissions == 0 && |last.value.payload| < packetSize {
        var room := packetSize - |last.value.payload|;
        taken := if |data| < room then |data| else room;
        FillLast(data[..taken]);
        KeepsFilled(start, next, queue0, wire0, queue, wire);
      } else {
        taken := |data|;
        assert data[..taken] == data;
        KeepsQueued(start, next, queue0, wire0, Packet(U16(next), data, 0, false));
        Enqueue(data);
      }
    }

    /** Cut `data` into the send queue and transmit what quota allows. A packet that has been sent
        once keeps its payload for ever. */
    method WriteOutgoing(data: Bytes, packetSize: nat, maxSend: nat)
      requires Valid() && packetSize > 0
      requires curWindowPackets < (if finSent then QUEUE_MAX else QUEUE_MAX - 1)
      modifies outbuf, this`queue, this`wire, this`written, this`seqNr, this`next,
               this`curWindowPackets, this`curWindow, this`log
      ensures Valid() && written == old(written) + data
      ensures old(log) <= log
      ensures Keeps(start, old(next), old(queue), old(wire), next, queue, wire)
    {
      hide Flatten, Shows, Slot, Flight, LogOk, Genuine, IsPow2, U16;
      CutAll(data, packetSize);
      var _ := FlushPackets(packetSize, maxSend);
    }

    /** The cutting loop. */
    method CutAll(data: Bytes, packetSize: nat)
      requires Valid() && packetSize > 0
      requires curWindowPackets < (if finSent then QUEUE_MAX else QUEUE_MAX - 1)
      modifies outbuf, this`queue, this`wire, this`written, this`seqNr, this`next, this`curWindowPackets
      ensures Valid() && written == old(written) + data
      ensures Keeps(start, old(next), old(queue), old(wire), next, queue, wire)
    {
      hide Valid, Flatten, Keeps;
      ghost var next0, queue0, wire0 := next, queue, wire;
      var done := Cut(data, packetSize);
      while done < |data|
        invariant 0 <= done <= |data| && Valid() && written == old(written) + data[..done]
        invariant done < |data| ==>
                    && next == old(next) && curWindowPackets == old(curWindowPackets)
                    && queue.Keys == old(queue).Keys
                    && forall n <- queue :: queue[n].transmissions == old(queue)[n].transmissions
        invariant Keeps(start, next0, queue0, wire0, next, queue, wire)
        decreases |data| - done
      {
        ghost var next1, queue1, wire1 := next, queue, wire;
        var taken := Cut(data[done..], packetSize);
        KeepsOn(start, next0, queue0, wire0, next1, queue1, wire1, next, queue, wire);
        assert data[..done] + data[done..][..taken] == data[..done + taken];
        done := done + taken;
      }
      assert data[..done] == data;
    }

    /** `utp_writev`: packets are cut while quota allows; the result says how many bytes were taken. */
    method WriteV(data: Bytes, connected: bool, packetSize: nat, maxSend: nat) returns (sent: nat)
      requires Valid() && packetSize > 0
      modifies outbuf, this`queue, this`wire, this`written, this`seqNr, this`next,
               this`curWindowPackets, this`curWindow, this`log
      ensures Valid() && sent <= |data| && written == old(written) + data[..sent]
      ensures old(log) <= log
      ensures Keeps(start, old(next), old(queue), old(wire), next, queue, wire)
    {
      WireSize();
      assert Keeps(start, next, queue, wire, next, queue, wire);
      hide Valid, Flatten, SamePackets, Shows, Keeps;
      ghost var next0, queue0, wire0 := next, queue, wire;
      sent := 0;
      if !connected || finSent {
        return;
      }
      var num: nat := if |data| < packetSize then |data| else packetSize;
      while !IsFull(num, packetSize, maxSend)
        invariant sent + num <= |data| && Valid() && !finSent && written == old(written) + data[..sent]
        invariant num == 0 ==> sent == |data| == 0
        invariant old(log) <= log && Keeps(start, next0, queue0, wire0, next, queue, wire)
        decreases |data| - sent
      {
        Further(data, sent, num);
        ghost var next1, queue1, wire1 := next, queue, wire;
        WriteOutgoing(data[sent..sent + num], packetSize, maxSend);
        KeepsOn(start, next0, queue0, wire0, next1, queue1, wire1, next, queue, wire);
        sent := sent + num;
        num := if |data| - sent < packetSize then |data| - sent else packetSize;
        if num == 0 {
          return;
        }
      }
    }

    /** `utp_close`: the FIN takes the place that `is_full` keeps free. */
    method SendFin(packetSize: nat, maxSend: nat)
      requires Valid() && packetSize > 0
      modifies this, outbuf
      ensures Valid() && finSent && written == old(written) && old(log) <= log
      ensures Keeps(start, old(next), old(queue), old(wire), next, queue, wire)
    {
      WireSize();
      if !finSent {
        finSent := true;
        WriteOutgoing([], packetSize, maxSend);
      }
    }

    lemma FilledSlot(i: int) returns (n: int)
      requires Ring() && outbuf.Get(i).Some?
      ensures n in queue && Slot(i, outbuf.mask + 1) == Slot(n, outbuf.mask + 1)
    {
      hide Slot, IsPow2, U16;
      n := ShowsSome(outbuf.elements, First(), queue, i);
    }

    /** A mask bit is considered when its number lies in the window above the oldest packet. */
    lemma InsideWindow(v: int)
      requires Ring() && curWindowPackets > 0
      ensures var d := U16(seqNr - v - 1);
              && (d < curWindowPackets - 1 ==> U16(next - 1 - d) == U16(v) && First() < next - 1 - d)
              && (d >= curWindowPackets - 1 ==> forall n :: First() < n < next ==> U16(n) != U16(v))
    {
      hide U16, Shows;
      var d := U16(seqNr - v - 1);
      U16Back(next - 1, v);
      U16Add(next, -v - 1);
      if d >= curWindowPackets - 1 {
        forall n | First() < n < next
          ensures U16(n) != U16(v)
        {
          if U16(n) == U16(v) {
            U16SameDifference(next - 1, v, n);
            U16Small(next - 1 - n);
          }
        }
      }
    }

    /** One bit of a selective ack: a sent packet above the oldest that the bit names is removed. */
    method AckBit(v: int, bit: bool) returns (hit: bool, resend: bool)
      requires Valid() && curWindowPackets > 0
      modifies outbuf, this`queue, this`curWindow
      ensures Valid() && outbuf.mask == old(outbuf.mask)
      ensures forall n :: n in queue <==>
                n in old(queue) && !(bit && First() < n && old(queue)[n].transmissions > 0 && U16(n) == U16(v))
      ensures forall n <- queue :: queue[n] == old(queue)[n]
    {
      hide Slot, IsPow2, U16, Shows, Flight, LogOk;
      InsideWindow(v);
      var d := U16(seqNr - v - 1);
      if d >= curWindowPackets - 1 {
        return false, false;
      }
      ghost var n := next - 1 - d;
      SameSlot(v, n, outbuf.mask + 1);
      SlotHolds(v, n);
      forall k | First() < k < next && U16(k) == U16(v)
        ensures k == n
      {
        U16Distinct(k, n);
      }
      var e := outbuf.Get(v);
      if e == None || e.value.transmissions == 0 {
        return bit, false;
      }
      if bit {
        var _ := AckPacket(v, n);
        return true, false;
      }
      return false, true;
    }

    /** Selective ack: of the packets above the oldest, exactly those sent and named by a set bit leave
        the queue; up to four of the others may be sent again. `base` is the number of bit 0. */
    method SelectiveAck(base: int, mask: seq<bool>)
      requires Valid() && |mask| <= 255 * 8
      modifies outbuf, this`queue, this`curWindow, this`fastResendSeqNr, this`duplicateAck, this`log
      ensures Valid() && old(log) <= log && |log| <= |old(log)| + 4
      ensures forall n :: n in queue <==>
                n in old(queue) && !(First() < n && old(queue)[n].transmissions > 0 && Flagged(base, mask, 0, n))
      ensures forall n <- queue :: queue[n].payload == old(queue)[n].payload
    {
      hide Slot, IsPow2, U16, Shows, Flight, Flagged, LogOk;
      if curWindowPackets > 0 {
        duplicateAck := ApplyMask(base, mask);
      }
    }

    method ApplyMask(base: int, mask: seq<bool>) returns (count: nat)
      requires Valid() && curWindowPackets > 0
      modifies outbuf, this`queue, this`curWindow, this`fastResendSeqNr, this`log
      ensures Valid() && old(log) <= log && |log| <= |old(log)| + 4
      ensures forall n :: n in queue <==>
                n in old(queue) && !(First() < n && old(queue)[n].transmissions > 0 && Flagged(base, mask, 0, n))
      ensures forall n <- queue :: queue[n].payload == old(queue)[n].payload
    {
      hide Valid, U16, Flagged;
      var bits := |mask| - 1;
      count := 0;
      var resends := new int[MAX_EACK];
      var nr := 0;
      FlaggedNone(base, mask, |mask|);
      while bits >= -1
        invariant -2 <= bits < |mask| && 0 <= nr <= MAX_EACK - 2 && 0 <= count
        invariant Valid() && outbuf.mask == old(outbuf.mask) && log == old(log)
        invariant forall n :: n in queue <==>
                    n in old(queue)
                    && !(First() < n && old(queue)[n].transmissions > 0 && Flagged(base, mask, bits + 1, n))
        invariant forall n <- queue :: queue[n] == old(queue)[n]
        decreases bits + 2
      {
        var bit := bits >= 0 && mask[bits];
        FlaggedNext(base, mask, bits);
        var hit, resend := AckBit(base + bits, bit);
        if hit {
          count := count + 1;
        }
        if resend && U16(base + bits - fastResendSeqNr) <= QUEUE_MAX && count >= DUPLICATE_ACKS_BEFORE_RESEND {
          nr := PushResend(resends, nr, base + bits);
        }
        bits := bits - 1;
      }
      FlaggedNext(base, mask, -1);
      if U16(base - 1 - fastResendSeqNr) <= QUEUE_MAX && count >= DUPLICATE_ACKS_BEFORE_RESEND {
        resends[nr] := U16(base - 1);
        nr := nr + 1;
      }
      ResendLost(resends, nr);
    }

    /** Push on the stack of packets to resend; when it is full, keep its upper half, which holds the
        oldest packets. */
    static method PushResend(resends: array<int>, top: nat, v: int) returns (nr: nat)
      requires resends.Length == MAX_EACK && top <= MAX_EACK - 2
      modifies resends
      ensures nr <= MAX_EACK - 2
    {
      nr := top;
      if nr >= MAX_EACK - 2 {
        forall k | 0 <= k < MAX_EACK / 2 {
          resends[k] := resends[k + MAX_EACK / 2];
        }
        nr := nr - MAX_EACK / 2;
      }
      resends[nr] := v;
      nr := nr + 1;
    }

    /** Send again up to four of the stacked packets that are still queued. */
    method ResendLost(resends: array<int>, top: nat)
      requires Valid() && top <= resends.Length
      modifies outbuf, this`queue, this`curWindow, this`fastResendSeqNr, this`log
      ensures Valid() && SamePackets(old(queue), queue)
      ensures old(log) <= log && |log| <= |old(log)| + 4
    {
      hide Slot, IsPow2, U16, Shows, Flight, LogOk, Recorded;
      var nr, i := top, 0;
      while nr > 0 && i < 4
        invariant 0 <= nr <= top && Valid() && SamePackets(old(queue), queue)
        invariant 0 <= i <= 4 && old(log) <= log && |log| == |old(log)| + i
        decreases nr
      {
        nr := nr - 1;
        var v := resends[nr];
        if outbuf.Get(v).Some? {
          ghost var n := FilledSlot(v);
          SendPacket(v, n);
          fastResendSeqNr := U16(v + 1);
          i := i + 1;
        }
      }
    }

    /** How many of the oldest packets a cumulative ack number covers; none for an outdated one. */
    function AckCount(pkAck: nat): nat
      reads this
    {
      var acks := U16(pkAck - (seqNr - 1 - curWindowPackets));
      if acks > curWindowPackets then 0 else acks
    }

    /** An ack of packet `a` covers the packets up to and including `a`, and no other. */
    lemma AckCountExact(a: int)
      requires Ring() && First() - 1 <= a < next
      ensures AckCount(U16(a)) == a + 1 - First()
    {
      hide U16, Shows;
      U16Sub(a, next, 1 + curWindowPackets);
      U16Small(a + 1 - First());
    }

    /** An ack number outside the window, and a little more, is not to be trusted. */
    predicate AckInvalid(pkAck: nat)
      reads this
    {
      || WrappingLess(seqNr - 1, pkAck)
      || WrappingLess(pkAck, seqNr - 1 - (curWindowPackets + DUPLICATE_ACKS_BEFORE_RESEND))
    }

    /** The ack part of an incoming packet. A number that is not to be trusted changes nothing. Otherwise
        the window moves over the covered packets, all of them if all were sent, and over numbers whose
        packets have gone; what stays above is what no selective bit names or was never sent. */
    method IncomingAck(pkAck: nat, selack: Option<seq<bool>>, fastTimeout: bool)
      requires Valid() && pkAck < SEQ_SPACE && (selack.Some? ==> |selack.value| <= 255 * 8)
      modifies outbuf, this`queue, this`curWindow, this`curWindowPackets, this`fastResendSeqNr, this`duplicateAck,
               this`log
      ensures Valid() && old(First()) <= First() <= next && old(log) <= log
      ensures old(AckInvalid(pkAck)) ==>
                && queue == old(queue) && curWindowPackets == old(curWindowPackets) && log == old(log)
                && curWindow == old(curWindow) && duplicateAck == old(duplicateAck)
      ensures !old(AckInvalid(pkAck)) ==> forall n :: n in queue <==>
                && n in old(queue) && n >= First()
                && !(selack.Some? && First() < n && old(queue)[n].transmissions > 0
                     && Flagged(pkAck + 2, selack.value, 0, n))
      ensures forall n <- queue :: queue[n].payload == old(queue)[n].payload
      ensures forall n <- old(queue) :: n < First() ==>
                n < old(First()) + old(AckCount(pkAck)) && old(queue)[n].transmissions > 0
      ensures !old(AckInvalid(pkAck)) && (forall n <- old(queue) :: old(queue)[n].transmissions > 0) ==>
                First() >= old(First()) + old(AckCount(pkAck))
    {
      hide Slot, IsPow2, U16, Shows, Flight, Flagged, LogOk, WrappingLess;
      var currWindow := curWindowPackets + DUPLICATE_ACKS_BEFORE_RESEND;
      if WrappingLess(seqNr - 1, pkAck) || WrappingLess(pkAck, seqNr - 1 - currWindow) {
        return;
      }
      CumulativeAck(pkAck, fastTimeout);
      if selack.Some? {
        SelectiveAck(pkAck + 2, selack.value);
      }
    }

    /** Exactly the sent packets that the cumulative number covers leave the queue, up to the first
        one never sent. */
    method CumulativeAck(pkAck: nat, fastTimeout: bool)
      requires Valid() && pkAck < SEQ_SPACE
      modifies outbuf, this`queue, this`curWindow, this`curWindowPackets, this`fastResendSeqNr, this`log
      ensures Valid() && old(First()) <= First() <= next && old(log) <= log
      ensures forall n :: n in queue <==> n in old(queue) && n >= First()
      ensures forall n <- queue :: queue[n].payload == old(queue)[n].payload
      ensures forall n <- queue :: n != First() ==> queue[n] == old(queue)[n]
      ensures forall n <- old(queue) :: n < First() ==>
                n < old(First()) + old(AckCount(pkAck)) && old(queue)[n].transmissions > 0
      ensures (forall n <- old(queue) :: old(queue)[n].transmissions > 0)
                ==> First() >= old(First()) + old(AckCount(pkAck))
    {
      hide Slot, IsPow2, U16, Shows, Flight, LogOk;
      var acks := AckCount(pkAck);
      if WrappingLess(fastResendSeqNr, U16(pkAck + 1)) {
        fastResendSeqNr := U16(pkAck + 1);
      }
      AckOldest(acks);
      SkipAcked();
      AfterAck(fastTimeout);
    }

    /** Send a lone waiting packet at once, and repeat the oldest one while recovering from a timeout. */
    method AfterAck(fastTimeout: bool)
      requires Valid()
      modifies outbuf, this`queue, this`curWindow, this`fastResendSeqNr, this`log
      ensures Valid() && SamePackets(old(queue), queue)
      ensures forall n <- queue :: n != First() ==> queue[n] == old(queue)[n]
      ensures old(log) <= log && forall k :: |old(log)| <= k < |log| ==> log[k].n == First()
    {
      hide Slot, IsPow2, U16, Shows, Flight, LogOk, Recorded;
      SendLone();
      RepeatOldest(fastTimeout);
    }

    /** A lone packet that was never sent does not wait any longer. */
    method SendLone()
      requires Valid()
      modifies outbuf, this`queue, this`curWindow, this`log
      ensures Valid() && SamePackets(old(queue), queue)
      ensures forall n <- queue :: n != First() ==> queue[n] == old(queue)[n]
      ensures old(log) <= log && forall k :: |old(log)| <= k < |log| ==> log[k].n == First()
    {
      hide Slot, IsPow2, U16, Shows, Flight, LogOk, Recorded;
      if curWindowPackets == 1 {
        Peek(-1);
        if outbuf.Get(seqNr - 1).value.transmissions == 0 {
          SendPacket(seqNr - 1, next - 1);
        }
      }
    }

    /** The oldest packet goes out again while recovering from a timeout. */
    method RepeatOldest(fastTimeout: bool)
      requires Valid()
      modifies outbuf, this`queue, this`curWindow, this`fastResendSeqNr, this`log
      ensures Valid() && SamePackets(old(queue), queue)
      ensures forall n <- queue :: n != First() ==> queue[n] == old(queue)[n]
      ensures old(log) <= log && forall k :: |old(log)| <= k < |log| ==> log[k].n == First()
    {
      hide Slot, IsPow2, U16, Shows, Flight, LogOk, Recorded;
      if fastTimeout && U16(seqNr - curWindowPackets) == fastResendSeqNr && curWindowPackets > 0 {
        Peek(-(curWindowPackets as int));
        if outbuf.Get(seqNr - curWindowPackets).value.transmissions > 0 {
          fastResendSeqNr := U16(fastResendSeqNr + 1);
          SendPacket(seqNr - curWindowPackets, First());
        }
      }
    }
  }

  lemma FlaggedNone(base: int, mask: seq<bool>, from: int)
    requires from >= |mask|
    ensures forall n :: !Flagged(base, mask, from, n)
  {
  }

  lemma FlaggedNext(base: int, mask: seq<bool>, b: int)
    requires -1 <= b < |mask|
    ensures forall n :: Flagged(base, mask, b, n) <==>
              Flagged(base, mask, b + 1, n) || (b >= 0 && mask[b] && U16(n) == U16(base + b))
    ensures b == -1 ==> forall n :: Flagged(base, mask, b, n) <==> Flagged(base, mask, 0, n)
  {
    hide U16;
  }

  lemma U16Back(a: int, v: int)
    ensures U16(a - U16(a - v)) == U16(v)
  {
    U16Neg(a - v, a);
    assert a - (a - v) == v;
  }

  /** Truncating a number before subtracting it changes nothing. */
  lemma U16Neg(x: int, a: int)
    ensures U16(a - U16(x)) == U16(a - x)
  {
    assert U16(x) == x - 0x1_0000 * (x / 0x1_0000);
    AddMultiple(a - x, 0x1_0000, x / 0x1_0000);
  }

  lemma U16SameDifference(a: int, v: int, n: int)
    requires U16(n) == U16(v)
    ensures U16(a - v) == U16(a - n)
  {
    U16Neg(v, a);
    U16Neg(n, a);
  }

  /** The packets numbered `lo` or later. */
  ghost function From(queue: map<int, Packet>, lo: int): map<int, Packet> {
    map n | n in queue && n >= lo :: queue[n]
  }

  lemma FromNext(queue: map<int, Packet>, lo: int)
    ensures From(queue, lo + 1) == From(queue, lo) - {lo}
  {
  }

  lemma U16Distinct(a: int, b: int)
    requires -SEQ_SPACE < a - b < SEQ_SPACE
    ensures U16(a) == U16(b) <==> a == b
  {
    if U16(a) == U16(b) {
      ModInjective(a, b, 0x1_0000);
    }
  }

  lemma {:induction false} FlightAtLeast(q: map<int, Packet>, lo: int, hi: int, n: int)
    requires lo <= n < hi
    ensures Flight(q, lo, hi) >= Load(q, n)
    decreases hi - lo
  {
    if n < hi - 1 {
      FlightAtLeast(q, lo, hi - 1, n);
    }
  }
}

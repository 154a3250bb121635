/** uTP reassembly before any FIN: what arrives in any order, with duplicates and gaps, is handed to
    the upper layer in sequence order, once each. */
module UtpReceive {
  import opened ModMath
  import opened Options
  import opened UtpBuffer

  import opened Octets

  const REORDER_MAX := 1024
  const EACK_BITS := 14 + 16

  // ---------------------------------------------------------------------------------------------
  // The receive side over unbounded packet numbers.

  /** `acked` is the unbounded number of the last packet delivered, `held` the packets waiting in the
      reorder buffer, `posted` the bytes handed to the upper layer. */
  datatype Rx = Rx(acked: int, held: map<int, Bytes>, posted: Bytes)

  /** The next packet in line moves from the waiting packets to the upper layer. */
  function Pop(s: Rx): Rx
    requires s.acked + 1 in s.held
  {
    Rx(s.acked + 1, s.held - {s.acked + 1}, s.posted + s.held[s.acked + 1])
  }

  lemma PopSmaller(s: Rx)
    requires s.acked + 1 in s.held
    ensures |s.held| == |Pop(s).held| + 1
  {
    assert Pop(s).held.Keys == s.held.Keys - {s.acked + 1};
  }

  /** Hand up the waiting packets that have become next in line. */
  function Drain(s: Rx): Rx
    decreases |s.held|
  {
    if s.acked + 1 in s.held then
      PopSmaller(s);
      Drain(Pop(s))
    else s
  }

  /** One data packet with number `n`. Old packets and packets too far ahead are ignored. */
  function Arrive(s: Rx, n: int, data: Bytes): Rx {
    var ahead := n - s.acked - 1;
    if ahead == 0 then Drain(Rx(n, s.held, s.posted + data))
    else if 0 < ahead < REORDER_MAX && n !in s.held then s.(held := s.held[n := data])
    else s
  }

  function Run(s: Rx, wire: int -> Bytes, ns: seq<int>): Rx
    decreases |ns|
  {
    if ns == [] then s
    else
      var before := Run(s, wire, ns[..|ns| - 1]);
      Arrive(before, ns[|ns| - 1], wire(ns[|ns| - 1]))
  }

  /** The payloads of packets `lo`, `lo + 1`, ..., `hi - 1`, joined. */
  function Joined(wire: int -> Bytes, lo: int, hi: int): Bytes
    decreases hi - lo
  {
    if lo >= hi then [] else Joined(wire, lo, hi - 1) + wire(hi - 1)
  }

  /** Every packet up to `acked` was delivered, in order and once; those held are genuine, later
      than the next one expected, and at most a reorder buffer ahead. */
  ghost predicate Faithful(s: Rx, start: int, wire: int -> Bytes) {
    && start <= s.acked
    && s.posted == Joined(wire, start + 1, s.acked + 1)
    && (forall n <- s.held :: s.acked + 1 < n <= s.acked + REORDER_MAX && s.held[n] == wire(n))
  }

  /** The same while the waiting packets are being handed up. */
  ghost predicate Draining(s: Rx, start: int, wire: int -> Bytes) {
    && start <= s.acked
    && s.posted == Joined(wire, start + 1, s.acked + 1)
    && (forall n <- s.held :: s.acked < n <= s.acked + REORDER_MAX && s.held[n] == wire(n))
  }

  lemma {:induction false} DrainFaithful(s: Rx, start: int, wire: int -> Bytes)
    requires Draining(s, start, wire)
    ensures Faithful(Drain(s), start, wire)
    ensures s.acked <= Drain(s).acked
    ensures forall n {:trigger n in s.held} :: s.acked < n <= Drain(s).acked ==> n in s.held
    ensures forall n {:trigger n in Drain(s).held} :: n in Drain(s).held <==> n in s.held && n > Drain(s).acked
    decreases |s.held|
  {
    if s.acked + 1 in s.held {
      PopSmaller(s);
      PopDraining(s, start, wire);
      hide Pop, Joined;
      DrainFaithful(Pop(s), start, wire);
    }
  }

  lemma {:induction false} PopDraining(s: Rx, start: int, wire: int -> Bytes)
    requires Draining(s, start, wire) && s.acked + 1 in s.held
    ensures Draining(Pop(s), start, wire) && Pop(s).acked == s.acked + 1
    ensures forall n :: n in Pop(s).held <==> n in s.held && n != s.acked + 1
  {
  }

  lemma {:induction false} ArriveFaithful(s: Rx, n: int, start: int, wire: int -> Bytes)
    requires Faithful(s, start, wire)
    ensures Faithful(Arrive(s, n, wire(n)), start, wire)
    // what is delivered or held now arrived now or was held
    ensures var after := Arrive(s, n, wire(n));
            && (forall k {:trigger k in s.held} :: s.acked < k <= after.acked ==> k == n || k in s.held)
            && (forall k <- after.held :: k == n || k in s.held)
  {
    if n == s.acked + 1 {
      DrainFaithful(Rx(n, s.held, s.posted + wire(n)), start, wire);
    }
  }

  /** Safety over every run: whatever arrives, the bytes handed up are exactly the payloads of a
      gap-free range of packets, each of which did arrive; and whatever is held did arrive too. */
  lemma {:induction false} RunDeliversInOrder(start: int, wire: int -> Bytes, ns: seq<int>)
    ensures var s := Run(Rx(start, map[], []), wire, ns);
            && Faithful(s, start, wire)
            && (forall k :: start < k <= s.acked ==> k in ns)
            && (forall k <- s.held :: k in ns)
    decreases |ns|
  {
    if ns != [] {
      hide Arrive, Joined;
      var front, n := ns[..|ns| - 1], ns[|ns| - 1];
      RunDeliversInOrder(start, wire, front);
      ArriveFaithful(Run(Rx(start, map[], []), wire, front), n, start, wire);
      assert forall k :: k in front ==> k in ns;
    }
  }

  /** No packet of the run was beyond the reorder buffer when it arrived. */
  ghost predicate WithinReach(start: int, wire: int -> Bytes, ns: seq<int>) {
    forall i :: 0 <= i < |ns| ==> ns[i] - Run(Rx(start, map[], []), wire, ns[..i]).acked - 1 < REORDER_MAX
  }

  lemma {:induction false} RunKeepsAll(start: int, wire: int -> Bytes, ns: seq<int>, k: int)
    requires WithinReach(start, wire, ns) && k in ns
    ensures var s := Run(Rx(start, map[], []), wire, ns); k <= s.acked || k in s.held
    decreases |ns|
  {
    hide Arrive, WithinReach;
    var front := ns[..|ns| - 1];
    ReachFront(start, wire, ns);
    RunDeliversInOrder(start, wire, front);
    if k in front {
      RunKeepsAll(start, wire, front, k);
    } else {
      assert k == ns[|ns| - 1];
    }
    ArrivalKeeps(start, wire, Run(Rx(start, map[], []), wire, front), ns[|ns| - 1], k);
  }

  /** What was within reach on the way was so all along. */
  lemma {:induction false} ReachFront(start: int, wire: int -> Bytes, ns: seq<int>)
    requires WithinReach(start, wire, ns) && ns != []
    ensures var front := ns[..|ns| - 1];
            && WithinReach(start, wire, front)
            && ns[|ns| - 1] - Run(Rx(start, map[], []), wire, front).acked - 1 < REORDER_MAX
  {
    hide Run;
    var front := ns[..|ns| - 1];
    forall i | 0 <= i < |front|
      ensures front[i] - Run(Rx(start, map[], []), wire, front[..i]).acked - 1 < REORDER_MAX
    {
      assert front[..i] == ns[..i] && front[i] == ns[i];
    }
  }

  /** An arrival within reach loses neither itself nor what had arrived. */
  lemma {:induction false} ArrivalKeeps(start: int, wire: int -> Bytes, before: Rx, n: int, k: int)
    requires Faithful(before, start, wire) && n - before.acked - 1 < REORDER_MAX
    requires k == n || k <= before.acked || k in before.held
    ensures var s := Arrive(before, n, wire(n)); k <= s.acked || k in s.held
  {
    if n == before.acked + 1 {
      DrainFaithful(Rx(n, before.held, before.posted + wire(n)), start, wire);
    }
  }

  /** Completeness: when nothing was out of reach, delivery stops exactly at the first packet that
      never arrived. */
  lemma {:induction false} RunStopsAtFirstGap(start: int, wire: int -> Bytes, ns: seq<int>)
    requires WithinReach(start, wire, ns)
    ensures Run(Rx(start, map[], []), wire, ns).acked + 1 !in ns
  {
    hide Run, WithinReach, Joined;
    var s := Run(Rx(start, map[], []), wire, ns);
    RunDeliversInOrder(start, wire, ns);
    if s.acked + 1 in ns {
      RunKeepsAll(start, wire, ns, s.acked + 1);
    }
  }

  /** Arrival order does not matter: two runs over the same packets, with any repetitions and in any
      order, hand up the same bytes. */
  lemma {:induction false} ArrivalOrderIrrelevant(start: int, wire: int -> Bytes, ns: seq<int>, ms: seq<int>)
    requires WithinReach(start, wire, ns) && WithinReach(start, wire, ms)
    requires forall k :: k in ns <==> k in ms
    ensures Run(Rx(start, map[], []), wire, ns).posted == Run(Rx(start, map[], []), wire, ms).posted
  {
    hide Run, WithinReach, Joined;
    var s, t := Run(Rx(start, map[], []), wire, ns), Run(Rx(start, map[], []), wire, ms);
    RunDeliversInOrder(start, wire, ns);
    RunDeliversInOrder(start, wire, ms);
    RunStopsAtFirstGap(start, wire, ns);
    RunStopsAtFirstGap(start, wire, ms);
    assert s.acked == t.acked;
  }

  // ---------------------------------------------------------------------------------------------
  // The socket's receive fields.

  class Receiver {
    var ackNr: nat
    var reorderCount: nat
    var posted: Bytes
    const inbuf: CircularBuffer<Bytes>
    ghost var acked: int
    ghost var held: map<int, Bytes>

    ghost function Abstract(): Rx
      reads this
    {
      Rx(acked, held, posted)
    }

    /** The ring shows exactly the held packets, and the slots of the last packet delivered and of
        the one after it are empty. `base` is what `ack_nr` stands for: the last packet delivered, or
        the one before it inside a keep-alive. */
    ghost predicate RingShows(base: int)
      reads this, inbuf
    {
      && inbuf.Valid() && 15 <= inbuf.mask < 2 * REORDER_MAX
      && Shows(inbuf.elements, acked, held)
      && (forall n <- held :: acked + 2 <= n <= acked + inbuf.mask)
      && acked - 1 <= base <= acked
      && ackNr == U16(base)
      && reorderCount == |held|
    }

    ghost predicate Valid()
      reads this, inbuf
    {
      RingShows(acked)
    }

    constructor (ack: nat)
      requires ack < SEQ_SPACE
      ensures Valid() && Abstract() == Rx(ack, map[], []) && fresh(inbuf)
    {
      ackNr, reorderCount, posted := ack, 0, [];
      inbuf := new CircularBuffer<Bytes>();
      acked, held := ack, map[];
    }

    /** One data packet. `n` is its unbounded number, of which the wire carries 16 bits. */
    method Incoming(pkSeq: nat, data: Bytes, ghost n: int)
      requires Valid()
      requires pkSeq == U16(n)
      // the numbers a 16-bit counter can tell apart from those in the reorder window
      requires REORDER_MAX - SEQ_SPACE <= n - acked - 1 < SEQ_SPACE
      modifies this, inbuf
      ensures Valid()
      ensures Abstract() == Arrive(old(Abstract()), n, data)
    {
      hide Slot, IsPow2, U16;
      var seqnr := U16(pkSeq - ackNr - 1);
      Distance(acked, n);
      if seqnr >= REORDER_MAX {
        return;
      }
      assert seqnr == n - acked - 1;
      if seqnr == 0 {
        posted := posted + data;
        Advance();
        ghost var goal := Drain(Abstract());
        while reorderCount != 0 && inbuf.Get(ackNr + 1) != None
          invariant Handing() && Drain(Abstract()) == goal
          decreases reorderCount
        {
          DeliverNext();
        }
        HandedUp();
      } else if seqnr > 0x3ff {
        assert false;
      } else {
        Remember(pkSeq, seqnr, data, n);
      }
    }

    /** The ring while waiting packets are being handed up: the next one may be present. */
    ghost predicate Handing()
      reads this, inbuf
    {
      && inbuf.Valid() && 15 <= inbuf.mask < 2 * REORDER_MAX
      && Shows(inbuf.elements, acked, held)
      && (forall n <- held :: acked + 1 <= n < acked + inbuf.mask)
      && ackNr == U16(acked)
      && reorderCount == |held|
    }

    /** `ack_nr++`. */
    method Advance()
      requires Valid()
      modifies this`ackNr, this`acked
      ensures Handing() && acked == old(acked) + 1
    {
      hide Slot, IsPow2, U16;
      U16Add(acked, 1);
      ShowsSlide(inbuf.elements, acked, held, acked + 1);
      ackNr := U16(ackNr + 1);
      acked := acked + 1;
    }

    method DeliverNext()
      requires Handing() && reorderCount != 0 && inbuf.Get(ackNr + 1) != None
      modifies this, inbuf
      ensures Handing() && Drain(Abstract()) == Drain(old(Abstract()))
      ensures reorderCount == old(reorderCount) - 1
    {
      hide Slot, IsPow2, U16, Shows;
      SlotOfWrapped(acked, 1, inbuf.mask + 1);
      HeadLeaves(inbuf.elements, Abstract());
      var p := inbuf.Get(ackNr + 1).value;
      PopSmaller(Abstract());
      ghost var rest := Pop(Abstract()).held;
      inbuf.Put(ackNr + 1, None);
      posted := posted + p;
      U16Add(acked, 1);
      ackNr := U16(ackNr + 1);
      held := rest;
      acked := acked + 1;
      reorderCount := reorderCount - 1;
    }

    lemma HandedUp()
      requires Handing() && (reorderCount == 0 || inbuf.Get(ackNr + 1) == None)
      ensures Valid() && Drain(Abstract()) == Abstract()
    {
      hide Slot, IsPow2, U16;
      SlotOfWrapped(acked, 1, inbuf.mask + 1);
      if reorderCount == 0 {
        assert held.Keys == {};
      } else {
        assert Lookup(held, acked + 1) == None;
      }
    }

    /** Remember an out-of-order packet unless it is a duplicate. */
    method Remember(pkSeq: nat, seqnr: nat, data: Bytes, ghost n: int)
      requires Valid()
      requires pkSeq == U16(n) && 0 < seqnr == n - acked - 1 < REORDER_MAX
      modifies this`reorderCount, this`held, inbuf
      ensures Valid()
      ensures held == if n in old(held) then old(held) else old(held)[n := data]
    {
      hide Slot, IsPow2, U16;
      MakeRoom(pkSeq, seqnr, n);
      SlotOfWrapped(n, 0, inbuf.mask + 1);
      if inbuf.Get(pkSeq) != None {
        assert Lookup(held, n) != None;
        return;
      }
      assert Lookup(held, n) == None;
      Hold(pkSeq, data, n);
    }

    /** A packet not held yet, within the ring. */
    method Hold(pkSeq: nat, data: Bytes, ghost n: int)
      requires Valid() && pkSeq == U16(n) && n !in held && 0 < n - acked - 1 <= inbuf.mask - 1
      requires n - acked - 1 < REORDER_MAX
      modifies this`reorderCount, this`held, inbuf
      ensures Valid() && held == old(held)[n := data]
    {
      hide Slot, IsPow2, U16, Shows;
      SlotOfWrapped(n, 0, inbuf.mask + 1);
      ShowsPut(inbuf.elements, acked, held, n, Some(data));
      inbuf.Put(pkSeq, Some(data));
      assert held[n := data].Keys == held.Keys + {n};
      held := held[n := data];
      reorderCount := reorderCount + 1;
    }

    /** Growing the ring around `ack_nr + 1` loses nothing and keeps the two guard slots empty. */
    method MakeRoom(pkSeq: nat, seqnr: nat, ghost n: int)
      requires Valid()
      requires pkSeq == U16(n) && 0 < seqnr == n - acked - 1 < REORDER_MAX
      modifies inbuf
      ensures Valid() && seqnr + 1 <= inbuf.mask
    {
      hide Slot, IsPow2, U16;
      ShowsSlide(inbuf.elements, acked, held, acked + 1);
      U16Add(n, acked + 1 - n);
      inbuf.EnsureSize(pkSeq + 1, seqnr + 1, acked + 1, held);
      ShowsSlide(inbuf.elements, acked + 1, held, acked);
    }

    /** An ack's selective-ack bits. Bit `i` stands for packet `base + i + 2`, where `base` is the
        number being acked, and is set exactly when that packet is held. */
    method SendAck(ghost base: int) returns (eack: bool, bits: seq<bool>)
      requires RingShows(base)
      ensures eack == (reorderCount != 0)
      ensures |bits| == 32
      ensures forall i :: 0 <= i < EACK_BITS ==> (bits[i] <==> base + i + 2 in held)
      ensures forall i :: EACK_BITS <= i < 32 ==> !bits[i]
    {
      hide Slot, IsPow2, U16;
      bits := seq(32, _ => false);
      eack := reorderCount != 0;
      if !eack {
        assert held.Keys == {};
        return;
      }
      SlotOfWrapped(base, 1, inbuf.mask + 1);
      assert inbuf.Get(ackNr + 1) == Lookup(held, base + 1) == None;
      var window := if EACK_BITS < inbuf.mask + 1 then EACK_BITS else inbuf.mask + 1;
      for i := 0 to window
        invariant |bits| == 32
        invariant forall k :: 0 <= k < i ==> (bits[k] <==> base + k + 2 in held)
        invariant forall k :: i <= k < 32 ==> !bits[k]
      {
        EackSlot(base, i);
        if inbuf.Get(ackNr + i + 2) != None {
          bits := bits[i := true];
        }
      }
    }

    lemma EackSlot(base: int, i: nat)
      requires RingShows(base) && i <= inbuf.mask
      ensures inbuf.Get(ackNr + i + 2) != None <==> base + i + 2 in held
    {
      hide Slot, IsPow2, U16;
      SlotOfWrapped(base, i + 2, inbuf.mask + 1);
      ShowsSlide(inbuf.elements, acked, held, acked + 2);
      if i == 0 && base == acked - 1 {
        assert inbuf.Get(ackNr + 2) == Lookup(held, acked + 1);
      } else {
        assert inbuf.Get(ackNr + i + 2) == Lookup(held, base + i + 2);
      }
    }

    /** A keep-alive acks one packet less than was delivered; its selective-ack bits are still true. */
    method SendKeepAlive() returns (eack: bool, bits: seq<bool>)
      requires Valid()
      modifies this`ackNr
      ensures Valid() && eack == (reorderCount != 0)
      ensures |bits| == 32
      ensures forall i :: 0 <= i < EACK_BITS ==> (bits[i] <==> acked - 1 + i + 2 in held)
      ensures forall i :: EACK_BITS <= i < 32 ==> !bits[i]
    {
      hide Slot, IsPow2, U16, Shows;
      U16Add(acked, -1);
      ackNr := U16(ackNr - 1);
      eack, bits := SendAck(acked - 1);
      U16Add(acked - 1, 1);
      ackNr := U16(ackNr + 1);
    }
  }

  /** Emptying the slot of the next packet moves the view on by one. */
  lemma HeadLeaves(el: seq<Option<Bytes>>, s: Rx)
    requires |el| > 2 && Shows(el, s.acked, s.held)
    requires forall n <- s.held :: s.acked + 1 <= n < s.acked + |el| - 1
    ensures el[Slot(s.acked + 1, |el|)] == Lookup(s.held, s.acked + 1)
    ensures s.acked + 1 in s.held ==>
              && Shows(el[Slot(s.acked + 1, |el|) := None], s.acked + 1, Pop(s).held)
              && forall n <- Pop(s).held :: s.acked + 2 <= n < s.acked + |el| - 1
  {
    hide Slot;
    ShowsPut(el, s.acked, s.held, s.acked + 1, None);
    ShowsSlide(el[Slot(s.acked + 1, |el|) := None], s.acked, s.held - {s.acked + 1}, s.acked + 1);
  }

  /** How far ahead of the expected packet a packet is, as the 16-bit arithmetic finds it. */
  lemma Distance(acked: int, n: int)
    requires REORDER_MAX - SEQ_SPACE <= n - acked - 1 < SEQ_SPACE
    ensures var d := U16(U16(n) - U16(acked) - 1);
            && (d < REORDER_MAX <==> 0 <= n - acked - 1 < REORDER_MAX)
            && (0 <= n - acked - 1 ==> d == n - acked - 1)
  {
    hide U16;
    U16Sub(n, acked, -1);
    U16Small(n - acked - 1);
  }
}

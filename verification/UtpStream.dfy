/** uTP end to end: the two sockets joined by a lossy, reordering, duplicating network. */
module UtpStream {
  import opened Octets
  import opened UtpBuffer
  import opened UtpReceive
  import opened UtpSend

  /** The payload a sender gave packet `n`, for a sender whose first packet was `start`. */
  function PayloadOf(start: int, wire: seq<Bytes>): int -> Bytes {
    n => if start <= n < start + |wire| then wire[n - start] else []
  }

  lemma {:induction false} JoinedIsFlatten(start: int, wire: seq<Bytes>, k: nat)
    requires k <= |wire|
    ensures Joined(PayloadOf(start, wire), start, start + k) == Flatten(wire[..k])
    decreases k
  {
    if k > 0 {
      JoinedIsFlatten(start, wire, k - 1);
      assert wire[..k][..k - 1] == wire[..k - 1];
    }
  }

  lemma {:induction false} FlattenPrefix(wire: seq<Bytes>, k: nat)
    requires k <= |wire|
    ensures Flatten(wire[..k]) <= Flatten(wire)
    decreases |wire| - k
  {
    if k < |wire| {
      assert wire[..k + 1][..k] == wire[..k];
      FlattenPrefix(wire, k + 1);
    } else {
      assert wire[..k] == wire;
    }
  }

  /** A receiver whose peer numbers its packets from `start`. */
  function Fresh(start: int): Rx {
    Rx(start - 1, map[], [])
  }

  /** What a receiver makes of transmissions in the order they arrive. */
  function Delivered(s: Rx, ds: seq<Datagram>): Rx
    decreases |ds|
  {
    if ds == [] then s
    else
      var d := ds[|ds| - 1];
      Arrive(Delivered(s, ds[..|ds| - 1]), d.n, d.payload)
  }

  function Numbers(ds: seq<Datagram>): (ns: seq<int>)
    ensures |ns| == |ds|
  {
    seq(|ds|, k requires 0 <= k < |ds| => ds[k].n)
  }

  /** Transmissions that carry the recorded payloads make a run over their numbers. */
  lemma {:induction false} DeliveredIsRun(s: Rx, wire: int -> Bytes, ds: seq<Datagram>)
    requires forall d <- ds :: d.payload == wire(d.n)
    ensures Delivered(s, ds) == Run(s, wire, Numbers(ds))
    decreases |ds|
  {
    hide Arrive;
    if ds != [] {
      var m := |ds| - 1;
      DeliveredIsRun(s, wire, ds[..m]);
      assert Numbers(ds)[..m] == Numbers(ds[..m]);
      assert ds[m] in ds;
    }
  }

  /** No transmission was beyond the reorder buffer when it arrived. */
  ghost predicate InReach(s: Rx, ds: seq<Datagram>) {
    forall k {:trigger ds[k]} :: 0 <= k < |ds| ==> ds[k].n - Delivered(s, ds[..k]).acked - 1 < REORDER_MAX
  }

  /** Safety, whatever the network does: from any of the transmissions a sender ever made, in any order
      and any number of times, the receiver's upper layer has got a prefix of the bytes written to the
      sender. Completeness: it has got all of them once every numbered packet arrived within reach. */
  lemma {:induction false} ReceivedIsPrefixOfWritten(s: Sender, ds: seq<Datagram>)
    requires s.Valid() && forall d <- ds :: d in s.log
    ensures var r := Delivered(Fresh(s.start), ds);
            && s.start - 1 <= r.acked < s.next
            && r.posted == Flatten(s.wire[..r.acked + 1 - s.start])
            && r.posted <= s.written
            && (InReach(Fresh(s.start), ds) && (forall n :: s.start <= n < s.next ==> n in Numbers(ds))
                ==> r.posted == s.written)
  {
    hide PayloadOf, Run, Joined, Flatten, Delivered, Sender.Accounted;
    Carried(s);
    var p := PayloadOf(s.start, s.wire);
    PayloadsAgree(s.start, s.wire, ds);
    DeliveredIsRun(Fresh(s.start), p, ds);
    var ns := Numbers(ds);
    RunIsPrefix(s.start, s.wire, ns);
    if InReach(Fresh(s.start), ds) {
      forall i | 0 <= i < |ns|
        ensures ns[i] - Run(Fresh(s.start), p, ns[..i]).acked - 1 < REORDER_MAX
      {
        DeliveredIsRun(Fresh(s.start), p, ds[..i]);
        assert Numbers(ds[..i]) == ns[..i];
        assert ds[i].n == ns[i];
      }
    }
  }

  /** What a valid sender's log says of its payloads. */
  lemma Carried(s: Sender)
    requires s.Valid()
    ensures |s.wire| == s.next - s.start && Flatten(s.wire) == s.written
    ensures forall d <- s.log :: s.start <= d.n < s.next && d.payload == s.wire[d.n - s.start]
  {
    hide Flatten;
  }

  lemma PayloadsAgree(start: int, wire: seq<Bytes>, ds: seq<Datagram>)
    requires forall d <- ds :: start <= d.n < start + |wire| && d.payload == wire[d.n - start]
    ensures forall d <- ds :: d.payload == PayloadOf(start, wire)(d.n)
  {
  }

  /** The same for numbers alone. */
  lemma {:induction false} RunIsPrefix(start: int, wire: seq<Bytes>, ns: seq<int>)
    requires forall n <- ns :: start <= n < start + |wire|
    ensures var s := Run(Fresh(start), PayloadOf(start, wire), ns);
            && start - 1 <= s.acked < start + |wire|
            && s.posted == Flatten(wire[..s.acked + 1 - start])
            && s.posted <= Flatten(wire)
            && (WithinReach(start - 1, PayloadOf(start, wire), ns)
                && (forall n :: start <= n < start + |wire| ==> n in ns)
                ==> s.posted == Flatten(wire))
  {
    hide PayloadOf, Run, Joined, Flatten;
    var p := PayloadOf(start, wire);
    var s := Run(Rx(start - 1, map[], []), p, ns);
    RunDeliversInOrder(start - 1, p, ns);
    if s.acked >= start {
      assert s.acked in ns;
    }
    var k := s.acked + 1 - start;
    JoinedIsFlatten(start, wire, k);
    FlattenPrefix(wire, k);
    if WithinReach(start - 1, p, ns) && (forall n :: start <= n < start + |wire| ==> n in ns) {
      RunStopsAtFirstGap(start - 1, p, ns);
      assert k == |wire|;
      assert wire[..k] == wire;
    }
  }

  /** A transmission is close enough to what is expected for its 16 bits to name it. */
  predicate Nameable(acked: int, d: Datagram) {
    d.pkSeq == U16(d.n) && REORDER_MAX - SEQ_SPACE <= d.n - acked - 1 < SEQ_SPACE
  }

  /** The sockets themselves: the receiver, which sees the 16-bit numbers only, is fed some of the
      sender's transmissions and ends with a prefix of what was written. */
  method Transfer(s: Sender, r: Receiver, ds: seq<Datagram>)
    requires s.Valid() && forall d <- ds :: d in s.log
    requires r.Valid() && r.Abstract() == Fresh(s.start)
    requires forall k {:trigger ds[k]} :: 0 <= k < |ds| ==> Nameable(Delivered(Fresh(s.start), ds[..k]).acked, ds[k])
    modifies r, r.inbuf
    ensures r.Valid() && r.Abstract() == Delivered(Fresh(s.start), ds)
    ensures s.Valid() && r.posted <= s.written
  {
    hide Arrive;
    for k := 0 to |ds|
      invariant r.Valid() && r.Abstract() == Delivered(Fresh(s.start), ds[..k])
    {
      r.Incoming(ds[k].pkSeq, ds[k].payload, ds[k].n);
      assert ds[..k + 1][..k] == ds[..k];
    }
    assert ds[..|ds|] == ds;
    ReceivedIsPrefixOfWritten(s, ds);
  }
}

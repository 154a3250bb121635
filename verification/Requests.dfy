/** Who has asked whom for which block: per-block request counts against every peer's pipeline. */
module Requests {
  import opened PieceLayout

  const MAX_PIPELINE := 256
  const MAX_HEDGED_BLOCKS := 16
  const MAX_HEDGES_PER_TICK := 4

  datatype Req = Req(index: nat, offset: nat, length: int, requestedMs: nat)

  type Pipeline = seq<Req>

  predicate Asks(r: Req, piece: nat, block: nat) {
    r.index == piece && BlockOf(r.offset) == block
  }

  predicate Has(pipe: Pipeline, piece: nat, block: nat) {
    exists k :: 0 <= k < |pipe| && Asks(pipe[k], piece, block)
  }

  /** How many pipelines hold a request for the block. */
  function Holding(pipes: seq<Pipeline>, piece: nat, block: nat): nat {
    if pipes == [] then 0
    else Holding(pipes[..|pipes| - 1], piece, block) + (if Has(pipes[|pipes| - 1], piece, block) then 1 else 0)
  }

  lemma {:induction false} HoldingUpdate(pipes: seq<Pipeline>, i: nat, pipe: Pipeline, piece: nat, block: nat)
    requires i < |pipes|
    ensures Holding(pipes[i := pipe], piece, block) + (if Has(pipes[i], piece, block) then 1 else 0)
            == Holding(pipes, piece, block) + (if Has(pipe, piece, block) then 1 else 0)
    decreases |pipes|
  {
    hide Has;
    var n := |pipes| - 1;
    if i == n {
      assert pipes[i := pipe][..n] == pipes[..n];
    } else {
      HoldingUpdate(pipes[..n], i, pipe, piece, block);
      assert pipes[i := pipe][..n] == pipes[..n][i := pipe];
    }
  }

  lemma {:induction false} HoldingPositive(pipes: seq<Pipeline>, i: nat, piece: nat, block: nat)
    requires i < |pipes| && Has(pipes[i], piece, block)
    ensures Holding(pipes, piece, block) >= 1
    decreases |pipes|
  {
    hide Has;
    if i < |pipes| - 1 {
      HoldingPositive(pipes[..|pipes| - 1], i, piece, block);
    }
  }

  lemma {:induction false} HoldingTwo(pipes: seq<Pipeline>, i: nat, j: nat, piece: nat, block: nat)
    requires i < j < |pipes| && Has(pipes[i], piece, block) && Has(pipes[j], piece, block)
    ensures Holding(pipes, piece, block) >= 2
    decreases |pipes|
  {
    hide Has;
    if j < |pipes| - 1 {
      HoldingTwo(pipes[..|pipes| - 1], i, j, piece, block);
    } else {
      HoldingPositive(pipes[..|pipes| - 1], i, piece, block);
    }
  }

  /** How many blocks are asked for twice. */
  function Doubled(counts: seq<nat>): nat {
    if counts == [] then 0 else Doubled(counts[..|counts| - 1]) + (if counts[|counts| - 1] > 1 then 1 else 0)
  }

  lemma {:induction false} DoubledUpdate(counts: seq<nat>, b: nat, c: nat)
    requires b < |counts|
    ensures Doubled(counts[b := c]) + (if counts[b] > 1 then 1 else 0) == Doubled(counts) + (if c > 1 then 1 else 0)
    decreases |counts|
  {
    var n := |counts| - 1;
    if b == n {
      assert counts[b := c][..n] == counts[..n];
    } else {
      DoubledUpdate(counts[..n], b, c);
      assert counts[b := c][..n] == counts[..n][b := c];
    }
  }

  lemma {:induction false} DoubledZeros(counts: seq<nat>)
    requires forall b :: 0 <= b < |counts| ==> counts[b] == 0
    ensures Doubled(counts) == 0
  {
    if counts != [] {
      DoubledZeros(counts[..|counts| - 1]);
    }
  }

  // ---------------------------------------------------------------------------------------------
  // What every step keeps.

  /** A piece as the scheduler sees it: blocks received, requests counted per block, and whether it is
      complete (being hashed, or done). */
  datatype Slot = Slot(plen: nat, have: seq<bool>, counts: seq<nat>, closed: bool)

  ghost predicate SlotOk(sl: Slot) {
    && |sl.have| == |sl.counts| == NumBlocks(sl.plen)
    && (forall b :: 0 <= b < |sl.counts| ==> sl.counts[b] <= 2)
    && (forall b :: 0 <= b < |sl.have| && sl.have[b] ==> sl.counts[b] == 0)
    && (sl.closed ==> forall b :: 0 <= b < |sl.have| ==> sl.have[b])
    && Doubled(sl.counts) <= MAX_HEDGED_BLOCKS
  }

  /** A request for an existing block, with that block's offset and length. */
  predicate Genuine(r: Req, slots: seq<Slot>) {
    && r.index < |slots|
    && r.offset == OffsetOf(BlockOf(r.offset))
    && BlockOf(r.offset) < NumBlocks(slots[r.index].plen)
    && r.length == BlockLen(slots[r.index].plen, BlockOf(r.offset))
  }

  ghost predicate PipelineOk(pipe: Pipeline, slots: seq<Slot>) {
    && |pipe| <= MAX_PIPELINE
    && (forall k :: 0 <= k < |pipe| ==> Genuine(pipe[k], slots))
    && (forall j, k :: 0 <= j < k < |pipe| ==> !Asks(pipe[j], pipe[k].index, BlockOf(pipe[k].offset)))
  }

  ghost predicate Sound(pipes: seq<Pipeline>, slots: seq<Slot>) {
    && (forall p :: 0 <= p < |slots| ==> SlotOk(slots[p]))
    && (forall i :: 0 <= i < |pipes| ==> PipelineOk(pipes[i], slots))
    && (forall p, b :: 0 <= p < |slots| && 0 <= b < |slots[p].counts| ==> slots[p].counts[b] <= Holding(pipes, p, b))
  }

  function WithCount(sl: Slot, b: nat, c: nat): Slot
    requires b < |sl.counts|
  {
    sl.(counts := sl.counts[b := c])
  }

  function Without(pipe: Pipeline, k: nat): Pipeline
    requires k < |pipe|
  {
    pipe[..k] + pipe[k + 1..]
  }

  lemma HasWithout(pipe: Pipeline, slots: seq<Slot>, k: nat)
    requires PipelineOk(pipe, slots) && k < |pipe|
    ensures PipelineOk(Without(pipe, k), slots)
    ensures forall p, b :: Has(Without(pipe, k), p, b) <==> Has(pipe, p, b) && !Asks(pipe[k], p, b)
  {
    hide BlockOf, Genuine;
    var rest := Without(pipe, k);
    forall p, b
      ensures Has(rest, p, b) <==> Has(pipe, p, b) && !Asks(pipe[k], p, b)
    {
      if Has(rest, p, b) {
        var j :| 0 <= j < |rest| && Asks(rest[j], p, b);
        assert rest[j] == pipe[if j < k then j else j + 1];
      }
      if Has(pipe, p, b) && !Asks(pipe[k], p, b) {
        var j :| 0 <= j < |pipe| && Asks(pipe[j], p, b);
        assert pipe[j] == rest[if j < k then j else j - 1];
      }
    }
  }

  /** A change of one slot's counts and of one pipeline keeps everything, if the count of no block
      exceeds the pipelines that hold it. */
  lemma SoundChange(pipes: seq<Pipeline>, slots: seq<Slot>, i: nat, pipe: Pipeline, piece: nat, sl: Slot)
    requires Sound(pipes, slots) && i < |pipes| && piece < |slots|
    requires SlotOk(sl) && sl.plen == slots[piece].plen && PipelineOk(pipe, slots)
    requires forall p, b :: 0 <= p < |slots| && 0 <= b < |slots[p].counts| ==>
               var c := if p == piece then sl.counts[b] else slots[p].counts[b];
               || c == 0
               || c + (if Has(pipes[i], p, b) then 1 else 0) <= slots[p].counts[b] + (if Has(pipe, p, b) then 1 else 0)
    ensures Sound(pipes[i := pipe], slots[piece := sl])
  {
    hide Has, BlockLen, OffsetOf, BlockOf, NumBlocks, SlotOk;
    var pipes', slots' := pipes[i := pipe], slots[piece := sl];
    forall p, b | 0 <= p < |slots'| && 0 <= b < |slots'[p].counts|
      ensures slots'[p].counts[b] <= Holding(pipes', p, b)
    {
      HoldingUpdate(pipes, i, pipe, p, b);
      assert |slots[p].counts| == |slots'[p].counts| by { SameBlocks(slots[p], slots'[p]); }
    }
    forall j | 0 <= j < |pipes'|
      ensures PipelineOk(pipes'[j], slots')
    {
    }
  }

  lemma SameBlocks(a: Slot, b: Slot)
    requires SlotOk(a) && SlotOk(b) && a.plen == b.plen
    ensures |a.counts| == |b.counts|
  {
  }

  lemma HasAlso(pipe: Pipeline, slots: seq<Slot>, r: Req)
    requires PipelineOk(pipe, slots) && |pipe| < MAX_PIPELINE && Genuine(r, slots)
    requires !Has(pipe, r.index, BlockOf(r.offset))
    ensures PipelineOk(pipe + [r], slots)
    ensures forall p, b :: Has(pipe + [r], p, b) <==> Has(pipe, p, b) || Asks(r, p, b)
  {
    hide BlockOf, Genuine;
    var more := pipe + [r];
    assert more[|pipe|] == r;
    forall p, b
      ensures Has(more, p, b) <==> Has(pipe, p, b) || Asks(r, p, b)
    {
      if Has(pipe, p, b) {
        var k :| 0 <= k < |pipe| && Asks(pipe[k], p, b);
        assert more[k] == pipe[k];
      }
    }
  }

  /** Asking one more peer for a block that is missing and asked for at most once. */
  lemma SoundAsk(pipes: seq<Pipeline>, slots: seq<Slot>, i: nat, r: Req)
    requires Sound(pipes, slots) && i < |pipes| && Genuine(r, slots) && |pipes[i]| < MAX_PIPELINE
    requires !Has(pipes[i], r.index, BlockOf(r.offset))
    requires var sl := slots[r.index]; var b := BlockOf(r.offset);
             && b < |sl.counts| == |sl.have| && !sl.have[b]
             && (sl.counts[b] == 0 || (sl.counts[b] == 1 && Doubled(sl.counts) < MAX_HEDGED_BLOCKS))
    ensures var sl := slots[r.index]; var b := BlockOf(r.offset);
            Sound(pipes[i := pipes[i] + [r]], slots[r.index := WithCount(sl, b, sl.counts[b] + 1)])
  {
    hide BlockLen, OffsetOf, BlockOf, NumBlocks;
    var sl, b := slots[r.index], BlockOf(r.offset);
    DoubledUpdate(sl.counts, b, sl.counts[b] + 1);
    HasAlso(pipes[i], slots, r);
    SoundChange(pipes, slots, i, pipes[i] + [r], r.index, WithCount(sl, b, sl.counts[b] + 1));
  }

  /** Taking a request out of a pipeline, when the count goes down with it or to zero. */
  lemma SoundRemove(pipes: seq<Pipeline>, slots: seq<Slot>, i: nat, k: nat, c: nat)
    requires Sound(pipes, slots) && i < |pipes| && k < |pipes[i]|
    requires var r := pipes[i][k];
             && BlockOf(r.offset) < |slots[r.index].counts|
             && (c == 0 || c < slots[r.index].counts[BlockOf(r.offset)])
    ensures var r := pipes[i][k];
            Sound(pipes[i := Without(pipes[i], k)], slots[r.index := WithCount(slots[r.index], BlockOf(r.offset), c)])
  {
    hide BlockLen, OffsetOf, BlockOf, NumBlocks;
    var r := pipes[i][k];
    var sl, b := slots[r.index], BlockOf(r.offset);
    DoubledUpdate(sl.counts, b, c);
    HasWithout(pipes[i], slots, k);
    SoundChange(pipes, slots, i, Without(pipes[i], k), r.index, WithCount(sl, b, c));
  }

  /** A slot whose blocks lose requests, or are received with no request counted, stays sound. */
  lemma SoundSlot(pipes: seq<Pipeline>, slots: seq<Slot>, piece: nat, sl: Slot)
    requires Sound(pipes, slots) && piece < |slots| && SlotOk(sl) && sl.plen == slots[piece].plen
    requires |sl.counts| == |slots[piece].counts|
    requires forall b :: 0 <= b < |sl.counts| ==> sl.counts[b] == 0 || sl.counts[b] <= slots[piece].counts[b]
    ensures Sound(pipes, slots[piece := sl])
  {
    hide Has, BlockLen, OffsetOf, BlockOf, NumBlocks, SlotOk, Holding;
    var slots' := slots[piece := sl];
    forall i | 0 <= i < |pipes|
      ensures PipelineOk(pipes[i], slots')
    {
      assert PipelineOk(pipes[i], slots);
    }
  }

  /** A request that leaves pipeline `i` for a pipeline of its own is still held. */
  lemma SoundMove(pipes: seq<Pipeline>, slots: seq<Slot>, i: nat, k: nat)
    requires Sound(pipes, slots) && i < |pipes| && k < |pipes[i]|
    ensures Sound(pipes[i := Without(pipes[i], k)] + [[pipes[i][k]]], slots)
  {
    hide BlockLen, OffsetOf, BlockOf, NumBlocks, SlotOk;
    var rest, own := pipes[i := Without(pipes[i], k)], [pipes[i][k]];
    HasWithout(pipes[i], slots, k);
    assert (rest + [own])[..|rest|] == rest;
    forall p, b | 0 <= p < |slots| && 0 <= b < |slots[p].counts|
      ensures slots[p].counts[b] <= Holding(rest + [own], p, b)
    {
      HoldingUpdate(pipes, i, Without(pipes[i], k), p, b);
      assert Asks(own[0], p, b) ==> Has(own, p, b);
    }
    assert PipelineOk(own, slots) by {
      assert PipelineOk(pipes[i], slots);
    }
  }

  lemma FrontUpdate(pipes: seq<Pipeline>, lost: seq<Pipeline>, i: nat, pipe: Pipeline)
    requires i < |pipes|
    ensures (pipes + lost)[i := pipe] == pipes[i := pipe] + lost && (pipes + lost)[i] == pipes[i]
  {
  }

  /** One request fewer is counted for the block of a request that is given back. */
  function GivenBack(slots: seq<Slot>, r: Req): (s: seq<Slot>)
    ensures |s| == |slots|
  {
    if r.index < |slots| && BlockOf(r.offset) < |slots[r.index].counts| then
      var sl, b := slots[r.index], BlockOf(r.offset);
      slots[r.index := WithCount(sl, b, if sl.counts[b] > 0 then sl.counts[b] - 1 else 0)]
    else slots
  }

  /** The same for several, one after another. */
  function Released(slots: seq<Slot>, rs: Pipeline): (s: seq<Slot>)
    ensures |s| == |slots|
  {
    if rs == [] then slots else GivenBack(Released(slots, rs[..|rs| - 1]), rs[|rs| - 1])
  }

  lemma {:induction false} ReleasedNext(slots: seq<Slot>, rs: Pipeline, r: Req)
    ensures Released(slots, rs + [r]) == GivenBack(Released(slots, rs), r)
  {
    hide GivenBack;
    assert (rs + [r])[..|rs|] == rs;
  }

  lemma {:induction false} ReleasedNone(slots: seq<Slot>)
    ensures Released(slots, []) == slots
  {
  }

  /** The point of it all: a missing block that no pipeline holds counts as not requested, so the
      scheduler will ask for it again; and a received block is never counted. */
  lemma NoStrandedBlock(pipes: seq<Pipeline>, slots: seq<Slot>, piece: nat, block: nat)
    requires Sound(pipes, slots) && piece < |slots| && block < |slots[piece].counts|
    ensures (forall i :: 0 <= i < |pipes| ==> !Has(pipes[i], piece, block)) ==> slots[piece].counts[block] == 0
    ensures block < |slots[piece].have| && (slots[piece].have[block] ==> slots[piece].counts[block] == 0)
  {
    hide Has, BlockLen, OffsetOf, BlockOf, NumBlocks;
    assert SlotOk(slots[piece]);
    if forall i :: 0 <= i < |pipes| ==> !Has(pipes[i], piece, block) {
      HoldingNone(pipes, piece, block);
    }
  }

  lemma {:induction false} HoldingNone(pipes: seq<Pipeline>, piece: nat, block: nat)
    requires forall i :: 0 <= i < |pipes| ==> !Has(pipes[i], piece, block)
    ensures Holding(pipes, piece, block) == 0
    decreases |pipes|
  {
    hide Has;
    if pipes != [] {
      HoldingNone(pipes[..|pipes| - 1], piece, block);
    }
  }

  // ---------------------------------------------------------------------------------------------
  // The steps.

  datatype PeerInfo = PeerInfo(active: bool, choked: bool, cooldownUntil: nat, has: seq<bool>,
                               strikes: nat, lastPieceMs: nat, limit: nat)

  /** What may happen to a block: its piece has no buffer and none can be allocated; or, when it is the last
      one of its piece, that is handed to the hash worker, or hashed inline. */
  datatype Outcome = NoBuffer | Queued | Verified | Mismatch | WriteError

  /** The requests not yet older than `timeout`. */
  function Unexpired(pipe: Pipeline, now: nat, timeout: nat): Pipeline {
    if pipe == [] then []
    else
      var front := Unexpired(pipe[..|pipe| - 1], now, timeout);
      var r := pipe[|pipe| - 1];
      if Expired(r, now, timeout) then front else front + [r]
  }

  /** The others. */
  function Overdue(pipe: Pipeline, now: nat, timeout: nat): Pipeline {
    if pipe == [] then []
    else
      var front := Overdue(pipe[..|pipe| - 1], now, timeout);
      var r := pipe[|pipe| - 1];
      if Expired(r, now, timeout) then front + [r] else front
  }

  lemma UnexpiredNone(now: nat, timeout: nat)
    ensures Unexpired([], now, timeout) == [] && Overdue([], now, timeout) == []
  {
  }

  lemma UnexpiredNext(pipe: Pipeline, k: nat, now: nat, timeout: nat)
    requires k < |pipe|
    ensures Unexpired(pipe[..k + 1], now, timeout)
            == Unexpired(pipe[..k], now, timeout) + (if Expired(pipe[k], now, timeout) then [] else [pipe[k]])
    ensures Overdue(pipe[..k + 1], now, timeout)
            == Overdue(pipe[..k], now, timeout) + (if Expired(pipe[k], now, timeout) then [pipe[k]] else [])
  {
    assert pipe[..k + 1][..k] == pipe[..k];
  }

  /** Entry `k` between those kept and those still to be looked at. */
  lemma Splice(kept: Pipeline, pipe: Pipeline, k: nat)
    requires k < |pipe|
    ensures |kept| < |kept + pipe[k..]| && (kept + pipe[k..])[|kept|] == pipe[k]
    ensures Without(kept + pipe[k..], |kept|) == kept + pipe[k + 1..]
    ensures kept + pipe[k..] == kept + [pipe[k]] + pipe[k + 1..]
  {
  }

  predicate Expired(r: Req, now: nat, timeout: nat) {
    r.requestedMs <= now && now - r.requestedMs >= timeout
  }

  /** Preferred for a hedge: fewer strikes, then a more recent delivery, then a shorter pipeline. */
  predicate Preferred(a: PeerInfo, aLen: nat, b: PeerInfo, bLen: nat) {
    || a.strikes < b.strikes
    || (a.strikes == b.strikes && a.lastPieceMs > b.lastPieceMs)
    || (a.strikes == b.strikes && a.lastPieceMs == b.lastPieceMs && aLen < bLen)
  }

  class Swarm {
    var peers: seq<PeerInfo>
    var pipes: seq<Pipeline>
    var slots: seq<Slot>
    /** Set by an error that ends the torrent at the next tick. */
    var fatal: bool
    /** Requests whose block arrived when its piece had no buffer and none could be allocated: they have
        left their pipelines and are still counted. */
    ghost var lost: seq<Pipeline>

    ghost predicate Booked()
      reads this
    {
      |peers| == |pipes| && Sound(pipes + lost, slots)
    }

    ghost predicate Valid()
      reads this
    {
      Booked() && (lost != [] ==> fatal)
    }

    /** Nothing received, nobody asked for anything. */
    constructor (peers: seq<PeerInfo>, plens: seq<nat>)
      ensures Valid() && !fatal && lost == [] && this.peers == peers && |slots| == |plens|
      ensures forall i :: 0 <= i < |pipes| ==> pipes[i] == []
      ensures forall p :: 0 <= p < |slots| ==> slots[p] == Blank(plens[p])
    {
      hide Has, BlockLen, OffsetOf, BlockOf, NumBlocks, Holding, Doubled;
      this.peers, fatal, lost := peers, false, [];
      pipes := seq(|peers|, _ => []);
      slots := seq(|plens|, p requires 0 <= p < |plens| => Blank(plens[p]));
      new;
      forall p | 0 <= p < |slots|
        ensures SlotOk(slots[p])
      {
        DoubledZeros(slots[p].counts);
      }
    }

    /** What peer `i` tells us changes, or another peer takes the place of one that is gone. */
    method Meet(i: nat, info: PeerInfo)
      requires Valid() && i < |peers|
      modifies this`peers
      ensures Valid() && peers == old(peers)[i := info]
    {
      peers := peers[i := info];
    }

    /** At a living torrent, a missing block that no peer is asked for counts as not requested; otherwise
        it is one of those lost for want of a buffer. */
    lemma Stranded(piece: nat, block: nat)
      requires Valid() && piece < |slots| && block < |slots[piece].counts|
      requires forall i :: 0 <= i < |pipes| ==> !Has(pipes[i], piece, block)
      ensures slots[piece].counts[block] > 0 ==> fatal && exists l <- lost :: Has(l, piece, block)
    {
      hide Has, BlockLen, OffsetOf, BlockOf, NumBlocks, Holding, SlotOk;
      if forall l <- lost :: !Has(l, piece, block) {
        forall i | 0 <= i < |pipes + lost|
          ensures !Has((pipes + lost)[i], piece, block)
        {
          if i >= |pipes| {
            assert (pipes + lost)[i] in lost;
          }
        }
        NoStrandedBlock(pipes + lost, slots, piece, block);
      }
    }

    /** Ask peer `i`: queue the request and count it, unless its pipeline is full or sending fails. */
    method Ask(i: nat, r: Req) returns (ok: bool)
      requires Valid() && i < |pipes| && Genuine(r, slots)
      requires !Has(pipes[i], r.index, BlockOf(r.offset))
      requires var sl := slots[r.index]; var b := BlockOf(r.offset);
               && b < |sl.counts| == |sl.have| && !sl.have[b]
               && (sl.counts[b] == 0 || (sl.counts[b] == 1 && Doubled(sl.counts) < MAX_HEDGED_BLOCKS))
      modifies this`pipes, this`slots
      ensures Valid()
      ensures if ok
              then pipes == old(pipes)[i := old(pipes)[i] + [r]]
                   && var sl := old(slots)[r.index]; var b := BlockOf(r.offset);
                      slots == old(slots)[r.index := WithCount(sl, b, sl.counts[b] + 1)]
              else pipes == old(pipes) && slots == old(slots)
    {
      hide Has, BlockLen, OffsetOf, BlockOf, NumBlocks, Sound, Doubled, Holding;
      if |pipes[i]| >= MAX_PIPELINE {
        return false;
      }
      var sent: bool := *;
      if !sent {
        return false;
      }
      SoundAsk(pipes + lost, slots, i, r);
      FrontUpdate(pipes, lost, i, pipes[i] + [r]);
      var sl, b := slots[r.index], BlockOf(r.offset);
      pipes := pipes[i := pipes[i] + [r]];
      slots := slots[r.index := WithCount(sl, b, sl.counts[b] + 1)];
      return true;
    }

    method InPipeline(i: nat, piece: nat, block: nat) returns (found: bool)
      requires i < |pipes|
      ensures found <==> Has(pipes[i], piece, block)
    {
      hide BlockOf;
      for j := 0 to |pipes[i]|
        invariant forall k :: 0 <= k < j ==> !Asks(pipes[i][k], piece, block)
      {
        if Asks(pipes[i][j], piece, block) {
          return true;
        }
      }
      return false;
    }

    /** Ask peer `i` for every requestable block of a piece while its pipeline is below `limit`. When
        nothing cut the loop short, no requestable block is left but those it was asked for before. */
    method SchedulePiece(i: nat, piece: nat, limit: nat, now: nat) returns (queued: nat, failed: bool)
      requires Valid() && i < |pipes| && piece < |slots|
      modifies this`pipes, this`slots
      ensures Valid() && |pipes| == |old(pipes)| && |slots| == |old(slots)|
      ensures |pipes[i]| == |old(pipes)[i]| + queued
      ensures slots[piece].have == old(slots)[piece].have && slots[piece].plen == old(slots)[piece].plen
      ensures |slots[piece].counts| == |slots[piece].have| == NumBlocks(slots[piece].plen)
      ensures !failed && |pipes[i]| < limit ==>
                forall b :: 0 <= b < |slots[piece].have| ==>
                  slots[piece].have[b] || slots[piece].counts[b] > 0 || Has(pipes[i], piece, b)
    {
      hide Has, BlockLen, OffsetOf, BlockOf, NumBlocks;
      queued, failed := 0, false;
      var nb := |slots[piece].have|;
      assert SlotOk(slots[piece]);
      var b := 0;
      while b < nb && |pipes[i]| < limit
        invariant Valid() && |pipes| == |old(pipes)| && |slots| == |old(slots)|
        invariant 0 <= b <= nb == |slots[piece].have| == |slots[piece].counts|
        invariant |pipes[i]| == |old(pipes)[i]| + queued
        invariant slots[piece].have == old(slots)[piece].have && slots[piece].plen == old(slots)[piece].plen
        invariant !failed ==>
                    forall c :: 0 <= c < b ==>
                      slots[piece].have[c] || slots[piece].counts[c] > 0 || Has(pipes[i], piece, c)
      {
        var sl := slots[piece];
        assert SlotOk(sl);
        if !sl.have[b] && sl.counts[b] == 0 {
          var asked := InPipeline(i, piece, b);
          if !asked {
            var r := Req(piece, OffsetOf(b), BlockLen(sl.plen, b), now);
            BlockOfOffset(b);
            HasLonger(pipes[i], r, piece);
            var ok := Ask(i, r);
            if ok {
              queued := queued + 1;
            } else {
              failed := true;
            }
          }
        }
        b := b + 1;
      }
      assert SlotOk(slots[piece]);
    }

    /** Fill one peer's pipeline. Which piece is picked next is the picker's choice. */
    method Schedule(i: nat, now: nat)
      requires Valid() && i < |pipes|
      modifies this`pipes, this`slots
      ensures Valid() && |pipes| == |old(pipes)|
    {
      hide Sound;
      var p := peers[i];
      if p.choked || !p.active || p.cooldownUntil > now {
        return;
      }
      var queued := 1;
      while |pipes[i]| < p.limit && queued > 0
        invariant Valid() && |pipes| == |old(pipes)|
        decreases p.limit - |pipes[i]|, queued
      {
        var pick: int := *;
        if pick < 0 || pick >= |slots| || slots[pick].closed {
          break;
        }
        var failed;
        queued, failed := SchedulePiece(i, pick, p.limit, now);
        if queued == 0 {
          break;
        }
      }
    }

    /** The best peer to ask a second time, if any peer may be asked. */
    method PickHedgePeer(primary: nat, piece: nat, block: nat, now: nat) returns (best: int)
      requires Valid()
      ensures -1 <= best < |peers|
      ensures best >= 0 ==> Eligible(best, primary, piece, block, now)
      ensures forall i :: 0 <= i < |peers| && Eligible(i, primary, piece, block, now) ==>
                best >= 0 && !Preferred(peers[i], |pipes[i]|, peers[best], |pipes[best]|)
    {
      hide Has, Sound, BlockOf;
      best := -1;
      for i := 0 to |peers|
        invariant -1 <= best < i
        invariant best >= 0 ==> Eligible(best, primary, piece, block, now)
        invariant forall j :: 0 <= j < i && Eligible(j, primary, piece, block, now) ==>
                    best >= 0 && !Preferred(peers[j], |pipes[j]|, peers[best], |pipes[best]|)
      {
        var asked := InPipeline(i, piece, block);
        var p := peers[i];
        if i == primary || !p.active || p.choked || p.cooldownUntil > now || piece >= |p.has| || !p.has[piece]
           || asked || |pipes[i]| >= p.limit {
          continue;
        }
        if best < 0 || Preferred(p, |pipes[i]|, peers[best], |pipes[best]|) {
          best := i;
        }
      }
    }

    predicate Eligible(i: nat, primary: nat, piece: nat, block: nat, now: nat)
      requires i < |peers| == |pipes|
      reads this
    {
      var p := peers[i];
      && i != primary && p.active && !p.choked && p.cooldownUntil <= now
      && piece < |p.has| && p.has[piece]
      && !Has(pipes[i], piece, block) && |pipes[i]| < p.limit
    }

    /** Ask a second peer for old requests of the head piece, within the cap on doubled blocks. */
    method Hedge(head: nat, hedgeAfter: nat, now: nat)
      requires Valid() && head < |slots|
      modifies this`pipes, this`slots
      ensures Valid() && |pipes| == |old(pipes)| && |slots| == |old(slots)|
      ensures Doubled(slots[head].counts) <= Doubled(old(slots)[head].counts) + MAX_HEDGES_PER_TICK
    {
      hide Has, BlockLen, OffsetOf, BlockOf, NumBlocks, Sound, Doubled;
      var outstanding := CountDoubled(head);
      if outstanding >= MAX_HEDGED_BLOCKS {
        return;
      }
      var budget := MAX_HEDGED_BLOCKS - outstanding;
      if budget > MAX_HEDGES_PER_TICK {
        budget := MAX_HEDGES_PER_TICK;
      }
      var hedged := 0;
      var i := 0;
      while i < |peers| && hedged < budget
        invariant 0 <= i && 0 <= hedged <= budget
        invariant Valid() && |pipes| == |old(pipes)| && |slots| == |old(slots)|
        invariant Doubled(slots[head].counts) == outstanding + hedged
        decreases |peers| - i
      {
        if peers[i].active {
          label L:
          var j := 0;
          while j < |pipes[i]| && hedged < budget
            invariant 0 <= j && 0 <= hedged <= budget && 0 <= i < |peers|
            invariant Valid() && |pipes| == |old(pipes)| && |slots| == |old(slots)| && |pipes[i]| == |old@L(pipes)[i]|
            invariant Doubled(slots[head].counts) == outstanding + hedged
            decreases |pipes[i]| - j
          {
            var ok := HedgeOne(i, j, head, hedgeAfter, now);
            if ok {
              hedged := hedged + 1;
            }
            j := j + 1;
          }
        }
        i := i + 1;
      }
    }

    method CountDoubled(head: nat) returns (n: nat)
      requires Valid() && head < |slots|
      ensures n == Doubled(slots[head].counts) <= MAX_HEDGED_BLOCKS
    {
      hide Has, BlockLen, OffsetOf, BlockOf, NumBlocks, Holding;
      var counts := slots[head].counts;
      assert SlotOk(slots[head]);
      n := 0;
      for b := 0 to |counts|
        invariant n == Doubled(counts[..b])
      {
        assert counts[..b + 1][..b] == counts[..b];
        if counts[b] > 1 {
          n := n + 1;
        }
      }
      assert counts[..|counts|] == counts;
    }

    /** Hedge one request of peer `i`, if it is old, of the head piece, still missing and asked once. */
    method HedgeOne(i: nat, j: nat, head: nat, hedgeAfter: nat, now: nat) returns (ok: bool)
      requires Valid() && i < |pipes| && j < |pipes[i]| && head < |slots|
      requires Doubled(slots[head].counts) < MAX_HEDGED_BLOCKS
      modifies this`pipes, this`slots
      ensures Valid() && |pipes| == |old(pipes)| && |slots| == |old(slots)| && pipes[i] == old(pipes)[i]
      ensures Doubled(slots[head].counts) == Doubled(old(slots)[head].counts) + (if ok then 1 else 0)
      ensures !ok ==> pipes == old(pipes) && slots == old(slots)
      ensures ok ==>
                var r := old(pipes)[i][j].(requestedMs := now);
                && BlockOf(r.offset) < |old(slots)[head].counts|
                && slots == old(slots)[head := WithCount(old(slots)[head], BlockOf(r.offset), 2)]
                && exists c :: 0 <= c < |old(pipes)| && c != i && pipes == old(pipes)[c := old(pipes)[c] + [r]]
    {
      hide Has, BlockLen, OffsetOf, BlockOf, NumBlocks;
      FrontUpdate(pipes, lost, i, pipes[i]);
      var request := pipes[i][j];
      if request.index != head || request.requestedMs > now || now - request.requestedMs < hedgeAfter {
        return false;
      }
      var block := BlockOf(request.offset);
      assert SlotOk(slots[head]) && PipelineOk(pipes[i], slots) && Genuine(request, slots);
      if slots[head].have[block] || slots[head].counts[block] != 1 {
        return false;
      }
      var candidate := PickHedgePeer(i, head, block, now);
      if candidate < 0 {
        return false;
      }
      DoubledUpdate(slots[head].counts, block, 2);
      ok := Ask(candidate, request.(requestedMs := now));
    }

    /** Drop the requests of peer `i` that are older than `timeout`; their blocks count as asked for
        once less. */
    method Expire(i: nat, now: nat, timeout: nat) returns (expired: nat)
      requires Valid() && i < |pipes|
      modifies this`pipes, this`slots
      ensures Valid() && pipes == old(pipes)[i := Unexpired(old(pipes)[i], now, timeout)]
      ensures expired == |old(pipes)[i]| - |pipes[i]|
      ensures slots == Released(old(slots), Overdue(old(pipes)[i], now, timeout))
    {
      hide Sound, Unexpired, Overdue, Expired, BlockOf, Released, GivenBack;
      var pipe := pipes[i];
      var kept: Pipeline := [];
      expired := 0;
      assert kept + pipe[0..] == pipe && pipes[i := pipe] == pipes;
      UnexpiredNone(now, timeout);
      ReleasedNone(slots);
      for k := 0 to |pipe|
        invariant pipes == old(pipes) && Sound(pipes[i := kept + pipe[k..]] + lost, slots)
        invariant kept == Unexpired(pipe[..k], now, timeout) && expired == k - |kept|
        invariant slots == Released(old(slots), Overdue(pipe[..k], now, timeout))
      {
        UnexpiredNext(pipe, k, now, timeout);
        Splice(kept, pipe, k);
        assert Overdue(pipe[..k], now, timeout) + [] == Overdue(pipe[..k], now, timeout);
        if Expired(pipe[k], now, timeout) {
          FrontUpdate(pipes[i := kept + pipe[k..]], lost, i, kept + pipe[k + 1..]);
          ReleasedNext(old(slots), Overdue(pipe[..k], now, timeout), pipe[k]);
          Release(pipe[k], pipes[i := kept + pipe[k..]] + lost, i, |kept|);
          assert pipes[i := kept + pipe[k..]][i := kept + pipe[k + 1..]] == pipes[i := kept + pipe[k + 1..]];
          expired := expired + 1;
        } else {
          kept := kept + [pipe[k]];
        }
      }
      assert pipe[..|pipe|] == pipe && kept + pipe[|pipe|..] == kept;
      pipes := pipes[i := kept];
    }

    /** `clear_request`: one request fewer counted, for the entry `k` that leaves pipeline `i`. */
    method Release(r: Req, ghost view: seq<Pipeline>, ghost i: nat, ghost k: nat)
      requires Sound(view, slots) && i < |view| && k < |view[i]| && view[i][k] == r
      modifies this`slots
      ensures Sound(view[i := Without(view[i], k)], slots) && slots == GivenBack(old(slots), r)
    {
      hide Has, BlockLen, OffsetOf, BlockOf, NumBlocks, Doubled, Holding;
      assert PipelineOk(view[i], slots) && Genuine(r, slots) && SlotOk(slots[r.index]);
      var sl, b := slots[r.index], BlockOf(r.offset);
      var c := if sl.counts[b] > 0 then sl.counts[b] - 1 else 0;
      SoundRemove(view, slots, i, k, c);
      slots := slots[r.index := WithCount(sl, b, c)];
    }

    /** A peer that chokes us or goes away gives back all its requests. */
    method ClearPeer(i: nat)
      requires Valid() && i < |pipes|
      modifies this`pipes, this`slots
      ensures Valid() && pipes == old(pipes)[i := []] && slots == Released(old(slots), old(pipes)[i])
    {
      hide Sound, Released, GivenBack;
      var pipe := pipes[i];
      assert pipe[0..] == pipe && pipes[i := pipe] == pipes && pipe[..0] == [];
      ReleasedNone(slots);
      for k := 0 to |pipe|
        invariant pipes == old(pipes) && Sound(pipes[i := pipe[k..]] + lost, slots)
        invariant slots == Released(old(slots), pipe[..k])
      {
        assert Without(pipe[k..], 0) == pipe[k + 1..] && pipe[..k + 1] == pipe[..k] + [pipe[k]];
        FrontUpdate(pipes[i := pipe[k..]], lost, i, pipe[k + 1..]);
        ReleasedNext(old(slots), pipe[..k], pipe[k]);
        Release(pipe[k], pipes[i := pipe[k..]] + lost, i, 0);
        assert pipes[i := pipe[k..]][i := pipe[k + 1..]] == pipes[i := pipe[k + 1..]];
      }
      assert pipe[|pipe|..] == [] && pipe[..|pipe|] == pipe;
      pipes := pipes[i := []];
    }

    /** A piece that failed its hash, its write or a later check starts again with nothing requested. */
    method ResetPiece(piece: nat)
      requires Booked() && piece < |slots|
      modifies this`slots
      ensures Booked() && (old(Valid()) ==> Valid()) && |slots| == |old(slots)|
      ensures slots[piece] == Emptied(old(slots)[piece])
      ensures forall p :: 0 <= p < |slots| && p != piece ==> slots[p] == old(slots)[p]
    {
      hide Has, BlockLen, OffsetOf, BlockOf, Holding;
      var sl := Emptied(slots[piece]);
      DoubledZeros(sl.counts);
      SoundSlot(pipes + lost, slots, piece, sl);
      slots := slots[piece := sl];
    }

    /** A PIECE frame from peer `i`, with what the callback makes of it. Only an outstanding request, matched
        in full, gets through. The block is then received, whatever becomes of its piece, and nobody is
        asked for it any more; unless its piece has no buffer and none can be allocated. Then the request has
        left the pipeline, nothing else has changed, and the torrent is about to end. */
    method ReceivePiece(i: nat, piece: nat, offset: nat, length: int, outcome: Outcome)
        returns (taken: bool, result: int)
      requires Valid() && i < |pipes|
      modifies this`pipes, this`slots, this`fatal, this`lost
      ensures Valid() && |slots| == |old(slots)| && |pipes| == |old(pipes)|
      ensures taken <==> exists k :: 0 <= k < |old(pipes)[i]| && var r := old(pipes)[i][k];
                           r.index == piece && r.offset == offset && r.length == length
      ensures !taken ==> pipes == old(pipes) && slots == old(slots) && lost == old(lost)
      ensures fatal == (old(fatal) || (taken && result == -1))
      ensures taken ==> piece < |slots| && BlockOf(offset) < |slots[piece].counts| == |slots[piece].have|
      ensures taken && result == -1 ==> outcome in {WriteError, NoBuffer}
      ensures taken && outcome == NoBuffer ==>
                (result == -1 <==> !old(slots)[piece].closed && !(true in old(slots)[piece].have))
      ensures taken && !(result == -1 && outcome == NoBuffer) ==>
                lost == old(lost) && slots[piece].counts[BlockOf(offset)] == 0
      ensures taken && result == -1 && outcome == NoBuffer ==>
                && slots == old(slots) && !(true in slots[piece].have)
                && |lost| == |old(lost)| + 1 && Has(lost[|lost| - 1], piece, BlockOf(offset))
                && (forall j :: 0 <= j < |pipes| && j != i ==> pipes[j] == old(pipes)[j])
                && |pipes[i]| == |old(pipes)[i]| - 1
      ensures taken && result >= 1 ==> slots[piece].have[BlockOf(offset)]
      ensures taken ==> !Has(pipes[i], piece, BlockOf(offset))
    {
      hide BlockLen, OffsetOf, BlockOf, NumBlocks, Doubled, Holding, Sound, Has, PipelineOk, SlotOk;
      taken, result := false, 0;
      for k := 0 to |pipes[i]|
        invariant pipes == old(pipes) && slots == old(slots) && lost == old(lost) && fatal == old(fatal)
        invariant forall j :: 0 <= j < k ==> var r := pipes[i][j];
                    !(r.index == piece && r.offset == offset && r.length == length)
      {
        var r := pipes[i][k];
        if r.index == piece && r.offset == offset && r.length == length {
          taken := true;
          TakesOut(i, k);
          pipes := pipes[i := Without(pipes[i], k)];
          var duplicated := slots[piece].counts[BlockOf(offset)] > 1;
          result := GotBlock(r, outcome);
          if result >= 1 && duplicated {
            CancelDuplicates(piece, BlockOf(offset), i);
          }
          if result < 0 {
            fatal := true;
          }
          return;
        }
      }
    }

    /** What holds once a request has left its pipeline, still counted. */
    lemma TakesOut(i: nat, k: nat)
      requires Valid() && i < |pipes| && k < |pipes[i]|
      ensures var r, rest := pipes[i][k], pipes[i := Without(pipes[i], k)];
              && r.index < |slots| && Genuine(r, slots) && SlotOk(slots[r.index])
              && BlockOf(r.offset) < |slots[r.index].counts|
              && Sound(rest + lost, slots[r.index := WithCount(slots[r.index], BlockOf(r.offset), 0)])
              && Sound(rest + (lost + [[r]]), slots)
              && !Has(rest[i], r.index, BlockOf(r.offset)) && Has([r], r.index, BlockOf(r.offset))
    {
      hide BlockLen, OffsetOf, BlockOf, NumBlocks, Doubled, Holding;
      FrontUpdate(pipes, lost, i, Without(pipes[i], k));
      assert PipelineOk(pipes[i], slots) by {
        assert PipelineOk((pipes + lost)[i], slots);
      }
      var r := pipes[i][k];
      assert Genuine(r, slots) && SlotOk(slots[r.index]);
      SoundRemove(pipes + lost, slots, i, k, 0);
      SoundMove(pipes + lost, slots, i, k);
      var rest := pipes[i := Without(pipes[i], k)];
      assert rest + lost + [[r]] == rest + (lost + [[r]]);
      HasWithout(pipes[i], slots, k);
      assert Asks([r][0], r.index, BlockOf(r.offset));
    }

    /** `piece_mgr_got_block`, as far as the scheduler is concerned: 1 stored or not needed, 2 verified
        inline, 0 mismatch, -1 error. The request has left its pipeline but is still counted. */
    method GotBlock(r: Req, outcome: Outcome) returns (result: int)
      requires r.index < |slots| && Genuine(r, slots) && SlotOk(slots[r.index])
      requires BlockOf(r.offset) < |slots[r.index].counts|
      requires |peers| == |pipes|
      requires Sound(pipes + lost, slots[r.index := WithCount(slots[r.index], BlockOf(r.offset), 0)])
      requires Sound(pipes + (lost + [[r]]), slots)
      modifies this`slots, this`lost
      ensures Booked() && |slots| == |old(slots)| && |slots[r.index].counts| == |slots[r.index].have|
      ensures -1 <= result <= 2 && BlockOf(r.offset) < |slots[r.index].counts|
      ensures result == -1 ==> outcome in {WriteError, NoBuffer}
      ensures outcome == NoBuffer ==>
                (result == -1 <==> !old(slots)[r.index].closed && !(true in old(slots)[r.index].have))
      ensures result == -1 && outcome == NoBuffer ==>
                lost == old(lost) + [[r]] && slots == old(slots) && !(true in slots[r.index].have)
      ensures !(result == -1 && outcome == NoBuffer) ==>
                lost == old(lost) && slots[r.index].counts[BlockOf(r.offset)] == 0
      ensures result >= 1 ==> slots[r.index].have[BlockOf(r.offset)]
    {
      hide Has, BlockLen, OffsetOf, NumBlocks, Doubled, Holding, Sound;
      var piece := r.index;
      var sl, b := slots[piece], BlockOf(r.offset);
      if sl.closed {
        assert WithCount(sl, b, 0) == sl && slots[piece := sl] == slots;
        return 1;
      }
      if r.offset != OffsetOf(b) || r.length != BlockLen(sl.plen, b) || b >= |sl.have| {
        assert false;
      }
      // a piece that has received something has a buffer
      if outcome == NoBuffer && !(true in sl.have) {
        lost := lost + [[r]];
        return -1;
      }
      StoreBlock(piece, b);
      if exists c :: 0 <= c < |slots[piece].have| && !slots[piece].have[c] {
        return 1;
      }
      if outcome == Mismatch || outcome == WriteError {
        ResetPiece(piece);
        return if outcome == Mismatch then 0 else -1;
      }
      Close(piece);
      return if outcome == Verified then 2 else 1;
    }

    /** The block is there, and nobody counts as asked for it. */
    method StoreBlock(piece: nat, b: nat)
      requires piece < |slots| && SlotOk(slots[piece]) && !slots[piece].closed && b < |slots[piece].counts|
      requires |peers| == |pipes| && Sound(pipes + lost, slots[piece := WithCount(slots[piece], b, 0)])
      modifies this`slots
      ensures Booked() && |slots| == |old(slots)| && b < |slots[piece].counts| == |slots[piece].have|
      ensures var sl := old(slots)[piece];
              b < |sl.have| && slots == old(slots)[piece := WithCount(sl, b, 0).(have := sl.have[b := true])]
    {
      hide Has, BlockLen, OffsetOf, BlockOf, NumBlocks, Doubled, Holding;
      var sl := slots[piece];
      var cleared := WithCount(sl, b, 0);
      var received := cleared.(have := sl.have[b := true]);
      DoubledUpdate(sl.counts, b, 0);
      ghost var view := slots[piece := cleared];
      SoundSlot(pipes + lost, view, piece, received);
      assert view[piece := received] == slots[piece := received];
      slots := slots[piece := received];
    }

    /** All blocks are there: the piece takes no more. */
    method Close(piece: nat)
      requires Booked() && piece < |slots| && forall c :: 0 <= c < |slots[piece].have| ==> slots[piece].have[c]
      modifies this`slots
      ensures Booked() && slots == old(slots)[piece := old(slots)[piece].(closed := true)]
      ensures |slots[piece].have| == |slots[piece].counts|
      ensures forall b :: 0 <= b < |slots[piece].counts| ==> slots[piece].counts[b] == 0
    {
      hide Has, BlockLen, OffsetOf, BlockOf, NumBlocks, Doubled, Holding;
      SoundSlot(pipes + lost, slots, piece, slots[piece].(closed := true));
      slots := slots[piece := slots[piece].(closed := true)];
      assert SlotOk(slots[piece]);
    }

    /** Tell the other peers to drop a received block. Those that can be told forget the request. */
    method CancelDuplicates(piece: nat, block: nat, ghost except: nat)
      requires Valid() && piece < |slots| && block < |slots[piece].counts| && slots[piece].counts[block] == 0
      requires except < |pipes| && !Has(pipes[except], piece, block)
      modifies this`pipes
      ensures Valid() && |pipes| == |old(pipes)| && !Has(pipes[except], piece, block)
      ensures forall j :: 0 <= j < |pipes| ==>
                pipes[j] == old(pipes)[j] || (peers[j].active && Dropped(old(pipes)[j], pipes[j], piece, block))
    {
      hide Sound, Has, BlockOf, Dropped;
      for i := 0 to |peers|
        invariant Valid() && |pipes| == |old(pipes)| && !Has(pipes[except], piece, block)
        invariant forall j :: 0 <= j < i ==>
                    pipes[j] == old(pipes)[j] || (peers[j].active && Dropped(old(pipes)[j], pipes[j], piece, block))
        invariant forall j :: i <= j < |pipes| ==> pipes[j] == old(pipes)[j]
      {
        if peers[i].active {
          CancelAt(i, piece, block, except);
        }
      }
    }

    method CancelAt(i: nat, piece: nat, block: nat, ghost except: nat)
      requires Valid() && piece < |slots| && block < |slots[piece].counts| && slots[piece].counts[block] == 0
      requires i < |pipes| && except < |pipes| && !Has(pipes[except], piece, block)
      modifies this`pipes
      ensures Valid() && |pipes| == |old(pipes)| && !Has(pipes[except], piece, block)
      ensures pipes[i] == old(pipes)[i] || Dropped(old(pipes)[i], pipes[i], piece, block)
      ensures forall j :: 0 <= j < |pipes| && j != i ==> pipes[j] == old(pipes)[j]
    {
      hide BlockLen, OffsetOf, BlockOf, NumBlocks, Doubled, Holding;
      for k := 0 to |pipes[i]|
        invariant pipes == old(pipes)
      {
        if Asks(pipes[i][k], piece, block) {
          var sent: bool := *;
          if sent {
            FrontUpdate(pipes, lost, i, Without(pipes[i], k));
            SoundRemove(pipes + lost, slots, i, k, 0);
            HasWithout(pipes[i], slots, k) by {
              assert PipelineOk((pipes + lost)[i], slots);
            }
            assert slots[piece].counts[block := 0] == slots[piece].counts;
            assert slots[piece := WithCount(slots[piece], block, 0)] == slots;
            pipes := pipes[i := Without(pipes[i], k)];
          }
          return;
        }
      }
    }
  }

  /** The pipeline without its request for the block. */
  ghost predicate Dropped(before: Pipeline, after: Pipeline, piece: nat, block: nat) {
    exists k :: 0 <= k < |before| && Asks(before[k], piece, block) && after == Without(before, k)
  }

  /** A piece of which nothing has been received or requested. */
  function Blank(plen: nat): Slot {
    Slot(plen, seq(NumBlocks(plen), _ => false), seq(NumBlocks(plen), _ => 0), false)
  }

  /** Nothing received, nothing requested. */
  function Emptied(sl: Slot): Slot {
    Slot(sl.plen, seq(|sl.have|, _ => false), seq(|sl.counts|, _ => 0), false)
  }

  lemma HasLonger(pipe: Pipeline, r: Req, piece: nat)
    ensures forall c :: Has(pipe + [r], piece, c) <==> Has(pipe, piece, c) || Asks(r, piece, c)
  {
    hide BlockOf;
    forall c
      ensures Has(pipe + [r], piece, c) <==> Has(pipe, piece, c) || Asks(r, piece, c)
    {
      assert (pipe + [r])[|pipe|] == r;
      if Has(pipe, piece, c) {
        var k :| 0 <= k < |pipe| && Asks(pipe[k], piece, c);
        assert (pipe + [r])[k] == pipe[k];
      }
    }
  }

  /** A block does get stranded: asked of one peer, received, and no buffer for it. */
  method StrandsBlock() returns (s: Swarm, ok: bool)
    ensures fresh(s) && s.Valid()
    ensures ok ==> s.fatal && s.pipes == [[]] && |s.slots| == 1
                   && s.slots[0].counts == [1] && s.slots[0].have == [false]
  {
    hide Sound, Has, Holding, Doubled;
    s := new Swarm([PeerInfo(true, false, 0, [true], 0, 0, 1)], [0x4000]);
    var r := Req(0, 0, 0x4000, 0);
    assert BlockOf(0) == 0 && NumBlocks(0x4000) == 1;
    NotAsked(s.pipes[0], 0, 0);
    ok := s.Ask(0, r);
    if ok {
      assert s.pipes[0][0] == r && s.slots[0].have == [false] && s.slots[0].counts == [1];
      var _, _ := s.ReceivePiece(0, 0, 0, 0x4000, NoBuffer);
    }
  }

  lemma NotAsked(pipe: Pipeline, piece: nat, block: nat)
    requires pipe == []
    ensures !Has(pipe, piece, block)
  {
  }
}

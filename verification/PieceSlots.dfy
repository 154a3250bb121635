/** The state of every piece of a torrent, and the counters that summarise it. */
module PieceSlots {
  import opened Options
  import opened PieceLayout

  datatype State = Empty | Pending | Done | Hashing

  /** `buf`: the buffer the piece is collected in; `blocks`: which blocks have arrived. */
  datatype Slot = Slot(state: State, buf: Option<nat>, blocks: seq<bool>, blocksDone: nat, requests: seq<nat>)

  // ---------------------------------------------------------------------------------------------
  // Bitmaps.

  function Population(blocks: seq<bool>): (n: nat)
    ensures n <= |blocks|
  {
    if blocks == [] then 0 else Population(blocks[..|blocks| - 1]) + if blocks[|blocks| - 1] then 1 else 0
  }

  lemma {:induction false} PopulationSet(blocks: seq<bool>, b: nat)
    requires b < |blocks| && !blocks[b]
    ensures Population(blocks[b := true]) == Population(blocks) + 1
    decreases |blocks|
  {
    var n := |blocks| - 1;
    if b == n {
      assert blocks[b := true][..n] == blocks[..n];
    } else {
      PopulationSet(blocks[..n], b);
      assert blocks[b := true][..n] == blocks[..n][b := true];
    }
  }

  lemma {:induction false} PopulationFull(blocks: seq<bool>)
    ensures Population(blocks) == |blocks| <==> forall b :: 0 <= b < |blocks| ==> blocks[b]
  {
    if blocks != [] {
      var n := |blocks| - 1;
      PopulationFull(blocks[..n]);
      assert forall b :: 0 <= b < n ==> blocks[b] == blocks[..n][b];
    }
  }

  lemma {:induction false} PopulationNone(blocks: seq<bool>)
    ensures Population(blocks) == 0 <==> forall b :: 0 <= b < |blocks| ==> !blocks[b]
  {
    if blocks != [] {
      var n := |blocks| - 1;
      PopulationNone(blocks[..n]);
      assert forall b :: 0 <= b < n ==> blocks[b] == blocks[..n][b];
    }
  }

  // ---------------------------------------------------------------------------------------------
  // One slot.

  ghost predicate SlotOk(t: Torrent, i: nat, s: Slot) {
    && |s.blocks| == |s.requests| == NumBlocks(PieceLen(t, i))
    && s.blocksDone == Population(s.blocks)
    && match s.state
       case Empty => s.blocksDone == 0
       case Pending => s.buf.None? ==> s.blocksDone == 0
       case Hashing => s.blocksDone == |s.blocks| && s.buf.None?
       case Done => s.blocksDone == |s.blocks|
  }

  /** Between calls no piece waits that has all its blocks. */
  predicate Unfinished(s: Slot) {
    s.state == Pending ==> s.blocksDone < |s.blocks|
  }

  function Fresh(t: Torrent, i: nat): (s: Slot)
    ensures s.state == Empty && s.buf == None
    ensures forall b :: 0 <= b < |s.blocks| ==> !s.blocks[b]
    ensures |s.blocks| == |s.requests| == NumBlocks(PieceLen(t, i))
  {
    var n := NumBlocks(PieceLen(t, i));
    Slot(Empty, None, seq(n, _ => false), 0, seq(n, _ => 0))
  }

  /** What `reset_piece` makes of a slot; its buffer stays. */
  function Cleared(s: Slot): (s': Slot)
    ensures s'.state == Empty && s'.buf == s.buf
  {
    Slot(Empty, s.buf, seq(|s.blocks|, _ => false), 0, seq(|s.requests|, _ => 0))
  }

  /** What marking a piece done without hashing makes of a slot. */
  function Preset(s: Slot): Slot {
    s.(state := Done, blocksDone := |s.blocks|, blocks := seq(|s.blocks|, _ => true))
  }

  lemma {:induction false} ClearedOk(t: Torrent, i: nat, s: Slot)
    requires SlotOk(t, i, s)
    ensures SlotOk(t, i, Cleared(s))
  {
    PopulationNone(Cleared(s).blocks);
  }

  lemma {:induction false} PresetOk(t: Torrent, i: nat, s: Slot)
    requires SlotOk(t, i, s)
    ensures SlotOk(t, i, Preset(s))
  {
    PopulationFull(Preset(s).blocks);
  }

  lemma {:induction false} FreshOk(t: Torrent, i: nat)
    ensures SlotOk(t, i, Fresh(t, i))
  {
    PopulationNone(Fresh(t, i).blocks);
  }

  // ---------------------------------------------------------------------------------------------
  // All slots.

  function CountDone(slots: seq<Slot>): (n: nat)
    ensures n <= |slots|
  {
    if slots == [] then 0
    else CountDone(slots[..|slots| - 1]) + if slots[|slots| - 1].state == Done then 1 else 0
  }

  function SumDone(t: Torrent, slots: seq<Slot>): nat {
    if slots == [] then 0
    else
      var n := |slots| - 1;
      SumDone(t, slots[..n]) + if slots[n].state == Done then PieceLen(t, n) else 0
  }

  lemma {:induction false} DoneUpdate(t: Torrent, slots: seq<Slot>, i: nat, s: Slot)
    requires i < |slots|
    ensures CountDone(slots[i := s]) + (if slots[i].state == Done then 1 else 0)
            == CountDone(slots) + (if s.state == Done then 1 else 0)
    ensures SumDone(t, slots[i := s]) + (if slots[i].state == Done then PieceLen(t, i) else 0)
            == SumDone(t, slots) + (if s.state == Done then PieceLen(t, i) else 0)
    decreases |slots|
  {
    hide PieceLen;
    var n := |slots| - 1;
    if i == n {
      assert slots[i := s][..n] == slots[..n];
    } else {
      DoneUpdate(t, slots[..n], i, s);
      assert slots[i := s][..n] == slots[..n][i := s];
    }
  }

  lemma {:induction false} NoneDone(t: Torrent, slots: seq<Slot>)
    requires forall i :: 0 <= i < |slots| ==> slots[i].state != Done
    ensures CountDone(slots) == SumDone(t, slots) == 0
  {
    if slots != [] {
      NoneDone(t, slots[..|slots| - 1]);
    }
  }

  /** The counters and bitfields say exactly which pieces are done, and how many bytes that is. */
  ghost predicate Progress(t: Torrent, slots: seq<Slot>, numDone: nat, completed: nat, have: seq<bool>,
      avail: seq<bool>) {
    && |slots| == |have| == |avail| == t.pieces
    && (forall i :: 0 <= i < |slots| ==> (have[i] <==> slots[i].state == Done))
    && (forall i :: 0 <= i < |slots| && avail[i] ==> have[i])
    && numDone == CountDone(slots)
    && completed == SumDone(t, slots)
  }

  lemma {:induction false} DoneBound(t: Torrent, slots: seq<Slot>)
    ensures SumDone(t, slots) <= SumLens(t, |slots|)
    ensures CountDone(slots) == |slots| <==> forall i :: 0 <= i < |slots| ==> slots[i].state == Done
    ensures CountDone(slots) == |slots| ==> SumDone(t, slots) == SumLens(t, |slots|)
    decreases |slots|
  {
    hide PieceLen;
    if slots != [] {
      var n := |slots| - 1;
      DoneBound(t, slots[..n]);
      assert forall i :: 0 <= i < n ==> slots[i] == slots[..n][i];
    }
  }

  /** The download is complete by count exactly when every piece is done, and then every byte is. */
  lemma {:induction false} CompleteIsTotal(t: Torrent, slots: seq<Slot>, numDone: nat, completed: nat,
      have: seq<bool>, avail: seq<bool>)
    requires Consistent(t) && Progress(t, slots, numDone, completed, have, avail)
    ensures completed <= t.total
    ensures numDone == t.pieces <==> forall i :: 0 <= i < t.pieces ==> have[i]
    ensures numDone == t.pieces ==> completed == t.total
  {
    DoneBound(t, slots);
    SumIsTotal(t);
    assert forall i :: 0 <= i < t.pieces ==> (have[i] <==> slots[i].state == Done);
  }

  /** A change of one slot that leaves its being done as it was. */
  lemma {:induction false} ProgressSame(t: Torrent, slots: seq<Slot>, i: nat, s: Slot, numDone: nat,
      completed: nat, have: seq<bool>, avail: seq<bool>)
    requires Progress(t, slots, numDone, completed, have, avail)
    requires i < |slots| && (s.state == Done <==> slots[i].state == Done)
    ensures Progress(t, slots[i := s], numDone, completed, have, avail)
  {
    hide CountDone, SumDone;
    DoneUpdate(t, slots, i, s);
  }

  lemma {:induction false} ProgressDone(t: Torrent, slots: seq<Slot>, i: nat, s: Slot, numDone: nat,
      completed: nat, have: seq<bool>, avail: seq<bool>, readable: bool)
    requires Progress(t, slots, numDone, completed, have, avail)
    requires i < |slots| && s.state == Done && slots[i].state != Done
    ensures Progress(t, slots[i := s], numDone + 1, completed + PieceLen(t, i), have[i := true],
                     if readable then avail[i := true] else avail)
  {
    hide CountDone, SumDone, PieceLen;
    DoneUpdate(t, slots, i, s);
  }

  /** Taking a done piece back: neither counter can run below zero. */
  lemma {:induction false} ProgressUndone(t: Torrent, slots: seq<Slot>, i: nat, s: Slot, numDone: nat,
      completed: nat, have: seq<bool>, avail: seq<bool>)
    requires Progress(t, slots, numDone, completed, have, avail)
    requires i < |slots| && s.state != Done && slots[i].state == Done
    ensures numDone > 0 && completed >= PieceLen(t, i)
    ensures Progress(t, slots[i := s], numDone - 1, completed - PieceLen(t, i), have[i := false], avail[i := false])
  {
    hide CountDone, SumDone, PieceLen;
    DoneUpdate(t, slots, i, s);
  }
}

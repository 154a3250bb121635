/** Everything the torrent thread keeps about the pieces, as one value, and what each step of the piece
    manager keeps true of it. */
module PieceBooks {
  import opened Options
  import opened Octets
  import opened PieceLayout
  import opened PieceSlots
  import opened PieceOrder
  import opened HashRing
  import opened PieceBuffers

  /** What never changes: the torrent, the wanted order with each piece's place in it, and whether given
      bytes have a piece's expected hash. */
  datatype Setup = Setup(t: Torrent, order: seq<nat>, pos: seq<int>, verify: (nat, Bytes) -> bool)

  ghost predicate Proper(u: Setup) {
    Consistent(u.t) && NoRepeats(u.order, u.t.pieces) && LastPositions(u.order, u.t.pieces, u.pos)
  }

  /** `completions`: the pieces handed over for hashing, in order, with their bytes; the results of the
      first `applied` have been applied. `stored`: the blocks received for each piece since it was last
      reset. `writes`: the calls to the storage, in order. */
  datatype Books = Books(slots: seq<Slot>, numDone: nat, completed: nat, have: seq<bool>, avail: seq<bool>,
                         cursor: nat, mem: Memory, pool: seq<nat>, owner: map<nat, Holder>,
                         stored: seq<Blocks>, completions: seq<Completion>, applied: nat,
                         writes: seq<(nat, Bytes)>)

  /** What hashing inline, piece after piece, would write: each piece that has its hash, at its place. */
  function InlineWrites(u: Setup, done: seq<Completion>): seq<(nat, Bytes)> {
    if done == [] then []
    else
      var (i, bytes) := done[|done| - 1];
      InlineWrites(u, done[..|done| - 1]) + if u.verify(i, bytes) then [(i * u.t.pieceLength, bytes)] else []
  }

  function Verdicts(u: Setup, handed: seq<Completion>): (v: seq<bool>)
    ensures |v| == |handed|
  {
    seq(|handed|, k requires 0 <= k < |handed| => u.verify(handed[k].0, handed[k].1))
  }

  ghost predicate SlotsOk(u: Setup, slots: seq<Slot>) {
    |slots| == u.t.pieces && forall i :: 0 <= i < |slots| ==> SlotOk(u.t, i, slots[i])
  }

  /** `full`: the piece being completed right now, if any. */
  ghost predicate Settled(slots: seq<Slot>, full: Option<nat>) {
    forall i :: 0 <= i < |slots| && full != Some(i) ==> Unfinished(slots[i])
  }

  ghost predicate AllFilled(u: Setup, slots: seq<Slot>, mem: Memory, stored: seq<Blocks>) {
    |stored| == |slots| && forall i :: 0 <= i < |slots| ==> Filled(u.t, i, slots[i], mem, stored[i])
  }

  /** Results are applied in the order of completion, and the storage saw what inline hashing would
      have shown it. */
  ghost predicate InOrder(u: Setup, b: Books, jobs: seq<Job>) {
    && b.applied <= |b.completions|
    && JobsHold(u.t, jobs, b.mem, b.completions[b.applied..])
    && b.writes == InlineWrites(u, b.completions[..b.applied])
  }

  /** All of it. `jobs`: the queued jobs, with the one being applied in front. */
  ghost predicate Sound(u: Setup, b: Books, jobs: seq<Job>, full: Option<nat>) {
    && SlotsOk(u, b.slots) && Settled(b.slots, full)
    && Progress(u.t, b.slots, b.numDone, b.completed, b.have, b.avail)
    && CursorOk(u.order, b.slots, b.cursor)
    && Owned(b.slots, jobs, b.pool, b.owner, b.mem, u.t.pieceLength)
    && Paired(b.slots, jobs)
    && AllFilled(u, b.slots, b.mem, b.stored)
    && InOrder(u, b, jobs)
  }

  // ---------------------------------------------------------------------------------------------
  // The steps.

  function Advanced(order: seq<nat>, slots: seq<Slot>, cursor: nat): (c: nat)
    decreases OrderCount(order, |slots|) - cursor
  {
    if cursor < OrderCount(order, |slots|) && Finished(slots, OrderAt(order, cursor))
    then Advanced(order, slots, cursor + 1) else cursor
  }

  lemma {:induction false} AdvancedOk(order: seq<nat>, slots: seq<Slot>, cursor: nat)
    requires CursorOk(order, slots, cursor)
    ensures CursorOk(order, slots, Advanced(order, slots, cursor))
    decreases OrderCount(order, |slots|) - cursor
  {
    if cursor < OrderCount(order, |slots|) && Finished(slots, OrderAt(order, cursor)) {
      AdvancedOk(order, slots, cursor + 1);
    }
  }

  /** `reset_piece`. */
  function ResetTo(u: Setup, b: Books, i: nat): Books
    requires i < |b.slots| == |b.stored| == |b.have| == |b.avail| == |u.pos|
  {
    var s := b.slots[i];
    var undone := s.state == Done && b.numDone > 0;
    var len := PieceLen(u.t, i);
    b.(slots := b.slots[i := Cleared(s)],
       numDone := if undone then b.numDone - 1 else b.numDone,
       completed := if !undone then b.completed else if b.completed >= len then b.completed - len else 0,
       have := if undone then b.have[i := false] else b.have,
       avail := if undone then b.avail[i := false] else b.avail,
       cursor := Rewound(u.pos[i], b.cursor),
       stored := b.stored[i := map[]])
  }

  /** The common end of the two success paths and of marking without hashing; `s` is the slot's new
      content. */
  function DoneAs(u: Setup, b: Books, i: nat, s: Slot, readable: bool): Books
    requires i < |b.slots| == |b.have| == |b.avail|
  {
    var slots := b.slots[i := s];
    b.(slots := slots, numDone := b.numDone + 1, completed := b.completed + PieceLen(u.t, i),
       have := b.have[i := true], avail := if readable then b.avail[i := true] else b.avail,
       cursor := Advanced(u.order, slots, b.cursor))
  }

  lemma {:induction false} ClearedFilled(u: Setup, i: nat, s: Slot, mem: Memory)
    requires SlotOk(u.t, i, s)
    ensures Filled(u.t, i, Cleared(s), mem, map[])
  {
  }

  /** Resetting a piece that is not being hashed. */
  lemma {:induction false} ResetSound(u: Setup, b: Books, jobs: seq<Job>, full: Option<nat>, i: nat)
    requires Proper(u) && Sound(u, b, jobs, full) && i < |b.slots| && b.slots[i].state != Hashing
    requires full == None || full == Some(i)
    ensures |b.stored| == |b.have| == |b.avail| == |u.pos| == |b.slots|
    ensures Sound(u, ResetTo(u, b, i), jobs, None)
  {
    hide SlotOk, Progress, CursorOk, Owned, Paired, Filled, JobsHold, InlineWrites, NoRepeats, Consistent;
    var s := Cleared(b.slots[i]);
    SizesAgree(u, b, jobs, full);
    ClearedOk(u.t, i, b.slots[i]);
    CursorRewind(u.order, b.slots, b.cursor, i, s, u.pos);
    SlotKeeps(b.slots, jobs, b.pool, b.owner, b.mem, u.t.pieceLength, i, s, b.mem) by {
      OwnedSizes(b.slots, jobs, b.pool, b.owner, b.mem, u.t.pieceLength);
    }
    PairedSame(b.slots, jobs, i, s);
    ClearedFilled(u, i, b.slots[i], b.mem);
    if b.slots[i].state == Done {
      ProgressUndone(u.t, b.slots, i, s, b.numDone, b.completed, b.have, b.avail);
    } else {
      ProgressSame(u.t, b.slots, i, s, b.numDone, b.completed, b.have, b.avail);
    }
  }

  lemma {:induction false} SizesAgree(u: Setup, b: Books, jobs: seq<Job>, full: Option<nat>)
    requires Proper(u) && Sound(u, b, jobs, full)
    ensures |b.stored| == |b.have| == |b.avail| == |u.pos| == |b.slots| == u.t.pieces
  {
  }

  lemma OwnedSizes(slots: seq<Slot>, jobs: seq<Job>, pool: seq<nat>, owner: map<nat, Holder>, mem: Memory, size: nat)
    requires Owned(slots, jobs, pool, owner, mem, size)
    ensures forall h <- mem :: |mem[h]| == size
    ensures forall i :: 0 <= i < |slots| && slots[i].buf.Some? ==> slots[i].buf.value in mem
    ensures forall k :: 0 <= k < |jobs| ==> jobs[k].buf in mem
  {
  }

  // ---------------------------------------------------------------------------------------------
  // A slot gets a buffer.

  /** The buffer on top of the pool, its old content and all. */
  function FromPool(b: Books, i: nat): Books
    requires b.pool != [] && i < |b.slots|
  {
    var n := |b.pool| - 1;
    b.(slots := b.slots[i := b.slots[i].(buf := Some(b.pool[n]))], pool := b.pool[..n],
       owner := b.owner[b.pool[n] := BySlot(i)])
  }

  /** A newly allocated buffer with whatever is in it. */
  function FromHeap(b: Books, i: nat, h: nat, bytes: Bytes): Books
    requires i < |b.slots|
  {
    b.(slots := b.slots[i := b.slots[i].(buf := Some(h))], mem := b.mem[h := bytes],
       owner := b.owner[h := BySlot(i)])
  }

  /** A slot that starts to collect, or goes on. */
  ghost predicate Collecting(b: Books, i: nat) {
    i < |b.slots| && b.slots[i].state in {Empty, Pending}
  }

  lemma {:induction false} BufferedOk(u: Setup, b: Books, i: nat, h: nat)
    requires Collecting(b, i) && SlotOk(u.t, i, b.slots[i])
    ensures var s := b.slots[i].(buf := Some(h)); SlotOk(u.t, i, s) && (Unfinished(s) <==> Unfinished(b.slots[i]))
  {
  }

  lemma {:induction false} BufferedFilled(u: Setup, i: nat, s: Slot, mem: Memory, stored: Blocks, h: nat, mem': Memory)
    requires Filled(u.t, i, s, mem, stored) && s.state in {Empty, Pending} && s.buf == None
    ensures Filled(u.t, i, s.(buf := Some(h)), mem', stored)
  {
    hide Part, BlockLen;
  }

  lemma {:induction false} FromPoolSound(u: Setup, b: Books, jobs: seq<Job>, full: Option<nat>, i: nat)
    requires Proper(u) && Sound(u, b, jobs, full) && Collecting(b, i) && b.slots[i].buf == None && b.pool != []
    ensures Sound(u, FromPool(b, i), jobs, full)
  {
    hide SlotOk, Unfinished, Progress, CursorOk, Owned, Paired, Filled, JobsHold, InlineWrites, NoRepeats, Consistent;
    var h := b.pool[|b.pool| - 1];
    var s := b.slots[i].(buf := Some(h));
    SizesAgree(u, b, jobs, full);
    BufferedOk(u, b, i, h);
    BufferedFilled(u, i, b.slots[i], b.mem, b.stored[i], h, b.mem);
    ProgressSame(u.t, b.slots, i, s, b.numDone, b.completed, b.have, b.avail);
    CursorFinish(u.order, b.slots, b.cursor, i, s);
    PoolToSlot(b.slots, jobs, b.pool, b.owner, b.mem, u.t.pieceLength, i, s);
    PairedSame(b.slots, jobs, i, s);
  }

  lemma {:induction false} FromHeapSound(u: Setup, b: Books, jobs: seq<Job>, full: Option<nat>, i: nat, h: nat,
      bytes: Bytes)
    requires Proper(u) && Sound(u, b, jobs, full) && Collecting(b, i) && b.slots[i].buf == None
    requires h !in b.mem && |bytes| == u.t.pieceLength
    ensures Sound(u, FromHeap(b, i, h, bytes), jobs, full)
  {
    hide SlotOk, Unfinished, Progress, CursorOk, Owned, Paired, Filled, JobsHold, InlineWrites, NoRepeats, Consistent;
    var s := b.slots[i].(buf := Some(h));
    SizesAgree(u, b, jobs, full);
    OwnedSizes(b.slots, jobs, b.pool, b.owner, b.mem, u.t.pieceLength);
    BufferedOk(u, b, i, h);
    forall k | 0 <= k < |b.slots|
      ensures Filled(u.t, k, b.slots[i := s][k], b.mem[h := bytes], b.stored[k])
    {
      if k == i {
        BufferedFilled(u, i, b.slots[i], b.mem, b.stored[i], h, b.mem[h := bytes]);
      } else {
        FilledElsewhere(u.t, k, b.slots[k], b.mem, b.stored[k], h, bytes);
      }
    }
    ProgressSame(u.t, b.slots, i, s, b.numDone, b.completed, b.have, b.avail);
    CursorFinish(u.order, b.slots, b.cursor, i, s);
    FreshToSlot(b.slots, jobs, b.pool, b.owner, b.mem, u.t.pieceLength, i, s, h, bytes);
    PairedSame(b.slots, jobs, i, s);
    JobsHoldElsewhere(u.t, jobs, b.mem, b.completions[b.applied..], h, bytes);
  }

  // ---------------------------------------------------------------------------------------------
  // A block arrives.

  function Marked(s: Slot, blk: nat): Slot
    requires blk < |s.blocks| == |s.requests|
  {
    s.(state := Pending, blocks := s.blocks[blk := true],
       blocksDone := if s.blocks[blk] then s.blocksDone else s.blocksDone + 1,
       requests := s.requests[blk := 0])
  }

  /** Copied into the buffer, marked, and no longer requested from anybody. */
  function Took(b: Books, i: nat, blk: nat, data: Bytes): Books
    requires i < |b.slots| == |b.stored| && blk < |b.slots[i].blocks| == |b.slots[i].requests|
    requires b.slots[i].buf.Some? && b.slots[i].buf.value in b.mem
    requires OffsetOf(blk) + |data| <= |b.mem[b.slots[i].buf.value]|
  {
    var h := b.slots[i].buf.value;
    var more: Blocks := b.stored[i][blk := data];
    b.(slots := b.slots[i := Marked(b.slots[i], blk)],
       mem := b.mem[h := Stored(b.mem[h], OffsetOf(blk), data)],
       stored := b.stored[i := more])
  }

  lemma {:induction false} MarkedOk(t: Torrent, i: nat, s: Slot, blk: nat)
    requires SlotOk(t, i, s) && s.state in {Empty, Pending} && s.buf.Some? && blk < |s.blocks|
    ensures |s.requests| == |s.blocks| && SlotOk(t, i, Marked(s, blk))
  {
    if s.blocks[blk] {
      assert s.blocks[blk := true] == s.blocks;
    } else {
      PopulationSet(s.blocks, blk);
    }
  }

  lemma {:induction false} TookSound(u: Setup, b: Books, jobs: seq<Job>, i: nat, blk: nat, data: Bytes)
    requires Proper(u) && Sound(u, b, jobs, None) && Collecting(b, i) && b.slots[i].buf.Some?
    requires blk < NumBlocks(PieceLen(u.t, i)) && |data| == BlockLen(PieceLen(u.t, i), blk)
    ensures |b.stored| == |b.slots| && |b.slots[i].blocks| == |b.slots[i].requests| == NumBlocks(PieceLen(u.t, i))
    ensures b.slots[i].buf.value in b.mem && OffsetOf(blk) + |data| <= |b.mem[b.slots[i].buf.value]|
    ensures Sound(u, Took(b, i, blk, data), jobs, Some(i))
  {
    hide Progress, CursorOk, Owned, Paired, Filled, JobsHold, InlineWrites, NoRepeats, Population, PieceLen,
         NumBlocks, BlockLen, Stored;
    SizesAgree(u, b, jobs, None);
    OwnedSizes(b.slots, jobs, b.pool, b.owner, b.mem, u.t.pieceLength);
    PieceLenBounds(u.t, i);
    var h, s := b.slots[i].buf.value, b.slots[i];
    BlockInside(PieceLen(u.t, i), blk);
    var s' := Marked(s, blk);
    hide Consistent, Marked;
    MarkedOk(u.t, i, s, blk);
    MarkedSame(s, blk);
    hide SlotOk, Unfinished;
    var mem' := b.mem[h := Stored(b.mem[h], OffsetOf(blk), data)];
    StoredSize(b.mem[h], OffsetOf(blk), data);
    OnlySlot(u, b, jobs, i);
    var more: Blocks := b.stored[i][blk := data];
    var slots', stored' := b.slots[i := s'], b.stored[i := more];
    forall k | 0 <= k < |slots'|
      ensures Filled(u.t, k, slots'[k], mem', stored'[k])
    {
      if k == i {
        FilledMore(u.t, i, s, b.mem, b.stored[i], blk, data, s');
      } else {
        FilledElsewhere(u.t, k, b.slots[k], b.mem, b.stored[k], h, Stored(b.mem[h], OffsetOf(blk), data));
      }
    }
    ProgressSame(u.t, b.slots, i, s', b.numDone, b.completed, b.have, b.avail);
    CursorFinish(u.order, b.slots, b.cursor, i, s');
    SlotKeeps(b.slots, jobs, b.pool, b.owner, b.mem, u.t.pieceLength, i, s', mem');
    PairedSame(b.slots, jobs, i, s');
    JobsHoldElsewhere(u.t, jobs, b.mem, b.completions[b.applied..], h, mem'[h]);
  }

  lemma BlockInside(plen: nat, blk: nat)
    requires blk < NumBlocks(plen)
    ensures OffsetOf(blk) + BlockLen(plen, blk) <= plen
  {
  }

  lemma StoredSize(buf: Bytes, offset: nat, data: Bytes)
    requires offset + |data| <= |buf|
    ensures |Stored(buf, offset, data)| == |buf|
  {
  }

  lemma MarkedSame(s: Slot, blk: nat)
    requires blk < |s.blocks| == |s.requests|
    ensures var s' := Marked(s, blk);
            s'.state == Pending && s'.buf == s.buf && s'.blocks == s.blocks[blk := true]
  {
  }

  /** A slot's buffer is no other slot's and no job's. */
  lemma {:induction false} OnlySlot(u: Setup, b: Books, jobs: seq<Job>, i: nat)
    requires Owned(b.slots, jobs, b.pool, b.owner, b.mem, u.t.pieceLength)
    requires i < |b.slots| && b.slots[i].buf.Some?
    ensures forall k :: 0 <= k < |b.slots| && k != i ==> b.slots[k].buf != b.slots[i].buf
    ensures forall k :: 0 <= k < |jobs| ==> jobs[k].buf != b.slots[i].buf.value
  {
  }

  /** A piece that is begun but has nothing yet. */
  lemma {:induction false} BegunSound(u: Setup, b: Books, jobs: seq<Job>, i: nat)
    requires Proper(u) && Sound(u, b, jobs, None) && i < |b.slots| && b.slots[i].state == Empty
    ensures Sound(u, b.(slots := b.slots[i := b.slots[i].(state := Pending)]), jobs, None)
  {
    hide Progress, CursorOk, Owned, Paired, JobsHold, InlineWrites, NoRepeats, Part, PieceLen;
    var s := b.slots[i].(state := Pending);
    SizesAgree(u, b, jobs, None);
    PieceLenBounds(u.t, i);
    assert SlotOk(u.t, i, s) && Unfinished(s);
    assert Filled(u.t, i, s, b.mem, b.stored[i]);
    hide SlotOk, Unfinished, Filled, Consistent;
    OwnedSizes(b.slots, jobs, b.pool, b.owner, b.mem, u.t.pieceLength);
    ProgressSame(u.t, b.slots, i, s, b.numDone, b.completed, b.have, b.avail);
    CursorFinish(u.order, b.slots, b.cursor, i, s);
    SlotKeeps(b.slots, jobs, b.pool, b.owner, b.mem, u.t.pieceLength, i, s, b.mem);
    PairedSame(b.slots, jobs, i, s);
  }

  // ---------------------------------------------------------------------------------------------
  // A piece has all its blocks.

  /** The bytes that count in a piece's buffer. */
  function PieceBytes(u: Setup, b: Books, i: nat): Bytes
    requires i < |b.slots| && b.slots[i].buf.Some? && b.slots[i].buf.value in b.mem
    requires PieceLen(u.t, i) <= |b.mem[b.slots[i].buf.value]|
  {
    b.mem[b.slots[i].buf.value][..PieceLen(u.t, i)]
  }

  /** A piece just completed: all blocks there, not yet handed over. */
  ghost predicate Complete(u: Setup, b: Books, jobs: seq<Job>, i: nat) {
    && Proper(u) && Sound(u, b, jobs, Some(i))
    && i < |b.slots| && b.slots[i].state == Pending && b.slots[i].blocksDone == |b.slots[i].blocks|
  }

  /** Its buffer holds the blocks as they were received, each once, in order: nothing else of the
      buffer's content matters. */
  lemma {:induction false} CompleteIsAssembled(u: Setup, b: Books, jobs: seq<Job>, i: nat)
    requires Complete(u, b, jobs, i)
    ensures |b.stored| == |b.slots| && b.slots[i].buf.Some? && b.slots[i].buf.value in b.mem
    ensures PieceLen(u.t, i) <= |b.mem[b.slots[i].buf.value]|
    ensures PieceBytes(u, b, i) == Assembled(b.stored[i], NumBlocks(PieceLen(u.t, i)))
    ensures |PieceBytes(u, b, i)| == PieceLen(u.t, i)
  {
    hide Progress, CursorOk, Owned, Paired, Filled, JobsHold, InlineWrites, NoRepeats, Population, PieceLen, NumBlocks;
    OwnedSizes(b.slots, jobs, b.pool, b.owner, b.mem, u.t.pieceLength);
    PieceLenBounds(u.t, i);
    PopulationFull(b.slots[i].blocks);
    SomeBlock(PieceLen(u.t, i));
    assert SlotOk(u.t, i, b.slots[i]) && Filled(u.t, i, b.slots[i], b.mem, b.stored[i]);
    hide SlotsOk, Settled, AllFilled, InOrder, Consistent;
    FullIsAssembled(u.t, i, b.slots[i], b.mem, b.stored[i]);
  }

  lemma SomeBlock(plen: nat)
    requires plen > 0
    ensures NumBlocks(plen) > 0
  {
  }

  /** `hash_enqueue`'s effect on the books. */
  function Handed(u: Setup, b: Books, i: nat): Books
    requires i < |b.slots| && b.slots[i].buf.Some? && b.slots[i].buf.value in b.mem
    requires PieceLen(u.t, i) <= |b.mem[b.slots[i].buf.value]|
  {
    b.(slots := b.slots[i := b.slots[i].(state := Hashing, buf := None)],
       owner := b.owner[b.slots[i].buf.value := ByJob(i)],
       completions := b.completions + [(i, PieceBytes(u, b, i))])
  }

  lemma {:induction false} HandedSound(u: Setup, b: Books, jobs: seq<Job>, i: nat, job: Job)
    requires Complete(u, b, jobs, i)
    requires b.slots[i].buf == Some(job.buf) && job.idx == i && job.plen == PieceLen(u.t, i)
    ensures job.buf in b.mem && PieceLen(u.t, i) <= |b.mem[job.buf]|
    ensures Sound(u, Handed(u, b, i), jobs + [job], None)
  {
    hide Progress, CursorOk, Owned, Paired, InlineWrites, NoRepeats, Population, PieceLen, NumBlocks, Assembled,
         JobsHold;
    CompleteIsAssembled(u, b, jobs, i);
    SizesAgree(u, b, jobs, Some(i));
    var s := b.slots[i].(state := Hashing, buf := None);
    assert SlotOk(u.t, i, s) && Unfinished(s) && Filled(u.t, i, s, b.mem, b.stored[i]);
    hide SlotOk, Unfinished, Filled, Consistent;
    ProgressSame(u.t, b.slots, i, s, b.numDone, b.completed, b.have, b.avail);
    CursorFinish(u.order, b.slots, b.cursor, i, s);
    SlotToJob(b.slots, jobs, b.pool, b.owner, b.mem, u.t.pieceLength, i, s, job);
    PairedPush(b.slots, jobs, i, s, job);
    HandedInOrder(u, b, jobs, i, job);
  }

  lemma {:induction false} HandedInOrder(u: Setup, b: Books, jobs: seq<Job>, i: nat, job: Job)
    requires InOrder(u, b, jobs) && i < |b.slots| && b.slots[i].buf == Some(job.buf) && job.buf in b.mem
    requires job.idx == i && job.plen == PieceLen(u.t, i) <= |b.mem[job.buf]|
    ensures InOrder(u, Handed(u, b, i), jobs + [job])
  {
    hide InlineWrites;
    var c := (i, PieceBytes(u, b, i));
    var all := b.completions + [c];
    assert all[..b.applied] == b.completions[..b.applied];
    assert all[b.applied..] == b.completions[b.applied..] + [c];
    JobsHoldSnoc(u.t, jobs, b.mem, b.completions[b.applied..], job, c);
  }

  lemma {:induction false} JobsHoldSnoc(t: Torrent, jobs: seq<Job>, mem: Memory, handed: seq<Completion>, job: Job,
      c: Completion)
    requires JobsHold(t, jobs, mem, handed)
    requires job.idx == c.0 && job.plen == |c.1| == PieceLen(t, job.idx) && job.buf in mem && job.plen <= |mem[job.buf]|
    requires mem[job.buf][..job.plen] == c.1
    ensures JobsHold(t, jobs + [job], mem, handed + [c])
  {
  }

  // ---------------------------------------------------------------------------------------------
  // The oldest result is applied.

  lemma {:induction false} JobsHoldTail(t: Torrent, jobs: seq<Job>, mem: Memory, handed: seq<Completion>)
    requires JobsHold(t, jobs, mem, handed) && jobs != []
    ensures JobsHold(t, jobs[1..], mem, handed[1..])
    ensures jobs[0].idx == handed[0].0 && jobs[0].buf in mem && jobs[0].plen <= |mem[jobs[0].buf]|
    ensures mem[jobs[0].buf][..jobs[0].plen] == handed[0].1 && jobs[0].plen == PieceLen(t, jobs[0].idx)
  {
    var rest, more := jobs[1..], handed[1..];
    forall k {:trigger rest[k]} {:trigger more[k]} | 0 <= k < |rest|
      ensures rest[k] == jobs[k + 1] && more[k] == handed[k + 1]
    {
    }
  }

  /** The storage call, if the piece has its hash; the piece no longer waits. */
  function Judged(u: Setup, b: Books): Books
    requires b.applied < |b.completions|
  {
    var (i, bytes) := b.completions[b.applied];
    b.(applied := b.applied + 1,
       writes := if u.verify(i, bytes) then b.writes + [(i * u.t.pieceLength, bytes)] else b.writes)
  }

  lemma {:induction false} JudgedInOrder(u: Setup, b: Books, jobs: seq<Job>)
    requires InOrder(u, b, jobs) && jobs != []
    ensures b.applied < |b.completions| && InOrder(u, Judged(u, b), jobs[1..])
    ensures jobs[0].idx == b.completions[b.applied].0 && jobs[0].plen == PieceLen(u.t, jobs[0].idx)
    ensures jobs[0].buf in b.mem && jobs[0].plen <= |b.mem[jobs[0].buf]|
    ensures b.mem[jobs[0].buf][..jobs[0].plen] == b.completions[b.applied].1
  {
    hide JobsHold;
    var n := b.applied;
    JobsHoldSize(u.t, jobs, b.mem, b.completions[n..]);
    assert b.completions[n..][0] == b.completions[n];
    assert b.completions[n..][1..] == b.completions[n + 1..];
    JobsHoldTail(u.t, jobs, b.mem, b.completions[n..]);
    assert b.completions[..n + 1][..n] == b.completions[..n];
  }

  lemma JobsHoldSize(t: Torrent, jobs: seq<Job>, mem: Memory, handed: seq<Completion>)
    requires JobsHold(t, jobs, mem, handed)
    ensures |handed| == |jobs|
  {
  }

  /** The job's buffer goes back to its slot. */
  function Returned(b: Books, job: Job): Books
    requires job.idx < |b.slots|
  {
    b.(slots := b.slots[job.idx := b.slots[job.idx].(buf := Some(job.buf))],
       owner := b.owner[job.buf := BySlot(job.idx)])
  }

  /** A piece that has not its hash, or that the storage refused: its buffer back, and begun anew. */
  lemma {:induction false} RefusedSound(u: Setup, b: Books, jobs: seq<Job>, full: Option<nat>)
    requires Proper(u) && Sound(u, b, jobs, full) && jobs != []
    ensures jobs[0].idx < |b.slots| == |b.stored| == |b.have| == |b.avail| == |u.pos|
    ensures b.slots[jobs[0].idx].state == Hashing && b.applied < |b.completions|
    ensures Sound(u, ResetTo(u, Returned(Judged(u, b), jobs[0]), jobs[0].idx), jobs[1..], full)
  {
    hide Progress, CursorOk, Owned, JobsHold, InlineWrites, NoRepeats, Consistent, InOrder, Filled;
    SizesAgree(u, b, jobs, full);
    var i := jobs[0].idx;
    assert i < |b.slots| && b.slots[i].state == Hashing;
    var s := Cleared(b.slots[i].(buf := Some(jobs[0].buf)));
    assert SlotOk(u.t, i, b.slots[i]) && b.slots[i].buf == None;
    var was := b.slots[i].(state := Done, buf := Some(jobs[0].buf));
    assert SlotOk(u.t, i, was) && Cleared(was) == s;
    ClearedOk(u.t, i, was);
    ClearedFilled(u, i, was, b.mem);
    JudgedInOrder(u, b, jobs);
    ProgressSame(u.t, b.slots, i, s, b.numDone, b.completed, b.have, b.avail);
    CursorRewind(u.order, b.slots, b.cursor, i, s, u.pos);
    JobToSlot(b.slots, jobs, b.pool, b.owner, b.mem, u.t.pieceLength, s);
    PairedPop(b.slots, jobs, s);
    hide SlotOk, Paired, Judged;
    var end := ResetTo(u, Returned(Judged(u, b), jobs[0]), i);
    JudgedSame(u, b);
    assert end.slots == b.slots[i := s];
    assert InOrder(u, end, jobs[1..]) by {
      InOrderSame(u, Judged(u, b), end, jobs[1..]);
    }
  }

  lemma JudgedSame(u: Setup, b: Books)
    requires b.applied < |b.completions|
    ensures var j := Judged(u, b);
            j == b.(applied := b.applied + 1, writes := j.writes)
  {
  }

  lemma InOrderSame(u: Setup, b: Books, b': Books, jobs: seq<Job>)
    requires InOrder(u, b, jobs)
    requires b'.applied == b.applied && b'.completions == b.completions && b'.mem == b.mem && b'.writes == b.writes
    ensures InOrder(u, b', jobs)
  {
  }

  /** `piece_buf_put`: to the pool, or freed when that is full. */
  function Pooled(b: Books, h: nat): Books {
    if |b.pool| < POOL_MAX then b.(pool := b.pool + [h], owner := b.owner[h := InPool(|b.pool|)])
    else b.(owner := b.owner - {h}, mem := b.mem - {h})
  }

  lemma {:induction false} FilledWithout(t: Torrent, i: nat, s: Slot, mem: Memory, stored: Blocks, h: nat)
    requires Filled(t, i, s, mem, stored) && s.buf != Some(h)
    ensures Filled(t, i, s, mem - {h}, stored)
  {
    hide Part, BlockLen, PieceLen;
  }

  lemma {:induction false} JobsHoldWithout(t: Torrent, jobs: seq<Job>, mem: Memory, handed: seq<Completion>, h: nat)
    requires JobsHold(t, jobs, mem, handed) && forall k :: 0 <= k < |jobs| ==> jobs[k].buf != h
    ensures JobsHold(t, jobs, mem - {h}, handed)
  {
  }

  /** A buffer that nothing collects in and no queued job needs may go. */
  lemma {:induction false} PooledContents(u: Setup, b: Books, jobs: seq<Job>, h: nat)
    requires AllFilled(u, b.slots, b.mem, b.stored) && InOrder(u, b, jobs)
    requires forall k :: 0 <= k < |b.slots| ==> b.slots[k].buf != Some(h)
    requires forall k :: 0 <= k < |jobs| ==> jobs[k].buf != h
    ensures var p := Pooled(b, h); AllFilled(u, p.slots, p.mem, p.stored) && InOrder(u, p, jobs)
  {
    hide Filled, JobsHold, InlineWrites;
    if |b.pool| >= POOL_MAX {
      forall k | 0 <= k < |b.slots|
        ensures Filled(u.t, k, b.slots[k], b.mem - {h}, b.stored[k])
      {
        FilledWithout(u.t, k, b.slots[k], b.mem, b.stored[k], h);
      }
      JobsHoldWithout(u.t, jobs, b.mem, b.completions[b.applied..], h);
    }
  }

  /** What becomes of a done slot. */
  lemma {:induction false} DoneOk(u: Setup, i: nat, s: Slot, s': Slot, mem: Memory, stored: Blocks)
    requires SlotOk(u.t, i, s) && s.blocksDone == |s.blocks|
    requires s' == s.(state := Done) || s' == s.(state := Done, buf := None)
    ensures SlotOk(u.t, i, s') && Unfinished(s') && Filled(u.t, i, s', mem, stored)
  {
    hide Population, PieceLen, Part;
  }

  /** A piece that has its hash and that the storage took: done, and its buffer recycled. */
  lemma {:induction false} AcceptedSound(u: Setup, b: Books, jobs: seq<Job>, full: Option<nat>, readable: bool)
    requires Proper(u) && Sound(u, b, jobs, full) && jobs != []
    ensures jobs[0].idx < |b.slots| == |b.have| == |b.avail| && b.applied < |b.completions|
    ensures var i := jobs[0].idx;
            var done := DoneAs(u, Judged(u, b), i, b.slots[i].(state := Done), readable);
            Sound(u, Pooled(done, jobs[0].buf), jobs[1..], full)
  {
    hide Progress, CursorOk, Owned, JobsHold, InlineWrites, NoRepeats, Consistent, InOrder, Filled, Advanced,
         Population, PieceLen;
    SizesAgree(u, b, jobs, full);
    var i, h := jobs[0].idx, jobs[0].buf;
    assert i < |b.slots| && b.slots[i].state == Hashing;
    var s := b.slots[i].(state := Done);
    var slots' := b.slots[i := s];
    DoneOk(u, i, b.slots[i], s, b.mem, b.stored[i]);
    JudgedInOrder(u, b, jobs);
    JudgedSame(u, b);
    ProgressDone(u.t, b.slots, i, s, b.numDone, b.completed, b.have, b.avail, readable);
    CursorFinish(u.order, b.slots, b.cursor, i, s);
    AdvancedOk(u.order, slots', b.cursor);
    JobToPool(b.slots, jobs, b.pool, b.owner, b.mem, u.t.pieceLength);
    FirstJobOnly(b.slots, jobs, b.pool, b.owner, b.mem, u.t.pieceLength);
    var d := DoneAs(u, Judged(u, b), i, s, readable);
    var p := Pooled(d, h);
    PairedPop(b.slots, jobs, s);
    hide SlotOk, Unfinished, Paired, Judged;
    assert Owned(b.slots, jobs[1..], p.pool, p.owner, p.mem, u.t.pieceLength);
    OwnedSizes(b.slots, jobs[1..], p.pool, p.owner, p.mem, u.t.pieceLength);
    SlotKeeps(b.slots, jobs[1..], p.pool, p.owner, p.mem, u.t.pieceLength, i, s, p.mem);
    InOrderSame(u, Judged(u, b), d, jobs[1..]);
    PooledContents(u, d, jobs[1..], h);
  }

  /** The buffer of the job at the head is no slot's and no other job's. */
  lemma {:induction false} FirstJobOnly(slots: seq<Slot>, jobs: seq<Job>, pool: seq<nat>, owner: map<nat, Holder>,
      mem: Memory, size: nat)
    requires Owned(slots, jobs, pool, owner, mem, size) && Paired(slots, jobs) && jobs != []
    ensures forall k :: 0 <= k < |slots| ==> slots[k].buf != Some(jobs[0].buf)
    ensures forall k :: 0 <= k < |jobs[1..]| ==> jobs[1..][k].buf != jobs[0].buf
  {
    forall k | 0 <= k < |jobs[1..]|
      ensures jobs[1..][k].buf != jobs[0].buf
    {
      assert jobs[1..][k] == jobs[k + 1] && jobs[0].idx != jobs[k + 1].idx;
    }
  }

  // ---------------------------------------------------------------------------------------------
  // Hashing inline, when there is no worker.

  /** Handed over and judged in one go. */
  function JudgedInline(u: Setup, b: Books, i: nat): Books
    requires i < |b.slots| && b.slots[i].buf.Some? && b.slots[i].buf.value in b.mem
    requires PieceLen(u.t, i) <= |b.mem[b.slots[i].buf.value]| && b.applied <= |b.completions|
  {
    Judged(u, b.(completions := b.completions + [(i, PieceBytes(u, b, i))]))
  }

  /** With no job queued, the piece just completed is the next to be judged. */
  lemma {:induction false} JudgedInlineSound(u: Setup, b: Books, i: nat)
    requires Complete(u, b, [], i)
    ensures b.slots[i].buf.Some? && b.slots[i].buf.value in b.mem && b.applied == |b.completions|
    ensures PieceLen(u.t, i) <= |b.mem[b.slots[i].buf.value]|
    ensures var j := JudgedInline(u, b, i);
            && Sound(u, j, [], Some(i)) && j.applied == |j.completions|
            && j == b.(completions := b.completions + [(i, PieceBytes(u, b, i))], applied := b.applied + 1,
                       writes := j.writes)
  {
    hide Progress, CursorOk, Owned, Paired, Filled, InlineWrites, NoRepeats, PieceLen, Population, SlotOk;
    CompleteIsAssembled(u, b, [], i);
    var c := (i, PieceBytes(u, b, i));
    var all := b.completions + [c];
    assert |b.completions[b.applied..]| == 0;
    assert all[b.applied] == c && all[..b.applied + 1] == all && all[..b.applied] == b.completions[..b.applied];
    InlineWritesSnoc(u, b.completions[..b.applied], c);
    assert all == b.completions[..b.applied] + [c];
  }

  lemma {:induction false} InlineWritesSnoc(u: Setup, done: seq<Completion>, c: Completion)
    ensures InlineWrites(u, done + [c])
            == InlineWrites(u, done) + if u.verify(c.0, c.1) then [(c.0 * u.t.pieceLength, c.1)] else []
  {
    assert (done + [c])[..|done|] == done;
  }

  lemma {:induction false} InlineAcceptedSound(u: Setup, b: Books, i: nat, readable: bool)
    requires Complete(u, b, [], i)
    ensures b.slots[i].buf.Some? && |b.slots| == |b.have| == |b.avail|
    ensures var done := DoneAs(u, b, i, b.slots[i].(state := Done, buf := None), readable);
            Sound(u, Pooled(done, b.slots[i].buf.value), [], None)
  {
    hide Progress, CursorOk, Owned, JobsHold, InlineWrites, NoRepeats, InOrder, Filled, Advanced, Population,
         PieceLen, Paired;
    CompleteIsAssembled(u, b, [], i);
    SizesAgree(u, b, [], Some(i));
    var h := b.slots[i].buf.value;
    var s := b.slots[i].(state := Done, buf := None);
    var slots' := b.slots[i := s];
    DoneOk(u, i, b.slots[i], s, b.mem, b.stored[i]);
    hide SlotOk, Unfinished, Consistent;
    ProgressDone(u.t, b.slots, i, s, b.numDone, b.completed, b.have, b.avail, readable);
    CursorFinish(u.order, b.slots, b.cursor, i, s);
    AdvancedOk(u.order, slots', b.cursor);
    SlotToPool(b.slots, [], b.pool, b.owner, b.mem, u.t.pieceLength, i, s);
    OnlySlot(u, b, [], i);
    PairedSame(b.slots, [], i, s);
    var d := DoneAs(u, b, i, s, readable);
    InOrderSame(u, b, d, []);
    assert AllFilled(u, d.slots, d.mem, d.stored);
    PooledContents(u, d, [], h);
  }

  // ---------------------------------------------------------------------------------------------

  /** Marking a piece done that nobody is hashing. */
  lemma {:induction false} PresetSound(u: Setup, b: Books, jobs: seq<Job>, i: nat, readable: bool)
    requires Proper(u) && Sound(u, b, jobs, None) && Collecting(b, i)
    ensures |b.slots| == |b.have| == |b.avail|
    ensures Sound(u, DoneAs(u, b, i, Preset(b.slots[i]), readable), jobs, None)
  {
    hide Progress, CursorOk, Owned, Paired, JobsHold, InlineWrites, NoRepeats, Consistent, InOrder, Advanced,
         Population, PieceLen, Part;
    SizesAgree(u, b, jobs, None);
    var s := Preset(b.slots[i]);
    PresetOk(u.t, i, b.slots[i]);
    assert Unfinished(s) && Filled(u.t, i, s, b.mem, b.stored[i]);
    hide SlotOk, Unfinished, Filled, Preset;
    ProgressDone(u.t, b.slots, i, s, b.numDone, b.completed, b.have, b.avail, readable);
    CursorFinish(u.order, b.slots, b.cursor, i, s);
    AdvancedOk(u.order, b.slots[i := s], b.cursor);
    OwnedSizes(b.slots, jobs, b.pool, b.owner, b.mem, u.t.pieceLength);
    SlotKeeps(b.slots, jobs, b.pool, b.owner, b.mem, u.t.pieceLength, i, s, b.mem);
    PairedSame(b.slots, jobs, i, s);
    InOrderSame(u, b, DoneAs(u, b, i, s, readable), jobs);
  }

  // ---------------------------------------------------------------------------------------------

  /** A new piece manager's books. */
  function Opened(t: Torrent): (b: Books)
    ensures |b.slots| == t.pieces
  {
    Books(seq(t.pieces, i requires 0 <= i < t.pieces => Fresh(t, i)), 0, 0,
          seq(t.pieces, _ => false), seq(t.pieces, _ => false), 0, map[], [], map[],
          seq(t.pieces, _ => map[]), [], 0, [])
  }

  lemma {:induction false} OpenedSound(u: Setup)
    requires Proper(u)
    ensures Sound(u, Opened(u.t), [], None)
  {
    hide Consistent, NoRepeats, PieceLen, Population;
    var b := Opened(u.t);
    forall i | 0 <= i < |b.slots|
      ensures SlotOk(u.t, i, b.slots[i]) && Unfinished(b.slots[i]) && Filled(u.t, i, b.slots[i], b.mem, b.stored[i])
    {
      FreshOk(u.t, i);
    }
    NoneDone(u.t, b.slots);
  }

  /** The order of the results does not depend on the threads: once nothing is queued, the storage has
      seen exactly what inline hashing of the completed pieces would have shown it. */
  lemma {:induction false} QuiescentIsInline(u: Setup, b: Books)
    requires Sound(u, b, [], None)
    ensures b.applied == |b.completions| && b.writes == InlineWrites(u, b.completions)
  {
    hide InlineWrites;
    assert |b.completions[b.applied..]| == 0;
    assert b.completions[..b.applied] == b.completions;
  }

  /** In between, it has seen the beginning of that. */
  lemma {:induction false} WritesArePrefix(u: Setup, b: Books, jobs: seq<Job>)
    requires Sound(u, b, jobs, None)
    ensures b.writes <= InlineWrites(u, b.completions)
  {
    hide InlineWrites, JobsHold;
    InlineWritesGrow(u, b.completions, b.applied);
  }

  lemma {:induction false} InlineWritesGrow(u: Setup, done: seq<Completion>, n: nat)
    requires n <= |done|
    ensures InlineWrites(u, done[..n]) <= InlineWrites(u, done)
    decreases |done|
  {
    if n == |done| {
      assert done[..n] == done;
    } else {
      var m := |done| - 1;
      InlineWritesGrow(u, done[..m], n);
      assert done[..m][..n] == done[..n];
    }
  }

  /** What the worker reads from the buffer of the `k`-th waiting job. */
  lemma {:induction false} JobContent(u: Setup, b: Books, jobs: seq<Job>, full: Option<nat>, k: nat)
    requires Sound(u, b, jobs, full) && k < |jobs|
    ensures b.applied + k < |b.completions|
    ensures jobs[k].buf in b.mem && jobs[k].plen <= |b.mem[jobs[k].buf]|
    ensures b.completions[b.applied + k] == (jobs[k].idx, b.mem[jobs[k].buf][..jobs[k].plen])
  {
    hide SlotsOk, Settled, Progress, CursorOk, Owned, Paired, AllFilled, InlineWrites, PieceLen;
    var handed := b.completions[b.applied..];
    assert jobs[k].idx == handed[k].0;
  }
}

/** The piece manager: blocks come in, complete pieces are hashed by a worker thread, verified pieces are
    written out, and the strict picker walks a maintained frontier. */
module PieceManager {
  import opened Options
  import opened Octets
  import opened PieceLayout
  import opened PieceSlots
  import opened PieceOrder
  import opened HashRing
  import opened PieceBuffers
  import opened PieceBooks

  const LOOKAHEAD := 32

  class Manager {
    const u: Setup
    const ring: Ring
    var slots: seq<Slot>
    var numDone: nat
    var completed: nat
    var have: seq<bool>
    var avail: seq<bool>
    var cursor: nat
    /** The heap of piece buffers. */
    var mem: Memory
    var pool: seq<nat>
    var hashOk: bool
    var hashStarted: bool
    /** Calls to the storage. */
    var writes: seq<(nat, Bytes)>
    ghost var owner: map<nat, Holder>
    ghost var stored: seq<Blocks>
    ghost var completions: seq<Completion>
    ghost var applied: nat

    ghost function B(): Books
      reads this
    {
      Books(slots, numDone, completed, have, avail, cursor, mem, pool, owner, stored, completions, applied, writes)
    }

    /** The jobs that wait for their results to be applied; `front` is out of the ring already. */
    ghost predicate Running(front: seq<Job>, full: Option<nat>)
      reads this, ring, ring.q
    {
      && Proper(u) && ring.Valid()
      && Sound(u, B(), front + ring.Jobs(), full)
      && |front| <= |completions| - applied
      && ring.due == Verdicts(u, completions[applied + |front|..])
      && (!hashOk || !hashStarted ==> ring.count == 0)
    }

    ghost predicate Valid()
      reads this, ring, ring.q
    {
      Running([], None)
    }

    constructor (t: Torrent, order: seq<nat>, pos: seq<int>, verify: (nat, Bytes) -> bool, hashOk: bool)
      requires Proper(Setup(t, order, pos, verify))
      ensures Valid() && B() == Opened(t) && u == Setup(t, order, pos, verify)
      ensures fresh(ring) && fresh(ring.q)
    {
      u := Setup(t, order, pos, verify);
      ring := new Ring();
      var n := t.pieces;
      slots := seq(n, i requires 0 <= i < n => Fresh(t, i));
      numDone, completed, cursor := 0, 0, 0;
      have, avail := seq(n, _ => false), seq(n, _ => false);
      mem, pool, writes := map[], [], [];
      this.hashOk, hashStarted := hashOk, false;
      owner, stored, completions, applied := map[], seq(n, _ => map[]), [], 0;
      new;
      hide Sound, Proper, Ring.Counted, Ring.Held;
      OpenedSound(u);
      assert B() == Opened(t);
      assert [] + ring.Jobs() == [];
    }

    // -------------------------------------------------------------------------------------------
    // The worker.

    /** How far the worker still has to go. */
    ghost function Distance(): int
      reads ring
    {
      3 * (ring.count - ring.hashed)
      - (match ring.worker case Idle => 0 case Taken(_, _) => 1 case Hashed(_, _, _) => 2)
    }

    /** The bytes the worker is about to hash are the completed piece's. */
    lemma TakenVerdict(front: seq<Job>, full: Option<nat>)
      requires Running(front, full) && ring.worker.Taken?
      ensures var job := ring.worker.job;
              && job.buf in mem && job.plen <= |mem[job.buf]|
              && ring.hashed < |ring.due| && ring.due[ring.hashed] == u.verify(job.idx, mem[job.buf][..job.plen])
    {
      hide Sound, Proper, Ring.Counted;
      var jobs, k := front + ring.Jobs(), |front| + ring.hashed;
      assert jobs[k] == ring.worker.job;
      JobContent(u, B(), jobs, full, k);
      assert completions[applied + |front|..][ring.hashed] == completions[applied + k];
    }

    /** One step of the worker thread, if it has one to make: it may come between any two steps of the
        torrent thread, and changes nothing but the ring. */
    method WorkerStep(ghost front: seq<Job>, ghost full: Option<nat>)
      requires Running(front, full)
      modifies ring, ring.q
      ensures Running(front, full) && ring.Jobs() == old(ring.Jobs()) && ring.count == old(ring.count)
      ensures ring.hashed >= old(ring.hashed)
      ensures old(ring.hashed) < old(ring.count) ==> Distance() < old(Distance())
    {
      hide Sound, Proper, Ring.Counted;
      match ring.worker
      case Idle =>
        if ring.hashed < ring.count {
          ring.Take();
        }
      case Taken(at, job) =>
        TakenVerdict(front, full);
        ring.Hash(u.verify(job.idx, mem[job.buf][..job.plen]));
      case Hashed(_, _, _) =>
        ring.Publish();
    }

    /** The worker runs for a while. */
    method Interleave(ghost front: seq<Job>, ghost full: Option<nat>)
      requires Running(front, full)
      modifies ring, ring.q
      ensures Running(front, full) && ring.Jobs() == old(ring.Jobs()) && ring.count == old(ring.count)
      ensures ring.hashed >= old(ring.hashed)
    {
      hide Sound, Proper, Ring.Counted, Ring.Held;
      var n: nat :| n >= 0;
      for k := 0 to n
        invariant Running(front, full) && ring.Jobs() == old(ring.Jobs()) && ring.count == old(ring.count)
        invariant ring.hashed >= old(ring.hashed)
      {
        WorkerStep(front, full);
      }
    }

    /** Waits for the worker until `want` results are there. */
    method Await(want: nat, ghost front: seq<Job>, ghost full: Option<nat>)
      requires Running(front, full) && want <= ring.count
      modifies ring, ring.q
      ensures Running(front, full) && ring.Jobs() == old(ring.Jobs()) && ring.count == old(ring.count)
      ensures ring.hashed >= want && ring.hashed >= old(ring.hashed)
    {
      hide Sound, Proper, Ring.Counted, Ring.Held;
      while ring.hashed < want
        invariant Running(front, full) && ring.Jobs() == old(ring.Jobs()) && ring.count == old(ring.count)
        invariant ring.hashed >= old(ring.hashed)
        decreases Distance()
      {
        WorkerStep(front, full);
      }
    }

    // -------------------------------------------------------------------------------------------
    // The pieces of the steps.

    /** `order_cursor_advance`. */
    method AdvanceCursor()
      modifies this`cursor
      ensures cursor == Advanced(u.order, slots, old(cursor))
    {
      while cursor < OrderCount(u.order, |slots|)
        invariant Advanced(u.order, slots, cursor) == Advanced(u.order, slots, old(cursor))
      {
        if !Finished(slots, OrderAt(u.order, cursor)) {
          break;
        }
        cursor := cursor + 1;
      }
    }

    /** `reset_piece`. */
    method ResetPiece(i: nat)
      requires i < |slots| == |stored| == |have| == |avail| == |u.pos|
      modifies this`slots, this`numDone, this`completed, this`have, this`avail, this`cursor, this`stored
      ensures B() == ResetTo(u, old(B()), i)
    {
      hide PieceLen, Cleared;
      if slots[i].state == Done && numDone > 0 {
        TakeBack(i);
      }
      slots := slots[i := Cleared(slots[i])];
      stored := stored[i := map[]];
      cursor := Rewound(u.pos[i], cursor);
    }

    /** The counters and bits of a done piece. */
    method TakeBack(i: nat)
      requires i < |have| == |avail| && numDone > 0
      modifies this`numDone, this`completed, this`have, this`avail
      ensures numDone == old(numDone) - 1 && have == old(have)[i := false] && avail == old(avail)[i := false]
      ensures completed == if old(completed) >= PieceLen(u.t, i) then old(completed) - PieceLen(u.t, i) else 0
    {
      hide PieceLen;
      var len := PieceLen(u.t, i);
      numDone := numDone - 1;
      completed := if completed >= len then completed - len else 0;
      have := have[i := false];
      avail := avail[i := false];
    }

    /** `mark_piece_done` and `mark_done_unhashed`: `s` is what the slot becomes. */
    method MarkDone(i: nat, s: Slot, readable: bool)
      requires i < |slots| == |have| == |avail|
      modifies this`slots, this`numDone, this`completed, this`have, this`avail, this`cursor
      ensures B() == DoneAs(u, old(B()), i, s, readable)
    {
      hide PieceLen, Advanced;
      slots := slots[i := s];
      Credit(i, readable);
      AdvanceCursor();
    }

    /** The counters and bits of a piece that is done. */
    method Credit(i: nat, readable: bool)
      requires i < |have| == |avail|
      modifies this`numDone, this`completed, this`have, this`avail
      ensures numDone == old(numDone) + 1 && completed == old(completed) + PieceLen(u.t, i)
      ensures have == old(have)[i := true] && avail == if readable then old(avail)[i := true] else old(avail)
    {
      hide PieceLen;
      have := have[i := true];
      if readable {
        avail := avail[i := true];
      }
      numDone := numDone + 1;
      completed := completed + PieceLen(u.t, i);
    }

    /** `piece_buf_put`. */
    method BufPut(h: nat)
      modifies this`pool, this`mem, this`owner
      ensures B() == Pooled(old(B()), h)
    {
      if |pool| < POOL_MAX {
        owner := owner[h := InPool(|pool|)];
        pool := pool + [h];
      } else {
        owner := owner - {h};
        mem := mem - {h};
      }
    }

    /** `piece_buf_get` into a slot: from the pool as it is, or allocated with whatever is in it, or not at
        all when memory is short. */
    method BufGet(i: nat) returns (got: bool)
      requires Valid() && Collecting(B(), i) && slots[i].buf == None
      modifies this`slots, this`pool, this`mem, this`owner
      ensures Valid()
      ensures !got ==> B() == old(B())
      ensures got ==> slots[i].buf.Some? && slots == old(slots)[i := old(slots[i]).(buf := slots[i].buf)]
    {
      if |pool| > 0 {
        TakePooled(i);
        return true;
      }
      var short := *;
      if short {
        return false;
      }
      TakeFresh(i);
      return true;
    }

    /** The buffer on top of the pool, with whatever is in it. */
    method TakePooled(i: nat)
      requires Valid() && Collecting(B(), i) && slots[i].buf == None && pool != []
      modifies this`slots, this`pool, this`owner
      ensures Valid()
      ensures slots[i].buf.Some? && slots == old(slots)[i := old(slots[i]).(buf := slots[i].buf)]
    {
      hide Sound, Proper, Ring.Counted, Ring.Held;
      ghost var was := B();
      var n := |pool| - 1;
      FromPoolSound(u, was, [] + ring.Jobs(), None, i);
      var h := pool[n];
      slots := slots[i := slots[i].(buf := Some(h))];
      pool := pool[..n];
      owner := owner[h := BySlot(i)];
      assert B() == FromPool(was, i);
    }

    /** A buffer from the heap. */
    method TakeFresh(i: nat)
      requires Valid() && Collecting(B(), i) && slots[i].buf == None
      modifies this`slots, this`mem, this`owner
      ensures Valid()
      ensures slots[i].buf.Some? && slots == old(slots)[i := old(slots[i]).(buf := slots[i].buf)]
    {
      hide Sound, Proper, Ring.Counted, Ring.Held;
      ghost var was := B();
      var h, bytes := Allocate();
      FromHeapSound(u, was, [] + ring.Jobs(), None, i, h, bytes);
      slots := slots[i := slots[i].(buf := Some(h))];
      mem := mem[h := bytes];
      owner := owner[h := BySlot(i)];
      assert B() == FromHeap(was, i, h, bytes);
    }

    /** An unused handle and arbitrary content. */
    method Allocate() returns (h: nat, bytes: Bytes)
      ensures h !in mem && |bytes| == u.t.pieceLength
    {
      ghost var bound := Bound(mem.Keys);
      assert bound !in mem;
      h :| h !in mem;
      ghost var zeros: Bytes := seq(u.t.pieceLength, _ => 0);
      assert |zeros| == u.t.pieceLength;
      bytes :| |bytes| == u.t.pieceLength;
    }

    // -------------------------------------------------------------------------------------------
    // Results.

    /** The call to the storage, for bytes that have the piece's hash; the storage may refuse them. */
    method Judge(i: nat, bytes: Bytes, ok: bool) returns (status: int)
      requires applied < |completions| && completions[applied] == (i, bytes) && ok == u.verify(i, bytes)
      modifies this`writes, this`applied
      ensures B() == Judged(u, old(B()))
      ensures status in {2, 0, -1} && (status == 0 <==> !ok)
    {
      if ok {
        writes := writes + [(i * u.t.pieceLength, bytes)];
        var written := *;
        status := if written then 2 else -1;
      } else {
        status := 0;
      }
      applied := applied + 1;
    }

    /** The job's buffer returns to its slot, and the piece begins anew. */
    method Refuse(job: Job)
      requires job.idx < |slots| == |stored| == |have| == |avail| == |u.pos|
      modifies this`slots, this`numDone, this`completed, this`have, this`avail, this`cursor, this`owner, this`stored
      ensures B() == ResetTo(u, Returned(old(B()), job), job.idx)
    {
      hide ResetTo;
      ghost var was := B();
      slots := slots[job.idx := slots[job.idx].(buf := Some(job.buf))];
      owner := owner[job.buf := BySlot(job.idx)];
      assert B() == Returned(was, job);
      ResetPiece(job.idx);
    }

    /** The piece is done, its buffer recycled. */
    method Accept(job: Job, readable: bool)
      requires job.idx < |slots| == |have| == |avail|
      modifies this`slots, this`numDone, this`completed, this`have, this`avail, this`cursor, this`mem, this`pool,
               this`owner
      ensures B() == Pooled(DoneAs(u, old(B()), job.idx, old(slots)[job.idx].(state := Done), readable), job.buf)
    {
      hide DoneAs, Pooled;
      MarkDone(job.idx, slots[job.idx].(state := Done), readable);
      BufPut(job.buf);
    }

    /** `hash_apply`: the oldest completed piece is written and marked done, or begun anew. */
    method Apply(job: Job, ok: bool, readable: bool, ghost full: Option<nat>) returns (status: int)
      requires Running([job], full) && applied < |completions|
      requires ok == u.verify(completions[applied].0, completions[applied].1)
      modifies this`slots, this`numDone, this`completed, this`have, this`avail, this`cursor, this`mem, this`pool,
               this`writes, this`owner, this`stored, this`applied
      ensures Running([], full)
      ensures completions == old(completions) && applied == old(applied) + 1
      ensures job.idx < |slots| == |old(slots)| == |stored| == |old(stored)|
      ensures forall k :: 0 <= k < |slots| && k != job.idx ==> slots[k] == old(slots)[k] && stored[k] == old(stored)[k]
      ensures status in {2, 0, -1} && (status == 0 <==> !ok)
      ensures slots[job.idx].state == if status == 2 then Done else Empty
      ensures slots[job.idx] == if status == 2 then old(slots)[job.idx].(state := Done)
                                else Cleared(old(slots)[job.idx].(buf := Some(job.buf)))
      ensures stored[job.idx] == if status == 2 then old(stored)[job.idx] else map[]
    {
      hide Sound, Proper, Cleared, Judged, ResetTo, DoneAs, Pooled, Returned, Ring.Counted, Ring.Held, Queued, Verdicts;
      ghost var was, jobs := B(), [job] + ring.Jobs();
      assert jobs[0] == job && jobs[1..] == ring.Jobs() && [] + ring.Jobs() == ring.Jobs();
      AcceptedSound(u, was, jobs, full, readable);
      RefusedSound(u, was, jobs, full);
      HeadOfJobs(u, was, jobs, full);
      JudgedSame(u, was);
      AcceptedSlots(u, Judged(u, was), job.idx, was.slots[job.idx].(state := Done), readable, job.buf);
      RefusedSlots(u, Judged(u, was), job);
      if slots[job.idx].state != Hashing {
        assert false;
      }
      status := Judge(job.idx, mem[job.buf][..job.plen], ok);
      if status == 2 {
        Accept(job, readable);
      } else {
        Refuse(job);
      }
    }

    /** Takes the finished job at the head out of the ring and applies its result. */
    method ApplyHead(ghost full: Option<nat>) returns (status: int)
      requires Running([], full) && ring.hashed > 0
      modifies this`slots, this`numDone, this`completed, this`have, this`avail, this`cursor, this`mem, this`pool,
               this`writes, this`owner, this`stored, this`applied, ring
      ensures Running([], full)
      ensures ring.count == old(ring.count) - 1 && ring.hashed == old(ring.hashed) - 1
      ensures completions == old(completions) && applied == old(applied) + 1
      ensures |slots| == |old(slots)| == |stored| == |old(stored)|
      ensures forall k :: 0 <= k < |slots| && old(slots)[k].state != Hashing ==>
                slots[k] == old(slots)[k] && stored[k] == old(stored)[k]
    {
      hide Sound, Proper, Ring.Counted, Ring.Held, Queued;
      ghost var jobs := [] + ring.Jobs();
      JobContent(u, B(), jobs, full, 0);
      VerdictsTail(u, completions, applied);
      ghost var due := ring.due;
      var job, ok := ring.Pop();
      assert [job] + ring.Jobs() == jobs && jobs[0] == job;
      assert due[1..] == ring.due;
      HeadOfJobs(u, B(), jobs, full);
      var readable := *;
      status := Apply(job, ok, readable, full);
    }

    /** `piece_mgr_drain_hash_results`: applies results as long as the oldest is there. */
    method Drain()
      requires Valid()
      modifies this, ring, ring.q
      ensures Valid() && completions == old(completions) && applied >= old(applied)
      ensures hashStarted == old(hashStarted) && hashOk == old(hashOk)
      ensures old(ring.hashed) == old(ring.count) ==> ring.count == 0
    {
      hide Sound, Proper, Ring.Counted, Ring.Held, Queued, Verdicts;
      if !hashStarted {
        return;
      }
      while true
        invariant Valid() && completions == old(completions) && applied >= old(applied)
        invariant hashStarted == old(hashStarted) && hashOk == old(hashOk)
        invariant old(ring.hashed) == old(ring.count) ==> ring.hashed == ring.count
        decreases ring.count
      {
        Interleave([], None);
        var done := ring.HeadDone();
        if !done {
          return;
        }
        var status := ApplyHead(None);
      }
    }

    /** `piece_mgr_hash_flush`: waits for every queued job, then applies all results. The storage has then
        seen exactly what hashing inline would have shown it. */
    method Flush()
      requires Valid()
      modifies this, ring, ring.q
      ensures Valid() && completions == old(completions) && ring.count == 0
      ensures applied == |completions| && writes == InlineWrites(u, completions)
    {
      hide Sound, Proper, Ring.Counted, Ring.Held, Queued, Verdicts, InlineWrites;
      if hashStarted {
        Await(ring.count, [], None);
        Drain();
      }
      assert [] + ring.Jobs() == [];
      QuiescentIsInline(u, B());
    }

    // -------------------------------------------------------------------------------------------
    // Blocks and pieces.

    /** `hash_enqueue`: detaches the complete piece's buffer into the ring, waiting for the oldest result
        when the ring is full; or leaves it for hashing inline, and then the ring is empty. */
    method Enqueue(i: nat) returns (queued: bool)
      requires Running([], Some(i)) && Complete(u, B(), [] + ring.Jobs(), i)
      modifies this, ring, ring.q
      ensures |stored| == |slots| == |old(slots)| == |old(stored)| && i < |slots|
      ensures completions == if queued
                             then old(completions) + [(i, Assembled(old(stored)[i], NumBlocks(PieceLen(u.t, i))))]
                             else old(completions)
      ensures queued ==> Valid() && slots[i].state == Hashing
      ensures !queued ==> Running([], Some(i)) && B() == old(B()) && ring.count == 0
    {
      hide Sound, Proper, Ring.Counted, Ring.Held, Queued, Verdicts, Handed, Assembled;
      CompleteIsAssembled(u, B(), [] + ring.Jobs(), i);
      queued := false;
      if !hashOk {
        return;
      }
      if !hashStarted {
        var spawned := *;
        if !spawned {
          hashOk := false;
          return;
        }
        hashStarted := true;
      }
      Interleave([], Some(i));
      if ring.count == SIZE {
        Await(1, [], Some(i));
        var status := ApplyHead(Some(i));
        Interleave([], Some(i));
      }
      HandOver(i);
      queued := true;
    }

    /** The new job, and the slot without its buffer. */
    method HandOver(i: nat)
      requires Running([], Some(i)) && Complete(u, B(), [] + ring.Jobs(), i)
      requires ring.count < SIZE && hashOk && hashStarted
      modifies this`slots, this`owner, this`completions, ring, ring.q
      ensures Valid() && i < |slots| == |old(slots)| && slots[i].state == Hashing
      ensures |old(stored)| == |slots|
      ensures completions == old(completions) + [(i, Assembled(old(stored)[i], NumBlocks(PieceLen(u.t, i))))]
    {
      hide Sound, Proper, Ring.Counted, Ring.Held, Queued, Assembled;
      ghost var was, jobs := B(), [] + ring.Jobs();
      CompleteIsAssembled(u, was, jobs, i);
      var s := slots[i];
      var job := Job(i, s.buf.value, PieceLen(u.t, i));
      HandedSound(u, was, jobs, i, job);
      ghost var c := (i, PieceBytes(u, was, i));
      ring.Push(job, u.verify(c.0, c.1));
      completions := completions + [c];
      slots := slots[i := s.(state := Hashing, buf := None)];
      owner := owner[job.buf := ByJob(i)];
      assert B() == Handed(u, was, i);
      assert [] + ring.Jobs() == jobs + [job];
      VerdictsSnoc(u, was.completions, applied, c);
    }

    /** Hashing on the torrent thread, when nothing is queued. */
    method Inline(i: nat) returns (status: int)
      requires Running([], Some(i)) && Complete(u, B(), [], i) && ring.count == 0
      modifies this`slots, this`numDone, this`completed, this`have, this`avail, this`cursor, this`mem, this`pool,
               this`writes, this`owner, this`stored, this`applied, this`completions
      ensures Valid() && i < |slots| == |old(slots)| == |old(stored)|
      ensures completions == old(completions) + [(i, Assembled(old(stored)[i], NumBlocks(PieceLen(u.t, i))))]
      ensures applied == |completions|
      ensures status in {2, 0, -1} && slots[i].state == if status == 2 then Done else Empty
      ensures status == 0 <==> !u.verify(completions[|completions| - 1].0, completions[|completions| - 1].1)
    {
      hide Sound, Proper, Ring.Counted, Ring.Held, Queued, Assembled, Judged, DoneAs, Pooled, ResetTo;
      ghost var was := B();
      assert [] + ring.Jobs() == [];
      CompleteIsAssembled(u, was, [], i);
      JudgedInlineSound(u, was, i);
      ghost var judged := JudgedInline(u, was, i);
      assert Complete(u, judged, [], i);
      var bytes := mem[slots[i].buf.value][..PieceLen(u.t, i)];
      var ok := u.verify(i, bytes);
      completions := completions + [(i, bytes)];
      assert completions[applied] == (i, bytes);
      assert B() == was.(completions := was.completions + [(i, PieceBytes(u, was, i))]);
      status := Judge(i, bytes, ok);
      assert B() == judged;
      var readable := *;
      InlineAcceptedSound(u, judged, i, readable);
      ResetSound(u, judged, [], Some(i), i);
      if status == 2 {
        var h := slots[i].buf.value;
        MarkDone(i, slots[i].(state := Done, buf := None), readable);
        BufPut(h);
        AcceptedSlots(u, judged, i, judged.slots[i].(state := Done, buf := None), readable, h);
      } else {
        ResetPiece(i);
        ResetSlots(u, judged, i);
      }
      assert Verdicts(u, completions[applied..]) == [];
    }

    /** The `memcpy` and the bookkeeping of a block. */
    method TakeBlock(i: nat, blk: nat, data: Bytes)
      requires i < |slots| == |stored| && blk < |slots[i].blocks| == |slots[i].requests|
      requires slots[i].buf.Some? && slots[i].buf.value in mem && OffsetOf(blk) + |data| <= |mem[slots[i].buf.value]|
      modifies this`slots, this`mem, this`stored
      ensures B() == Took(old(B()), i, blk, data)
    {
      hide Stored;
      var s := slots[i];
      var h := s.buf.value;
      mem := mem[h := Stored(mem[h], OffsetOf(blk), data)];
      s := s.(state := Pending);
      if !s.blocks[blk] {
        s := s.(blocks := s.blocks[blk := true], blocksDone := s.blocksDone + 1);
      }
      ghost var more: Blocks := stored[i][blk := data];
      stored := stored[i := more];
      assert s.blocks == slots[i].blocks[blk := true];
      slots := slots[i := s.(requests := s.requests[blk := 0])];
    }

    /** Is this a block the piece can use? */
    ghost predicate Usable(i: nat, offset: nat, data: Bytes)
      reads this
    {
      && Collecting(B(), i)
      && offset % 0x4000 == 0 && offset < PieceLen(u.t, i)
      && |data| == BlockLen(PieceLen(u.t, i), BlockOf(offset))
    }

    /** Once a block is in: a piece that lacks more waits, a whole one goes to be hashed. */
    method Collect(i: nat, blk: nat, data: Bytes) returns (r: int)
      requires Valid() && Collecting(B(), i) && slots[i].buf.Some?
      requires blk < NumBlocks(PieceLen(u.t, i)) && |data| == BlockLen(PieceLen(u.t, i), blk)
      modifies this, ring, ring.q
      ensures Valid() && |old(stored)| == |old(slots)| == |slots| == |stored|
      ensures blk < |old(slots)[i].blocks| == |old(slots)[i].requests|
      ensures var n := NumBlocks(PieceLen(u.t, i));
              var got: Blocks := old(stored)[i][blk := data];
              if Whole(got, n) then
                && completions == old(completions) + [(i, Assembled(got, n))]
                && Outcome(r, slots[i].state)
              else
                && r == 1
                && slots == old(slots)[i := Marked(old(slots)[i], blk)] && stored == old(stored)[i := got]
                && completions == old(completions) && writes == old(writes) && have == old(have)
    {
      hide Sound, Proper, Ring.Counted, Ring.Held, Queued, Verdicts, NumBlocks, BlockLen, PieceLen, Assembled,
           InlineWrites;
      ghost var was, jobs := B(), [] + ring.Jobs();
      TookSound(u, was, jobs, i, blk, data);
      WholeIffFull(u, Took(was, i, blk, data), jobs, i);
      TakeBlock(i, blk, data);
      ghost var got := stored[i];
      if slots[i].blocksDone != |slots[i].blocks| {
        SettledNow(u, B(), jobs, i);
        return 1;
      }
      var queued := Enqueue(i);
      if queued {
        return 1;
      }
      assert [] + ring.Jobs() == [];
      r := Inline(i);
      SizesAgree(u, B(), [] + ring.Jobs(), None);
    }

    /** `piece_mgr_got_block`. A usable block is stored, unless there is no memory for the piece's buffer;
        with the last missing block the piece is handed over: exactly the blocks received for it, in
        order. Anything else changes nothing. */
    method GotBlock(i: nat, offset: nat, data: Bytes) returns (r: int)
      requires Valid()
      modifies this, ring, ring.q
      ensures Valid() && |old(stored)| == |old(slots)| == |slots| == |stored|
      ensures !old(Usable(i, offset, data)) ==>
                B() == old(B()) && r == if i < |slots| && slots[i].state in {Done, Hashing} then 1 else -1
      ensures old(Usable(i, offset, data)) ==>
                BlockOf(offset) < |old(slots)[i].blocks| == |old(slots)[i].requests|
      ensures old(Usable(i, offset, data)) ==>
                || (r == -1 && old(slots)[i].buf == None && B() == old(B()))
                || (var n := NumBlocks(PieceLen(u.t, i));
                    var got: Blocks := old(stored)[i][BlockOf(offset) := data];
                    if Whole(got, n) then
                      && completions == old(completions) + [(i, Assembled(got, n))]
                      && Outcome(r, slots[i].state)
                    else
                      && r == 1 && stored == old(stored)[i := got]
                      && slots == old(slots)[i := Marked(old(slots)[i].(buf := slots[i].buf), BlockOf(offset))]
                      && completions == old(completions) && writes == old(writes) && have == old(have))
    {
      hide Sound, Proper, Ring.Counted, Ring.Held, Queued, Verdicts, NumBlocks, BlockLen, PieceLen, Assembled,
           InlineWrites;
      SizesAgree(u, B(), [] + ring.Jobs(), None);
      if i >= |slots| {
        return -1;
      }
      if slots[i].state == Done || slots[i].state == Hashing {
        return 1;
      }
      var plen := PieceLen(u.t, i);
      if offset % 0x4000 != 0 || offset >= plen {
        return -1;
      }
      var blk := BlockOf(offset);
      BlocksCover(plen, blk);
      OffsetOfBlock(offset);
      SlotSizesOf(u, B(), [] + ring.Jobs(), i);
      if blk >= NumBlocks(plen) || |data| != BlockLen(plen, blk) {
        return -1;
      }
      if slots[i].buf == None {
        var got := BufGet(i);
        if !got {
          return -1;
        }
      }
      r := Collect(i, blk, data);
    }

    /** `piece_mgr_mark_pending`: begins a piece that nobody has begun, with a buffer if there is one to
        be had. What has been received stays received. */
    method MarkPending(i: nat)
      requires Valid()
      modifies this`slots, this`pool, this`mem, this`owner
      ensures Valid() && |slots| == |old(slots)|
      ensures i < |slots| && old(slots)[i].state in {Empty, Pending} ==>
                slots == old(slots)[i := old(slots)[i].(state := Pending, buf := slots[i].buf)]
      ensures !(i < |slots| && old(slots)[i].state in {Empty, Pending}) ==> B() == old(B())
    {
      hide Sound, Proper, Ring.Counted, Ring.Held, Queued, Verdicts;
      if i >= |slots| {
        return;
      }
      if slots[i].state == Done || slots[i].state == Hashing {
        return;
      }
      if slots[i].state == Empty {
        BegunSound(u, B(), [] + ring.Jobs(), i);
        ghost var was := B();
        slots := slots[i := slots[i].(state := Pending)];
        assert B() == was.(slots := slots);
      }
      if slots[i].buf == None {
        var got := BufGet(i);
      }
    }

    /** `piece_mgr_verify_piece`: a done piece that storage no longer returns with its hash begins anew.
        `content` is what reading it back gave, if its range is readable at all. */
    method VerifyPiece(i: nat, rangeReadable: bool, scratch: bool, content: Option<Bytes>) returns (valid: bool)
      requires Valid()
      modifies this`slots, this`numDone, this`completed, this`have, this`avail, this`cursor, this`stored
      ensures Valid() && |old(slots)| == |old(stored)| == |old(have)| == |old(avail)| == |u.pos|
      ensures var spoilt := i < |old(slots)| && old(slots)[i].state == Done && rangeReadable && scratch
                            && !(content.Some? && u.verify(i, content.value));
              B() == if spoilt then ResetTo(u, old(B()), i) else old(B())
      ensures valid ==> i < |slots| && slots[i].state == Done
                        && (rangeReadable ==> content.Some? && u.verify(i, content.value))
    {
      hide Sound, Proper, Ring.Counted, Ring.Held, Queued, Verdicts, ResetTo;
      SizesAgree(u, B(), [] + ring.Jobs(), None);
      if i >= |slots| || slots[i].state != Done {
        return false;
      }
      if !rangeReadable {
        return true;
      }
      if !scratch {
        return false;
      }
      valid := content.Some? && u.verify(i, content.value);
      if !valid {
        ResetSound(u, B(), [] + ring.Jobs(), None, i);
        ResetSlots(u, B(), i);
        ResetPiece(i);
      }
    }

    /** `piece_mgr_check_existing`, which runs before any piece is being hashed: done when the range is
        skipped or holds the piece, begun anew otherwise. */
    method CheckExisting(i: nat, skipped: bool, scratch: bool, content: Option<Bytes>) returns (r: int)
      requires Valid() && (i < |slots| ==> slots[i].state != Hashing)
      modifies this`slots, this`numDone, this`completed, this`have, this`avail, this`cursor, this`stored
      ensures Valid() && |slots| == |old(slots)| == |have|
      ensures r == if i >= |slots| then -1
                   else if skipped || (scratch && content.Some? && u.verify(i, content.value)) then 1 else 0
      ensures r == 1 ==> slots[i].state == Done && have[i]
      ensures r == 0 && scratch ==> slots[i].state == Empty && !have[i]
      ensures r == -1 || (r == 0 && !scratch) ==> B() == old(B())
      ensures forall k :: 0 <= k < |slots| && k != i ==> slots[k] == old(slots)[k]
    {
      hide Sound, Proper, Ring.Counted, Ring.Held, Queued, Verdicts, ResetTo, DoneAs, Preset, Cleared;
      ghost var was, jobs := B(), [] + ring.Jobs();
      SizesAgree(u, was, jobs, None);
      if i >= |slots| {
        return -1;
      }
      if skipped {
        MarkUnhashed(i, false);
        return 1;
      }
      if !scratch {
        return 0;
      }
      var valid := content.Some? && u.verify(i, content.value);
      if valid {
        MarkUnhashed(i, true);
        return 1;
      }
      ResetSound(u, was, jobs, None, i);
      ResetSlots(u, was, i);
      ResetPiece(i);
      HaveIsDone(u, B(), jobs, i);
      SizesAgree(u, B(), jobs, None);
      return 0;
    }

    /** `mark_done_unhashed` for a piece that is not done yet. */
    method MarkUnhashed(i: nat, readable: bool)
      requires Valid() && i < |slots| && slots[i].state != Hashing
      modifies this`slots, this`numDone, this`completed, this`have, this`avail, this`cursor
      ensures Valid() && |slots| == |old(slots)| == |have| == |old(have)| == |avail| == |old(avail)|
      ensures slots[i].state == Done && have[i]
      ensures forall k :: 0 <= k < |slots| && k != i ==> slots[k] == old(slots)[k]
      ensures have == old(have)[i := true]
      ensures avail == if old(slots)[i].state != Done && readable then old(avail)[i := true] else old(avail)
    {
      hide Sound, Proper, Ring.Counted, Ring.Held, Queued, Verdicts, DoneAs, Preset;
      ghost var was, jobs := B(), [] + ring.Jobs();
      SizesAgree(u, was, jobs, None);
      HaveIsDone(u, was, jobs, i);
      if slots[i].state != Done {
        PresetSound(u, was, jobs, i, readable);
        PresetState(slots[i]);
        DoneFields(u, was, i, Preset(slots[i]), readable);
        MarkDone(i, Preset(slots[i]), readable);
      }
    }

    /** `piece_mgr_preset_have`, at startup: every piece of a saved bitfield whose range is skipped or
        readable is done without hashing. The bits say of each piece's range what storage says. */
    method PresetHave(bits: seq<bool>, skipped: nat -> bool, readable: nat -> bool)
      requires Valid() && forall i :: 0 <= i < |slots| ==> slots[i].state != Hashing
      modifies this`slots, this`numDone, this`completed, this`have, this`avail, this`cursor
      ensures Valid() && |slots| == |old(slots)| == |have| == |old(have)| == |avail| == |old(avail)|
      ensures |bits| != |slots| ==> B() == old(B())
      ensures |bits| == |slots| ==> forall k: nat :: k < |have| ==>
                && (have[k] <==> old(have)[k] || (bits[k] && (skipped(k) || readable(k))))
                && (avail[k] <==> old(avail)[k] || (!old(have)[k] && bits[k] && !skipped(k) && readable(k)))
    {
      hide Sound, Proper, Ring.Counted, Ring.Held, Queued, Verdicts;
      SizesAgree(u, B(), [] + ring.Jobs(), None);
      if |bits| == |slots| {
        PresetEach(bits, skipped, readable);
      }
    }

    /** The loop over the pieces. */
    method PresetEach(bits: seq<bool>, skipped: nat -> bool, readable: nat -> bool)
      requires Valid() && |bits| == |slots| == |have| == |avail|
      requires forall i :: 0 <= i < |slots| ==> slots[i].state != Hashing
      modifies this`slots, this`numDone, this`completed, this`have, this`avail, this`cursor
      ensures Valid() && |slots| == |old(slots)| == |have| == |old(have)| == |avail| == |old(avail)|
      ensures forall k: nat :: k < |have| ==>
                && (have[k] <==> old(have)[k] || (bits[k] && (skipped(k) || readable(k))))
                && (avail[k] <==> old(avail)[k] || (!old(have)[k] && bits[k] && !skipped(k) && readable(k)))
    {
      hide Running, Ring.Counted, Ring.Held;
      for i := 0 to |slots|
        invariant Valid() && |bits| == |slots| == |old(slots)| == |have| == |old(have)| == |avail| == |old(avail)|
        invariant forall k :: 0 <= k < |slots| ==> slots[k].state != Hashing
        invariant forall k :: i <= k < |have| ==> have[k] == old(have)[k] && avail[k] == old(avail)[k]
        invariant forall k: nat :: k < i ==>
                    && (have[k] <==> old(have)[k] || (bits[k] && (skipped(k) || readable(k))))
                    && (avail[k] <==> old(avail)[k] || (!old(have)[k] && bits[k] && !skipped(k) && readable(k)))
      {
        PresetOne(i, bits[i], skipped(i), readable(i));
      }
    }

    /** One piece of the saved bitfield. */
    method PresetOne(i: nat, bit: bool, skipped: bool, readable: bool)
      requires Valid() && i < |slots| == |have| == |avail| && slots[i].state != Hashing
      modifies this`slots, this`numDone, this`completed, this`have, this`avail, this`cursor
      ensures Valid() && |slots| == |old(slots)| == |have| == |avail| && slots[i].state != Hashing
      ensures forall k :: 0 <= k < |slots| && k != i ==> slots[k] == old(slots)[k]
      ensures have == old(have)[i := old(have)[i] || (bit && (skipped || readable))]
      ensures avail == old(avail)[i := old(avail)[i] || (!old(have)[i] && bit && !skipped && readable)]
    {
      hide Sound, Proper, Ring.Counted, Ring.Held, Queued, Verdicts;
      HaveIsDone(u, B(), [] + ring.Jobs(), i);
      if !bit || slots[i].state == Done {
        return;
      }
      if skipped {
        MarkUnhashed(i, false);
      } else if readable {
        MarkUnhashed(i, true);
      }
    }

    // -------------------------------------------------------------------------------------------
    // What to fetch next.

    /** `piece_mgr_head_piece`: the first unfinished piece of the whole order. */
    method HeadPiece() returns (r: Option<nat>)
      requires Valid()
      ensures r == HeadFrom(u.order, slots, 0)
    {
      hide Proper, Ring.Counted, Ring.Held, Queued, Verdicts, Progress, Owned, Paired, AllFilled, InOrder,
           SlotsOk, Settled;
      HeadSkips(u.order, slots, cursor, 0);
      hide Sound, CursorOk;
      var n := cursor;
      while n < OrderCount(u.order, |slots|)
        invariant HeadFrom(u.order, slots, n) == HeadFrom(u.order, slots, 0)
      {
        var i := OrderAt(u.order, n);
        if !Finished(slots, i) {
          return Some(i);
        }
        n := n + 1;
      }
      return None;
    }

    /** The strict half of `piece_mgr_pick`: what a scan of the whole order would choose. */
    method PickStrict(has: nat -> bool, allowed: nat -> bool, lookahead: nat, fillFirst: bool) returns (r: Option<nat>)
      requires Valid()
      ensures var k := if lookahead == 0 then LOOKAHEAD else lookahead;
              r == Choice(Window(u.order, slots, allowed, 0, k), slots, has, fillFirst)
    {
      hide Proper, Ring.Counted, Ring.Held, Queued, Verdicts, Progress, Owned, Paired, AllFilled, InOrder,
           Settled, Choice, Window;
      var k := if lookahead == 0 then LOOKAHEAD else lookahead;
      WindowSkips(u.order, slots, allowed, cursor, 0, k);
      SlotSizes(u, slots);
      r := PickFrom(u.order, slots, has, allowed, cursor, k, fillFirst);
    }

    /** The other half of `piece_mgr_pick`: the first piece not begun that may be requested and that the
        peer has, else the first such piece that is neither done nor being hashed. */
    method PickAny(has: nat -> bool, allowed: nat -> bool) returns (r: Option<nat>)
      requires Valid()
      ensures r.Some? ==> r.value < |slots| && allowed(r.value) && has(r.value)
                          && slots[r.value].state in {Empty, Pending}
      ensures r.Some? && slots[r.value].state == Empty ==>
                forall k: nat :: k < r.value && allowed(k) && has(k) ==> slots[k].state != Empty
      ensures r.Some? && slots[r.value].state == Pending ==>
                && (forall k: nat :: k < |slots| && allowed(k) && has(k) ==> slots[k].state != Empty)
                && (forall k: nat :: k < r.value && allowed(k) && has(k) ==> slots[k].state !in {Empty, Pending})
      ensures r.None? ==> forall k: nat :: k < |slots| && allowed(k) && has(k) ==> slots[k].state !in {Empty, Pending}
    {
      hide Sound, Proper, Ring.Counted, Ring.Held, Queued, Verdicts;
      SizesAgree(u, B(), [] + ring.Jobs(), None);
      for i := 0 to |slots|
        invariant forall k: nat :: k < i && allowed(k) && has(k) ==> slots[k].state != Empty
      {
        HaveIsDone(u, B(), [] + ring.Jobs(), i);
        if allowed(i) && slots[i].state == Empty && !have[i] && has(i) {
          return Some(i);
        }
      }
      for i := 0 to |slots|
        invariant forall k: nat :: k < i && allowed(k) && has(k) ==> slots[k].state !in {Empty, Pending}
      {
        HaveIsDone(u, B(), [] + ring.Jobs(), i);
        if allowed(i) && slots[i].state != Done && slots[i].state != Hashing && !have[i] && has(i) {
          return Some(i);
        }
      }
      return None;
    }
  }

  lemma {:induction false} SlotSizesOf(u: Setup, b: Books, jobs: seq<Job>, i: nat)
    requires Sound(u, b, jobs, None) && i < |b.slots|
    ensures |b.slots[i].blocks| == |b.slots[i].requests| == NumBlocks(PieceLen(u.t, i))
  {
    hide Population, PieceLen, NumBlocks, Progress, CursorOk, Owned, Paired, AllFilled, InOrder, Settled;
    assert SlotOk(u.t, i, b.slots[i]);
  }

  lemma {:induction false} SlotSizes(u: Setup, slots: seq<Slot>)
    requires SlotsOk(u, slots)
    ensures forall i :: 0 <= i < |slots| ==> |slots[i].blocks| == |slots[i].requests|
  {
    hide Population, PieceLen, NumBlocks;
    forall i | 0 <= i < |slots|
      ensures |slots[i].blocks| == |slots[i].requests|
    {
      assert SlotOk(u.t, i, slots[i]);
    }
  }

  lemma {:induction false} HaveIsDone(u: Setup, b: Books, jobs: seq<Job>, i: nat)
    requires Sound(u, b, jobs, None) && i < |b.slots|
    ensures i < |b.have| == |b.avail| && (b.have[i] <==> b.slots[i].state == Done) && (b.avail[i] ==> b.have[i])
  {
    hide CountDone, SumDone, SlotsOk, Settled, CursorOk, Owned, Paired, AllFilled, InOrder;
  }

  lemma PresetState(s: Slot)
    ensures Preset(s).state == Done
  {
  }

  lemma {:induction false} DoneFields(u: Setup, b: Books, i: nat, s: Slot, readable: bool)
    requires i < |b.slots| == |b.have| == |b.avail|
    ensures var p := DoneAs(u, b, i, s, readable);
            p.slots == b.slots[i := s] && p.have == b.have[i := true]
            && p.avail == (if readable then b.avail[i := true] else b.avail)
  {
    hide Advanced, PieceLen;
  }

  /** Every block is there. */
  ghost predicate Whole(got: Blocks, n: nat) {
    forall b: nat :: b < n ==> b in got
  }

  /** What `piece_mgr_got_block` says of a whole piece, and the state it leaves it in. */
  predicate Outcome(r: int, s: State) {
    || (r == 1 && s == Hashing)
    || (r == 2 && s == Done)
    || (r in {0, -1} && s == Empty)
  }

  /** The count of blocks says whether the piece is whole. */
  lemma {:induction false} WholeIffFull(u: Setup, b: Books, jobs: seq<Job>, i: nat)
    requires Sound(u, b, jobs, Some(i)) && i < |b.slots| && b.slots[i].state == Pending
    ensures |b.stored| == |b.slots|
    ensures b.slots[i].blocksDone == |b.slots[i].blocks| <==> Whole(b.stored[i], NumBlocks(PieceLen(u.t, i)))
  {
    hide Progress, CursorOk, Owned, Paired, InOrder, Population, PieceLen, NumBlocks, Part, BlockLen;
    PopulationFull(b.slots[i].blocks);
    assert SlotOk(u.t, i, b.slots[i]) && Filled(u.t, i, b.slots[i], b.mem, b.stored[i]);
  }

  lemma {:induction false} SettledNow(u: Setup, b: Books, jobs: seq<Job>, i: nat)
    requires Sound(u, b, jobs, Some(i)) && i < |b.slots| && b.slots[i].state == Pending
    requires b.slots[i].blocksDone != |b.slots[i].blocks|
    ensures Sound(u, b, jobs, None)
  {
    hide Progress, CursorOk, Owned, Paired, InOrder, AllFilled, Population, PieceLen, NumBlocks;
    PopulationBound(u, b, i);
  }

  lemma {:induction false} PopulationBound(u: Setup, b: Books, i: nat)
    requires SlotsOk(u, b.slots) && i < |b.slots|
    ensures b.slots[i].blocksDone <= |b.slots[i].blocks|
  {
    hide Population;
    assert SlotOk(u.t, i, b.slots[i]);
  }

  lemma OffsetOfBlock(offset: nat)
    requires offset % 0x4000 == 0
    ensures OffsetOf(BlockOf(offset)) == offset
  {
  }

  lemma {:induction false} ResetSlots(u: Setup, b: Books, i: nat)
    requires i < |b.slots| == |b.stored| == |b.have| == |b.avail| == |u.pos|
    ensures var p := ResetTo(u, b, i);
            p.slots == b.slots[i := Cleared(b.slots[i])] && p.completions == b.completions && p.applied == b.applied
  {
    hide PieceLen;
  }

  lemma VerdictsSnoc(u: Setup, done: seq<Completion>, n: nat, c: Completion)
    requires n <= |done|
    ensures Verdicts(u, (done + [c])[n..]) == Verdicts(u, done[n..]) + [u.verify(c.0, c.1)]
  {
    assert (done + [c])[n..] == done[n..] + [c];
  }

  lemma VerdictsTail(u: Setup, done: seq<Completion>, n: nat)
    requires n < |done|
    ensures var v := Verdicts(u, done[n..]);
            v[0] == u.verify(done[n].0, done[n].1) && v[1..] == Verdicts(u, done[n + 1..])
  {
    assert Verdicts(u, done[n..])[1..] == Verdicts(u, done[n + 1..]);
  }

  lemma {:induction false} AcceptedSlots(u: Setup, b: Books, i: nat, s: Slot, readable: bool, h: nat)
    requires i < |b.slots| == |b.have| == |b.avail|
    ensures var p := Pooled(DoneAs(u, b, i, s, readable), h);
            && p.slots == b.slots[i := s] && p.completions == b.completions
            && p.applied == b.applied && p.stored == b.stored
  {
    hide Advanced, PieceLen;
  }

  lemma {:induction false} RefusedSlots(u: Setup, b: Books, job: Job)
    requires job.idx < |b.slots| == |b.stored| == |b.have| == |b.avail| == |u.pos|
    ensures var p := ResetTo(u, Returned(b, job), job.idx);
            && p.slots == b.slots[job.idx := Cleared(b.slots[job.idx].(buf := Some(job.buf)))]
            && p.completions == b.completions && p.applied == b.applied
            && p.stored == b.stored[job.idx := map[]]
  {
    hide PieceLen;
  }

  lemma {:induction false} Bound(s: set<nat>) returns (m: nat)
    ensures forall x <- s :: x < m
  {
    if s == {} {
      m := 0;
    } else {
      var x :| x in s;
      m := Bound(s - {x});
      assert forall y <- s :: y == x || y in s - {x};
      m := if x < m then m else x + 1;
    }
  }

  /** The job being applied is that of the oldest piece that waits. */
  lemma {:induction false} HeadOfJobs(u: Setup, b: Books, jobs: seq<Job>, full: Option<nat>)
    requires Sound(u, b, jobs, full) && jobs != []
    ensures b.applied < |b.completions| && jobs[0].buf in b.mem && jobs[0].plen <= |b.mem[jobs[0].buf]|
    ensures b.completions[b.applied] == (jobs[0].idx, b.mem[jobs[0].buf][..jobs[0].plen])
    ensures jobs[0].idx < |b.slots| && b.slots[jobs[0].idx].state == Hashing
  {
    hide SlotsOk, Settled, Progress, CursorOk, Owned, AllFilled, InOrder;
    JobContent(u, b, jobs, full, 0);
    assert |jobs| > 0;
  }
}

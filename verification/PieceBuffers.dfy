/** Who holds which piece buffer, and what the buffers hold. Buffers are recycled without being cleared,
    so nothing here may depend on what a new or recycled buffer contains. */
module PieceBuffers {
  import opened Options
  import opened Octets
  import opened PieceLayout
  import opened PieceSlots
  import opened HashRing

  const POOL_MAX := 4

  /** A buffer's one owner: a piece's slot, the hash job of a piece, or the pool. */
  datatype Holder = BySlot(i: nat) | ByJob(i: nat) | InPool(k: nat)

  type Memory = map<nat, Bytes>

  ghost predicate HeldAs(owner: map<nat, Holder>, h: nat, who: Holder) {
    h in owner && owner[h] == who
  }

  /** The owner recorded for `h` really holds it. */
  ghost predicate Holds(slots: seq<Slot>, jobs: seq<Job>, pool: seq<nat>, who: Holder, h: nat) {
    match who
    case BySlot(i) => i < |slots| && slots[i].buf == Some(h)
    case ByJob(i) => exists k :: 0 <= k < |jobs| && jobs[k].idx == i && jobs[k].buf == h
    case InPool(k) => k < |pool| && pool[k] == h
  }

  /** Every allocated buffer has exactly one owner, and every owner's buffer is allocated, at full size. */
  ghost predicate Owned(slots: seq<Slot>, jobs: seq<Job>, pool: seq<nat>, owner: map<nat, Holder>, mem: Memory,
      size: nat) {
    && mem.Keys == owner.Keys && (forall h <- mem :: |mem[h]| == size)
    && (forall i :: 0 <= i < |slots| && slots[i].buf.Some? ==> HeldAs(owner, slots[i].buf.value, BySlot(i)))
    && (forall k :: 0 <= k < |jobs| ==> HeldAs(owner, jobs[k].buf, ByJob(jobs[k].idx)))
    && (forall k :: 0 <= k < |pool| ==> HeldAs(owner, pool[k], InPool(k)))
    && (forall h <- owner :: Holds(slots, jobs, pool, owner[h], h))
    && |pool| <= POOL_MAX
  }

  /** Pieces being hashed and queued jobs correspond one to one. */
  ghost predicate Paired(slots: seq<Slot>, jobs: seq<Job>) {
    && (forall k :: 0 <= k < |jobs| ==> jobs[k].idx < |slots| && slots[jobs[k].idx].state == Hashing)
    && (forall j, k :: 0 <= j < k < |jobs| ==> jobs[j].idx != jobs[k].idx)
    && (forall i :: 0 <= i < |slots| && slots[i].state == Hashing ==> Queues(jobs, i))
  }

  ghost predicate Queues(jobs: seq<Job>, i: nat) {
    exists k :: 0 <= k < |jobs| && jobs[k].idx == i
  }

  // ---------------------------------------------------------------------------------------------
  // Contents.

  type Blocks = map<nat, Bytes>

  function Part(buf: Bytes, b: nat, len: int): (p: Bytes) {
    if 0 <= len && OffsetOf(b) + len <= |buf| then buf[OffsetOf(b)..OffsetOf(b) + len] else []
  }

  /** Every block marked as received is in the buffer as it was received, and nothing else is recorded. */
  ghost predicate Filled(t: Torrent, i: nat, s: Slot, mem: Memory, stored: Blocks) {
    s.state in {Empty, Pending} ==>
      && (forall b: nat :: b in stored <==> b < |s.blocks| && s.blocks[b])
      && (forall b <- stored :: |stored[b]| == BlockLen(PieceLen(t, i), b))
      && (stored.Keys != {} ==> s.buf.Some? && s.buf.value in mem)
      && (forall b <- stored :: Part(mem[s.buf.value], b, BlockLen(PieceLen(t, i), b)) == stored[b])
  }

  /** The piece that a full set of blocks makes. */
  function Assembled(stored: Blocks, n: nat): Bytes {
    if n == 0 then [] else Assembled(stored, n - 1) + if n - 1 in stored then stored[n - 1] else []
  }

  /** Where the first `n` blocks end. */
  function EndOf(plen: nat, n: nat): nat {
    if OffsetOf(n) <= plen then OffsetOf(n) else plen
  }

  lemma {:induction false} AssembledPrefix(plen: nat, buf: Bytes, stored: Blocks, n: nat)
    requires plen <= |buf| && n <= NumBlocks(plen)
    requires forall b :: 0 <= b < n ==> b in stored && |stored[b]| == BlockLen(plen, b)
                                        && Part(buf, b, BlockLen(plen, b)) == stored[b]
    ensures Assembled(stored, n) == buf[..EndOf(plen, n)]
  {
    hide *;
    if n == 0 {
      AssembledNothing(plen, buf, stored);
    } else {
      AssembledPrefix(plen, buf, stored, n - 1);
      AssembledSnoc(stored, n);
      NextBlock(plen, buf, n - 1);
    }
  }

  lemma {:induction false} AssembledNothing(plen: nat, buf: Bytes, stored: Blocks)
    ensures EndOf(plen, 0) == 0 && Assembled(stored, 0) == buf[..0]
  {
  }

  lemma {:induction false} AssembledSnoc(stored: Blocks, n: nat)
    requires n > 0 && n - 1 in stored
    ensures Assembled(stored, n) == Assembled(stored, n - 1) + stored[n - 1]
  {
  }

  /** A prefix of the piece grows by the next block. */
  lemma NextBlock(plen: nat, buf: Bytes, b: nat)
    requires plen <= |buf| && b < NumBlocks(plen)
    ensures buf[..EndOf(plen, b)] + Part(buf, b, BlockLen(plen, b)) == buf[..EndOf(plen, b + 1)]
  {
    BlocksCover(plen, b);
    var at, len := OffsetOf(b), BlockLen(plen, b);
    assert EndOf(plen, b) == at && EndOf(plen, b + 1) == at + len;
    assert buf[..at] + buf[at..at + len] == buf[..at + len];
  }

  /** When every block has arrived, the buffer's first bytes are the piece, whatever it held before. */
  lemma {:induction false} FullIsAssembled(t: Torrent, i: nat, s: Slot, mem: Memory, stored: Blocks)
    requires s.state == Pending && Filled(t, i, s, mem, stored)
    requires |s.blocks| == NumBlocks(PieceLen(t, i)) > 0 && forall b :: 0 <= b < |s.blocks| ==> s.blocks[b]
    requires forall h <- mem :: |mem[h]| >= PieceLen(t, i)
    ensures s.buf.Some? && s.buf.value in mem
    ensures mem[s.buf.value][..PieceLen(t, i)] == Assembled(stored, |s.blocks|)
  {
    hide Part, BlockLen, NumBlocks, PieceLen;
    assert 0 in stored;
    var plen := PieceLen(t, i);
    AssembledPrefix(plen, mem[s.buf.value], stored, |s.blocks|);
    AllBlocksEnd(plen);
  }

  lemma AllBlocksEnd(plen: nat)
    ensures EndOf(plen, NumBlocks(plen)) == plen
  {
  }

  /** A received block overwrites its whole range of the buffer and touches no other. */
  function Stored(buf: Bytes, offset: nat, data: Bytes): (b: Bytes)
    requires offset + |data| <= |buf|
    ensures |b| == |buf|
  {
    buf[..offset] + data + buf[offset + |data|..]
  }

  lemma {:induction false} StoredParts(plen: nat, buf: Bytes, b: nat, data: Bytes, c: nat)
    requires plen <= |buf| && b < NumBlocks(plen) && c < NumBlocks(plen) && |data| == BlockLen(plen, b)
    ensures OffsetOf(b) + |data| <= plen
    ensures Part(Stored(buf, OffsetOf(b), data), c, BlockLen(plen, c))
            == if c == b then data else Part(buf, c, BlockLen(plen, c))
  {
    hide BlockLen, NumBlocks, OffsetOf, Stored;
    BlockFits(plen, b);
    BlockFits(plen, c);
    if c != b {
      Apart(plen, b, c);
    }
    StoredAt(buf, OffsetOf(b), data, OffsetOf(c), BlockLen(plen, c));
  }

  /** Reading back the stretch that was written, or one beside it. */
  lemma StoredAt(buf: Bytes, offset: nat, data: Bytes, at: nat, len: nat)
    requires offset + |data| <= |buf| && at + len <= |buf|
    ensures at == offset && len == |data| ==> Stored(buf, offset, data)[at..at + len] == data
    ensures at + len <= offset || offset + |data| <= at ==>
              Stored(buf, offset, data)[at..at + len] == buf[at..at + len]
  {
  }

  lemma {:induction false} BlockFits(plen: nat, b: nat)
    requires b < NumBlocks(plen)
    ensures 0 < BlockLen(plen, b) && OffsetOf(b) + BlockLen(plen, b) <= plen
  {
    BlocksCover(plen, b);
  }

  lemma Apart(plen: nat, b: nat, c: nat)
    requires b < NumBlocks(plen) && c < NumBlocks(plen) && b != c
    ensures OffsetOf(c) + BlockLen(plen, c) <= OffsetOf(b) || OffsetOf(b) + BlockLen(plen, b) <= OffsetOf(c)
  {
  }

  lemma {:induction false} FilledMore(t: Torrent, i: nat, s: Slot, mem: Memory, stored: Blocks, b: nat,
      data: Bytes, s': Slot)
    requires s.state in {Empty, Pending} && Filled(t, i, s, mem, stored)
    requires s.buf.Some? && s.buf.value in mem && |mem[s.buf.value]| >= PieceLen(t, i)
    requires |s.blocks| == NumBlocks(PieceLen(t, i)) && b < |s.blocks| && |data| == BlockLen(PieceLen(t, i), b)
    requires s'.state == Pending && s'.buf == s.buf && s'.blocks == s.blocks[b := true]
    requires OffsetOf(b) + |data| <= |mem[s.buf.value]|
    ensures Filled(t, i, s', mem[s.buf.value := Stored(mem[s.buf.value], OffsetOf(b), data)], stored[b := data])
  {
    hide BlockLen, NumBlocks, PieceLen, Part, Stored;
    var plen := PieceLen(t, i);
    forall c | c in stored[b := data]
      ensures c < |s.blocks|
      ensures Part(Stored(mem[s.buf.value], OffsetOf(b), data), c, BlockLen(plen, c)) == stored[b := data][c]
    {
      StoredParts(plen, mem[s.buf.value], b, data, c);
    }
  }

  /** Writing into one slot's buffer leaves every other slot's blocks alone. */
  lemma {:induction false} FilledElsewhere(t: Torrent, i: nat, s: Slot, mem: Memory, stored: Blocks, h: nat,
      bytes: Bytes)
    requires Filled(t, i, s, mem, stored) && s.buf != Some(h)
    ensures Filled(t, i, s, mem[h := bytes], stored)
  {
    hide Part, BlockLen, PieceLen;
  }

  /** A piece handed over for hashing: its number and its bytes. */
  type Completion = (nat, Bytes)

  /** The queued jobs' buffers still hold what was handed over. */
  ghost predicate JobsHold(t: Torrent, jobs: seq<Job>, mem: Memory, handed: seq<Completion>) {
    && |handed| == |jobs|
    && forall k {:trigger jobs[k]} {:trigger handed[k]} :: 0 <= k < |jobs| ==>
         && jobs[k].idx == handed[k].0 && jobs[k].plen == |handed[k].1| == PieceLen(t, jobs[k].idx)
         && jobs[k].buf in mem && jobs[k].plen <= |mem[jobs[k].buf]|
         && mem[jobs[k].buf][..jobs[k].plen] == handed[k].1
  }

  lemma {:induction false} JobsHoldElsewhere(t: Torrent, jobs: seq<Job>, mem: Memory, handed: seq<Completion>,
      h: nat, bytes: Bytes)
    requires JobsHold(t, jobs, mem, handed) && forall k :: 0 <= k < |jobs| ==> jobs[k].buf != h
    ensures JobsHold(t, jobs, mem[h := bytes], handed)
  {
  }

  // ---------------------------------------------------------------------------------------------
  // Buffers changing hands.

  /** From the pool's top to a slot that has none. */
  lemma {:induction false} PoolToSlot(slots: seq<Slot>, jobs: seq<Job>, pool: seq<nat>, owner: map<nat, Holder>,
      mem: Memory, size: nat, i: nat, s: Slot)
    requires Owned(slots, jobs, pool, owner, mem, size)
    requires pool != [] && i < |slots| && slots[i].buf == None && s.buf == Some(pool[|pool| - 1])
    ensures Owned(slots[i := s], jobs, pool[..|pool| - 1], owner[pool[|pool| - 1] := BySlot(i)], mem, size)
  {
    var n := |pool| - 1;
    var h, slots', owner' := pool[n], slots[i := s], owner[pool[n] := BySlot(i)];
    forall g | g in owner'
      ensures Holds(slots', jobs, pool[..n], owner'[g], g)
    {
      if g != h {
        assert Holds(slots, jobs, pool, owner[g], g);
      }
    }
    JobsNot(slots, jobs, pool, owner, mem, size, h, InPool(n));
  }

  /** No job holds a buffer that somebody else owns. */
  lemma JobsNot(slots: seq<Slot>, jobs: seq<Job>, pool: seq<nat>, owner: map<nat, Holder>, mem: Memory, size: nat,
      h: nat, who: Holder)
    requires Owned(slots, jobs, pool, owner, mem, size) && HeldAs(owner, h, who) && !who.ByJob?
    ensures forall k :: 0 <= k < |jobs| ==> jobs[k].buf != h
  {
  }

  /** A newly allocated buffer, whatever it contains. */
  lemma {:induction false} FreshToSlot(slots: seq<Slot>, jobs: seq<Job>, pool: seq<nat>, owner: map<nat, Holder>,
      mem: Memory, size: nat, i: nat, s: Slot, h: nat, bytes: Bytes)
    requires Owned(slots, jobs, pool, owner, mem, size)
    requires i < |slots| && slots[i].buf == None && s.buf == Some(h) && h !in mem && |bytes| == size
    ensures Owned(slots[i := s], jobs, pool, owner[h := BySlot(i)], mem[h := bytes], size)
  {
    var slots', owner' := slots[i := s], owner[h := BySlot(i)];
    forall g | g in owner'
      ensures Holds(slots', jobs, pool, owner'[g], g)
    {
      if g != h {
        assert Holds(slots, jobs, pool, owner[g], g);
      }
    }
  }

  /** A slot changes but keeps its buffer; the buffer's bytes may change. */
  lemma {:induction false} SlotKeeps(slots: seq<Slot>, jobs: seq<Job>, pool: seq<nat>, owner: map<nat, Holder>,
      mem: Memory, size: nat, i: nat, s: Slot, mem': Memory)
    requires Owned(slots, jobs, pool, owner, mem, size)
    requires i < |slots| && s.buf == slots[i].buf
    requires mem'.Keys == mem.Keys && forall h <- mem' :: |mem'[h]| == size
    ensures Owned(slots[i := s], jobs, pool, owner, mem', size)
  {
    forall g | g in owner
      ensures Holds(slots[i := s], jobs, pool, owner[g], g)
    {
      assert Holds(slots, jobs, pool, owner[g], g);
    }
  }

  /** Detached from its slot into a job at the tail. */
  lemma {:induction false} SlotToJob(slots: seq<Slot>, jobs: seq<Job>, pool: seq<nat>, owner: map<nat, Holder>,
      mem: Memory, size: nat, i: nat, s: Slot, job: Job)
    requires Owned(slots, jobs, pool, owner, mem, size)
    requires i < |slots| && slots[i].buf == Some(job.buf) && s.buf == None && job.idx == i
    ensures Owned(slots[i := s], jobs + [job], pool, owner[job.buf := ByJob(i)], mem, size)
  {
    var slots', jobs', owner' := slots[i := s], jobs + [job], owner[job.buf := ByJob(i)];
    assert jobs'[|jobs|] == job;
    forall g | g in owner'
      ensures Holds(slots', jobs', pool, owner'[g], g)
    {
      if g != job.buf {
        assert Holds(slots, jobs, pool, owner[g], g);
        match owner[g]
        case ByJob(j) =>
          var k :| 0 <= k < |jobs| && jobs[k].idx == j && jobs[k].buf == g;
          assert jobs'[k] == jobs[k];
        case _ =>
      }
    }
  }

  /** Back from the job at the head to its slot. */
  lemma {:induction false} JobToSlot(slots: seq<Slot>, jobs: seq<Job>, pool: seq<nat>, owner: map<nat, Holder>,
      mem: Memory, size: nat, s: Slot)
    requires Owned(slots, jobs, pool, owner, mem, size) && Paired(slots, jobs)
    requires jobs != [] && slots[jobs[0].idx].buf == None && s.buf == Some(jobs[0].buf)
    ensures Owned(slots[jobs[0].idx := s], jobs[1..], pool, owner[jobs[0].buf := BySlot(jobs[0].idx)], mem, size)
  {
    var job := jobs[0];
    var slots', jobs', owner' := slots[job.idx := s], jobs[1..], owner[job.buf := BySlot(job.idx)];
    forall g | g in owner'
      ensures Holds(slots', jobs', pool, owner'[g], g)
    {
      if g != job.buf {
        assert Holds(slots, jobs, pool, owner[g], g);
        JobRemains(jobs, owner[g], g);
      }
    }
  }

  lemma JobRemains(jobs: seq<Job>, who: Holder, g: nat)
    requires jobs != [] && g != jobs[0].buf
    requires who.ByJob? ==> exists k :: 0 <= k < |jobs| && jobs[k].idx == who.i && jobs[k].buf == g
    ensures who.ByJob? ==> exists k :: 0 <= k < |jobs[1..]| && jobs[1..][k].idx == who.i && jobs[1..][k].buf == g
  {
    if who.ByJob? {
      var k :| 0 <= k < |jobs| && jobs[k].idx == who.i && jobs[k].buf == g;
      assert jobs[1..][k - 1] == jobs[k];
    }
  }

  /** The job at the head leaves, and its buffer with it. */
  lemma {:induction false} JobFreed(slots: seq<Slot>, jobs: seq<Job>, pool: seq<nat>, owner: map<nat, Holder>,
      mem: Memory, size: nat)
    requires Owned(slots, jobs, pool, owner, mem, size) && Paired(slots, jobs) && jobs != []
    ensures jobs[0].buf in mem
    ensures Owned(slots, jobs[1..], pool, owner - {jobs[0].buf}, mem - {jobs[0].buf}, size)
  {
    var h, jobs' := jobs[0].buf, jobs[1..];
    forall g | g in owner && g != h
      ensures Holds(slots, jobs', pool, owner[g], g)
    {
      assert Holds(slots, jobs, pool, owner[g], g);
      JobRemains(jobs, owner[g], g);
    }
    OtherJobs(jobs, owner);
  }

  /** No later job has the first one's buffer. */
  lemma OtherJobs(jobs: seq<Job>, owner: map<nat, Holder>)
    requires jobs != [] && forall k :: 0 <= k < |jobs| ==> HeldAs(owner, jobs[k].buf, ByJob(jobs[k].idx))
    requires forall j, k :: 0 <= j < k < |jobs| ==> jobs[j].idx != jobs[k].idx
    ensures forall k :: 0 <= k < |jobs[1..]| ==> jobs[1..][k].buf != jobs[0].buf
  {
    forall k | 0 <= k < |jobs[1..]|
      ensures jobs[1..][k].buf != jobs[0].buf
    {
      assert jobs[1..][k] == jobs[k + 1] && jobs[0].idx != jobs[k + 1].idx;
    }
  }

  /** A slot gives its buffer up. */
  lemma {:induction false} SlotFreed(slots: seq<Slot>, jobs: seq<Job>, pool: seq<nat>, owner: map<nat, Holder>,
      mem: Memory, size: nat, i: nat, s: Slot)
    requires Owned(slots, jobs, pool, owner, mem, size)
    requires i < |slots| && slots[i].buf.Some? && s.buf == None
    ensures var h := slots[i].buf.value;
            h in mem && Owned(slots[i := s], jobs, pool, owner - {h}, mem - {h}, size)
  {
    var h, slots' := slots[i].buf.value, slots[i := s];
    forall g | g in owner && g != h
      ensures Holds(slots', jobs, pool, owner[g], g)
    {
      assert Holds(slots, jobs, pool, owner[g], g);
    }
  }

  /** A buffer nobody owns joins the pool. */
  lemma {:induction false} IntoPool(slots: seq<Slot>, jobs: seq<Job>, pool: seq<nat>, owner: map<nat, Holder>,
      mem: Memory, size: nat, h: nat)
    requires h in mem && |mem[h]| == size && |pool| < POOL_MAX
    requires Owned(slots, jobs, pool, owner - {h}, mem - {h}, size)
    ensures Owned(slots, jobs, pool + [h], owner[h := InPool(|pool|)], mem, size)
  {
    var owner', pool' := owner[h := InPool(|pool|)], pool + [h];
    assert pool'[|pool|] == h;
    forall g | g in owner'
      ensures Holds(slots, jobs, pool', owner'[g], g)
    {
      if g != h {
        assert g in owner - {h};
        assert Holds(slots, jobs, pool, (owner - {h})[g], g);
      }
    }
    forall g | g in mem
      ensures |mem[g]| == size
    {
      assert g != h ==> g in mem - {h};
    }
    assert mem.Keys == (mem - {h}).Keys + {h} && owner'.Keys == (owner - {h}).Keys + {h};
  }

  /** From the job at the head to the pool, or out of existence when the pool is full. */
  lemma {:induction false} JobToPool(slots: seq<Slot>, jobs: seq<Job>, pool: seq<nat>, owner: map<nat, Holder>,
      mem: Memory, size: nat)
    requires Owned(slots, jobs, pool, owner, mem, size) && Paired(slots, jobs) && jobs != []
    ensures |pool| < POOL_MAX ==>
              Owned(slots, jobs[1..], pool + [jobs[0].buf], owner[jobs[0].buf := InPool(|pool|)], mem, size)
    ensures Owned(slots, jobs[1..], pool, owner - {jobs[0].buf}, mem - {jobs[0].buf}, size)
  {
    JobFreed(slots, jobs, pool, owner, mem, size);
    if |pool| < POOL_MAX {
      IntoPool(slots, jobs[1..], pool, owner, mem, size, jobs[0].buf);
    }
  }

  /** From a slot to the pool, or out of existence when the pool is full. */
  lemma {:induction false} SlotToPool(slots: seq<Slot>, jobs: seq<Job>, pool: seq<nat>, owner: map<nat, Holder>,
      mem: Memory, size: nat, i: nat, s: Slot)
    requires Owned(slots, jobs, pool, owner, mem, size)
    requires i < |slots| && slots[i].buf.Some? && s.buf == None
    ensures var h := slots[i].buf.value;
            && (|pool| < POOL_MAX ==> Owned(slots[i := s], jobs, pool + [h], owner[h := InPool(|pool|)], mem, size))
            && Owned(slots[i := s], jobs, pool, owner - {h}, mem - {h}, size)
  {
    SlotFreed(slots, jobs, pool, owner, mem, size, i, s);
    if |pool| < POOL_MAX {
      IntoPool(slots[i := s], jobs, pool, owner, mem, size, slots[i].buf.value);
    }
  }

  // ---------------------------------------------------------------------------------------------
  // Pairing.

  lemma {:induction false} PairedSame(slots: seq<Slot>, jobs: seq<Job>, i: nat, s: Slot)
    requires Paired(slots, jobs) && i < |slots| && s.state != Hashing && slots[i].state != Hashing
    ensures Paired(slots[i := s], jobs)
  {
  }

  lemma {:induction false} PairedPush(slots: seq<Slot>, jobs: seq<Job>, i: nat, s: Slot, job: Job)
    requires Paired(slots, jobs) && i < |slots| && slots[i].state != Hashing && s.state == Hashing && job.idx == i
    ensures Paired(slots[i := s], jobs + [job])
  {
    var jobs' := jobs + [job];
    assert jobs'[|jobs|] == job;
    forall j | 0 <= j < |slots| && slots[i := s][j].state == Hashing
      ensures Queues(jobs', j)
    {
      if j != i {
        assert Queues(jobs, j);
        var k :| 0 <= k < |jobs| && jobs[k].idx == j;
        assert jobs'[k] == jobs[k];
      }
    }
  }

  lemma {:induction false} PairedPop(slots: seq<Slot>, jobs: seq<Job>, s: Slot)
    requires Paired(slots, jobs) && jobs != [] && s.state != Hashing
    ensures Paired(slots[jobs[0].idx := s], jobs[1..])
  {
    var slots', jobs' := slots[jobs[0].idx := s], jobs[1..];
    forall k | 0 <= k < |jobs'|
      ensures jobs'[k].idx < |slots'| && slots'[jobs'[k].idx].state == Hashing
    {
      assert jobs'[k] == jobs[k + 1] && jobs[0].idx != jobs[k + 1].idx;
    }
    forall j | 0 <= j < |slots| && slots'[j].state == Hashing
      ensures Queues(jobs', j)
    {
      assert Queues(jobs, j);
      var k :| 0 <= k < |jobs| && jobs[k].idx == j;
      assert jobs'[k - 1] == jobs[k];
    }
  }
}

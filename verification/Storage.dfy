/** A torrent's data as one flat byte space laid over many files, each kept on disk, streamed to a sink
    or not wanted at all. */
module Storage {
  import opened Octets
  import opened Options

  datatype Mode = Disk | Sink | Skip

  /** `ready`: how much of a sink's file an earlier session already consumed. */
  datatype File = File(offset: int, length: nat, mode: Mode, ready: nat)

  /** One accepted call of a sink. */
  datatype Call = Call(file: nat, at: nat, data: Bytes)

  /** One byte handed to a sink. */
  datatype Handed = Handed(file: nat, at: nat, value: Byte)

  // ---------------------------------------------------------------------------------------------
  // The layout.

  /** Offsets are running sums of the lengths; empty files are allowed. */
  ghost predicate Laid(files: seq<File>) {
    && (files != [] ==> files[0].offset == 0)
    && forall i :: 0 <= i < |files| - 1 ==> Follows(files, i)
  }

  predicate Follows(files: seq<File>, i: nat)
    requires i < |files| - 1
  {
    files[i + 1].offset == files[i].offset + files[i].length
  }

  function Total(files: seq<File>): int {
    if files == [] then 0 else files[|files| - 1].offset + files[|files| - 1].length
  }

  predicate Owns(files: seq<File>, i: int, p: int) {
    0 <= i < |files| && files[i].offset <= p < files[i].offset + files[i].length
  }

  lemma {:induction false} LaidInOrder(files: seq<File>, i: nat, j: nat)
    requires Laid(files) && i < j < |files|
    ensures files[i].offset + files[i].length <= files[j].offset
    decreases j
  {
    assert Follows(files, j - 1);
    if i < j - 1 {
      LaidInOrder(files, i, j - 1);
    }
  }

  lemma {:induction false} LaidFromZero(files: seq<File>, i: nat)
    requires Laid(files) && i < |files|
    ensures 0 <= files[i].offset
    ensures files[i].offset + files[i].length <= Total(files)
  {
    if i > 0 {
      LaidInOrder(files, 0, i);
    }
    if i < |files| - 1 {
      LaidInOrder(files, i, |files| - 1);
    }
  }

  ghost function Owner(files: seq<File>, p: int): (o: Option<nat>)
    ensures o.Some? ==> Owns(files, o.value, p)
    ensures o.None? ==> forall i :: !Owns(files, i, p)
  {
    if exists i :: Owns(files, i, p) then
      var i :| Owns(files, i, p);
      Some(i)
    else None
  }

  /** Every position has at most one owner. */
  lemma {:induction false} OwnerUnique(files: seq<File>, i: int, p: int)
    requires Laid(files) && Owns(files, i, p)
    ensures Owner(files, p) == Some(i)
  {
    var j := Owner(files, p).value;
    if i < j {
      LaidInOrder(files, i, j);
    } else if j < i {
      LaidInOrder(files, j, i);
    }
  }

  /** The owned positions are exactly those from 0 up to the total length. */
  lemma {:induction false} OwnedIffInside(files: seq<File>, p: int)
    requires Laid(files)
    ensures Owner(files, p).Some? <==> 0 <= p < Total(files)
  {
    if Owner(files, p).Some? {
      LaidFromZero(files, Owner(files, p).value);
    } else if 0 <= p < Total(files) {
      NoGap(files, p, |files|);
    }
  }

  lemma {:induction false} NoGap(files: seq<File>, p: int, n: nat)
    requires Laid(files) && n <= |files| && 0 <= p
    requires forall i :: !Owns(files, i, p)
    ensures n > 0 ==> files[n - 1].offset + files[n - 1].length <= p
    decreases n
  {
    if n > 0 {
      NoGap(files, p, n - 1);
      assert !Owns(files, n - 1, p);
      if n > 1 {
        assert Follows(files, n - 2);
      }
    }
  }

  /** The offsets a multi-file torrent's file list gets: each is the sum of the lengths before it. */
  method LayOut(lengths: seq<nat>, modes: seq<Mode>, ready: seq<nat>) returns (files: seq<File>, total: nat)
    requires |modes| == |ready| == |lengths|
    ensures Laid(files) && |files| == |lengths| && total == Total(files)
    ensures forall i :: 0 <= i < |files| ==>
              files[i].length == lengths[i] && files[i].mode == modes[i] && files[i].ready == ready[i]
  {
    files, total := [], 0;
    for i := 0 to |lengths|
      invariant |files| == i && Laid(files) && total == Total(files)
      invariant forall k :: 0 <= k < i ==>
                  files[k].length == lengths[k] && files[k].mode == modes[k] && files[k].ready == ready[k]
    {
      ghost var was := files;
      files := files + [File(total, lengths[i], modes[i], ready[i])];
      assert forall k :: 0 <= k < i - 1 ==> Follows(was, k) ==> Follows(files, k);
      total := total + lengths[i];
    }
  }

  // ---------------------------------------------------------------------------------------------
  // Bytes.

  ghost predicate OnDisk(files: seq<File>, p: int) {
    Owner(files, p).Some? && files[Owner(files, p).value].mode == Disk
  }

  /** The byte at a position of the flat space, if it is on disk and the file reaches that far. */
  ghost function At(files: seq<File>, disk: seq<Bytes>, p: int): Option<Byte>
    requires |disk| == |files|
  {
    if !OnDisk(files, p) then None
    else
      var i := Owner(files, p).value;
      var k := p - files[i].offset;
      if k < |disk[i]| then Some(disk[i][k]) else None
  }

  /** A byte that was there stays; at most a hole in front of the written part is filled with zeros. */
  predicate Kept(before: Option<Byte>, after: Option<Byte>) {
    after == before || (before == None && after == Some(0))
  }

  /** What writing `data` at `offset` does to the flat space. */
  ghost predicate Written(files: seq<File>, disk: seq<Bytes>, disk': seq<Bytes>, offset: int, data: Bytes) {
    && |disk'| == |disk| == |files|
    && (forall p :: offset <= p < offset + |data| && OnDisk(files, p) ==> At(files, disk', p) == Some(data[p - offset]))
    && (forall p :: !(offset <= p < offset + |data| && OnDisk(files, p)) ==>
          Kept(At(files, disk, p), At(files, disk', p)))
  }

  lemma {:induction false} WrittenMore(files: seq<File>, d0: seq<Bytes>, d1: seq<Bytes>, d2: seq<Bytes>,
      offset: int, x: Bytes, y: Bytes)
    requires Written(files, d0, d1, offset, x) && Written(files, d1, d2, offset + |x|, y)
    ensures Written(files, d0, d2, offset, x + y)
  {
    hide At, OnDisk;
    forall p | offset <= p < offset + |x + y| && OnDisk(files, p)
      ensures At(files, d2, p) == Some((x + y)[p - offset])
    {
      if p < offset + |x| {
        assert Kept(At(files, d1, p), At(files, d2, p));
      }
    }
    forall p | !(offset <= p < offset + |x + y| && OnDisk(files, p))
      ensures Kept(At(files, d0, p), At(files, d2, p))
    {
      assert Kept(At(files, d0, p), At(files, d1, p)) && Kept(At(files, d1, p), At(files, d2, p));
    }
  }

  /** What a read of a range returns: its bytes, if every one of them is on disk. */
  ghost predicate ReadsAs(files: seq<File>, disk: seq<Bytes>, offset: int, data: Bytes)
    requires |disk| == |files|
  {
    forall k {:trigger data[k]} :: 0 <= k < |data| ==> At(files, disk, offset + k) == Some(data[k])
  }

  /** What was written on disk is what is read back. */
  lemma {:induction false} RoundTrip(files: seq<File>, disk: seq<Bytes>, disk': seq<Bytes>, offset: int, data: Bytes)
    requires Written(files, disk, disk', offset, data)
    requires forall p :: offset <= p < offset + |data| ==> OnDisk(files, p)
    ensures ReadsAs(files, disk', offset, data)
  {
    hide At, OnDisk;
  }

  /** What is read from anywhere else is what was there before. */
  lemma {:induction false} DisjointUnchanged(files: seq<File>, disk: seq<Bytes>, disk': seq<Bytes>, offset: int,
      data: Bytes, at: int, other: Bytes)
    requires Written(files, disk, disk', offset, data)
    requires at + |other| <= offset || offset + |data| <= at
    requires ReadsAs(files, disk, at, other)
    ensures ReadsAs(files, disk', at, other)
  {
    hide At, OnDisk;
    forall k | 0 <= k < |other|
      ensures At(files, disk', at + k) == Some(other[k])
    {
      assert At(files, disk, at + k) == Some(other[k]);
      assert Kept(At(files, disk, at + k), At(files, disk', at + k));
    }
  }

  /** A position whose bytes are dropped: not wanted, or consumed by an earlier session. */
  ghost predicate Dropped(files: seq<File>, p: int) {
    Owner(files, p).Some?
    && var f := files[Owner(files, p).value];
       f.mode == Skip || (f.mode == Sink && p - f.offset < f.ready)
  }

  /** A position of a file that is streamed to a sink. */
  ghost predicate InSink(files: seq<File>, p: int) {
    Owner(files, p).Some? && files[Owner(files, p).value].mode == Sink
  }

  /** What the sinks are handed of `data` at `offset`: in ascending order, each byte of a sink's file at
      or past its mark. */
  ghost function SinkBytes(files: seq<File>, offset: int, data: Bytes): seq<Handed> {
    if data == [] then []
    else
      var n := |data| - 1;
      SinkBytes(files, offset, data[..n]) + SinkByte(files, offset + n, data[n])
  }

  ghost function SinkByte(files: seq<File>, p: int, b: Byte): seq<Handed> {
    if Owner(files, p).Some? && files[Owner(files, p).value].mode == Sink && !Dropped(files, p) then
      var i := Owner(files, p).value;
      assert Owns(files, i, p);
      [Handed(i, p - files[i].offset, b)]
    else []
  }

  lemma {:induction false} SinkBytesConcat(files: seq<File>, offset: int, x: Bytes, y: Bytes)
    ensures SinkBytes(files, offset, x + y) == SinkBytes(files, offset, x) + SinkBytes(files, offset + |x|, y)
    decreases |y|
  {
    hide SinkByte;
    if y == [] {
      assert x + y == x;
    } else {
      var n := |y| - 1;
      SinkBytesConcat(files, offset, x, y[..n]);
      assert (x + y)[..|x + y| - 1] == x + y[..n];
    }
  }

  /** The calls, byte by byte. */
  function Expand(calls: seq<Call>): seq<Handed> {
    if calls == [] then []
    else Expand(calls[..|calls| - 1]) + Bytewise(calls[|calls| - 1])
  }

  function Bytewise(c: Call): (h: seq<Handed>)
    ensures |h| == |c.data|
  {
    seq(|c.data|, k requires 0 <= k < |c.data| => Handed(c.file, c.at + k, c.data[k]))
  }

  /** A range whose every byte is dropped is handed to nobody and lands nowhere. */
  lemma {:induction false} DroppedLandsNowhere(files: seq<File>, offset: int, data: Bytes)
    requires forall p :: offset <= p < offset + |data| ==> Dropped(files, p)
    ensures SinkBytes(files, offset, data) == []
    ensures forall p :: offset <= p < offset + |data| ==> !OnDisk(files, p)
  {
    if data != [] {
      var n := |data| - 1;
      assert Dropped(files, offset + n);
      DroppedLandsNowhere(files, offset, data[..n]);
    }
  }

  // ---------------------------------------------------------------------------------------------
  // One file's part of a write.

  /** Writing past a file's end fills the hole with zeros. */
  function Overwritten(content: Bytes, at: nat, data: Bytes): (c: Bytes)
    ensures |c| >= at + |data|
  {
    var padded: Bytes := if |content| < at then content + seq(at - |content|, _ => 0) else content;
    padded[..at] + data + if |padded| > at + |data| then padded[at + |data|..] else []
  }

  lemma OverwrittenAt(content: Bytes, at: nat, data: Bytes, k: nat)
    ensures var c := Overwritten(content, at, data);
            && |c| == (if |content| > at + |data| then |content| else at + |data|)
            && (k < |c| ==>
                  c[k] == if at <= k < at + |data| then data[k - at] else if k < |content| then content[k] else 0)
  {
  }

  /** A stretch of positions that lies inside one file. */
  ghost predicate Within(files: seq<File>, i: nat, p: int, n: nat) {
    i < |files| && files[i].offset <= p && p + n <= files[i].offset + files[i].length
  }

  lemma {:induction false} OwnerWithin(files: seq<File>, i: nat, p: int, n: nat)
    requires Laid(files) && Within(files, i, p, n)
    ensures forall q :: p <= q < p + n ==> Owner(files, q) == Some(i)
  {
    forall q | p <= q < p + n
      ensures Owner(files, q) == Some(i)
    {
      OwnerUnique(files, i, q);
    }
  }

  lemma {:induction false} DiskWritten(files: seq<File>, disk: seq<Bytes>, i: nat, p: int, data: Bytes)
    requires Laid(files) && |disk| == |files| && Within(files, i, p, |data|) && files[i].mode == Disk
    ensures Written(files, disk, disk[i := Overwritten(disk[i], p - files[i].offset, data)], p, data)
  {
    hide Laid, Owner, Overwritten;
    var at := p - files[i].offset;
    var disk' := disk[i := Overwritten(disk[i], at, data)];
    OwnerWithin(files, i, p, |data|);
    forall q
      ensures p <= q < p + |data| && OnDisk(files, q) ==> At(files, disk', q) == Some(data[q - p])
      ensures !(p <= q < p + |data| && OnDisk(files, q)) ==> Kept(At(files, disk, q), At(files, disk', q))
    {
      if Owner(files, q) == Some(i) {
        OverwrittenAt(disk[i], at, data, q - files[i].offset);
      }
    }
  }

  lemma {:induction false} ElsewhereWritten(files: seq<File>, disk: seq<Bytes>, i: nat, p: int, data: Bytes)
    requires Laid(files) && |disk| == |files| && Within(files, i, p, |data|) && files[i].mode != Disk
    ensures Written(files, disk, disk, p, data)
  {
    OwnerWithin(files, i, p, |data|);
  }

  /** Of one file's stretch, only the part at or past the mark is handed over. */
  function Segment(f: File, i: nat, at: nat, data: Bytes): seq<Handed> {
    var skip := if at < f.ready then f.ready - at else 0;
    if f.mode != Sink || skip >= |data| then [] else Bytewise(Call(i, at + skip, data[skip..]))
  }

  lemma {:induction false} SegmentSnoc(f: File, i: nat, at: nat, front: Bytes, b: Byte)
    ensures Segment(f, i, at, front + [b])
            == Segment(f, i, at, front)
               + if f.mode == Sink && at + |front| >= f.ready then [Handed(i, at + |front|, b)] else []
  {
    hide Bytewise;
    var skip := if at < f.ready then f.ready - at else 0;
    if f.mode == Sink && skip <= |front| {
      assert (front + [b])[skip..] == front[skip..] + [b];
      BytewiseSnoc(Call(i, at + skip, front[skip..]), b);
    }
  }

  lemma {:induction false} SinkSegment(files: seq<File>, i: nat, p: int, data: Bytes)
    requires Laid(files) && Within(files, i, p, |data|)
    ensures p >= files[i].offset && SinkBytes(files, p, data) == Segment(files[i], i, p - files[i].offset, data)
    decreases |data|
  {
    hide Laid, Owner, Within, SinkByte, Segment, SinkBytes;
    WithinLess(files, i, p, |data|);
    if data == [] {
      SegmentNone(files, files[i], i, p);
    } else {
      var n := |data| - 1;
      SinkSegment(files, i, p, data[..n]);
      SinkBytesSnoc(files, p, data);
      SinkByteWithin(files, i, p + n, data[n]);
      SegmentSnoc(files[i], i, p - files[i].offset, data[..n], data[n]);
      assert data[..n] + [data[n]] == data;
    }
  }

  lemma {:induction false} SegmentNone(files: seq<File>, f: File, i: nat, p: int)
    ensures p >= f.offset ==> Segment(f, i, p - f.offset, []) == []
    ensures SinkBytes(files, p, []) == []
  {
  }

  lemma {:induction false} SinkBytesSnoc(files: seq<File>, p: int, data: Bytes)
    requires data != []
    ensures var n := |data| - 1;
            SinkBytes(files, p, data) == SinkBytes(files, p, data[..n]) + SinkByte(files, p + n, data[n])
  {
    hide SinkByte;
  }

  lemma WithinLess(files: seq<File>, i: nat, p: int, n: nat)
    requires Within(files, i, p, n)
    ensures i < |files| && files[i].offset <= p
    ensures n > 0 ==> Within(files, i, p, n - 1) && Within(files, i, p + n - 1, 1)
  {
  }

  lemma {:induction false} SinkByteWithin(files: seq<File>, i: nat, p: int, b: Byte)
    requires Laid(files) && Within(files, i, p, 1)
    ensures var at := p - files[i].offset;
            at >= 0
            && SinkByte(files, p, b)
               == if files[i].mode == Sink && at >= files[i].ready then [Handed(i, at, b)] else []
  {
    hide Laid, Owner;
    OwnerWithin(files, i, p, 1);
  }

  lemma BytewiseSnoc(c: Call, b: Byte)
    ensures Bytewise(c.(data := c.data + [b])) == Bytewise(c) + [Handed(c.file, c.at + |c.data|, b)]
    ensures c.data == [] ==> Bytewise(c) == []
  {
  }

  class Store {
    const files: seq<File>
    var disk: seq<Bytes>
    /** The calls the sinks accepted. */
    var handed: seq<Call>
    /** A sink rejected its bytes. */
    var error: bool

    ghost predicate Valid()
      reads this
    {
      Laid(files) && |disk| == |files|
    }

    constructor (files: seq<File>, disk: seq<Bytes>)
      requires Laid(files) && |disk| == |files|
      ensures Valid() && this.files == files && this.disk == disk && handed == [] && !error
    {
      this.files, this.disk, handed, error := files, disk, [], false;
    }

    /** `find_file`: the owner and the position inside it, by binary search. */
    method FindFile(off: int) returns (found: bool, i: nat, local: nat)
      requires Laid(files)
      ensures found <==> 0 <= off < Total(files)
      ensures found ==> Owns(files, i, off) && Owner(files, off) == Some(i) && local == off - files[i].offset
    {
      hide Laid, Owner;
      var lo, hi := 0, |files|;
      OwnedIffInside(files, off);
      while lo < hi
        invariant 0 <= lo <= hi <= |files|
        invariant forall k :: 0 <= k < lo ==> files[k].offset <= off
        invariant forall k :: hi <= k < |files| ==> off < files[k].offset
      {
        var mid := lo + (hi - lo) / 2;
        forall k | 0 <= k < |files|
          ensures k < mid ==> files[k].offset <= files[mid].offset
          ensures mid < k ==> files[mid].offset <= files[k].offset
        {
          if k < mid {
            LaidInOrder(files, k, mid);
          } else if mid < k {
            LaidInOrder(files, mid, k);
          }
        }
        if files[mid].offset <= off {
          lo := mid + 1;
        } else {
          hi := mid;
        }
      }
      if lo == 0 {
        return false, 0, 0;
      }
      i := lo - 1;
      if off >= files[i].offset + files[i].length {
        OwnerNotLast(files, i, off);
        return false, i, 0;
      }
      OwnerUnique(files, i, off);
      return true, i, off - files[i].offset;
    }

    /** `storage_write`: fails outside the layout or when a sink refuses; `done` bytes were dealt with. */
    method Write(offset: int, data: Bytes) returns (ok: bool, ghost done: nat, ghost refused: bool)
      requires Valid()
      modifies this`disk, this`handed, this`error
      ensures Valid() && done <= |data| && (ok ==> done == |data|)
      ensures Written(files, old(disk), disk, offset, data[..done])
      ensures Expand(handed) == old(Expand(handed)) + SinkBytes(files, offset, data[..done])
      ensures ok ==> error == old(error) && !refused
      ensures !ok && refused ==> error && done < |data| && InSink(files, offset + done)
      ensures !ok && !refused ==> error == old(error) && done < |data| && Owner(files, offset + done).None?
      ensures !ok && !refused ==> !(0 <= offset && offset + |data| <= Total(files))
      ensures !ok && !error ==> !(0 <= offset && offset + |data| <= Total(files))
      ensures ok && data != [] ==> 0 <= offset && offset + |data| <= Total(files)
    {
      hide Laid, Written, SinkBytes, Expand;
      var written := 0;
      done, refused := 0, false;
      NothingWritten(files, disk, offset);
      assert data[..0] == [];
      while written < |data|
        invariant 0 <= written <= |data| && Valid() && done == written
        invariant Written(files, old(disk), disk, offset, data[..written])
        invariant Expand(handed) == old(Expand(handed)) + SinkBytes(files, offset, data[..written])
        invariant error == old(error) && !refused
        invariant written > 0 ==> 0 <= offset && offset + written <= Total(files)
      {
        var found, i, local := FindFile(offset + written);
        OwnedIffInside(files, offset + written);
        if !found {
          return false, done, false;
        }
        var n := files[i].length - local;
        if n > |data| - written {
          n := |data| - written;
        }
        LaidFromZero(files, i);
        var part := data[written..written + n];
        assert data[..written + n] == data[..written] + part;
        ghost var before := disk;
        ok := WritePart(i, local, part);
        if !ok {
          refused := true;
          return;
        }
        WrittenMore(files, old(disk), before, disk, offset, data[..written], part);
        SinkBytesConcat(files, offset, data[..written], part);
        written := written + n;
        done := written;
      }
      assert data[..written] == data;
      return true, done, false;
    }

    /** One file's part. */
    method WritePart(i: nat, local: nat, part: Bytes) returns (ok: bool)
      requires Valid() && i < |files| && local + |part| <= files[i].length
      modifies this`disk, this`handed, this`error
      ensures Valid()
      ensures ok ==> Written(files, old(disk), disk, files[i].offset + local, part)
      ensures ok ==> Expand(handed) == old(Expand(handed)) + SinkBytes(files, files[i].offset + local, part)
      ensures ok ==> error == old(error)
      ensures !ok ==> disk == old(disk) && handed == old(handed) && error && files[i].mode == Sink
    {
      hide Laid, Written, SinkBytes, Overwritten, Expand;
      ghost var p := files[i].offset + local;
      SinkSegment(files, i, p, part);
      match files[i].mode {
        case Skip =>
          ElsewhereWritten(files, disk, i, p, part);
          return true;
        case Sink =>
          ElsewhereWritten(files, disk, i, p, part);
          var skip := if local < files[i].ready then files[i].ready - local else 0;
          if skip >= |part| {
            return true;
          }
          ok := Hand(Call(i, local + skip, part[skip..]));
        case Disk =>
          DiskWritten(files, disk, i, p, part);
          disk := disk[i := Overwritten(disk[i], local, part)];
          return true;
      }
    }

    /** The sink takes what it is handed, or not. */
    method Hand(c: Call) returns (ok: bool)
      modifies this`handed, this`error
      ensures handed == if ok then old(handed) + [c] else old(handed)
      ensures ok ==> Expand(handed) == old(Expand(handed)) + Bytewise(c)
      ensures error == (old(error) || !ok)
    {
      hide Bytewise;
      ok := *;
      if ok {
        handed := handed + [c];
        assert handed[..|handed| - 1] == old(handed);
      } else {
        error := true;
      }
    }

    /** `storage_read`: the bytes of the range, or nothing unless all of them are on disk. */
    method Read(offset: int, len: nat) returns (r: Option<Bytes>)
      requires Valid()
      ensures r.Some? ==> |r.value| == len && ReadsAs(files, disk, offset, r.value)
      ensures r.Some? <==> forall p :: offset <= p < offset + len ==> At(files, disk, p).Some?
    {
      hide Laid, Owner;
      var data: Bytes := [];
      while |data| < len
        invariant |data| <= len
        invariant ReadsAs(files, disk, offset, data)
        decreases len - |data|
      {
        var p := offset + |data|;
        var found, i, local := FindFile(p);
        OwnedIffInside(files, p);
        if !found || files[i].mode != Disk {
          assert At(files, disk, p) == None;
          return None;
        }
        var n := files[i].length - local;
        if n > len - |data| {
          n := len - |data|;
        }
        LaidFromZero(files, i);
        OwnerWithin(files, i, p, n);
        if |disk[i]| < local + n {
          assert At(files, disk, p + n - 1) == None;
          return None;
        }
        data := data + disk[i][local..local + n];
      }
      assert forall k {:trigger data[k]} :: 0 <= k < len ==> At(files, disk, offset + k) == Some(data[k]);
      forall p | offset <= p < offset + len
        ensures At(files, disk, p).Some?
      {
        assert At(files, disk, offset + (p - offset)) == Some(data[p - offset]);
      }
      return Some(data);
    }

    /** `range_has_mode`: every position of the range belongs to a file of that mode. */
    method RangeHasMode(offset: int, len: nat, mode: Mode) returns (all: bool)
      requires Valid()
      ensures all <==> forall p :: offset <= p < offset + len ==>
                         Owner(files, p).Some? && files[Owner(files, p).value].mode == mode
    {
      hide Laid, Owner;
      var done := 0;
      while done < len
        invariant 0 <= done <= len
        invariant forall p :: offset <= p < offset + done ==>
                    Owner(files, p).Some? && files[Owner(files, p).value].mode == mode
      {
        var found, i, local := FindFile(offset + done);
        OwnedIffInside(files, offset + done);
        if !found {
          return false;
        }
        if files[i].mode != mode {
          return false;
        }
        var count := files[i].length - local;
        if count > len - done {
          count := len - done;
        }
        OwnerWithin(files, i, offset + done, count);
        done := done + count;
      }
      return true;
    }

    /** `storage_range_skipped`: every position of the range is dropped. */
    method RangeSkipped(offset: int, len: nat) returns (all: bool)
      requires Valid()
      ensures all <==> forall p :: offset <= p < offset + len ==> Dropped(files, p)
    {
      hide Laid, Owner;
      var done := 0;
      while done < len
        invariant 0 <= done <= len
        invariant forall p :: offset <= p < offset + done ==> Dropped(files, p)
      {
        var p := offset + done;
        var found, i, local := FindFile(p);
        OwnedIffInside(files, p);
        if !found {
          assert !Dropped(files, p);
          return false;
        }
        var count := files[i].length - local;
        if count > len - done {
          count := len - done;
        }
        OwnerWithin(files, i, p, count);
        if files[i].mode == Skip || (files[i].mode == Sink && local + count <= files[i].ready) {
          done := done + count;
          continue;
        }
        assert !Dropped(files, p + count - 1);
        return false;
      }
      return true;
    }
  }

  lemma {:induction false} NothingWritten(files: seq<File>, disk: seq<Bytes>, offset: int)
    requires |disk| == |files|
    ensures Written(files, disk, disk, offset, []) && SinkBytes(files, offset, []) == []
  {
  }

  /** Past the last file that starts at or before a position, no file owns it. */
  lemma {:induction false} OwnerNotLast(files: seq<File>, i: nat, p: int)
    requires Laid(files) && i < |files| && files[i].offset + files[i].length <= p
    requires forall k :: i < k < |files| ==> p < files[k].offset
    ensures Owner(files, p).None?
  {
    forall k
      ensures !Owns(files, k, p)
    {
      if 0 <= k < i {
        LaidInOrder(files, k, i);
      }
    }
  }
}

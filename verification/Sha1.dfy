/** Hashing a stream piece by piece, against the padded message of section 5.1.1 of FIPS 180-4. The
    compression function is a parameter. */
module Sha1 {
  import opened ModMath
  import opened Octets

  type Word = x: int | 0 <= x < 0x1_0000_0000

  datatype State = State(a: Word, b: Word, c: Word, d: Word, e: Word)

  const INITIAL := State(0x67452301, 0xEFCDAB89, 0x98BADCFE, 0x10325476, 0xC3D2E1F0)

  type Transform = (State, Bytes) -> State

  /** Truncation to the width of a count word, and of the two together. */
  function Low32(x: nat): Word {
    x % 0x1_0000_0000
  }

  function Low64(x: nat): nat {
    x % 0x1_0000_0000_0000_0000
  }

  /** The position inside a 64-byte block. */
  function InBlock(n: nat): (p: nat)
    ensures p < 64
  {
    n % 64
  }

  /** The compression function over the full 64-byte blocks of `data`; a shorter rest is ignored. */
  function Fold(tf: Transform, st: State, data: Bytes): State
    decreases |data|
  {
    if |data| < 64 then st else Fold(tf, tf(st, data[..64]), data[64..])
  }

  /** The low `k` bytes of a number, most significant first. */
  function BigEndian(n: nat, k: nat): (b: Bytes)
    ensures |b| == k
  {
    if k == 0 then [] else BigEndian(n / 256, k - 1) + [n % 256]
  }

  /** How many zero bytes follow the marker: the least number that leaves room for the length. */
  function Zeros(n: nat): (z: nat)
    ensures InBlock(n + 1 + z) == 56 && z < 64
  {
    (119 - n % 64) % 64
  }

  /** The padded message. */
  function Padded(message: Bytes): (p: Bytes)
    requires 8 * |message| < 0x1_0000_0000_0000_0000
    ensures |p| == |message| + 1 + Zeros(|message|) + 8
  {
    message + [0x80] + seq(Zeros(|message|), _ => 0) + BigEndian(8 * |message|, 8)
  }

  /** Padding leaves no part of a block. */
  lemma PaddedWhole(message: Bytes)
    requires 8 * |message| < 0x1_0000_0000_0000_0000
    ensures InBlock(|Padded(message)|) == 0
  {
    hide Zeros, Padded;
    var n := |message| + 1 + Zeros(|message|);
    RemainderUnique(n + 8, 64, n / 64 + 1, 0);
  }

  function Digest(st: State): (d: Bytes)
    ensures |d| == 20
  {
    BigEndian(st.a, 4) + BigEndian(st.b, 4) + BigEndian(st.c, 4) + BigEndian(st.d, 4) + BigEndian(st.e, 4)
  }

  /** The hash of a message as the standard defines it. */
  function Hash(tf: Transform, message: Bytes): Bytes
    requires 8 * |message| < 0x1_0000_0000_0000_0000
  {
    Digest(Fold(tf, INITIAL, Padded(message)))
  }

  // ---------------------------------------------------------------------------------------------

  lemma {:induction false} FoldConcat(tf: Transform, st: State, a: Bytes, b: Bytes)
    requires |a| % 64 == 0
    ensures Fold(tf, st, a + b) == Fold(tf, Fold(tf, st, a), b)
    decreases |a|
  {
    if |a| < 64 {
      assert a + b == b;
    } else {
      assert (a + b)[..64] == a[..64];
      assert (a + b)[64..] == a[64..] + b;
      FoldConcat(tf, tf(st, a[..64]), a[64..], b);
    }
  }

  /** One more full block. */
  lemma {:induction false} FoldBlock(tf: Transform, st: State, a: Bytes, block: Bytes)
    requires |a| % 64 == 0 && |block| == 64
    ensures Fold(tf, st, a + block) == tf(Fold(tf, st, a), block)
  {
    FoldConcat(tf, st, a, block);
    FoldOne(tf, Fold(tf, st, a), block);
  }

  /** The next full block of the input. */
  lemma {:induction false} FoldNext(tf: Transform, m: Bytes, data: Bytes, i: nat)
    requires i + 64 <= |data| && InBlock(|m| + i) == 0
    ensures Fold(tf, INITIAL, m + data[..i + 64]) == tf(Fold(tf, INITIAL, m + data[..i]), data[i..i + 64])
    ensures InBlock(|m| + (i + 64)) == 0
  {
    hide Fold;
    assert m + data[..i + 64] == (m + data[..i]) + data[i..i + 64];
    FoldBlock(tf, INITIAL, m + data[..i], data[i..i + 64]);
  }

  lemma {:induction false} FoldOne(tf: Transform, st: State, block: Bytes)
    requires |block| == 64
    ensures Fold(tf, st, block) == tf(st, block)
  {
    assert block[..64] == block;
  }

  /** What has been absorbed but does not fill a block. */
  function Rest(m: Bytes): (r: Bytes)
    ensures |r| == InBlock(|m|)
  {
    m[|m| - InBlock(|m|)..]
  }

  function Whole(m: Bytes): (w: Bytes)
    ensures |w| % 64 == 0 && w + Rest(m) == m
  {
    m[..|m| - InBlock(|m|)]
  }

  lemma {:induction false} FoldWhole(tf: Transform, st: State, m: Bytes)
    ensures Fold(tf, st, Whole(m)) == Fold(tf, st, m)
  {
    hide Whole, Rest;
    FoldConcat(tf, st, Whole(m), Rest(m));
    var r := Rest(m);
    assert Fold(tf, Fold(tf, st, Whole(m)), r) == Fold(tf, st, Whole(m));
  }

  /** Absorbing less than completes a block. */
  lemma {:induction false} AbsorbShort(tf: Transform, st: State, m: Bytes, data: Bytes)
    requires InBlock(|m|) + |data| <= 63
    ensures Fold(tf, st, m + data) == Fold(tf, st, m) && Rest(m + data) == Rest(m) + data
  {
    hide Fold;
    assert Rest(m + data) == Rest(m) + data;
    assert Whole(m + data) == Whole(m);
    FoldWhole(tf, st, m);
    FoldWhole(tf, st, m + data);
  }

  /** Absorbing what completes the block. */
  lemma {:induction false} AbsorbFirst(tf: Transform, st: State, m: Bytes, data: Bytes)
    requires InBlock(|m|) + |data| == 64
    ensures Fold(tf, st, m + data) == tf(Fold(tf, st, m), Rest(m) + data)
  {
    hide Fold, Whole, Rest;
    assert m + data == Whole(m) + (Rest(m) + data);
    FoldBlock(tf, st, Whole(m), Rest(m) + data);
    FoldWhole(tf, st, m);
  }

  /** Behind a block boundary the rest is what follows. */
  lemma RestAfter(a: Bytes, data: Bytes)
    requires |a| % 64 == 0 && |data| < 64
    ensures Rest(a + data) == data
  {
  }

  /** The carry between the two count words. */
  lemma CountCarry(c0: Word, c1: Word, len: nat)
    ensures var add := Low32(8 * len);
            var s0 := Low32(c0 + add);
            var s1 := Low32(c1 + (if s0 < add then 1 else 0) + len / 0x2000_0000);
            s0 + 0x1_0000_0000 * s1 == Low64(c0 + 0x1_0000_0000 * c1 + 8 * len)
  {
    var h, l := len / 0x2000_0000, len % 0x2000_0000;
    var add, s0 := 8 * l, if c0 + 8 * l < 0x1_0000_0000 then c0 + 8 * l else c0 + 8 * l - 0x1_0000_0000;
    RemainderUnique(8 * len, 0x1_0000_0000, h, add);
    RemainderUnique(c0 + add, 0x1_0000_0000, if c0 + add < 0x1_0000_0000 then 0 else 1, s0);
    var t := c1 + (if s0 < add then 1 else 0) + h;
    var q, s1 := t / 0x1_0000_0000, t % 0x1_0000_0000;
    RemainderUnique(c0 + 0x1_0000_0000 * c1 + 8 * len, 0x1_0000_0000_0000_0000, q, s0 + 0x1_0000_0000 * s1);
  }

  /** The 64-bit count of bits determines the position inside the block. */
  lemma CountPosition(c0: Word, c1: Word, n: nat)
    requires c0 + 0x1_0000_0000 * c1 == Low64(8 * n)
    ensures InBlock(c0 / 8) == InBlock(n)
  {
    var q := 8 * n / 0x1_0000_0000_0000_0000;
    var t := 0x80_0000 * c1 + 0x80_0000_0000_0000 * q;
    RemainderUnique(c0, 8, n - 64 * t, 0);
    AddMultiple(n, 64, -t);
  }

  /** Two 32-bit words, high one first, are the 64-bit number. */
  lemma {:induction false} TwoWords(hi: Word, lo: Word)
    ensures BigEndian(hi, 4) + BigEndian(lo, 4) == BigEndian(lo + 0x1_0000_0000 * hi, 8)
  {
    hide BigEndian;
    var n0: nat := lo + 0x1_0000_0000 * hi;
    var n1, n2, n3 := lo / 256 + 0x100_0000 * hi, lo / 256 / 256 + 0x1_0000 * hi, lo / 256 / 256 / 256 + 0x100 * hi;
    LastByte(lo, 0x100_0000 * hi);
    LastByte(lo / 256, 0x1_0000 * hi);
    LastByte(lo / 256 / 256, 0x100 * hi);
    LastByte(lo / 256 / 256 / 256, hi);
    BigEndianStep(n0, 7);
    BigEndianStep(n1, 6);
    BigEndianStep(n2, 5);
    BigEndianStep(n3, 4);
    BigEndianStep(lo, 3);
    BigEndianStep(lo / 256, 2);
    BigEndianStep(lo / 256 / 256, 1);
    BigEndianStep(lo / 256 / 256 / 256, 0);
  }

  lemma LastByte(lo: nat, hi: nat)
    ensures (lo + 256 * hi) % 256 == lo % 256 && (lo + 256 * hi) / 256 == lo / 256 + hi
  {
  }

  lemma {:induction false} BigEndianStep(n: nat, k: nat)
    ensures BigEndian(n, k + 1) == BigEndian(n / 256, k) + [n % 256]
    ensures k == 0 ==> BigEndian(n / 256, k) == []
  {
  }

  class Context {
    const tf: Transform
    const buf: array<Byte>
    var state: State
    var count0: Word
    var count1: Word
    /** Everything absorbed so far. */
    ghost var absorbed: Bytes

    ghost predicate Counted()
      reads this
    {
      count0 + 0x1_0000_0000 * count1 == Low64(8 * |absorbed|)
    }

    ghost predicate Valid()
      reads this, buf
    {
      && buf.Length == 64
      && Counted()
      && state == Fold(tf, INITIAL, absorbed)
      && buf[..InBlock(|absorbed|)] == Rest(absorbed)
    }

    /** `sha1_init`. */
    constructor (tf: Transform)
      ensures Valid() && this.tf == tf && absorbed == [] && fresh(buf)
    {
      this.tf := tf;
      buf := new Byte[64](_ => 0);
      state := INITIAL;
      count0, count1 := 0, 0;
      absorbed := [];
    }

    /** The bit count, in two 32-bit words that carry. */
    method CountUp(len: nat)
      modifies this`count0, this`count1
      ensures count0 + 0x1_0000_0000 * count1
              == Low64(old(count0) + 0x1_0000_0000 * old(count1) + 8 * len)
    {
      CountCarry(count0, count1, len);
      hide Low32, Low64;
      var add := Low32(8 * len);
      count0 := Low32(count0 + add);
      var carry := if count0 < add then 1 else 0;
      count1 := Low32(count1 + carry + len / 0x2000_0000);
    }

    method Copy(at: nat, data: Bytes)
      requires buf.Length == 64 && at + |data| <= 64
      modifies buf
      ensures buf[..at] == old(buf[..at]) && buf[..at + |data|] == old(buf[..at]) + data
    {
      forall k | 0 <= k < |data| {
        buf[at + k] := data[k];
      }
    }

    /** `sha1_update`. */
    method Update(data: Bytes)
      requires Valid()
      modifies this, buf
      ensures Valid() && absorbed == old(absorbed) + data
    {
      hide Fold, Rest;
      CountPosition(count0, count1, |absorbed|);
      var j := InBlock(count0 / 8);
      CountUp(|data|);
      ghost var m := absorbed;
      CountedMore(m, data);
      absorbed := m + data;
      if j + |data| > 63 {
        FillAndGo(m, j, data);
      } else {
        AbsorbShort(tf, INITIAL, m, data);
        Copy(j, data);
      }
    }

    /** The branch of `sha1_update` in which the block in progress gets full. */
    method FillAndGo(ghost m: Bytes, j: nat, data: Bytes)
      requires buf.Length == 64 && j == InBlock(|m|) && j + |data| > 63
      requires state == Fold(tf, INITIAL, m) && buf[..j] == Rest(m)
      modifies this`state, buf
      ensures state == Fold(tf, INITIAL, m + data)
      ensures buf[..InBlock(|m + data|)] == Rest(m + data)
    {
      hide Fold, Rest;
      var i := 64 - j;
      AbsorbFirst(tf, INITIAL, m, data[..i]);
      Copy(j, data[..i]);
      assert buf[..] == Rest(m) + data[..i];
      state := tf(state, buf[..]);
      i := Direct(m, data, i);
      assert m + data == (m + data[..i]) + data[i..];
      Boundary(m, data, i);
      AbsorbShort(tf, INITIAL, m + data[..i], data[i..]);
      RestAfter(m + data[..i], data[i..]);
      Copy(0, data[i..]);
    }

    /** The full blocks straight from the input. */
    method Direct(ghost m: Bytes, data: Bytes, from: nat) returns (i: nat)
      requires from <= |data| && InBlock(|m| + from) == 0
      requires state == Fold(tf, INITIAL, m + data[..from])
      modifies this`state
      ensures from <= i <= |data| < i + 64 && InBlock(|m| + i) == 0
      ensures state == Fold(tf, INITIAL, m + data[..i])
    {
      hide Fold, InBlock;
      i := from;
      while i + 63 < |data|
        invariant from <= i <= |data| && InBlock(|m| + i) == 0
        invariant state == Fold(tf, INITIAL, m + data[..i])
      {
        FoldNext(tf, m, data, i);
        state := tf(state, data[i..i + 64]);
        i := i + 64;
      }
    }

    /** `sha1_final`: the marker, zeros until eight bytes are left in the block, the count as it was. */
    method Final() returns (digest: Bytes)
      requires Valid()
      modifies this, buf
      ensures 8 * |old(absorbed)| < 0x1_0000_0000_0000_0000 ==> digest == Hash(tf, old(absorbed))
    {
      hide Fold, BigEndian, Rest, Digest, InBlock, Zeros, Hash, Low64;
      ghost var m := absorbed;
      var finalcount := BigEndian(count1, 4) + BigEndian(count0, 4);
      TwoWords(count1, count0);
      Update([0x80]);
      Pad(m);
      Update(finalcount);
      HashIs(tf, m, finalcount);
      digest := BigEndian(state.a, 4) + BigEndian(state.b, 4) + BigEndian(state.c, 4)
                + BigEndian(state.d, 4) + BigEndian(state.e, 4);
      DigestIs(state);
    }

    /** The zero-padding loop. Bits 3 to 8 of the low count word are the position in the block. */
    method Pad(ghost m: Bytes)
      requires Valid() && absorbed == m + [0x80]
      modifies this, buf
      ensures Valid() && absorbed == m + [0x80] + seq(Zeros(|m|), _ => 0)
    {
      hide Fold, Rest, Zeros;
      ghost var z := 0;
      assert seq(0, _ => 0) == [];
      CountPosition(count0, count1, |absorbed|);
      while InBlock(count0 / 8) != 56
        invariant Valid() && z <= Zeros(|m|) && absorbed == m + [0x80] + seq(z, _ => 0)
        invariant InBlock(count0 / 8) == InBlock(|absorbed|)
        decreases Zeros(|m|) - z
      {
        ZerosLeast(|m|, z);
        Update([0]);
        z := z + 1;
        assert seq(z, _ => 0) == seq(z - 1, _ => 0) + [0];
        CountPosition(count0, count1, |absorbed|);
      }
      ZerosFound(|m|, z);
    }
  }

  /** The hash of a message from its parts. */
  lemma {:induction false} HashIs(tf: Transform, m: Bytes, finalcount: Bytes)
    requires finalcount == BigEndian(Low64(8 * |m|), 8)
    ensures var all := m + [0x80] + seq(Zeros(|m|), _ => 0) + finalcount;
            8 * |m| < 0x1_0000_0000_0000_0000 ==> Digest(Fold(tf, INITIAL, all)) == Hash(tf, m)
  {
    hide Fold, Digest, BigEndian, Zeros;
  }

  lemma Boundary(m: Bytes, data: Bytes, i: nat)
    requires i <= |data| < i + 64 && (|m| + i) % 64 == 0
    ensures |m + data[..i]| % 64 == 0 && |m + data| % 64 == |data| - i == |data[i..]|
  {
  }

  lemma CountedMore(m: Bytes, data: Bytes)
    ensures Low64(8 * |m + data|) == Low64(Low64(8 * |m|) + 8 * |data|)
  {
    ModAdd(8 * |m|, 8 * |data|, 0x1_0000_0000_0000_0000);
  }

  lemma ZerosLeast(n: nat, z: nat)
    requires z <= Zeros(n) && InBlock(n + 1 + z) != 56
    ensures z < Zeros(n)
  {
  }

  lemma ZerosFound(n: nat, z: nat)
    requires z <= Zeros(n) && InBlock(n + 1 + z) == 56
    ensures z == Zeros(n)
  {
  }

  lemma {:induction false} DigestIs(st: State)
    ensures Digest(st) == BigEndian(st.a, 4) + BigEndian(st.b, 4) + BigEndian(st.c, 4)
                          + BigEndian(st.d, 4) + BigEndian(st.e, 4)
  {
    hide BigEndian;
  }

  /** However a message is split into updates, the digest is that of the message. */
  method HashParts(tf: Transform, parts: seq<Bytes>) returns (digest: Bytes)
    ensures 8 * |Flatten(parts)| < 0x1_0000_0000_0000_0000 ==> digest == Hash(tf, Flatten(parts))
  {
    hide Hash, Flatten, Fold, Rest, InBlock, Context.Counted;
    var ctx := new Context(tf);
    FlattenNothing();
    assert parts[..0] == [];
    for k := 0 to |parts|
      invariant ctx.Valid() && fresh(ctx) && fresh(ctx.buf) && ctx.tf == tf && ctx.absorbed == Flatten(parts[..k])
    {
      ctx.Update(parts[k]);
      FlattenSnoc(parts[..k], parts[k]);
      assert parts[..k + 1] == parts[..k] + [parts[k]];
    }
    assert parts[..|parts|] == parts;
    digest := ctx.Final();
  }

  lemma {:induction false} FlattenNothing()
    ensures Flatten([]) == []
  {
  }
}

/** The growable power-of-two ring that uTP indexes by wrapping 16-bit sequence numbers. */
module UtpBuffer {
  import opened ModMath
  import opened Options

  const SEQ_SPACE := 0x1_0000

  /** `index & mask` of the source for a power-of-two ring. Indices are mathematical integers: the
      source's unsigned wrap-around is a multiple of the ring size, so it does not move the slot. */
  function Slot(i: int, size: nat): (s: nat)
    requires size > 0
    ensures s < size
  {
    i % size
  }

  /** Truncation to the source's 16-bit sequence numbers. */
  function U16(x: int): (u: nat)
    ensures u < SEQ_SPACE
  {
    x % 0x1_0000
  }

  lemma U16Add(a: int, d: int)
    ensures U16(U16(a) + d) == U16(a + d)
  {
    ModAdd(a, d, 0x1_0000);
  }

  lemma U16Small(x: int)
    ensures 0 <= x < SEQ_SPACE ==> U16(x) == x
    ensures -SEQ_SPACE <= x < 0 ==> U16(x) == x + SEQ_SPACE
  {
    if 0 <= x < SEQ_SPACE {
      RemainderUnique(x, 0x1_0000, 0, x);
    } else if -SEQ_SPACE <= x < 0 {
      RemainderUnique(x, 0x1_0000, -1, x + 0x1_0000);
    }
  }

  /** The difference of two truncated numbers, truncated, is the true difference truncated. */
  lemma U16Sub(a: int, b: int, d: int)
    ensures U16(U16(a) - U16(b) + d) == U16(a - b + d)
  {
    ModSub(a, b, 0x1_0000);
    ModAdd(U16(a) - U16(b), d, 0x1_0000);
    ModAdd(a - b, d, 0x1_0000);
  }

  /** Numbers equal in their low 16 bits share a slot, in every ring up to that size. */
  lemma SameSlot(i: int, n: int, size: nat)
    requires IsPow2(size) && size <= SEQ_SPACE && U16(i) == U16(n)
    ensures Slot(i, size) == Slot(n, size)
  {
    assert IsPow2(SEQ_SPACE) by {
      assert IsPow2(16) && IsPow2(256) && IsPow2(4096);
    }
    Pow2Divides(size, SEQ_SPACE);
    ModOfMod(i, size, SEQ_SPACE);
    ModOfMod(n, size, SEQ_SPACE);
  }

  /** What the 16-bit arithmetic `a + d` names is the packet `a + d`. */
  lemma SlotOfWrapped(a: int, d: int, size: nat)
    requires IsPow2(size) && size <= SEQ_SPACE
    ensures Slot(U16(a) + d, size) == Slot(a + d, size)
  {
    U16Add(a, d);
    SameSlot(U16(a) + d, a + d, size);
  }

  function Lookup<T>(live: map<int, T>, n: int): Option<T> {
    if n in live then Some(live[n]) else None
  }

  /** Seen through the ring, the consecutive numbers from `lo` hold exactly the entries of `live`. */
  ghost predicate Shows<T>(el: seq<Option<T>>, lo: int, live: map<int, T>) {
    && |el| > 0
    && forall n {:trigger Slot(n, |el|)} :: lo <= n < lo + |el| ==> el[Slot(n, |el|)] == Lookup(live, n)
  }

  /** Distinct numbers less than a ring apart have distinct slots. */
  lemma SlotInjective(a: int, b: int, size: nat)
    requires size > 0 && a - b < size && b - a < size && Slot(a, size) == Slot(b, size)
    ensures a == b
  {
    ModInjective(a, b, size);
  }

  lemma SlotPeriod(n: int, size: nat)
    requires size > 0
    ensures Slot(n + size, size) == Slot(n, size)
  {
    AddMultiple(n, size, 1);
  }

  lemma ShowsPut<T>(el: seq<Option<T>>, lo: int, live: map<int, T>, n: int, v: Option<T>)
    requires Shows(el, lo, live) && lo <= n < lo + |el|
    ensures Shows(el[Slot(n, |el|) := v], lo, if v.Some? then live[n := v.value] else live - {n})
  {
    hide Slot;
    forall k | lo <= k < lo + |el|
      ensures k != n ==> Slot(k, |el|) != Slot(n, |el|)
    {
      if Slot(k, |el|) == Slot(n, |el|) {
        SlotInjective(k, n, |el|);
      }
    }
  }

  /** The view may slide over numbers that are not live. */
  lemma ShowsSlide<T>(el: seq<Option<T>>, lo: int, live: map<int, T>, lo': int)
    requires Shows(el, lo, live) && -|el| <= lo' - lo <= |el|
    requires forall n <- live :: lo <= n < lo + |el| && lo' <= n < lo' + |el|
    ensures Shows(el, lo', live)
  {
    hide Slot;
    forall n | lo' <= n < lo' + |el|
      ensures el[Slot(n, |el|)] == Lookup(live, n)
    {
      if n >= lo + |el| {
        SlotPeriod(n - |el|, |el|);
      } else if n < lo {
        SlotPeriod(n, |el|);
      }
    }
  }

  /** A filled slot belongs to a live number, and to one only. */
  lemma ShowsSome<T>(el: seq<Option<T>>, lo: int, live: map<int, T>, i: int) returns (n: int)
    requires Shows(el, lo, live)
    ensures lo <= n < lo + |el| && Slot(n, |el|) == Slot(i, |el|)
    ensures el[Slot(i, |el|)] == Lookup(live, n)
  {
    n := lo + (i - lo) % |el|;
    assert i - lo == |el| * ((i - lo) / |el|) + (i - lo) % |el|;
    AddMultiple(n, |el|, (i - lo) / |el|);
    assert Slot(n, |el|) == Slot(i, |el|);
  }

  class CircularBuffer<T> {
    var mask: nat
    var elements: seq<Option<T>>

    ghost predicate Valid()
      reads this
    {
      |elements| == mask + 1 && IsPow2(mask + 1) && mask + 1 <= SEQ_SPACE
    }

    constructor ()
      ensures Valid() && mask == 15
      ensures forall lo :: Shows(elements, lo, map[])
    {
      mask := 15;
      elements := seq(16, _ => None);
    }

    function Get(i: int): (e: Option<T>)
      requires Valid()
      reads this
    {
      elements[Slot(i, mask + 1)]
    }

    method Put(i: int, data: Option<T>)
      requires Valid()
      modifies this
      ensures Valid() && mask == old(mask)
      ensures elements == old(elements)[Slot(i, mask + 1) := data]
    {
      elements := elements[Slot(i, mask + 1) := data];
    }

    /** Makes room for the `index + 1` consecutive numbers that end at `item`, the first of which
        stands for the unbounded `base`. Nothing live is lost, and the numbers the ring newly covers
        have no entry. */
    method EnsureSize(item: int, index: nat, ghost base: int, ghost live: map<int, T>)
      requires Valid() && index < SEQ_SPACE / 2 && U16(item - index) == U16(base)
      requires Shows(elements, base, live) && forall n <- live :: base <= n <= base + mask
      modifies this
      ensures Valid() && mask >= old(mask) && index <= mask
      ensures if index <= old(mask) then mask == old(mask) else mask < 2 * index
      ensures Shows(elements, base, live)
    {
      if index > mask {
        Grow(item, index, base, live);
      }
    }

    method Grow(item: int, index: nat, ghost base: int, ghost live: map<int, T>)
      requires Valid() && mask < index < SEQ_SPACE / 2 && U16(item - index) == U16(base)
      requires Shows(elements, base, live) && forall n <- live :: base <= n <= base + mask
      modifies this
      ensures Valid() && index <= mask < 2 * index && mask > old(mask)
      ensures Shows(elements, base, live)
    {
      var size := GrownSize(mask + 1, index);
      var buf := Copied(item - index, size, base, live);
      mask := size - 1;
      elements := buf;
    }

    /** Double until `index` fits. */
    static method GrownSize(size: nat, index: nat) returns (grown: nat)
      requires IsPow2(size) && size <= index
      ensures IsPow2(grown) && size < grown && index < grown <= 2 * index
    {
      grown := size * 2;
      while index >= grown
        invariant IsPow2(grown) && size < grown <= 2 * index
        decreases index - grown
      {
        grown := grown * 2;
      }
    }

    /** A larger ring with the entries of the numbers from `first` copied over. */
    method Copied(first: int, size: nat, ghost base: int, ghost live: map<int, T>) returns (buf: seq<Option<T>>)
      requires Valid() && IsPow2(size) && mask + 1 < size <= SEQ_SPACE && U16(first) == U16(base)
      requires Shows(elements, base, live) && forall n <- live :: base <= n <= base + mask
      ensures |buf| == size && Shows(buf, base, live)
    {
      hide Slot, U16;
      buf := seq(size, _ => None);
      ghost var done: map<int, T> := map[];
      for i := 0 to mask + 1
        invariant |buf| == size && Shows(buf, base, done)
        invariant done == Below(live, base + i)
      {
        SlotsAgree(first, base, i, mask + 1);
        SlotsAgree(first, base, i, size);
        var e := Get(first + i);
        ShowsPut(buf, base, done, base + i, e);
        BelowNext(live, base + i);
        buf := buf[Slot(first + i, size) := e];
        done := Below(live, base + i + 1);
      }
      assert done == live;
    }
  }

  lemma SlotsAgree(a: int, b: int, i: int, size: nat)
    requires IsPow2(size) && size <= SEQ_SPACE && U16(a) == U16(b)
    ensures Slot(a + i, size) == Slot(b + i, size)
  {
    U16Add(a, i);
    U16Add(b, i);
    SameSlot(a + i, b + i, size);
  }

  /** The entries of `live` numbered below `n`. */
  ghost function Below<T>(live: map<int, T>, n: int): map<int, T> {
    map k | k in live && k < n :: live[k]
  }

  lemma BelowNext<T>(live: map<int, T>, n: int)
    ensures Below(live, n + 1) == if n in live then Below(live, n)[n := live[n]] else Below(live, n) - {n}
  {
  }
}

/** Kademlia ids: 20 bytes, a 160-bit number, a path of bits from the root of the tree. */
module DhtId {
  import opened ModMath
  import opened Octets

  const ID_BITS := 160

  type Id = s: Bytes | |s| == 20 witness seq(20, _ => 0)

  /** A big-endian byte string as a number. */
  function Num(s: Bytes): nat {
    if s == [] then 0 else 0x100 * Num(s[..|s| - 1]) + s[|s| - 1]
  }

  lemma {:induction false} NumBound(s: Bytes)
    ensures Num(s) < Pow2(8 * |s|)
    decreases |s|
  {
    if s != [] {
      NumBound(s[..|s| - 1]);
      Pow2Sum(8 * (|s| - 1), 8);
      Pow2Eight();
    }
  }

  lemma {:induction false} Pow2Sum(a: nat, b: nat)
    ensures Pow2(a + b) == Pow2(a) * Pow2(b)
  {
    if b > 0 {
      Pow2Sum(a, b - 1);
    }
  }

  lemma Pow2Eight()
    ensures Pow2(8) == 256
  {
    assert Pow2(4) == 16;
  }

  lemma {:induction false} NumConcat(a: Bytes, b: Bytes)
    ensures Num(a + b) == Num(a) * Pow2(8 * |b|) + Num(b)
    decreases |b|
  {
    if b == [] {
      assert a + b == a;
    } else {
      var n := |b| - 1;
      NumConcat(a, b[..n]);
      assert (a + b)[..|a + b| - 1] == a + b[..n];
      assert 8 * |b| == 8 * n + 8;
      NumConcatStep(Num(a), Num(b[..n]), 8 * n);
    }
  }

  lemma NumConcatStep(x: nat, y: nat, n: nat)
    ensures 0x100 * (x * Pow2(n) + y) == x * Pow2(n + 8) + 0x100 * y
  {
    Pow2Sum(n, 8);
    Pow2Eight();
    hide Pow2;
    MulAssoc(x, Pow2(n), 0x100);
  }

  /** `memcmp`: the first differing byte decides. */
  function Compare(a: Bytes, b: Bytes): int
    requires |a| == |b|
  {
    if a == [] then 0
    else if a[0] != b[0] then a[0] - b[0]
    else Compare(a[1..], b[1..])
  }

  /** Comparing bytes from the front compares the numbers. */
  lemma {:induction false} CompareIsNumeric(a: Bytes, b: Bytes)
    requires |a| == |b|
    ensures Compare(a, b) < 0 <==> Num(a) < Num(b)
    ensures Compare(a, b) == 0 <==> a == b
    ensures Num(a) == Num(b) <==> a == b
    decreases |a|
  {
    if a != [] {
      var p := Pow2(8 * |a[1..]|);
      CompareIsNumeric(a[1..], b[1..]);
      assert a == [a[0]] + a[1..] && b == [b[0]] + b[1..];
      NumConcat([a[0]], a[1..]);
      NumConcat([b[0]], b[1..]);
      assert Num([a[0]]) == a[0] && Num([b[0]]) == b[0];
      NumBound(a[1..]);
      NumBound(b[1..]);
      if a[0] < b[0] {
        HighDigit(a[0], Num(a[1..]), b[0], Num(b[1..]), p);
      } else if b[0] < a[0] {
        HighDigit(b[0], Num(b[1..]), a[0], Num(a[1..]), p);
      }
    }
  }

  lemma HighDigit(x: nat, u: nat, y: nat, v: nat, p: nat)
    requires x < y && u < p
    ensures x * p + u < y * p + v
  {
    MulAdd(p, x, y - x);
    MulAtLeast(y - x, p);
  }

  // ---------------------------------------------------------------------------------------------
  // The lowest bit set.

  /** How often 2 divides `n`. */
  function Twos(n: nat): nat
    requires n > 0
    decreases n
  {
    if n % 2 == 1 then 0 else 1 + Twos(n / 2)
  }

  /** The position of the lowest 1 bit, counted from the top of 160 bits; -1 for zero. */
  function LowBitOf(n: nat): int {
    if n == 0 then -1 else 159 - Twos(n)
  }

  lemma TwosDouble(h: nat)
    requires h > 0
    ensures Twos(2 * h) == 1 + Twos(h)
  {
  }

  lemma TwosOdd(n: nat)
    requires n % 2 == 1
    ensures Twos(n) == 0
  {
  }

  lemma {:induction false} TwosShift(k: nat, m: nat)
    requires m > 0
    ensures Pow2(k) * m > 0 && Twos(Pow2(k) * m) == k + Twos(m)
  {
    MulPositive(Pow2(k), m);
    if k > 0 {
      TwosShift(k - 1, m);
      var h := Pow2(k - 1) * m;
      MulAssoc(2, Pow2(k - 1), m);
      TwosDouble(h);
    }
  }

  /** `b & (0x80 >> j)`. */
  predicate BitSet(b: Byte, j: nat)
    requires j < 8
  {
    b / Pow2(7 - j) % 2 == 1
  }

  /** `lowbit`: from the last byte backwards, the last one that is not zero, then its lowest bit. */
  method LowBit(id: Id) returns (r: int)
    ensures r == LowBitOf(Num(id))
  {
    hide Num, Pow2, BitSet, LowBitOf;
    var i := 19;
    WholeId(id);
    while i >= 0 && id[i] == 0
      invariant -1 <= i <= 19
      invariant Num(id) == Num(id[..i + 1]) * Pow2(8 * (19 - i))
    {
      ZeroByte(id, i);
      i := i - 1;
    }
    if i < 0 {
      ZeroId(id);
      return -1;
    }
    var j := 7;
    AnyBit(id[i]);
    while j >= 0 && !BitSet(id[i], j)
      invariant -1 <= j <= 7 && id[i] % Pow2(7 - j) == 0
    {
      ZeroBit(id[i], j);
      j := j - 1;
    }
    LowBitHere(id, i, j);
    return 8 * i + j;
  }

  lemma WholeId(id: Id)
    ensures Num(id) == Num(id[..20]) * Pow2(0)
  {
    assert id[..20] == id;
  }

  lemma ZeroId(id: Id)
    requires Num(id) == Num(id[..0]) * Pow2(160)
    ensures LowBitOf(Num(id)) == -1
  {
    hide Pow2;
    assert id[..0] == [];
  }

  lemma AnyBit(b: Byte)
    ensures b % Pow2(0) == 0
    ensures b != 0 ==> b % Pow2(8) != 0
  {
    Pow2Eight();
  }

  lemma ZeroByte(id: Id, i: nat)
    requires i < 20 && id[i] == 0
    ensures Num(id[..i + 1]) * Pow2(8 * (19 - i)) == Num(id[..i]) * Pow2(8 * (20 - i))
  {
    assert id[..i + 1][..i] == id[..i];
    Pow2Sum(8 * (19 - i), 8);
    Pow2Eight();
    hide Pow2;
    var x, p := Num(id[..i]), Pow2(8 * (19 - i));
    assert Num(id[..i + 1]) == 0x100 * x;
    MulSwap(0x100, x, p);
    MulSwap(x, 0x100, p);
    MulAssoc(x, p, 0x100);
  }

  lemma ZeroBit(b: Byte, j: nat)
    requires j < 8 && b % Pow2(7 - j) == 0 && !BitSet(b, j)
    ensures b % Pow2(8 - j) == 0
  {
    var p := Pow2(7 - j);
    var q := b / p / 2;
    assert b == p * (b / p) && b / p == 2 * q;
    assert b == (2 * p) * q;
    RemainderUnique(b, 2 * p, q, 0);
  }

  lemma LowBitHere(id: Id, i: nat, j: nat)
    requires i < 20 && j < 8 && BitSet(id[i], j) && id[i] % Pow2(7 - j) == 0
    requires Num(id) == Num(id[..i + 1]) * Pow2(8 * (19 - i))
    ensures LowBitOf(Num(id)) == 8 * i + j
  {
    hide BitSet, Twos, Pow2;
    assert id[..i + 1][..i] == id[..i];
    var front, low, tail := Num(id[..i]), 7 - j, 8 * (19 - i);
    var m := Pow2(j + 1) * front + id[i] / Pow2(low);
    LowDigit(front, id[i], j);
    assert Num(id[..i + 1]) == Pow2(low) * m;
    Pow2Sum(tail, low);
    TwosShift(tail + low, m);
    Regroup(Pow2(low), m, Pow2(tail));
  }

  lemma Regroup(a: int, b: int, c: int)
    ensures (a * b) * c == (c * a) * b
  {
    MulSwap(a, b, c);
  }

  /** A number whose last byte has its lowest bit at `j` is an odd multiple of that bit. */
  lemma LowDigit(front: nat, b: Byte, j: nat)
    requires j < 8 && BitSet(b, j) && b % Pow2(7 - j) == 0
    ensures var m := Pow2(j + 1) * front + b / Pow2(7 - j);
            && m > 0 && m % 2 == 1 && Twos(m) == 0
            && 0x100 * front + b == Pow2(7 - j) * m
  {
    Pow2Sum(7 - j, j + 1);
    Pow2Eight();
    DivExact(b, Pow2(7 - j));
    OddMultiple(front, b, Pow2(7 - j), Pow2(j + 1), Pow2(j), b / Pow2(7 - j));
  }

  lemma OddMultiple(front: int, b: int, p: int, r: int, h: int, q: int)
    requires p * r == 256 && r == 2 * h && b == p * q && q % 2 == 1
    ensures 256 * front + b == p * (r * front + q) && (r * front + q) % 2 == 1
  {
    SumOfProducts(p, r, front, q, 256);
    Parity(r, h, front, q);
  }

  lemma SumOfProducts(p: int, r: int, f: int, q: int, t: int)
    requires t == p * r
    ensures p * (r * f + q) == t * f + p * q
  {
    MulAssoc(p, r, f);
    MulAdd(p, r * f, q);
  }

  lemma Parity(r: int, h: int, f: int, q: int)
    requires r == 2 * h && q % 2 == 1
    ensures (r * f + q) % 2 == 1
  {
    MulAssoc(2, h, f);
    var e := h * f;
    assert r * f == 2 * e;
  }

  // ---------------------------------------------------------------------------------------------
  // Dyadic ranges and their middles.

  /** `[lo, hi)` is the set of ids below one node of the tree, at height `k` above the leaves. */
  predicate Dyadic(lo: nat, hi: nat, k: nat) {
    k <= ID_BITS && hi == lo + Pow2(k) && lo % Pow2(k) == 0 && hi <= Pow2(ID_BITS)
  }

  /** The number that ends a range: the start of the next one, or the end of the id space. */
  function EndBit(hi: nat): int {
    if hi == Pow2(ID_BITS) then -1 else LowBitOf(hi)
  }

  /** The source's `MAX(bit1, bit2) + 1` is the depth of the range in the tree. */
  lemma {:induction false} MiddleBit(lo: nat, hi: nat, k: nat)
    requires Dyadic(lo, hi, k)
    ensures (if LowBitOf(lo) > EndBit(hi) then LowBitOf(lo) else EndBit(hi)) + 1 == ID_BITS - k
  {
    hide Pow2, Twos;
    var m := lo / Pow2(k);
    DivExact(lo, Pow2(k));
    MulAdd(Pow2(k), m, 1);
    assert hi == Pow2(k) * (m + 1);
    TwosShift(k, m + 1);
    TwosShift(ID_BITS, 1);
    TwosOdd(1);
    if m == 0 {
      assert lo == 0 && hi == Pow2(k);
    } else {
      TwosShift(k, m);
      if m % 2 == 1 {
        TwosOdd(m);
      } else {
        TwosOdd(m + 1);
      }
    }
  }

  lemma HalfDyadic(lo: nat, hi: nat, k: nat)
    requires Dyadic(lo, hi, k) && k > 0
    ensures Dyadic(lo, lo + Pow2(k - 1), k - 1) && Dyadic(lo + Pow2(k - 1), hi, k - 1)
  {
    var h := Pow2(k - 1);
    DivExact(lo, Pow2(k));
    var m := lo / Pow2(k);
    assert Pow2(k) == 2 * h;
    hide Pow2;
    MulSwap(2, h, m);
    MulSwap(2, m, h);
    assert lo == (2 * h) * m == (2 * m) * h;
    RemainderUnique(lo, h, 2 * m, 0);
    MulAdd(h, 2 * m, 1);
    RemainderUnique(lo + h, h, 2 * m + 1, 0);
  }

  /** `b | (0x80 >> j)`. */
  function OrBit(b: Byte, j: nat): (c: Byte)
    requires j < 8
    ensures c == if BitSet(b, j) then b else b + Pow2(7 - j)
  {
    if BitSet(b, j) then b
    else
      RoomForBit(b, j);
      b + Pow2(7 - j)
  }

  lemma RoomForBit(b: Byte, j: nat)
    requires j < 8 && !BitSet(b, j)
    ensures b + Pow2(7 - j) < 256
  {
    SmallPowers();
    hide Pow2;
    if j == 0 {
    } else if j == 1 {
    } else if j == 2 {
    } else if j == 3 {
    } else if j == 4 {
    } else if j == 5 {
    } else if j == 6 {
    } else {
      assert j == 7;
    }
  }

  lemma SmallPowers()
    ensures Pow2(0) == 1 && Pow2(1) == 2 && Pow2(2) == 4 && Pow2(3) == 8
    ensures Pow2(4) == 16 && Pow2(5) == 32 && Pow2(6) == 64 && Pow2(7) == 128
  {
    assert Pow2(3) == 8;
  }

  lemma {:induction false} NumUpdate(s: Bytes, i: nat, c: Byte)
    requires i < |s|
    ensures Num(s[i := c]) == Num(s) + (c - s[i]) * Pow2(8 * (|s| - 1 - i))
    decreases |s|
  {
    var n := |s| - 1;
    if i == n {
      assert s[i := c][..n] == s[..n];
    } else {
      NumUpdate(s[..n], i, c);
      assert s[i := c][..n] == s[..n][i := c];
      Pow2Sum(8 * (n - 1 - i), 8);
      Pow2Eight();
      hide Pow2;
      MulAssoc(c - s[i], Pow2(8 * (n - 1 - i)), 0x100);
    }
  }

  /** When every bit from `bit` on is clear, setting it adds its weight to the number. */
  lemma SetBitAdds(id: Id, bit: nat)
    requires bit < ID_BITS && Num(id) % Pow2(ID_BITS - bit) == 0
    ensures Num(id[bit / 8 := OrBit(id[bit / 8], bit % 8)]) == Num(id) + Pow2(ID_BITS - 1 - bit)
  {
    hide Num, BitSet;
    var i, j := bit / 8, bit % 8;
    BitClear(id, i, j);
    NumUpdate(id, i, OrBit(id[i], j));
    Pow2Sum(7 - j, 8 * (19 - i));
  }

  lemma BitClear(id: Id, i: nat, j: nat)
    requires i < 20 && j < 8 && Num(id) % Pow2(ID_BITS - (8 * i + j)) == 0
    ensures !BitSet(id[i], j)
  {
    var a, t := Pow2(8 - j), Pow2(8 * (19 - i));
    Pow2Sum(8 - j, 8 * (19 - i));
    MulPositive(a, t);
    assert id == id[..i + 1] + id[i + 1..];
    NumConcat(id[..i + 1], id[i + 1..]);
    NumBound(id[i + 1..]);
    assert id[..i + 1][..i] == id[..i];
    var x := Num(id[..i + 1]);
    assert x == 0x100 * Num(id[..i]) + id[i];
    hide Pow2, Num;
    TopPart(Num(id), x, Num(id[i + 1..]), a, t);
    LowPart(Num(id[..i]), id[i], j, Num(id) / (a * t));
  }

  lemma TopPart(n: nat, x: nat, y: nat, a: nat, t: nat)
    requires a > 0 && t > 0 && n == x * t + y && y < t && a * t > 0 && n % (a * t) == 0
    ensures n / (a * t) >= 0 && x == a * (n / (a * t))
  {
    var q := n / (a * t);
    DivExact(n, a * t);
    MulSwap(a, t, q);
    RemainderUnique(n, t, x, y);
    RemainderUnique(n, t, a * q, 0);
  }

  lemma LowPart(front: nat, b: Byte, j: nat, q: nat)
    requires j < 8 && 0x100 * front + b == Pow2(8 - j) * q
    ensures !BitSet(b, j)
  {
    var a, h, r := Pow2(8 - j), Pow2(7 - j), Pow2(j);
    Pow2Sum(8 - j, j);
    Pow2Eight();
    assert a == 2 * h && a * r == 256;
    hide Pow2;
    var w := q - r * front;
    SumOfProducts(a, r, front, w, 256);
    assert r * front + w == q;
    assert b == a * w;
    MulSwap(2, h, w);
    MulSwap(2, w, h);
    RemainderUnique(b, h, 2 * w, 0);
  }
}

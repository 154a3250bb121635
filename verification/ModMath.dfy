/** Powers of two, remainders and the few facts about them that wrapping sequence numbers,
    power-of-two buffers and dyadic intervals need. */
module ModMath {

  predicate IsPow2(n: nat)
    decreases n
  {
    n == 1 || (n >= 2 && n % 2 == 0 && IsPow2(n / 2))
  }

  function Pow2(k: nat): (p: nat)
    ensures p >= 1
  {
    if k == 0 then 1 else 2 * Pow2(k - 1)
  }

  lemma MulAssoc(a: int, b: int, c: int)
    ensures (a * b) * c == a * (b * c)
  {
  }

  lemma MulSwap(a: int, b: int, c: int)
    ensures (a * b) * c == (a * c) * b
  {
  }

  lemma MulAdd(a: int, b: int, c: int)
    ensures a * (b + c) == a * b + a * c
    ensures (b + c) * a == b * a + c * a
  {
  }

  lemma MulAtLeast(a: int, p: int)
    requires a >= 1 && p >= 0
    ensures a * p >= p
  {
  }

  lemma MulPositive(a: int, b: int)
    requires a > 0 && b > 0
    ensures a * b > 0
  {
  }

  lemma DivExact(x: int, d: int)
    requires d > 0 && x % d == 0
    ensures x == d * (x / d)
  {
  }

  /** The only multiple of `d` strictly between `-d` and `d` is zero. */
  lemma SmallMultiple(d: int, k: int)
    requires d > 0 && -d < d * k < d
    ensures k == 0
  {
  }

  /** Quotient and remainder are unique. */
  lemma RemainderUnique(x: int, d: int, q: int, r: int)
    requires d > 0 && x == d * q + r && 0 <= r < d
    ensures x % d == r && x / d == q
  {
    var q', r' := x / d, x % d;
    assert x == d * q' + r';
    assert d * (q' - q) == d * q' - d * q;
    SmallMultiple(d, q' - q);
  }

  lemma AddMultiple(r: int, d: int, k: int)
    requires d > 0
    ensures (r + d * k) % d == r % d
  {
    RemainderUnique(r + d * k, d, r / d + k, r % d);
  }

  /** A smaller power of two divides a larger one. */
  lemma {:induction false} Pow2Divides(a: nat, b: nat)
    requires IsPow2(a) && IsPow2(b) && a <= b
    ensures b % a == 0
    decreases b
  {
    if a == 1 {
    } else {
      Pow2Divides(a / 2, b / 2);
      var q := (b / 2) / (a / 2);
      assert b / 2 == (a / 2) * q;
      assert b == a * q;
      RemainderUnique(b, a, q, 0);
    }
  }

  /** Truncating to a multiple of the modulus first does not change the remainder. */
  lemma ModOfMod(x: int, s: int, m: int)
    requires s > 0 && m > 0 && m % s == 0
    ensures (x % m) % s == x % s
  {
    var t := m / s;
    assert m == s * t;
    assert x == x % m + s * (t * (x / m)) by {
      assert m * (x / m) == s * (t * (x / m));
    }
    AddMultiple(x % m, s, t * (x / m));
  }

  /** Two numbers closer together than the modulus have different remainders. */
  lemma ModInjective(a: int, b: int, s: int)
    requires s > 0 && -s < a - b < s && a % s == b % s
    ensures a == b
  {
    assert a == s * (a / s) + a % s && b == s * (b / s) + b % s;
    assert s * (a / s - b / s) == s * (a / s) - s * (b / s);
    SmallMultiple(s, a / s - b / s);
  }

  /** Subtraction of truncated numbers, truncated, is the truncated difference. */
  lemma ModSub(a: int, b: int, m: int)
    requires m > 0
    ensures (a % m - b % m) % m == (a - b) % m
  {
    assert a - b == (a % m - b % m) + m * (a / m - b / m);
    AddMultiple(a % m - b % m, m, a / m - b / m);
  }

  lemma ModAdd(a: int, b: int, m: int)
    requires m > 0
    ensures (a % m + b) % m == (a + b) % m
  {
    assert a + b == (a % m + b) + m * (a / m);
    AddMultiple(a % m + b, m, a / m);
  }
}

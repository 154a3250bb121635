/** The RC4 stream cipher as the peers use it: a state that is stepped once per byte. */
module Rc4 {
  import opened Octets

  datatype State = State(s: Bytes, i: Byte, j: Byte)

  ghost predicate Permutation(s: Bytes) {
    && |s| == 256
    && forall a, b :: 0 <= a < b < 256 ==> s[a] != s[b]
  }

  ghost predicate Good(st: State) {
    Permutation(st.s)
  }

  function Plus(a: int, b: int): Byte {
    (a + b) % 256
  }

  function Swapped(s: Bytes, a: nat, b: nat): (t: Bytes)
    requires a < |s| && b < |s|
    ensures |t| == |s|
  {
    s[a := s[b]][b := s[a]]
  }

  lemma SwapPermutes(s: Bytes, a: nat, b: nat)
    requires Permutation(s) && a < 256 && b < 256
    ensures Permutation(Swapped(s, a, b))
  {
  }

  /** One step: move both indices, swap. */
  function Step(st: State): (st': State)
    requires |st.s| == 256
    ensures |st'.s| == 256
  {
    var i := Plus(st.i, 1);
    var j := Plus(st.j, st.s[i]);
    State(Swapped(st.s, i, j), i, j)
  }

  /** The keystream byte that the step just made yields. */
  function KeyByte(st: State): Byte
    requires |st.s| == 256
  {
    st.s[Plus(st.s[st.i], st.s[st.j])]
  }

  /** The state after `n` bytes. */
  function After(st: State, n: nat): (st': State)
    requires |st.s| == 256
    ensures |st'.s| == 256
  {
    if n == 0 then st else Step(After(st, n - 1))
  }

  function Keystream(st: State, n: nat): (k: Bytes)
    requires |st.s| == 256
    ensures |k| == n
  {
    if n == 0 then [] else Keystream(st, n - 1) + [KeyByte(After(st, n))]
  }

  function XorSeq(a: Bytes, k: Bytes): (b: Bytes)
    requires |a| == |k|
    ensures |b| == |a|
  {
    seq(|a|, n requires 0 <= n < |a| => Xor(a[n], k[n]))
  }

  function Crypt(st: State, data: Bytes): (out: Bytes)
    requires |st.s| == 256
    ensures |out| == |data|
  {
    XorSeq(data, Keystream(st, |data|))
  }

  lemma {:induction false} AfterSum(st: State, a: nat, b: nat)
    requires |st.s| == 256
    ensures After(st, a + b) == After(After(st, a), b)
    decreases b
  {
    hide Step;
    if b > 0 {
      AfterSum(st, a, b - 1);
    }
  }

  lemma {:induction false} KeystreamSum(st: State, a: nat, b: nat)
    requires |st.s| == 256
    ensures Keystream(st, a + b) == Keystream(st, a) + Keystream(After(st, a), b)
    decreases b
  {
    hide Step, KeyByte;
    if b > 0 {
      KeystreamSum(st, a, b - 1);
      AfterSum(st, a, b);
    }
  }

  /** Encrypting piecewise, the cipher carrying on, is encrypting the whole. */
  lemma {:induction false} CryptConcat(st: State, a: Bytes, b: Bytes)
    requires |st.s| == 256
    ensures Crypt(st, a + b) == Crypt(st, a) + Crypt(After(st, |a|), b)
  {
    hide Keystream, After, Xor;
    KeystreamSum(st, |a|, |b|);
  }

  /** Two ends in the same state understand each other. */
  lemma CryptTwice(st: State, data: Bytes)
    requires |st.s| == 256
    ensures Crypt(st, Crypt(st, data)) == data
  {
    hide Keystream, Xor;
    var k := Keystream(st, |data|);
    forall n | 0 <= n < |data|
      ensures Crypt(st, Crypt(st, data))[n] == data[n]
    {
      XorTwice(data[n], k[n]);
    }
  }

  lemma {:induction false} AfterGood(st: State, n: nat)
    requires Good(st)
    ensures Good(After(st, n))
  {
    if n > 0 {
      AfterGood(st, n - 1);
      var p := After(st, n - 1);
      var i := Plus(p.i, 1);
      SwapPermutes(p.s, i, Plus(p.j, p.s[i]));
    }
  }

  /** The first `n` rounds of key scheduling. */
  function Scheduled(key: Bytes, n: nat): (st: (Bytes, Byte))
    requires n <= 256
    ensures |st.0| == 256
  {
    if n == 0 then (Identity(), 0)
    else
      var (s, j) := Scheduled(key, n - 1);
      if key == [] then (s, j)
      else
        var j' := Plus(j + s[n - 1], key[(n - 1) % |key|]);
        (Swapped(s, n - 1, j'), j')
  }

  function Identity(): (s: Bytes)
    ensures |s| == 256 && forall n :: 0 <= n < 256 ==> s[n] == n
  {
    seq(256, n requires 0 <= n < 256 => n)
  }

  function Keyed(key: Bytes): (st: State)
    ensures |st.s| == 256
  {
    State(Scheduled(key, 256).0, 0, 0)
  }

  lemma {:induction false} ScheduledPermutes(key: Bytes, n: nat)
    requires n <= 256
    ensures Permutation(Scheduled(key, n).0)
  {
    if n > 0 {
      ScheduledPermutes(key, n - 1);
      var (s, j) := Scheduled(key, n - 1);
      if key != [] {
        SwapPermutes(s, n - 1, Plus(j + s[n - 1], key[(n - 1) % |key|]));
      }
    }
  }

  /** In every state a keyed cipher can reach, the table is a permutation of all 256 bytes. */
  lemma ReachableIsPermutation(key: Bytes, n: nat)
    ensures Permutation(After(Keyed(key), n).s)
  {
    ScheduledPermutes(key, 256);
    AfterGood(Keyed(key), n);
  }

  class Cipher {
    const s: array<Byte>
    var i: Byte
    var j: Byte

    ghost predicate Valid()
      reads this
    {
      s.Length == 256
    }

    ghost function Abstract(): (st: State)
      requires Valid()
      reads this, s
      ensures |st.s| == 256
    {
      State(s[..], i, j)
    }

    constructor ()
      ensures Valid() && fresh(s) && i == j == 0
      ensures forall n :: 0 <= n < 256 ==> s[n] == 0
    {
      s := new Byte[256](_ => 0);
      i, j := 0, 0;
    }

    /** A copy that runs on its own. */
    constructor Copy(c: Cipher)
      requires c.Valid()
      ensures Valid() && fresh(s) && Abstract() == c.Abstract()
    {
      s := new Byte[256](_ => 0);
      i, j := c.i, c.j;
      new;
      forall n | 0 <= n < 256 {
        s[n] := c.s[n];
      }
      assert s[..] == c.s[..];
    }

    /** `rc4_init`. */
    method Init(key: Bytes)
      requires Valid()
      modifies this, s
      ensures Abstract() == Keyed(key)
    {
      hide Plus;
      forall n | 0 <= n < 256 {
        s[n] := n;
      }
      i, j := 0, 0;
      assert s[..] == Identity();
      if key == [] {
        NoKey(256);
        return;
      }
      var k: Byte := 0;
      for n := 0 to 256
        invariant (s[..], k) == Scheduled(key, n) && i == 0 && j == 0
      {
        k := Plus(k + s[n], key[n % |key|]);
        ghost var was := s[..];
        s[n], s[k] := s[k], s[n];
        assert s[..] == Swapped(was, n, k);
      }
    }

    /** `rc4_crypt`: exclusive-or with as many keystream bytes, and move the cipher on by as many. */
    method Encrypt(data: Bytes) returns (out: Bytes)
      requires Valid()
      modifies this, s
      ensures out == Crypt(old(Abstract()), data)
      ensures Abstract() == After(old(Abstract()), |data|)
    {
      hide Plus, Xor;
      out := [];
      for n := 0 to |data|
        invariant |out| == n && Abstract() == After(old(Abstract()), n)
        invariant forall m :: 0 <= m < n ==> out[m] == Xor(data[m], Keystream(old(Abstract()), n)[m])
      {
        Advance();
        var k := s[Plus(s[i], s[j])];
        out := out + [Xor(data[n], k)];
      }
      assert out == Crypt(old(Abstract()), data);
    }

    /** `rc4_discard`. */
    method Discard(n: nat)
      requires Valid()
      modifies this, s
      ensures Abstract() == After(old(Abstract()), n)
    {
      hide Plus;
      for k := 0 to n
        invariant Abstract() == After(old(Abstract()), k)
      {
        Advance();
      }
    }

    method Advance()
      requires Valid()
      modifies this, s
      ensures Abstract() == Step(old(Abstract()))
    {
      hide Plus;
      i := Plus(i, 1);
      j := Plus(j, s[i]);
      ghost var was := s[..];
      s[i], s[j] := s[j], s[i];
      assert s[..] == Swapped(was, i, j);
    }
  }

  lemma {:induction false} NoKey(n: nat)
    requires n <= 256
    ensures Scheduled([], n).0 == Identity()
  {
    if n > 0 {
      NoKey(n - 1);
    }
  }
}

/** The queue of endpoints to dial: a ring, and an open-addressed hash that answers "already queued?"
    in place of a scan of the ring. */
module PeerQueue {
  const MAX_PEER_QUEUE := 1024
  const QUEUE_HASH_CAP := 2048

  type U32 = x: int | 0 <= x < 0x1_0000_0000
  type U16 = x: int | 0 <= x < 0x1_0000

  /** An endpoint, address and port in host order. */
  datatype Key = Key(ip: U32, port: U16)
  datatype PeerAddr = PeerAddr(key: Key, noMse: bool, useUtp: bool)
  datatype HashSlot = Empty | Used(key: Key) | Dead

  /** Byte reversal, between host and network order. */
  function Reverse32(x: U32): U32 {
    (x % 0x100) * 0x100_0000 + (x / 0x100 % 0x100) * 0x1_0000 + (x / 0x1_0000 % 0x100) * 0x100 + x / 0x100_0000
  }

  function Reverse16(x: U16): U16 {
    (x % 0x100) * 0x100 + x / 0x100
  }

  /** The multiplicative hash of the source, taken on the stored (network order) numbers. */
  function HashIndex(k: Key): (h: nat)
    ensures h < QUEUE_HASH_CAP
  {
    var h: U32 := (Reverse32(k.ip) * 2654435761) % 0x1_0000_0000;
    var p: U32 := (Reverse16(k.port) * 40503) % 0x1_0000_0000;
    (((h as bv32) ^ (p as bv32)) as int) % 2048
  }

  /** Addresses that are worth dialling: no reserved, private or multicast ones. */
  predicate Routable(k: Key) {
    var first := k.ip / 0x100_0000;
    var second := k.ip / 0x1_0000 % 0x100;
    && k.ip != 0 && k.ip != 0xffff_ffff && k.port >= 2
    && !(first == 0 || first == 10 || first == 127 || first >= 224
         || (first == 169 && second == 254)
         || (first == 172 && 16 <= second <= 31)
         || (first == 192 && second == 168))
  }

  // ---------------------------------------------------------------------------------------------
  // The table as a value.

  type Table = t: seq<HashSlot> | |t| == QUEUE_HASH_CAP witness seq(QUEUE_HASH_CAP, _ => Empty)

  function Probe(k: Key, p: nat): (s: nat)
    ensures s < QUEUE_HASH_CAP
  {
    (HashIndex(k) + p) % 2048
  }

  /** Every slot is on every key's probe path. */
  lemma ProbeReaches(k: Key, s: nat) returns (p: nat)
    requires s < QUEUE_HASH_CAP
    ensures p < QUEUE_HASH_CAP && Probe(k, p) == s
  {
    hide HashIndex;
    p := if s >= HashIndex(k) then s - HashIndex(k) else s + QUEUE_HASH_CAP - HashIndex(k);
  }

  lemma ProbeDistinct(k: Key, p: nat, q: nat)
    requires p < QUEUE_HASH_CAP && q < QUEUE_HASH_CAP && Probe(k, p) == Probe(k, q)
    ensures p == q
  {
    hide HashIndex;
  }

  /** No empty slot lies before a key's own slot on its probe path. */
  ghost predicate WellProbed(tab: Table) {
    forall k, p, q :: 0 <= q < p < QUEUE_HASH_CAP && tab[Probe(k, p)] == Used(k) ==> tab[Probe(k, q)] != Empty
  }

  /** A dead slot lies on the key's path before any empty one, so entering the key reuses a dead slot. */
  ghost predicate Reusable(tab: Table, k: Key) {
    exists p :: 0 <= p < QUEUE_HASH_CAP && tab[Probe(k, p)] == Dead
                && forall q :: 0 <= q < p ==> tab[Probe(k, q)] != Empty
  }

  /** The first slot of the path that is not in use is then dead. */
  lemma ReusesDead(tab: Table, k: Key, p: nat)
    requires Reusable(tab, k) && p < QUEUE_HASH_CAP && !tab[Probe(k, p)].Used?
    requires forall q :: 0 <= q < p ==> tab[Probe(k, q)].Used?
    ensures tab[Probe(k, p)] == Dead
  {
    hide HashIndex, Probe;
    var d :| 0 <= d < QUEUE_HASH_CAP && tab[Probe(k, d)] == Dead
             && forall q :: 0 <= q < d ==> tab[Probe(k, q)] != Empty;
    assert d >= p;
  }

  function KeysOf(slot: HashSlot): multiset<Key> {
    match slot
    case Used(k) => multiset{k}
    case _ => multiset{}
  }

  /** The keys in use, with multiplicity. */
  function UsedKeys(tab: seq<HashSlot>): multiset<Key> {
    if tab == [] then multiset{} else UsedKeys(tab[..|tab| - 1]) + KeysOf(tab[|tab| - 1])
  }

  function DeadSlots(tab: seq<HashSlot>): nat {
    if tab == [] then 0 else DeadSlots(tab[..|tab| - 1]) + (if tab[|tab| - 1] == Dead then 1 else 0)
  }

  lemma MultisetSwap(a: multiset<Key>, b: multiset<Key>, x: multiset<Key>, v: multiset<Key>)
    requires x <= a
    ensures a - x + v + b == a + b - x + v && x <= a + b
  {
  }

  lemma MultisetLast(a: multiset<Key>, x: multiset<Key>, v: multiset<Key>)
    ensures a + x - x + v == a + v && x <= a + x
  {
  }

  lemma {:induction false} UsedUpdate(tab: seq<HashSlot>, s: nat, v: HashSlot)
    requires s < |tab|
    ensures KeysOf(tab[s]) <= UsedKeys(tab)
    ensures UsedKeys(tab[s := v]) == UsedKeys(tab) - KeysOf(tab[s]) + KeysOf(v)
    decreases |tab|
  {
    hide KeysOf;
    var n := |tab| - 1;
    if s == n {
      assert tab[s := v][..n] == tab[..n];
      MultisetLast(UsedKeys(tab[..n]), KeysOf(tab[s]), KeysOf(v));
    } else {
      UsedUpdate(tab[..n], s, v);
      assert tab[s := v][..n] == tab[..n][s := v];
      MultisetSwap(UsedKeys(tab[..n]), KeysOf(tab[n]), KeysOf(tab[s]), KeysOf(v));
    }
  }

  lemma {:induction false} DeadUpdate(tab: seq<HashSlot>, s: nat, v: HashSlot)
    requires s < |tab|
    ensures DeadSlots(tab[s := v]) + (if tab[s] == Dead then 1 else 0) == DeadSlots(tab) + (if v == Dead then 1 else 0)
    decreases |tab|
  {
    var n := |tab| - 1;
    if s == n {
      assert tab[s := v][..n] == tab[..n];
    } else {
      DeadUpdate(tab[..n], s, v);
      assert tab[s := v][..n] == tab[..n][s := v];
    }
  }

  lemma {:induction false} UsedKeysMember(tab: seq<HashSlot>, k: Key)
    ensures k in UsedKeys(tab) <==> Used(k) in tab
    decreases |tab|
  {
    if tab != [] {
      var n := |tab| - 1;
      UsedKeysMember(tab[..n], k);
      assert tab == tab[..n] + [tab[n]];
    }
  }

  /** Slots in use and dead ones together fill no more than the table; the rest are empty. */
  lemma {:induction false} EmptyRemains(tab: seq<HashSlot>)
    requires |UsedKeys(tab)| + DeadSlots(tab) < |tab|
    ensures Empty in tab
    decreases |tab|
  {
    var n := |tab| - 1;
    assert tab == tab[..n] + [tab[n]];
    if tab[n] != Empty {
      EmptyRemains(tab[..n]);
    }
  }

  lemma {:induction false} AllEmpty(tab: seq<HashSlot>)
    requires forall s :: 0 <= s < |tab| ==> tab[s] == Empty
    ensures UsedKeys(tab) == multiset{} && DeadSlots(tab) == 0
    decreases |tab|
  {
    if tab != [] {
      AllEmpty(tab[..|tab| - 1]);
    }
  }

  /** Filling any slot, or killing a used one, leaves every other key's path unbroken. */
  lemma WellProbedUpdate(tab: Table, s: nat, v: HashSlot)
    requires WellProbed(tab) && s < QUEUE_HASH_CAP && v != Empty
    requires v.Used? ==> exists p: nat :: p < QUEUE_HASH_CAP && Probe(v.key, p) == s
                                      && forall q: nat :: q < p ==> tab[Probe(v.key, q)] != Empty
    ensures WellProbed(tab[s := v])
  {
    hide HashIndex, Probe;
    var tab' := tab[s := v];
    forall k, p, q | 0 <= q < p < QUEUE_HASH_CAP && tab'[Probe(k, p)] == Used(k)
      ensures tab'[Probe(k, q)] != Empty
    {
      if Probe(k, p) == s {
        var p0: nat :| p0 < QUEUE_HASH_CAP && Probe(v.key, p0) == s
                       && forall q: nat :: q < p0 ==> tab[Probe(v.key, q)] != Empty;
        ProbeDistinct(k, p, p0);
      } else {
        assert tab[Probe(k, p)] == Used(k);
      }
    }
  }

  // ---------------------------------------------------------------------------------------------
  // The queue.

  function RingPos(i: nat): (s: nat)
    ensures s < MAX_PEER_QUEUE
    ensures i < MAX_PEER_QUEUE ==> s == i
  {
    i % 1024
  }

  function Keys(entries: seq<PeerAddr>): (ks: seq<Key>)
    ensures |ks| == |entries|
    ensures forall i :: 0 <= i < |ks| ==> ks[i] == entries[i].key
  {
    seq(|entries|, i requires 0 <= i < |entries| => entries[i].key)
  }

  /** The ring's entries from `head` on. */
  function Window(ring: seq<PeerAddr>, head: nat, size: nat): (entries: seq<PeerAddr>)
    requires |ring| == MAX_PEER_QUEUE
    ensures |entries| == size
    ensures forall i :: 0 <= i < size ==> entries[i] == ring[RingPos(head + i)]
  {
    seq(size, i requires 0 <= i < size => ring[RingPos(head + i)])
  }

  lemma WindowPushFront(ring: seq<PeerAddr>, head: nat, size: nat, e: PeerAddr)
    requires |ring| == MAX_PEER_QUEUE && head < MAX_PEER_QUEUE && size < MAX_PEER_QUEUE
    ensures var head' := RingPos(head + MAX_PEER_QUEUE - 1);
            && Window(ring[head' := e], head', size + 1) == [e] + Window(ring, head, size)
            && RingPos(head' + size + 1) == RingPos(head + size)
  {
  }

  lemma WindowPushBack(ring: seq<PeerAddr>, head: nat, size: nat, e: PeerAddr)
    requires |ring| == MAX_PEER_QUEUE && head < MAX_PEER_QUEUE && size < MAX_PEER_QUEUE
    ensures var tail := RingPos(head + size);
            && Window(ring[tail := e], head, size + 1) == Window(ring, head, size) + [e]
            && RingPos(tail + 1) == RingPos(head + size + 1)
  {
  }

  lemma WindowPop(ring: seq<PeerAddr>, head: nat, size: nat)
    requires |ring| == MAX_PEER_QUEUE && head < MAX_PEER_QUEUE && 0 < size <= MAX_PEER_QUEUE
    ensures Window(ring, RingPos(head + 1), size - 1) == Window(ring, head, size)[1..]
    ensures RingPos(RingPos(head + 1) + size - 1) == RingPos(head + size)
  {
  }

  predicate Queued(k: Key, entries: seq<PeerAddr>) {
    exists i :: 0 <= i < |entries| && entries[i].key == k
  }

  /** The keys a table holds for these entries, when `stale` is what the last rebuild left over. */
  ghost function Expected(entries: seq<PeerAddr>, stale: multiset<Key>): multiset<Key> {
    multiset(Keys(entries)) + stale
  }

  lemma ExpectedSize(entries: seq<PeerAddr>, stale: multiset<Key>)
    ensures |Expected(entries, stale)| == |entries| + |stale|
    ensures forall k :: k in Expected(entries, stale) <==> Queued(k, entries) || k in stale
  {
    forall k
      ensures k in multiset(Keys(entries)) <==> Queued(k, entries)
    {
      assert k in multiset(Keys(entries)) <==> k in Keys(entries);
    }
  }

  lemma ExpectedInsert(entries: seq<PeerAddr>, stale: multiset<Key>, e: PeerAddr)
    ensures Expected([e] + entries, stale) == Expected(entries, stale) + multiset{e.key}
    ensures Expected(entries + [e], stale) == Expected(entries, stale) + multiset{e.key}
  {
    assert Keys([e] + entries) == [e.key] + Keys(entries);
    assert Keys(entries + [e]) == Keys(entries) + [e.key];
  }

  lemma ExpectedPop(entries: seq<PeerAddr>, stale: multiset<Key>)
    requires entries != []
    ensures Expected(entries[1..], stale) == Expected(entries, stale) - multiset{entries[0].key}
    ensures entries[0].key in Expected(entries, stale)
  {
    ExpectedInsert(entries[1..], stale, entries[0]);
    assert [entries[0]] + entries[1..] == entries;
  }

  ghost predicate Distinct(entries: seq<PeerAddr>) {
    forall i, j :: 0 <= i < j < |entries| ==> entries[i].key != entries[j].key
  }

  /** Queued endpoints are routable and not repeated. */
  ghost predicate Proper(entries: seq<PeerAddr>) {
    && Distinct(entries)
    && forall i :: 0 <= i < |entries| ==> Routable(entries[i].key)
  }

  lemma ProperInsert(entries: seq<PeerAddr>, e: PeerAddr)
    requires Proper(entries) && Routable(e.key) && !Queued(e.key, entries)
    ensures Proper([e] + entries) && Proper(entries + [e])
  {
  }

  lemma ProperPop(entries: seq<PeerAddr>)
    requires Proper(entries) && entries != []
    ensures Proper(entries[1..])
  {
  }

  class Queue {
    const queue: array<PeerAddr>
    var qhead: nat
    var qtail: nat
    var qsize: nat
    const qhash: array<HashSlot>
    var tombstones: nat
    /** The key that the last rebuild entered twice, once already counted among the queued keys. */
    ghost var stale: multiset<Key>

    ghost predicate Shape()
      reads this
    {
      && queue.Length == MAX_PEER_QUEUE && qhash.Length == QUEUE_HASH_CAP
      && qhead < MAX_PEER_QUEUE && qtail < MAX_PEER_QUEUE && qsize <= MAX_PEER_QUEUE
      && qtail == RingPos(qhead + qsize)
    }

    ghost function Contents(): (entries: seq<PeerAddr>)
      requires Shape()
      reads this, queue
      ensures |entries| == qsize
    {
      Window(queue[..], qhead, qsize)
    }

    /** The hash tells of the keys `keys`, and probing is sound. */
    ghost predicate Indexed(keys: multiset<Key>)
      requires qhash.Length == QUEUE_HASH_CAP
      reads this, qhash
    {
      && WellProbed(qhash[..])
      && UsedKeys(qhash[..]) == keys
      && tombstones == DeadSlots(qhash[..])
    }

    ghost predicate Valid()
      reads this, queue, qhash
    {
      && Shape()
      && |stale| <= 1
      && Indexed(Expected(Contents(), stale))
      && qsize + |stale| + tombstones <= MAX_PEER_QUEUE + 1 + QUEUE_HASH_CAP / 4
      && Proper(Contents())
    }

    constructor ()
      ensures Valid() && Contents() == [] && stale == multiset{} && tombstones == 0
      ensures fresh(queue) && fresh(qhash)
    {
      queue := new PeerAddr[MAX_PEER_QUEUE](_ => PeerAddr(Key(0, 0), false, false));
      qhash := new HashSlot[QUEUE_HASH_CAP](_ => Empty);
      qhead, qtail, qsize, tombstones, stale := 0, 0, 0, 0, multiset{};
      new;
      AllEmpty(qhash[..]);
    }

    /** A probe finds a key exactly when some slot holds it. */
    method HashContains(k: Key) returns (found: bool)
      requires qhash.Length == QUEUE_HASH_CAP && WellProbed(qhash[..])
      ensures found <==> k in UsedKeys(qhash[..])
    {
      hide HashIndex, Probe, UsedKeys;
      UsedKeysMember(qhash[..], k);
      for p := 0 to QUEUE_HASH_CAP
        invariant forall q: nat :: q < p ==> qhash[Probe(k, q)] != Used(k)
      {
        var slot := Probe(k, p);
        if qhash[slot] == Empty {
          forall s | 0 <= s < QUEUE_HASH_CAP
            ensures qhash[s] != Used(k)
          {
            var p' := ProbeReaches(k, s);
            assert qhash[..][Probe(k, p')] == qhash[s];
            assert qhash[..][Probe(k, p)] == Empty;
          }
          return false;
        }
        if qhash[slot] == Used(k) {
          assert qhash[..][slot] == Used(k);
          return true;
        }
      }
      forall s | 0 <= s < QUEUE_HASH_CAP
        ensures qhash[s] != Used(k)
      {
        var p' := ProbeReaches(k, s);
      }
      return false;
    }

    /** The first slot on the key's path that is not in use. */
    method FirstFree(k: Key) returns (slot: nat, ghost p: nat)
      requires qhash.Length == QUEUE_HASH_CAP && Empty in qhash[..]
      ensures p < QUEUE_HASH_CAP && slot == Probe(k, p) && !qhash[slot].Used?
      ensures forall q: nat :: q < p ==> qhash[Probe(k, q)].Used?
    {
      hide HashIndex, Probe;
      for i := 0 to QUEUE_HASH_CAP
        invariant forall q: nat :: q < i ==> qhash[Probe(k, q)].Used?
      {
        slot, p := Probe(k, i), i;
        if !qhash[slot].Used? {
          return;
        }
      }
      var s :| 0 <= s < QUEUE_HASH_CAP && qhash[..][s] == Empty;
      var p' := ProbeReaches(k, s);
      assert false;
    }

    /** Enter a key in the first slot of its path that is not in use. */
    method HashAddRaw(k: Key, ghost keys: multiset<Key>)
      requires qhash.Length == QUEUE_HASH_CAP && Indexed(keys)
      requires |keys| + tombstones < QUEUE_HASH_CAP
      modifies qhash, this`tombstones
      ensures Indexed(keys + multiset{k})
      ensures tombstones == old(tombstones) || tombstones == old(tombstones) - 1
      ensures old(Reusable(qhash[..], k)) ==> tombstones == old(tombstones) - 1
    {
      hide HashIndex, Probe, UsedKeys, DeadSlots, WellProbed, Reusable;
      ghost var tab := qhash[..];
      EmptyRemains(tab);
      var slot, p := FirstFree(k);
      assert forall q: nat :: q < p ==> tab[Probe(k, q)] != Empty;
      UsedUpdate(tab, slot, Used(k));
      DeadUpdate(tab, slot, Used(k));
      WellProbedUpdate(tab, slot, Used(k));
      if Reusable(tab, k) {
        ReusesDead(tab, k, p);
      }
      if qhash[slot] == Dead && tombstones > 0 {
        tombstones := tombstones - 1;
      }
      qhash[slot] := Used(k);
      assert qhash[..] == tab[slot := Used(k)];
    }

    /** One slot holding the key, if any, becomes a tombstone. */
    method HashRemove(k: Key, ghost keys: multiset<Key>)
      requires qhash.Length == QUEUE_HASH_CAP && Indexed(keys)
      modifies qhash, this`tombstones
      ensures Indexed(keys - multiset{k})
      ensures tombstones == old(tombstones) + (if k in keys then 1 else 0)
      ensures k in keys ==> Reusable(qhash[..], k)
    {
      hide HashIndex, Probe, UsedKeys, DeadSlots;
      UsedKeysMember(qhash[..], k);
      for p := 0 to QUEUE_HASH_CAP
        invariant forall q: nat :: q < p ==> qhash[Probe(k, q)] != Used(k) && qhash[Probe(k, q)] != Empty
        invariant tombstones == old(tombstones) && qhash[..] == old(qhash[..])
      {
        var slot := Probe(k, p);
        if qhash[slot] == Empty {
          assert Used(k) !in qhash[..] by {
            forall s | 0 <= s < QUEUE_HASH_CAP
              ensures qhash[..][s] != Used(k)
            {
              var p' := ProbeReaches(k, s);
              assert qhash[..][Probe(k, p)] == Empty;
            }
          }
          return;
        }
        if qhash[slot] == Used(k) {
          ghost var tab := qhash[..];
          assert tab[slot] == Used(k);
          UsedUpdate(tab, slot, Dead);
          DeadUpdate(tab, slot, Dead);
          WellProbedUpdate(tab, slot, Dead);
          qhash[slot] := Dead;
          assert qhash[..] == tab[slot := Dead];
          assert Reusable(qhash[..], k) by {
            assert qhash[..][Probe(k, p)] == Dead;
            assert forall q :: 0 <= q < p ==> tab[Probe(k, q)] != Empty;
          }
          tombstones := tombstones + 1;
          return;
        }
      }
      assert Used(k) !in qhash[..] by {
        forall s | 0 <= s < QUEUE_HASH_CAP
          ensures qhash[..][s] != Used(k)
        {
          var p' := ProbeReaches(k, s);
        }
      }
    }

    method HashClear()
      requires qhash.Length == QUEUE_HASH_CAP
      modifies qhash, this`tombstones
      ensures Indexed(multiset{}) && tombstones == 0
    {
      hide HashIndex, Probe;
      forall s | 0 <= s < QUEUE_HASH_CAP {
        qhash[s] := Empty;
      }
      tombstones := 0;
      AllEmpty(qhash[..]);
    }

    /** Rehash exactly the queued keys; no tombstone remains. */
    method HashRebuild()
      requires Shape()
      modifies qhash, this`tombstones
      ensures Indexed(Expected(Contents(), multiset{})) && tombstones == 0
    {
      hide HashIndex, Probe, RingPos, Indexed, Expected, Keys;
      HashClear();
      ghost var all := Contents();
      assert Expected(all[..0], multiset{}) == multiset{} by {
        ExpectedSize(all[..0], multiset{});
      }
      for i := 0 to qsize
        invariant Indexed(Expected(all[..i], multiset{})) && tombstones == 0
      {
        assert all[..i + 1] == all[..i] + [queue[RingPos(qhead + i)]];
        ExpectedInsert(all[..i], multiset{}, all[i]);
        ExpectedSize(all[..i], multiset{});
        HashAddRaw(queue[RingPos(qhead + i)].key, Expected(all[..i], multiset{}));
      }
      assert all[..qsize] == all;
    }

    /** Enter the key of an entry just queued. A rebuild has seen the entry already, so the key is
        then entered twice. */
    method HashAdd(k: Key, ghost keys: multiset<Key>)
      requires Shape() && Indexed(keys) && |keys| + tombstones < QUEUE_HASH_CAP
      modifies qhash, this`tombstones, this`stale
      ensures if old(tombstones) > QUEUE_HASH_CAP / 4
              then stale == multiset{k} && Indexed(Expected(Contents(), stale)) && tombstones == 0
              else stale == old(stale) && Indexed(keys + multiset{k}) && tombstones <= old(tombstones)
                   && (old(Reusable(qhash[..], k)) ==> tombstones == old(tombstones) - 1)
    {
      hide HashIndex, Probe, RingPos, UsedKeys, DeadSlots, WellProbed, Keys, Window, Reusable;
      ghost var keys' := keys;
      if tombstones > QUEUE_HASH_CAP / 4 {
        HashRebuild();
        ExpectedSize(Contents(), multiset{});
        keys' := Expected(Contents(), multiset{});
        stale := multiset{k};
      }
      HashAddRaw(k, keys');
    }

    /** Queue an endpoint at either end. It is turned away when it is not routable, when the queue is
        full, when it is queued already, when it is `refused` (connected or blocklisted), or when it
        is the stale key. */
    method Insert(e: PeerAddr, front: bool, refused: set<Key>) returns (ok: bool)
      requires Valid()
      modifies this, queue, qhash
      ensures Valid() && Shape()
      ensures ok <==> && Routable(e.key) && old(qsize) < MAX_PEER_QUEUE && e.key !in refused
                      && !Queued(e.key, old(Contents())) && e.key !in old(stale)
      ensures Contents() == if !ok then old(Contents())
                            else if front then [e] + old(Contents()) else old(Contents()) + [e]
      ensures stale == if ok && old(tombstones) > QUEUE_HASH_CAP / 4 then multiset{e.key} else old(stale)
      ensures tombstones <= old(tombstones) && (!ok ==> tombstones == old(tombstones))
      ensures ok && old(tombstones) > QUEUE_HASH_CAP / 4 ==> tombstones == 0
      ensures ok && old(tombstones) <= QUEUE_HASH_CAP / 4 && old(Reusable(qhash[..], e.key)) ==>
                tombstones == old(tombstones) - 1
    {
      hide HashIndex, Probe, Routable, RingPos, Indexed, Expected, Keys, Window, Proper, Queued, Reusable;
      ok := Admits(e.key, refused);
      if ok {
        Enter(e, front);
      }
    }

    method Admits(k: Key, refused: set<Key>) returns (ok: bool)
      requires Valid()
      ensures ok <==> && Routable(k) && qsize < MAX_PEER_QUEUE && k !in refused
                      && !Queued(k, Contents()) && k !in stale
    {
      hide HashIndex, Probe, Routable, UsedKeys, DeadSlots, WellProbed, Expected, Keys, Window, Proper, Queued;
      ExpectedSize(Contents(), stale);
      if !Routable(k) || qsize >= MAX_PEER_QUEUE {
        return false;
      }
      var found := HashContains(k);
      ok := !found && k !in refused;
    }

    method Enter(e: PeerAddr, front: bool)
      requires Valid() && Routable(e.key) && qsize < MAX_PEER_QUEUE && !Queued(e.key, Contents())
      modifies this, queue, qhash
      ensures Valid() && tombstones <= old(tombstones)
      ensures Contents() == if front then [e] + old(Contents()) else old(Contents()) + [e]
      ensures stale == if old(tombstones) > QUEUE_HASH_CAP / 4 then multiset{e.key} else old(stale)
      ensures old(tombstones) > QUEUE_HASH_CAP / 4 ==> tombstones == 0
      ensures old(tombstones) <= QUEUE_HASH_CAP / 4 && old(Reusable(qhash[..], e.key)) ==>
                tombstones == old(tombstones) - 1
    {
      hide HashIndex, Probe, Routable, UsedKeys, DeadSlots, WellProbed, Expected, Keys, Window, Proper, Queued,
           Reusable;
      ghost var before := Contents();
      ExpectedSize(before, stale);
      ProperInsert(before, e);
      ExpectedInsert(before, stale, e);
      Place(e, front);
      HashAdd(e.key, Expected(before, old(stale)));
    }

    /** Put the entry in the ring. */
    method Place(e: PeerAddr, front: bool)
      requires Shape() && qsize < MAX_PEER_QUEUE
      modifies queue, this`qhead, this`qtail, this`qsize
      ensures Shape() && qsize == old(qsize) + 1
      ensures Contents() == if front then [e] + old(Contents()) else old(Contents()) + [e]
    {
      hide RingPos, Window;
      ghost var ring := queue[..];
      WindowPushFront(ring, qhead, qsize, e);
      WindowPushBack(ring, qhead, qsize, e);
      var index;
      if front {
        qhead := RingPos(qhead + MAX_PEER_QUEUE - 1);
        index := qhead;
      } else {
        index := qtail;
        qtail := RingPos(qtail + 1);
      }
      queue[index] := e;
      assert queue[..] == ring[index := e];
      qsize := qsize + 1;
    }

    /** Take the endpoint at the front. */
    method Pop() returns (e: PeerAddr)
      requires Valid() && qsize > 0
      modifies this`qhead, this`qsize, this`tombstones, qhash
      ensures Valid()
      ensures e == old(Contents())[0] && Contents() == old(Contents())[1..] && stale == old(stale)
      ensures tombstones == old(tombstones) + 1 && Reusable(qhash[..], e.key)
    {
      hide HashIndex, Probe, Routable, UsedKeys, DeadSlots, WellProbed, Expected, Keys, Proper, Reusable;
      ghost var before := Contents();
      e := queue[qhead];
      assert e == before[0];
      WindowPop(queue[..], qhead, qsize);
      ProperPop(before);
      ExpectedPop(before, stale);
      qhead := RingPos(qhead + 1);
      qsize := qsize - 1;
      assert Contents() == before[1..];
      HashRemove(e.key, Expected(before, stale));
    }

    /** Take the front endpoint and queue it again at the back, as the rotation does. It comes back
        exactly when it is neither refused nor the stale key; otherwise it is lost. */
    method Rotate(refused: set<Key>) returns (kept: bool)
      requires Valid() && qsize > 0
      modifies this, queue, qhash
      ensures Valid()
      ensures var e := old(Contents())[0];
              && (kept <==> e.key !in old(stale) && e.key !in refused)
              && Contents() == old(Contents())[1..] + (if kept then [e] else [])
              && stale == (if kept && old(tombstones) >= QUEUE_HASH_CAP / 4 then multiset{e.key} else old(stale))
      ensures tombstones == if !kept then old(tombstones) + 1
                            else if old(tombstones) >= QUEUE_HASH_CAP / 4 then 0
                            else old(tombstones)
    {
      hide HashIndex, Probe, Indexed, Expected, Keys, Window, Reusable;
      assert Routable(Contents()[0].key);
      var e := Pop();
      assert !Queued(e.key, Contents());
      kept := Insert(e, false, refused);
    }

    /** None of the entries is stale or refused. */
    ghost predicate Clean(entries: seq<PeerAddr>, refused: set<Key>)
      reads this
    {
      forall i :: 0 <= i < |entries| ==> entries[i].key !in stale && entries[i].key !in refused
    }

    /** Move the first `prior` entries to the back: of them, exactly what `Rotation` says is left. When all
        of them are clean, their order and dial flags are kept. */
    method RotatePrior(prior: nat, refused: set<Key>)
      requires Valid() && prior <= qsize
      modifies this, queue, qhash
      ensures Valid()
      ensures Contents() == old(Contents())[prior..]
                            + Rotation(old(Contents())[..prior], refused, old(stale), old(tombstones))
      ensures old(Clean(Contents()[..prior], refused)) ==>
                Contents() == old(Contents())[prior..] + old(Contents())[..prior]
    {
      hide HashIndex, Probe, Routable, RingPos, Indexed, Expected, Keys, Window, Rotation, Proper, Queued;
      ghost var all := Contents();
      RotationPreserves(all, prior, refused);
      assert all == all[..prior] + all[prior..];
      RotateAll(prior, refused, all[..prior], all[prior..]);
    }

    /** The rotation loop. */
    method RotateAll(prior: nat, refused: set<Key>, ghost entries: seq<PeerAddr>, ghost tail: seq<PeerAddr>)
      requires Valid() && Shape() && |entries| == prior && Contents() == entries + tail
      modifies this, queue, qhash
      ensures Valid() && Contents() == tail + Rotation(entries, refused, old(stale), old(tombstones))
    {
      hide Rotation, Contents, Valid;
      ghost var todo, done: seq<PeerAddr> := entries, [];
      ghost var whole := Rotation(entries, refused, stale, tombstones);
      assert [] + whole == whole && entries + tail == entries + tail + [];
      for k := 0 to prior
        invariant Valid() && Shape() && Contents() == todo + tail + done && |todo| == prior - k
        invariant done + Rotation(todo, refused, stale, tombstones) == whole
      {
        done := RotateNext(refused, todo, tail, done);
        todo := todo[1..];
      }
      RotationNone(refused, stale, tombstones);
      assert done + [] == done && [] + tail + done == tail + done;
    }

    /** One turn: of the entries still to do the first is taken, and is back at the end or lost. */
    method RotateNext(refused: set<Key>, ghost todo: seq<PeerAddr>, ghost tail: seq<PeerAddr>,
        ghost done: seq<PeerAddr>)
      returns (ghost done': seq<PeerAddr>)
      requires Valid() && todo != [] && Contents() == todo + tail + done
      modifies this, queue, qhash
      ensures Valid() && Shape() && Contents() == todo[1..] + tail + done'
      ensures done' + Rotation(todo[1..], refused, stale, tombstones)
              == done + Rotation(todo, refused, old(stale), old(tombstones))
    {
      hide HashIndex, Probe, Routable, RingPos, Indexed, Expected, Keys, Window, Rotation, Proper, Queued;
      RotationStep(todo, refused, stale, tombstones);
      RotationTurn(todo, tail, done, Rotation(todo[1..], refused, multiset{todo[0].key}, 0));
      RotationTurn(todo, tail, done, Rotation(todo[1..], refused, stale, tombstones));
      var kept := Rotate(refused);
      done' := if kept then done + [todo[0]] else done;
    }

    /** Clean entries are all preserved. */
    lemma RotationPreserves(all: seq<PeerAddr>, prior: nat, refused: set<Key>)
      requires Valid() && all == Contents() && prior <= |all|
      ensures Clean(all[..prior], refused) ==> Rotation(all[..prior], refused, stale, tombstones) == all[..prior]
    {
      hide HashIndex, Probe, Routable, RingPos, Indexed, Expected, Keys, Window, Rotation;
      assert Distinct(all[..prior]) by {
        assert Proper(Contents());
      }
      RotationExact(all[..prior], refused, stale, tombstones);
    }

    /** Append the listed endpoints, each at its first mention, until the queue is full. */
    method PushAll(list: seq<Key>, refused: set<Key>) returns (accepted: nat, ghost idx: seq<nat>)
      requires Valid() && Shape()
      modifies this, queue, qhash
      ensures Valid() && Shape() && |idx| == accepted && Ascending(idx, |list|)
      ensures Contents() == old(Contents()) + Fresh(list, idx)
      ensures stale == old(stale) || (exists k <- Fresh(list, idx) :: stale == multiset{k.key})
      ensures Restaled(old(stale), old(tombstones), Fresh(list, idx), stale, tombstones)
      ensures Covered(list, refused, old(stale), Contents())
    {
      hide Routable, Fresh, Covered, Queued, Restaled, Valid, Contents;
      accepted := 0;
      idx := [];
      ghost var before, stale0, dead0 := Contents(), stale, tombstones;
      PushedNone(list, before, refused, stale, tombstones);
      for i := 0 to |list|
        invariant Valid() && Shape() && |idx| == accepted
        invariant Pushed(list, i, idx, before, Contents(), refused, stale0, dead0, stale, tombstones)
      {
        hide Pushed;
        ghost var was, wasStale, wasDead := Contents(), stale, tombstones;
        var e := PeerAddr(list[i], false, false);
        var ok := Insert(e, false, refused);
        PushedNext(list, i, idx, before, was, Contents(), refused, stale0, dead0, wasStale, wasDead, stale, tombstones,
                   ok);
        if ok {
          idx := idx + [i];
          accepted := accepted + 1;
        }
      }
      assert list[..|list|] == list;
      RestaledStale(stale0, dead0, Fresh(list, idx), stale, tombstones);
    }

    /** Endpoints queued earlier stay clean: a rebuild leaves one of the added keys stale. */
    lemma StillClean(before: seq<PeerAddr>, added: seq<PeerAddr>, stale0: multiset<Key>, refused: set<Key>)
      requires Distinct(before + added)
      requires stale == stale0 || (exists e <- added :: stale == multiset{e.key})
      ensures (forall i :: 0 <= i < |before| ==> before[i].key !in stale0 && before[i].key !in refused)
                ==> Clean(before, refused)
    {
      if stale != stale0 {
        var e :| e in added && stale == multiset{e.key};
        var j :| 0 <= j < |added| && added[j] == e;
        forall i | 0 <= i < |before|
          ensures before[i].key !in stale
        {
          assert (before + added)[i].key != (before + added)[|before| + j].key;
        }
      }
    }

    /** Queue a verified list ahead of what was queued before. Of the earlier entries exactly what
        `Rotation` says follows, in its old order with its dial flags; `turn` is the number of tombstones
        when the rotation begins. A push that rebuilt the hash has replaced the stale key by then. */
    method AddInitialPeers(list: seq<Key>, refused: set<Key>)
      returns (accepted: nat, ghost idx: seq<nat>, ghost turn: nat)
      requires Valid()
      modifies this, queue, qhash
      ensures Valid() && |idx| == accepted && Ascending(idx, |list|)
      ensures accepted == 0 ==> Contents() == old(Contents())
      ensures turn <= old(tombstones) && (accepted > 0 && old(tombstones) > QUEUE_HASH_CAP / 4 ==> turn == 0)
      ensures accepted > 0 ==>
                Contents() == Fresh(list, idx)
                              + Rotation(old(Contents()), refused, StaleThen(old(stale), old(tombstones)), turn)
      ensures accepted > 0 && old(tombstones) < QUEUE_HASH_CAP / 4 ==>
                (Contents() == Fresh(list, idx) + old(Contents()) <==> old(Clean(Contents(), refused)))
      ensures accepted > 0 && old(tombstones) > QUEUE_HASH_CAP / 4 ==>
                (Contents() == Fresh(list, idx) + old(Contents()) <==>
                   forall i :: 0 <= i < |old(Contents())| ==> old(Contents())[i].key !in refused)
      ensures Covered(list, refused, old(stale), Fresh(list, idx) + old(Contents()))
      ensures old(Clean(Contents(), refused)) ==>
                && Contents() == Fresh(list, idx) + old(Contents())
                && Covered(list, refused, old(stale), Contents())
    {
      hide HashIndex, Probe, Routable, RingPos, Indexed, Expected, Keys, Window, Fresh, Covered, Rotation;
      ghost var before := Contents();
      var prior := qsize;
      accepted, idx := PushAll(list, refused);
      turn := tombstones;
      ghost var all := Contents();
      assert all[..prior] == before && all[prior..] == Fresh(list, idx);
      CoveredRotated(list, refused, old(stale), before, Fresh(list, idx));
      if accepted > 0 {
        assert old(Clean(Contents(), refused)) ==> Clean(before, refused) by {
          StillClean(before, Fresh(list, idx), old(stale), refused);
        }
        if old(tombstones) > QUEUE_HASH_CAP / 4 {
          AddedNotBefore(before, Fresh(list, idx), stale);
          RotationUnstale(before, refused, stale, turn);
        }
        PreservedIff(before, refused, old(stale), old(tombstones), turn) by {
          assert forall i, j :: 0 <= i < j < |before| ==> all[i] == before[i] && all[j] == before[j];
          assert Proper(Contents());
        }
        Cancel(Fresh(list, idx), Rotation(before, refused, StaleThen(old(stale), old(tombstones)), turn), before);
        RotatePrior(prior, refused);
      } else {
        assert Fresh(list, idx) == [];
        assert [] + before == before;
      }
    }
  }

  /** Entries were added at the back: a rebuild came with the first of them, or not at all. */
  ghost predicate Restaled(stale0: multiset<Key>, tombstones0: nat, added: seq<PeerAddr>, stale: multiset<Key>,
      tombstones: nat)
  {
    && tombstones <= tombstones0
    && (added == [] ==> stale == stale0 && tombstones == tombstones0)
    && (tombstones0 <= QUEUE_HASH_CAP / 4 ==> stale == stale0)
    && (tombstones0 > QUEUE_HASH_CAP / 4 && added != [] ==>
          tombstones == 0 && exists k <- added :: stale == multiset{k.key})
  }

  lemma RestaledNext(stale0: multiset<Key>, tombstones0: nat, added: seq<PeerAddr>, e: PeerAddr,
      stale: multiset<Key>, tombstones: nat, stale': multiset<Key>, tombstones': nat)
    requires Restaled(stale0, tombstones0, added, stale, tombstones) && tombstones' <= tombstones
    requires stale' == if tombstones > QUEUE_HASH_CAP / 4 then multiset{e.key} else stale
    requires tombstones > QUEUE_HASH_CAP / 4 ==> tombstones' == 0
    ensures Restaled(stale0, tombstones0, added + [e], stale', tombstones')
  {
    assert e in added + [e];
    if tombstones0 > QUEUE_HASH_CAP / 4 && added != [] {
      var k :| k in added && stale == multiset{k.key};
      assert k in added + [e];
    }
  }

  lemma RestaledStale(stale0: multiset<Key>, tombstones0: nat, added: seq<PeerAddr>, stale: multiset<Key>,
      tombstones: nat)
    requires Restaled(stale0, tombstones0, added, stale, tombstones)
    ensures stale == stale0 || (exists k <- added :: stale == multiset{k.key})
  {
  }

  /** The first `i` listed endpoints have been pushed. */
  ghost predicate Pushed(list: seq<Key>, i: nat, idx: seq<nat>, before: seq<PeerAddr>, now: seq<PeerAddr>,
      refused: set<Key>, stale0: multiset<Key>, tombstones0: nat, stale: multiset<Key>, tombstones: nat)
  {
    && i <= |list| && Ascending(idx, i)
    && now == before + Fresh(list, idx)
    && Restaled(stale0, tombstones0, Fresh(list, idx), stale, tombstones)
    && Covered(list[..i], refused, stale0, now)
  }

  lemma PushedNone(list: seq<Key>, before: seq<PeerAddr>, refused: set<Key>, stale: multiset<Key>, tombstones: nat)
    ensures Pushed(list, 0, [], before, before, refused, stale, tombstones, stale, tombstones)
  {
    hide Routable, Queued;
    assert Fresh(list, []) == [] && before + [] == before;
  }

  lemma AscendingNext(idx: seq<nat>, i: nat)
    requires Ascending(idx, i)
    ensures Ascending(idx, i + 1) && Ascending(idx + [i], i + 1)
  {
  }

  lemma {:induction false} AscendingShort(idx: seq<nat>, n: nat)
    requires Ascending(idx, n)
    ensures |idx| <= n
    decreases |idx|
  {
    if idx != [] {
      var m := |idx| - 1;
      AscendingShort(idx[..m], idx[m]);
    }
  }

  lemma AscendingBound(idx: seq<nat>, i: nat, n: nat)
    requires Ascending(idx, i) && i <= n
    ensures forall j :: 0 <= j < |idx| ==> idx[j] < n
  {
  }

  lemma PushedNext(list: seq<Key>, i: nat, idx: seq<nat>, before: seq<PeerAddr>, was: seq<PeerAddr>, now: seq<PeerAddr>,
      refused: set<Key>, stale0: multiset<Key>, tombstones0: nat, stale: multiset<Key>, tombstones: nat,
      stale': multiset<Key>, tombstones': nat, ok: bool)
    requires i < |list| && Pushed(list, i, idx, before, was, refused, stale0, tombstones0, stale, tombstones)
    requires now == if ok then was + [PeerAddr(list[i], false, false)] else was
    requires !ok ==> stale' == stale && tombstones' == tombstones
    requires !ok ==> |was| >= MAX_PEER_QUEUE || !Routable(list[i]) || list[i] in refused || list[i] in stale
                     || Queued(list[i], was)
    requires ok ==> stale' == (if tombstones > QUEUE_HASH_CAP / 4 then multiset{list[i]} else stale)
    requires ok && tombstones > QUEUE_HASH_CAP / 4 ==> tombstones' == 0
    requires tombstones' <= tombstones
    ensures Pushed(list, i + 1, if ok then idx + [i] else idx, before, now, refused, stale0, tombstones0, stale',
                   tombstones')
  {
    hide Routable, Queued, Covered, Restaled, Fresh, Ascending, HashIndex;
    var e := PeerAddr(list[i], false, false);
    AscendingNext(idx, i);
    AscendingBound(idx, i, |list|);
    RestaledStale(stale0, tombstones0, Fresh(list, idx), stale, tombstones);
    StaleQueued(was, stale, stale0, before, Fresh(list, idx), list[i]);
    CoveredNext(list, i, refused, stale0, was, now);
    if ok {
      RestaledNext(stale0, tombstones0, Fresh(list, idx), e, stale, tombstones, stale', tombstones');
      FreshNext(list, idx, i);
      assert before + Fresh(list, idx) + [e] == before + (Fresh(list, idx) + [e]);
    }
  }

  /** The stale key that is left when the rotation begins. */
  function StaleThen(stale: multiset<Key>, tombstones: nat): multiset<Key> {
    if tombstones > QUEUE_HASH_CAP / 4 then multiset{} else stale
  }

  // ---------------------------------------------------------------------------------------------
  // What rotating earlier entries leaves of them.

  /** An entry is taken and queued again, which a refused or stale key does not survive. Each loss leaves a
      tombstone; when there are too many, the next entry's re-insertion rebuilds the hash, whose stale
      key is then that entry's. */
  function Rotation(entries: seq<PeerAddr>, refused: set<Key>, stale: multiset<Key>, tombstones: nat): seq<PeerAddr> {
    if entries == [] then []
    else if entries[0].key in refused || entries[0].key in stale then
      Rotation(entries[1..], refused, stale, tombstones + 1)
    else if tombstones >= QUEUE_HASH_CAP / 4 then
      [entries[0]] + Rotation(entries[1..], refused, multiset{entries[0].key}, 0)
    else
      [entries[0]] + Rotation(entries[1..], refused, stale, tombstones)
  }

  lemma {:induction false} RotationStep(entries: seq<PeerAddr>, refused: set<Key>, stale: multiset<Key>,
      tombstones: nat)
    requires entries != []
    ensures var e, rest := entries[0], entries[1..];
            Rotation(entries, refused, stale, tombstones)
            == if e.key in refused || e.key in stale then Rotation(rest, refused, stale, tombstones + 1)
               else if tombstones >= QUEUE_HASH_CAP / 4 then [e] + Rotation(rest, refused, multiset{e.key}, 0)
               else [e] + Rotation(rest, refused, stale, tombstones)
  {
  }

  /** Taking the first entry of three parts, and putting it at the end. */
  lemma RotationTurn(todo: seq<PeerAddr>, tail: seq<PeerAddr>, done: seq<PeerAddr>, more: seq<PeerAddr>)
    requires todo != []
    ensures (todo + tail + done)[0] == todo[0]
    ensures (todo + tail + done)[1..] + [] == todo[1..] + tail + done
    ensures (todo + tail + done)[1..] + [todo[0]] == todo[1..] + tail + (done + [todo[0]])
    ensures done + ([todo[0]] + more) == (done + [todo[0]]) + more
  {
  }

  lemma {:induction false} RotationNone(refused: set<Key>, stale: multiset<Key>, tombstones: nat)
    ensures Rotation([], refused, stale, tombstones) == []
  {
  }

  /** Does an entry at this place get lost even if everything before it is kept? */
  predicate Hit(entries: seq<PeerAddr>, i: nat, refused: set<Key>, stale: multiset<Key>, tombstones: nat)
    requires i < |entries|
  {
    || entries[i].key in refused
    || (entries[i].key in stale && (i == 0 || tombstones < QUEUE_HASH_CAP / 4))
  }

  lemma {:induction false} RotationShorter(entries: seq<PeerAddr>, refused: set<Key>, stale: multiset<Key>,
      tombstones: nat)
    ensures |Rotation(entries, refused, stale, tombstones)| <= |entries|
    decreases |entries|
  {
    hide Queued;
    if entries != [] {
      RotationShorter(entries[1..], refused, stale, tombstones + 1);
      RotationShorter(entries[1..], refused, stale, tombstones);
      RotationShorter(entries[1..], refused, multiset{entries[0].key}, 0);
    }
  }

  /** The rotation preserves the earlier entries exactly when none of them is refused, and none is stale
      unless the very first re-insertion rebuilds the hash and so forgets the stale key. */
  lemma {:induction false} RotationExact(entries: seq<PeerAddr>, refused: set<Key>, stale: multiset<Key>,
      tombstones: nat)
    requires Distinct(entries)
    ensures Rotation(entries, refused, stale, tombstones) == entries <==>
              forall i :: 0 <= i < |entries| ==> !Hit(entries, i, refused, stale, tombstones)
    decreases |entries|
  {
    if entries != [] {
      hide Rotation;
      var e, rest := entries[0], entries[1..];
      RotationStep(entries, refused, stale, tombstones);
      if e.key in refused || e.key in stale {
        RotationShorter(rest, refused, stale, tombstones + 1);
        assert Hit(entries, 0, refused, stale, tombstones);
      } else {
        var stale' := if tombstones >= QUEUE_HASH_CAP / 4 then multiset{e.key} else stale;
        var tombstones' := if tombstones >= QUEUE_HASH_CAP / 4 then 0 else tombstones;
        RotationExact(rest, refused, stale', tombstones');
        var r := Rotation(rest, refused, stale', tombstones');
        assert ([e] + r)[1..] == r && entries == [e] + rest;
        assert !Hit(entries, 0, refused, stale, tombstones);
        forall i: nat | 0 < i < |entries|
          ensures Hit(rest, i - 1, refused, stale', tombstones') <==> Hit(entries, i, refused, stale, tombstones)
        {
          assert rest[i - 1] == entries[i];
        }
        forall i: nat | i < |rest|
          ensures Hit(rest, i, refused, stale', tombstones') <==> Hit(entries, i + 1, refused, stale, tombstones)
        {
          assert rest[i] == entries[i + 1];
        }
      }
    } else {
      RotationNone(refused, stale, tombstones);
    }
  }

  /** When a tombstone or more may still be left without a rebuild, the earlier entries are preserved exactly
      when none is refused or stale; when there are too many already, exactly when none is refused. */
  lemma {:induction false} PreservedIff(before: seq<PeerAddr>, refused: set<Key>, stale: multiset<Key>, tombstones: nat,
      turn: nat)
    requires Distinct(before) && turn <= tombstones
    ensures var r := Rotation(before, refused, StaleThen(stale, tombstones), turn);
            && (tombstones < QUEUE_HASH_CAP / 4 ==>
                  (r == before <==>
                     forall i :: 0 <= i < |before| ==> before[i].key !in stale && before[i].key !in refused))
            && (tombstones > QUEUE_HASH_CAP / 4 ==>
                  (r == before <==> forall i :: 0 <= i < |before| ==> before[i].key !in refused))
  {
    hide Rotation;
    var left := StaleThen(stale, tombstones);
    RotationExact(before, refused, left, turn);
    if tombstones < QUEUE_HASH_CAP / 4 {
      assert forall i: nat :: i < |before| ==>
        (Hit(before, i, refused, left, turn) <==> before[i].key in stale || before[i].key in refused);
    } else if tombstones > QUEUE_HASH_CAP / 4 {
      assert forall i: nat :: i < |before| ==> (Hit(before, i, refused, left, turn) <==> before[i].key in refused);
    }
  }

  lemma Cancel(front: seq<PeerAddr>, a: seq<PeerAddr>, b: seq<PeerAddr>)
    ensures front + a == front + b <==> a == b
  {
    assert (front + a)[|front|..] == a && (front + b)[|front|..] == b;
  }

  /** `part` is `whole` with some entries left out. */
  predicate Subsequence(part: seq<PeerAddr>, whole: seq<PeerAddr>) {
    if part == [] then true
    else if whole == [] then false
    else if part[0] == whole[0] then Subsequence(part[1..], whole[1..])
    else Subsequence(part, whole[1..])
  }

  /** In every state what survives keeps its order and flags, and what is lost was refused or carried the
      key that was stale when the rotation began. */
  lemma {:induction false} RotationLoses(entries: seq<PeerAddr>, refused: set<Key>, stale: multiset<Key>,
      tombstones: nat)
    requires Distinct(entries)
    ensures var r := Rotation(entries, refused, stale, tombstones);
            && Subsequence(r, entries)
            && forall e <- entries :: e !in r ==> e.key in refused || e.key in stale
    ensures forall e <- entries :: e.key in refused ==> e !in Rotation(entries, refused, stale, tombstones)
    decreases |entries|
  {
    if entries != [] {
      hide Rotation;
      var e, rest := entries[0], entries[1..];
      RotationStep(entries, refused, stale, tombstones);
      assert forall i :: 0 <= i < |rest| ==> rest[i] == entries[i + 1];
      if e.key in refused || e.key in stale {
        RotationLoses(rest, refused, stale, tombstones + 1);
        var r := Rotation(rest, refused, stale, tombstones + 1);
        RotationFrom(rest, refused, stale, tombstones + 1);
        assert e !in rest;
        SubsequenceSkip(r, e, rest);
        assert [e] + rest == entries;
      } else {
        var stale' := if tombstones >= QUEUE_HASH_CAP / 4 then multiset{e.key} else stale;
        var tombstones' := if tombstones >= QUEUE_HASH_CAP / 4 then 0 else tombstones;
        RotationLoses(rest, refused, stale', tombstones');
        var r := Rotation(rest, refused, stale', tombstones');
        assert ([e] + r)[1..] == r && entries == [e] + rest;
      }
    } else {
      RotationNone(refused, stale, tombstones);
    }
  }

  lemma {:induction false} RotationFrom(entries: seq<PeerAddr>, refused: set<Key>, stale: multiset<Key>,
      tombstones: nat)
    ensures forall e <- Rotation(entries, refused, stale, tombstones) :: e in entries
    decreases |entries|
  {
    if entries != [] {
      hide Rotation;
      RotationStep(entries, refused, stale, tombstones);
      RotationFrom(entries[1..], refused, stale, tombstones + 1);
      RotationFrom(entries[1..], refused, stale, tombstones);
      RotationFrom(entries[1..], refused, multiset{entries[0].key}, 0);
      assert entries == [entries[0]] + entries[1..];
    } else {
      RotationNone(refused, stale, tombstones);
    }
  }

  lemma SubsequenceSkip(part: seq<PeerAddr>, e: PeerAddr, rest: seq<PeerAddr>)
    requires Subsequence(part, rest) && e !in part
    ensures Subsequence(part, [e] + rest)
  {
    assert ([e] + rest)[1..] == rest;
  }

  /** A stale key that no entry carries does not matter. */
  lemma {:induction false} RotationUnstale(entries: seq<PeerAddr>, refused: set<Key>, stale: multiset<Key>,
      tombstones: nat)
    requires forall e <- entries :: e.key !in stale
    ensures Rotation(entries, refused, stale, tombstones) == Rotation(entries, refused, multiset{}, tombstones)
    decreases |entries|
  {
    if entries != [] {
      hide Rotation;
      RotationStep(entries, refused, stale, tombstones);
      RotationStep(entries, refused, multiset{}, tombstones);
      RotationUnstale(entries[1..], refused, stale, tombstones + 1);
      RotationUnstale(entries[1..], refused, stale, tombstones);
    } else {
      RotationNone(refused, stale, tombstones);
      RotationNone(refused, multiset{}, tombstones);
    }
  }

  /** A key that one of the added entries carries is none of the earlier ones'. */
  lemma AddedNotBefore(before: seq<PeerAddr>, added: seq<PeerAddr>, stale: multiset<Key>)
    requires Distinct(before + added) && exists e <- added :: stale == multiset{e.key}
    ensures forall e <- before :: e.key !in stale
  {
    var e :| e in added && stale == multiset{e.key};
    var j :| 0 <= j < |added| && added[j] == e;
    forall i | 0 <= i < |before|
      ensures before[i].key !in stale
    {
      assert (before + added)[i].key != (before + added)[|before| + j].key;
    }
  }

  ghost predicate Ascending(idx: seq<nat>, bound: nat) {
    && (forall i :: 0 <= i < |idx| ==> idx[i] < bound)
    && (forall i, j :: 0 <= i < j < |idx| ==> idx[i] < idx[j])
  }

  /** Every listed endpoint with no reason to be turned away is queued, unless the queue is full. */
  ghost predicate Covered(list: seq<Key>, refused: set<Key>, stale: multiset<Key>, entries: seq<PeerAddr>) {
    |entries| < MAX_PEER_QUEUE ==>
      forall k <- list :: Routable(k) && k !in refused && k !in stale ==> Queued(k, entries)
  }

  lemma CoveredNext(list: seq<Key>, i: nat, refused: set<Key>, stale: multiset<Key>, was: seq<PeerAddr>,
      now: seq<PeerAddr>)
    requires i < |list| && Covered(list[..i], refused, stale, was)
    requires now == was || now == was + [PeerAddr(list[i], false, false)]
    requires now == was ==> |now| >= MAX_PEER_QUEUE || !Routable(list[i]) || list[i] in refused || list[i] in stale
                            || Queued(list[i], was)
    ensures Covered(list[..i + 1], refused, stale, now)
  {
    hide Routable;
    assert list[..i + 1] == list[..i] + [list[i]];
    forall k | Queued(k, was)
      ensures Queued(k, now)
    {
      var j :| 0 <= j < |was| && was[j].key == k;
      assert now[j].key == k;
    }
    if now != was {
      assert now[|was|].key == list[i];
    }
  }

  /** A key that became stale during the pushes is itself queued. */
  lemma StaleQueued(was: seq<PeerAddr>, stale: multiset<Key>, stale0: multiset<Key>, before: seq<PeerAddr>,
      added: seq<PeerAddr>, k: Key)
    requires was == before + added
    requires stale == stale0 || (exists e <- added :: stale == multiset{e.key})
    ensures k in stale ==> k in stale0 || Queued(k, was)
  {
    if k in stale && stale != stale0 {
      var e :| e in added && stale == multiset{e.key};
      var j :| 0 <= j < |added| && added[j] == e;
      assert was[|before| + j].key == k;
    }
  }

  lemma CoveredRotated(list: seq<Key>, refused: set<Key>, stale: multiset<Key>, a: seq<PeerAddr>, b: seq<PeerAddr>)
    requires Covered(list, refused, stale, a + b)
    ensures Covered(list, refused, stale, b + a)
  {
    hide Routable;
    forall k | Queued(k, a + b)
      ensures Queued(k, b + a)
    {
      var j :| 0 <= j < |a + b| && (a + b)[j].key == k;
      assert (b + a)[if j < |a| then j + |b| else j - |a|].key == k;
    }
  }

  /** The new entries for the list positions `idx`. */
  function Fresh(list: seq<Key>, idx: seq<nat>): (entries: seq<PeerAddr>)
    requires forall i :: 0 <= i < |idx| ==> idx[i] < |list|
    ensures |entries| == |idx|
    ensures forall i :: 0 <= i < |idx| ==> entries[i] == PeerAddr(list[idx[i]], false, false)
  {
    seq(|idx|, i requires 0 <= i < |idx| => PeerAddr(list[idx[i]], false, false))
  }

  lemma FreshNext(list: seq<Key>, idx: seq<nat>, i: nat)
    requires i < |list| && forall j :: 0 <= j < |idx| ==> idx[j] < |list|
    ensures Fresh(list, idx + [i]) == Fresh(list, idx) + [PeerAddr(list[i], false, false)]
  {
  }

  /** A reachable queue whose one entry is stale: after 513 endpoints have been queued and taken again,
      the next one queued triggers a rebuild and is entered twice. */
  method StaleEntry() returns (q: Queue, e: PeerAddr)
    ensures fresh(q) && fresh(q.queue) && fresh(q.qhash) && q.Valid() && Routable(e.key) && e.key.port == 2
    ensures q.Contents() == [e] && q.stale == multiset{e.key} && q.tombstones == 0
  {
    hide HashIndex, Probe, RingPos, Queue.Indexed, Expected, Keys, Window;
    q := new Queue();
    UsedUp(q);
    e := PeerAddr(Key(0x0808_0808, 2), false, false);
    assert !Queued(e.key, q.Contents());
    var _ := q.Insert(e, false, {});
    assert q.Contents() == [e];
  }

  /** Rotating it away and back, with nobody connected or blocklisted, leaves the queue empty. */
  method RotationLosesEndpoint() returns (q: Queue, e: PeerAddr, kept: bool)
    ensures fresh(q) && q.Valid() && Routable(e.key)
    ensures !kept && q.Contents() == []
  {
    hide HashIndex, Probe, RingPos, Queue.Indexed, Expected, Keys, Window;
    q, e := StaleEntry();
    kept := q.Rotate({});
  }

  /** So does queuing one verified endpoint with `torrent_add_initial_peers`: the entry that was there
      before is gone. */
  method InitialPeersLoseEndpoint() returns (q: Queue, e: PeerAddr, k: Key)
    ensures fresh(q) && q.Valid() && Routable(e.key) && Routable(k) && e.key != k
    ensures q.Contents() == [PeerAddr(k, false, false)] && !Queued(e.key, q.Contents())
  {
    hide HashIndex, Probe, RingPos, Queue.Indexed, Expected, Keys, Window;
    q, e := StaleEntry();
    k := Key(0x0808_0808, 3);
    ghost var one := [e];
    assert one[1..] == [];
    assert Rotation(one, {}, multiset{e.key}, 0) == [];
    var accepted, idx, turn := q.AddInitialPeers([k], {});
    assert turn == 0;
    AscendingShort(idx, 1);
    assert Queued(k, Fresh([k], idx) + one) by {
      assert k in [k];
    }
    assert |idx| == 1 && Fresh([k], idx) == [PeerAddr(k, false, false)];
  }

  /** Queue and take 513 endpoints: as many tombstones stay behind. */
  method UsedUp(q: Queue)
    requires q.Valid() && q.Contents() == [] && q.tombstones == 0 && q.stale == multiset{}
    modifies q, q.queue, q.qhash
    ensures q.Valid() && q.Contents() == [] && q.tombstones == 513 && q.stale == multiset{}
  {
    hide HashIndex, Probe, RingPos, Queue.Indexed, Expected, Keys, Window, Proper;
    for i := 0 to 513
      invariant q.Valid() && |q.Contents()| == i && q.tombstones == 0 && q.stale == multiset{}
      invariant forall j :: 0 <= j < i ==> q.Contents()[j].key.port < i + 2
    {
      var e := PeerAddr(Key(0x0808_0808, i + 2), false, false);
      assert !Queued(e.key, q.Contents());
      var _ := q.Insert(e, false, {});
    }
    for i := 0 to 513
      invariant q.Valid() && |q.Contents()| == 513 - i && q.tombstones == i && q.stale == multiset{}
    {
      var _ := q.Pop();
    }
  }
}

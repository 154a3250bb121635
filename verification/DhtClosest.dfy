/** Streaming "k closest": bounded arrays kept sorted by XOR distance while candidates arrive one by
    one. */
module DhtClosest {
  import opened Octets
  import opened DhtId

  const SEARCH_NODES := 14
  const REPLY_NODES := 8

  /** Which of two ids is closer to the reference: the first byte where they differ decides. */
  function XorCmp(a: Bytes, b: Bytes, ref: Bytes): int
    requires |a| == |b| == |ref|
  {
    if a == [] then 0
    else if a[0] == b[0] then XorCmp(a[1..], b[1..], ref[1..])
    else if Xor(a[0], ref[0]) < Xor(b[0], ref[0]) then -1
    else 1
  }

  /** The XOR distance of two ids, as bytes. */
  function Distance(a: Bytes, ref: Bytes): (d: Bytes)
    requires |a| == |ref|
    ensures |d| == |a|
  {
    if a == [] then [] else [Xor(a[0], ref[0])] + Distance(a[1..], ref[1..])
  }

  lemma {:induction false} DistanceInjective(a: Bytes, b: Bytes, ref: Bytes)
    requires |a| == |b| == |ref|
    ensures Distance(a, ref) == Distance(b, ref) <==> a == b
  {
    if a != [] {
      DistanceInjective(a[1..], b[1..], ref[1..]);
      XorInjective(a[0], b[0], ref[0]);
      var da, db := Distance(a, ref), Distance(b, ref);
      assert da[0] == Xor(a[0], ref[0]) && da[1..] == Distance(a[1..], ref[1..]);
      assert db[0] == Xor(b[0], ref[0]) && db[1..] == Distance(b[1..], ref[1..]);
      assert a == [a[0]] + a[1..] && b == [b[0]] + b[1..];
    }
  }

  /** `xorcmp` compares distances as numbers, so for a fixed reference it is a strict total order on
      distinct ids. */
  lemma {:induction false} XorCmpIsDistance(a: Bytes, b: Bytes, ref: Bytes)
    requires |a| == |b| == |ref|
    ensures XorCmp(a, b, ref) < 0 <==> Num(Distance(a, ref)) < Num(Distance(b, ref))
    ensures XorCmp(a, b, ref) == 0 <==> a == b
    ensures Num(Distance(a, ref)) == Num(Distance(b, ref)) <==> a == b
  {
    hide Xor;
    XorCmpCompare(a, b, ref);
    CompareIsNumeric(Distance(a, ref), Distance(b, ref));
    DistanceInjective(a, b, ref);
  }

  lemma {:induction false} XorCmpCompare(a: Bytes, b: Bytes, ref: Bytes)
    requires |a| == |b| == |ref|
    ensures XorCmp(a, b, ref) < 0 <==> Compare(Distance(a, ref), Distance(b, ref)) < 0
    ensures XorCmp(a, b, ref) == 0 <==> Compare(Distance(a, ref), Distance(b, ref)) == 0
  {
    hide Xor;
    if a != [] {
      XorCmpCompare(a[1..], b[1..], ref[1..]);
      XorInjective(a[0], b[0], ref[0]);
      var da, db := Distance(a, ref), Distance(b, ref);
      assert da[1..] == Distance(a[1..], ref[1..]) && db[1..] == Distance(b[1..], ref[1..]);
    }
  }

  /** The distance to the reference as a number. */
  function Far(a: Id, ref: Id): nat {
    Num(Distance(a, ref))
  }

  // ---------------------------------------------------------------------------------------------
  // One candidate, and a stream of them.

  /** Where a candidate goes: before the first id that is farther. */
  function Position(ids: seq<Id>, x: Id, ref: Id): (i: nat)
    ensures i <= |ids|
    ensures forall j :: 0 <= j < i ==> Far(ids[j], ref) <= Far(x, ref)
    ensures i < |ids| ==> Far(x, ref) < Far(ids[i], ref)
    decreases |ids|
  {
    if ids == [] || Far(x, ref) < Far(ids[0], ref) then 0
    else
      var rest := Position(ids[1..], x, ref);
      assert forall j :: 0 < j < rest + 1 ==> ids[j] == ids[1..][j - 1];
      rest + 1
  }

  function Offer(ids: seq<Id>, x: Id, ref: Id, cap: nat): seq<Id> {
    var i := Position(ids, x, ref);
    if x in ids || i >= cap then ids
    else
      var grown := ids[..i] + [x] + ids[i..];
      if |grown| > cap then grown[..cap] else grown
  }

  /** A known id, or one farther than a full list, changes nothing. */
  lemma {:induction false} OfferRefuses(ids: seq<Id>, x: Id, ref: Id, cap: nat)
    ensures x in ids || Position(ids, x, ref) >= cap ==> Offer(ids, x, ref, cap) == ids
  {
    hide Far, Position;
  }

  function OfferAll(xs: seq<Id>, ref: Id, cap: nat): seq<Id>
    decreases |xs|
  {
    if xs == [] then [] else Offer(OfferAll(xs[..|xs| - 1], ref, cap), xs[|xs| - 1], ref, cap)
  }

  ghost predicate Sorted(ids: seq<Id>, ref: Id) {
    forall i, j :: 0 <= i < j < |ids| ==> Far(ids[i], ref) < Far(ids[j], ref)
  }

  /** The list is sorted, and holds the `cap` ids of `xs` closest to the reference, or all of them. */
  ghost predicate Closest(ids: seq<Id>, xs: seq<Id>, ref: Id, cap: nat) {
    && Sorted(ids, ref)
    && |ids| <= cap
    && (forall x <- ids :: x in xs)
    && (forall x <- xs :: x !in ids ==> |ids| == cap && forall y <- ids :: Far(y, ref) < Far(x, ref))
  }

  lemma FarDistinct(a: Id, b: Id, ref: Id)
    ensures Far(a, ref) == Far(b, ref) <==> a == b
  {
    hide Num, Distance;
    XorCmpIsDistance(a, b, ref);
  }

  lemma OfferCloses(ids: seq<Id>, xs: seq<Id>, x: Id, ref: Id, cap: nat)
    requires Closest(ids, xs, ref, cap)
    ensures Closest(Offer(ids, x, ref, cap), xs + [x], ref, cap)
  {
    hide Far;
    var i, ids' := Position(ids, x, ref), Offer(ids, x, ref, cap);
    forall y <- ids | y != x
      ensures Far(y, ref) != Far(x, ref)
    {
      FarDistinct(y, x, ref);
    }
    if x in ids || i >= cap {
      if x !in ids {
        assert i == cap == |ids|;
      }
    } else {
      OfferSorted(ids, x, ref, cap);
      OfferMembers(ids, x, ref, cap);
      forall z | z in xs + [x] && z !in ids'
        ensures |ids'| == cap && forall y <- ids' :: Far(y, ref) < Far(z, ref)
      {
        OfferDropped(ids, xs, x, ref, cap, z);
      }
    }
  }

  /** Element by element: what was before the candidate stays, what was behind moves on by one. */
  lemma OfferAt(ids: seq<Id>, x: Id, ref: Id, cap: nat)
    requires x !in ids && Position(ids, x, ref) < cap && |ids| <= cap
    ensures var i, ids' := Position(ids, x, ref), Offer(ids, x, ref, cap);
            && |ids'| == (if |ids| == cap then cap else |ids| + 1)
            && i < |ids'|
    ensures forall k {:trigger Offer(ids, x, ref, cap)[k]} :: 0 <= k < |Offer(ids, x, ref, cap)| ==>
              var i := Position(ids, x, ref);
              Offer(ids, x, ref, cap)[k] == if k < i then ids[k] else if k == i then x else ids[k - 1]
  {
    hide Far, Position;
  }

  lemma OfferSorted(ids: seq<Id>, x: Id, ref: Id, cap: nat)
    requires Sorted(ids, ref) && x !in ids && Position(ids, x, ref) < cap && |ids| <= cap
    ensures Sorted(Offer(ids, x, ref, cap), ref)
  {
    hide Far, Offer, Position;
    OfferAt(ids, x, ref, cap);
    var i, ids' := Position(ids, x, ref), Offer(ids, x, ref, cap);
    forall j | 0 <= j < i
      ensures Far(ids[j], ref) < Far(x, ref)
    {
      FarDistinct(ids[j], x, ref);
    }
    forall j, k | 0 <= j < k < |ids'|
      ensures Far(ids'[j], ref) < Far(ids'[k], ref)
    {
      if j < i < k {
        assert Far(ids[j], ref) < Far(ids[k - 1], ref);
      } else if j == i < k - 1 {
        assert Far(ids[i], ref) < Far(ids[k - 1], ref);
      }
    }
  }

  lemma OfferMembers(ids: seq<Id>, x: Id, ref: Id, cap: nat)
    requires x !in ids && Position(ids, x, ref) < cap && |ids| <= cap
    ensures var ids' := Offer(ids, x, ref, cap);
            && x in ids' && (forall y <- ids' :: y in ids || y == x)
            && (forall k :: 0 <= k < |ids| && (k + 1 < cap || |ids| < cap) ==> ids[k] in ids')
  {
    hide Far, Offer, Position;
    OfferAt(ids, x, ref, cap);
    var i, ids' := Position(ids, x, ref), Offer(ids, x, ref, cap);
    assert ids'[i] == x;
    forall k | 0 <= k < |ids| && (k + 1 < cap || |ids| < cap)
      ensures ids[k] in ids'
    {
      assert ids'[if k < i then k else k + 1] == ids[k];
    }
  }

  /** An id that is not kept is farther than all that are. */
  lemma OfferDropped(ids: seq<Id>, xs: seq<Id>, x: Id, ref: Id, cap: nat, z: Id)
    requires Closest(ids, xs, ref, cap) && x !in ids && Position(ids, x, ref) < cap
    requires z in xs + [x] && z !in Offer(ids, x, ref, cap)
    ensures |ids| == cap && forall y <- Offer(ids, x, ref, cap) :: Far(y, ref) < Far(z, ref)
  {
    hide Far, Offer, Position;
    OfferAt(ids, x, ref, cap);
    OfferMembers(ids, x, ref, cap);
    var i, ids' := Position(ids, x, ref), Offer(ids, x, ref, cap);
    assert z in xs && |ids| == cap;
    if z in ids {
      LastDropped(ids, x, ref, cap, z);
    } else {
      assert forall y <- ids :: Far(y, ref) < Far(z, ref);
      assert Far(x, ref) < Far(ids[i], ref);
    }
  }

  /** When the array is full, the id that a nearer one pushes out is the last, and farther than the
      rest. */
  lemma LastDropped(ids: seq<Id>, x: Id, ref: Id, cap: nat, z: Id)
    requires Sorted(ids, ref) && x !in ids && Position(ids, x, ref) < cap == |ids|
    requires z in ids && z !in Offer(ids, x, ref, cap)
    ensures forall y <- Offer(ids, x, ref, cap) :: Far(y, ref) < Far(z, ref)
  {
    hide Far, Offer, Position;
    OfferAt(ids, x, ref, cap);
    OfferMembers(ids, x, ref, cap);
    OfferSorted(ids, x, ref, cap);
    var i, ids' := Position(ids, x, ref), Offer(ids, x, ref, cap);
    assert z == ids[cap - 1];
    forall k | 0 <= k < cap
      ensures Far(ids'[k], ref) < Far(z, ref)
    {
      if k < i {
        assert Far(ids[k], ref) < Far(ids[cap - 1], ref);
      } else if k == i < cap - 1 {
        assert Far(ids[i], ref) < Far(ids[cap - 1], ref);
      } else if k > i {
        assert Far(ids[k - 1], ref) < Far(ids[cap - 1], ref);
      }
    }
  }

  /** For every stream of candidates the array ends as the k closest distinct ones, in order. */
  lemma {:induction false} StreamKeepsClosest(xs: seq<Id>, ref: Id, cap: nat)
    ensures Closest(OfferAll(xs, ref, cap), xs, ref, cap)
    decreases |xs|
  {
    hide Far, Offer;
    if xs != [] {
      var front := xs[..|xs| - 1];
      StreamKeepsClosest(front, ref, cap);
      OfferCloses(OfferAll(front, ref, cap), front, xs[|xs| - 1], ref, cap);
      assert xs == front + [xs[|xs| - 1]];
    }
  }

  /** The k closest in order are unique, so the order in which candidates arrived does not matter. */
  lemma {:induction false} ClosestUnique(a: seq<Id>, b: seq<Id>, xs: seq<Id>, ys: seq<Id>, ref: Id, cap: nat)
    requires Closest(a, xs, ref, cap) && Closest(b, ys, ref, cap)
    requires forall x :: x in xs <==> x in ys
    ensures a == b
  {
    hide Far;
    forall x
      ensures x in a <==> x in b
    {
      if x in a {
        Crowded(a, b, xs, ys, ref, cap, x);
      }
      if x in b {
        Crowded(b, a, ys, xs, ref, cap, x);
      }
    }
    SortedSame(a, b, ref);
  }

  /** An id of one list cannot be missing from the other. */
  lemma Crowded(a: seq<Id>, b: seq<Id>, xs: seq<Id>, ys: seq<Id>, ref: Id, cap: nat, x: Id)
    requires Closest(a, xs, ref, cap) && Closest(b, ys, ref, cap)
    requires forall x :: x in xs <==> x in ys
    requires x in a
    ensures x in b
  {
    hide Far;
    if x !in b {
      assert |b| == cap && forall y <- b :: Far(y, ref) < Far(x, ref);
      assert forall y <- b :: y in a;
      Pigeonhole(a, b, x, ref);
      assert false;
    }
  }

  function Elements(a: seq<Id>): set<Id> {
    set y <- a
  }

  lemma Pigeonhole(a: seq<Id>, b: seq<Id>, x: Id, ref: Id)
    requires Sorted(b, ref) && x in a && x !in b && forall y <- b :: y in a
    ensures |a| > |b|
  {
    hide Far;
    var sa, sb := Elements(a), Elements(b);
    SetSize(b, ref);
    SetBound(a);
    assert sb + {x} <= sa;
    SubsetSize(sb + {x}, sa);
  }

  lemma {:induction false} SubsetSize(s: set<Id>, t: set<Id>)
    requires s <= t
    ensures |s| <= |t|
  {
    assert t == s + (t - s);
  }

  lemma {:induction false} SetSize(b: seq<Id>, ref: Id)
    requires Sorted(b, ref)
    ensures |Elements(b)| == |b|
    decreases |b|
  {
    hide Far;
    if b != [] {
      var n := |b| - 1;
      SetSize(b[..n], ref);
      assert Elements(b) == Elements(b[..n]) + {b[n]};
      assert forall k :: 0 <= k < n ==> Far(b[k], ref) < Far(b[n], ref);
      assert b[n] !in b[..n];
    }
  }

  lemma {:induction false} SetBound(a: seq<Id>)
    ensures |Elements(a)| <= |a|
    decreases |a|
  {
    if a != [] {
      var n := |a| - 1;
      SetBound(a[..n]);
      assert Elements(a) == Elements(a[..n]) + {a[n]};
    }
  }

  lemma {:induction false} SortedSame(a: seq<Id>, b: seq<Id>, ref: Id)
    requires Sorted(a, ref) && Sorted(b, ref) && forall x :: x in a <==> x in b
    ensures a == b
    decreases |a|
  {
    hide Far;
    if a == [] {
      SetSize(b, ref);
      assert Elements(b) == {};
    } else {
      assert a[0] in b;
      assert b[0] in a;
      FarDistinct(a[0], b[0], ref);
      assert a[0] == b[0] by {
        var i :| 0 <= i < |b| && b[i] == a[0];
        var j :| 0 <= j < |a| && a[j] == b[0];
      }
      forall x
        ensures x in a[1..] <==> x in b[1..]
      {
        assert x in a <==> x == a[0] || x in a[1..];
        assert x in b <==> x == b[0] || x in b[1..];
      }
      SortedSame(a[1..], b[1..], ref);
      assert a == [a[0]] + a[1..] && b == [b[0]] + b[1..];
    }
  }

  // ---------------------------------------------------------------------------------------------
  // The two arrays.

  datatype SearchNode = SearchNode(id: Id, addr: nat, replied: bool, replyTime: int, requestTime: int,
                                   pinged: nat, token: Bytes)

  function IdsOf(nodes: seq<SearchNode>): (ids: seq<Id>)
    ensures |ids| == |nodes| && forall i :: 0 <= i < |ids| ==> ids[i] == nodes[i].id
  {
    seq(|nodes|, i requires 0 <= i < |nodes| => nodes[i].id)
  }

  /** In a sorted list the scan that stops at the first farther id has found the place, and has met
      the id if it is there. */
  lemma ScanStops(ids: seq<Id>, x: Id, ref: Id, i: nat)
    requires Sorted(ids, ref) && i <= |ids|
    requires forall j :: 0 <= j < i ==> ids[j] != x && Far(ids[j], ref) <= Far(x, ref)
    requires i < |ids| ==> Far(x, ref) < Far(ids[i], ref)
    ensures Position(ids, x, ref) == i && x !in ids
  {
    hide Far;
    var p := Position(ids, x, ref);
    assert p == i;
    forall j | i <= j < |ids|
      ensures ids[j] != x
    {
      assert Far(ids[i], ref) <= Far(ids[j], ref);
    }
  }

  /** Opening a gap at the candidate's place, in place, is what `Offer` describes. */
  lemma ShiftedIsOffer(ids: seq<Id>, ids': seq<Id>, x: Id, ref: Id, cap: nat)
    requires Sorted(ids, ref) && x !in ids && Position(ids, x, ref) < cap && |ids| <= cap
    requires |ids'| == if |ids| < cap then |ids| + 1 else cap
    requires var i := Position(ids, x, ref);
             forall k {:trigger ids'[k]} :: 0 <= k < |ids'| ==>
               ids'[k] == if k < i then ids[k] else if k == i then x else ids[k - 1]
    ensures ids' == Offer(ids, x, ref, cap) && Sorted(ids', ref) && x in ids'
  {
    hide Far, Offer, Position;
    OfferAt(ids, x, ref, cap);
    OfferSorted(ids, x, ref, cap);
    assert forall k {:trigger ids'[k]} :: 0 <= k < |ids'| ==> ids'[k] == Offer(ids, x, ref, cap)[k];
    assert ids'[Position(ids, x, ref)] == x;
  }

  class Search {
    const target: Id
    const nodes: array<SearchNode>
    var numnodes: nat

    ghost function Kept(): seq<Id>
      requires numnodes <= nodes.Length
      reads this, nodes
    {
      IdsOf(nodes[..numnodes])
    }

    ghost predicate Valid()
      reads this, nodes
    {
      nodes.Length == SEARCH_NODES && numnodes <= SEARCH_NODES && Sorted(Kept(), target)
    }

    constructor (id: Id)
      ensures Valid() && target == id && Kept() == []
    {
      target := id;
      nodes := new SearchNode[SEARCH_NODES](_ => SearchNode(id, 0, false, 0, 0, 0, []));
      numnodes := 0;
    }

    /** A node heard of during a search. It is kept when it is among the closest so far; its place is
        returned, -1 when it has none. No other node's record changes. */
    method InsertSearchNode(id: Id, addr: nat, sameFamily: bool, replied: bool, token: Bytes, now: int)
        returns (at: int)
      requires Valid()
      modifies this`numnodes, nodes
      ensures Valid()
      ensures Kept() == if sameFamily then Offer(old(Kept()), id, target, SEARCH_NODES) else old(Kept())
      ensures -1 <= at < numnodes && (at >= 0 <==> sameFamily && id in Kept())
      ensures at >= 0 ==> nodes[at].id == id && nodes[at].addr == addr
      ensures forall k :: 0 <= k < numnodes && k != at ==> nodes[k] in old(nodes[..numnodes])
    {
      hide Far, Offer, Position, Sorted;
      if !sameFamily {
        return -1;
      }
      var found, i := Scan(id);
      OfferRefuses(Kept(), id, target, SEARCH_NODES);
      if found {
        assert Kept()[i] == id;
        Refresh(i, addr, replied, token, now);
        return i;
      }
      if i == SEARCH_NODES {
        return -1;
      }
      Place(id, i);
      Refresh(i, addr, replied, token, now);
      return i;
    }

    /** Give a new id the place the scan found. */
    method Place(id: Id, i: nat)
      requires Valid() && id !in Kept() && i == Position(Kept(), id, target) < SEARCH_NODES
      modifies this`numnodes, nodes
      ensures Valid() && Kept() == Offer(old(Kept()), id, target, SEARCH_NODES)
      ensures i < numnodes && nodes[i].id == id && id in Kept()
      ensures forall k :: 0 <= k < numnodes && k != i ==> nodes[k] in old(nodes[..numnodes])
    {
      hide Far, Offer, Position, Sorted;
      ghost var before := Kept();
      OpenAt(i, SearchNode(id, 0, false, 0, 0, 0, []));
      ShiftedIsOffer(before, Kept(), id, target, SEARCH_NODES);
    }

    /** Where the id is, or where it would go. */
    method Scan(id: Id) returns (found: bool, i: nat)
      requires Valid()
      ensures i <= numnodes
      ensures if found then i < numnodes && nodes[i].id == id
              else id !in Kept() && i == Position(Kept(), id, target)
    {
      hide Far, XorCmp;
      i := 0;
      while i < numnodes
        invariant i <= numnodes
        invariant forall j :: 0 <= j < i ==> nodes[j].id != id && Far(nodes[j].id, target) <= Far(id, target)
      {
        if nodes[i].id == id {
          return true, i;
        }
        XorCmpIsFar(id, nodes[i].id, target);
        if XorCmp(id, nodes[i].id, target) < 0 {
          break;
        }
        i := i + 1;
      }
      ScanStops(Kept(), id, target, i);
      return false, i;
    }

    /** Move the nodes from place `i` on back by one, the last one falling off a full array. */
    method OpenAt(i: nat, n: SearchNode)
      requires nodes.Length == SEARCH_NODES && i <= numnodes <= SEARCH_NODES && i < SEARCH_NODES
      modifies this`numnodes, nodes
      ensures numnodes == if old(numnodes) < SEARCH_NODES then old(numnodes) + 1 else old(numnodes)
      ensures forall k :: 0 <= k < numnodes ==>
                nodes[k] == if k < i then old(nodes[k]) else if k == i then n else old(nodes[k - 1])
    {
      var num := if numnodes < SEARCH_NODES then numnodes + 1 else numnodes;
      numnodes := num;
      var j := num - 1;
      while j > i
        invariant i <= j <= num - 1 && numnodes == num
        invariant forall k :: 0 <= k <= j ==> nodes[k] == old(nodes[k])
        invariant forall k :: j < k < num ==> nodes[k] == old(nodes[k - 1])
      {
        nodes[j] := nodes[j - 1];
        j := j - 1;
      }
      nodes[i] := n;
    }

    /** Bring a node's record up to date; its id stays. */
    method Refresh(i: nat, addr: nat, replied: bool, token: Bytes, now: int)
      requires numnodes <= nodes.Length && i < numnodes
      modifies nodes
      ensures nodes[i].id == old(nodes[i].id) && nodes[i].addr == addr
      ensures forall k :: 0 <= k < nodes.Length && k != i ==> nodes[k] == old(nodes[k])
      ensures Kept() == old(Kept())
    {
      nodes[i] := nodes[i].(addr := addr);
      if replied {
        nodes[i] := nodes[i].(replied := true, replyTime := now, requestTime := 0, pinged := 0);
      }
      if token != [] && |token| < 40 {
        nodes[i] := nodes[i].(token := token);
      }
    }
  }

  lemma XorCmpIsFar(a: Id, b: Id, ref: Id)
    ensures XorCmp(a, b, ref) < 0 <==> Far(a, ref) < Far(b, ref)
  {
    XorCmpIsDistance(a, b, ref);
  }

  /** A node of a reply: its id and its address. */
  datatype Compact = Compact(id: Id, addr: nat)

  function CompactIds(nodes: seq<Compact>): (ids: seq<Id>)
    ensures |ids| == |nodes| && forall i :: 0 <= i < |ids| ==> ids[i] == nodes[i].id
  {
    seq(|nodes|, i requires 0 <= i < |nodes| => nodes[i].id)
  }

  /** The reply array, filled from several buckets one node at a time. */
  method InsertClosestNode(nodes: array<Compact>, numnodes: nat, target: Id, n: Compact) returns (num: nat)
    requires nodes.Length == REPLY_NODES && numnodes <= REPLY_NODES
    requires Sorted(CompactIds(nodes[..numnodes]), target)
    modifies nodes
    ensures num <= REPLY_NODES && Sorted(CompactIds(nodes[..num]), target)
    ensures CompactIds(nodes[..num]) == Offer(old(CompactIds(nodes[..numnodes])), n.id, target, REPLY_NODES)
    ensures forall c <- nodes[..num] :: c in old(nodes[..numnodes]) || c == n
  {
    ghost var was := CompactIds(nodes[..numnodes]);
    var found, i := ScanClosest(nodes, numnodes, target, n.id);
    if found {
      assert was[i] == n.id;
      return numnodes;
    }
    if i == REPLY_NODES {
      return numnodes;
    }
    num := if numnodes < REPLY_NODES then numnodes + 1 else numnodes;
    PlaceClosest(nodes, numnodes, num, i, target, n);
  }

  /** Open a gap at the place the scan found, with one `memmove`, and fill it. */
  method PlaceClosest(nodes: array<Compact>, numnodes: nat, num: nat, i: nat, target: Id, n: Compact)
    requires nodes.Length == REPLY_NODES && numnodes <= num <= REPLY_NODES
    requires num == if numnodes < REPLY_NODES then numnodes + 1 else numnodes
    requires var ids := CompactIds(nodes[..numnodes]);
             Sorted(ids, target) && n.id !in ids && i == Position(ids, n.id, target) < REPLY_NODES
    modifies nodes
    ensures Sorted(CompactIds(nodes[..num]), target)
    ensures CompactIds(nodes[..num]) == Offer(old(CompactIds(nodes[..numnodes])), n.id, target, REPLY_NODES)
    ensures forall c <- nodes[..num] :: c in old(nodes[..numnodes]) || c == n
  {
    hide Far, Offer, Position, Sorted;
    ghost var was := CompactIds(nodes[..numnodes]);
    forall k | i < k < num {
      nodes[k] := nodes[k - 1];
    }
    nodes[i] := n;
    ShiftedIsOffer(was, CompactIds(nodes[..num]), n.id, target, REPLY_NODES);
  }

  method ScanClosest(nodes: array<Compact>, numnodes: nat, target: Id, id: Id) returns (found: bool, i: nat)
    requires nodes.Length == REPLY_NODES && numnodes <= REPLY_NODES
    requires Sorted(CompactIds(nodes[..numnodes]), target)
    ensures i <= numnodes
    ensures if found then i < numnodes && nodes[i].id == id
            else id !in CompactIds(nodes[..numnodes]) && i == Position(CompactIds(nodes[..numnodes]), id, target)
  {
    hide Far, XorCmp;
    i := 0;
    while i < numnodes
      invariant i <= numnodes
      invariant forall j :: 0 <= j < i ==> nodes[j].id != id && Far(nodes[j].id, target) <= Far(id, target)
    {
      if nodes[i].id == id {
        return true, i;
      }
      XorCmpIsFar(id, nodes[i].id, target);
      if XorCmp(id, nodes[i].id, target) < 0 {
        break;
      }
      i := i + 1;
    }
    ScanStops(CompactIds(nodes[..numnodes]), id, target, i);
    return false, i;
  }
}

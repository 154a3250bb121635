/** The Kademlia routing table: a sorted list of buckets that partitions the id space, split only
    around our own id. */
module DhtTable {
  import opened ModMath
  import opened Octets
  import opened DhtId

  datatype Node = Node(id: Id, pinged: nat, pingedTime: int, time: int, replyTime: int)
  datatype Bucket = Bucket(first: Id, maxCount: nat, count: nat, nodes: seq<Node>)

  /** Where the range of bucket `i` ends. */
  function Hi(bs: seq<Bucket>, i: nat): nat
    requires i < |bs|
  {
    if i + 1 < |bs| then Num(bs[i + 1].first) else Pow2(ID_BITS)
  }

  predicate Within(bs: seq<Bucket>, i: nat, id: Id)
    requires i < |bs|
  {
    Num(bs[i].first) <= Num(id) < Hi(bs, i)
  }

  ghost predicate IsDyadic(lo: nat, hi: nat) {
    exists k :: Dyadic(lo, hi, k)
  }

  /** The buckets' ranges follow each other, cover every id, and are subtrees of the id tree. */
  ghost predicate Partition(bs: seq<Bucket>) {
    && |bs| > 0
    && Num(bs[0].first) == 0
    && forall i :: 0 <= i < |bs| ==> IsDyadic(Num(bs[i].first), Hi(bs, i))
  }

  /** Every node is in its own bucket, and no bucket holds more than it may. */
  ghost predicate Filled(bs: seq<Bucket>) {
    && (forall i, j :: 0 <= i < |bs| && 0 <= j < |bs[i].nodes| ==> Within(bs, i, bs[i].nodes[j].id))
    && (forall i :: 0 <= i < |bs| ==> bs[i].count == |bs[i].nodes| <= bs[i].maxCount && bs[i].maxCount >= 8)
  }

  /** How often an id occurs in a node list. */
  function Occurs(nodes: seq<Node>, id: Id): nat {
    if nodes == [] then 0 else (if nodes[0].id == id then 1 else 0) + Occurs(nodes[1..], id)
  }

  /** How often an id occurs in the table. */
  function Total(bs: seq<Bucket>, id: Id): nat {
    if bs == [] then 0 else Total(bs[..|bs| - 1], id) + Occurs(bs[|bs| - 1].nodes, id)
  }

  lemma {:induction false} TotalAppend(bs: seq<Bucket>, cs: seq<Bucket>, id: Id)
    ensures Total(bs + cs, id) == Total(bs, id) + Total(cs, id)
    decreases |cs|
  {
    hide Occurs;
    if cs == [] {
      assert bs + cs == bs;
    } else {
      TotalAppend(bs, cs[..|cs| - 1], id);
      assert (bs + cs)[..|bs + cs| - 1] == bs + cs[..|cs| - 1];
    }
  }

  lemma {:induction false} OccursMember(nodes: seq<Node>, id: Id)
    ensures Occurs(nodes, id) > 0 <==> exists j :: 0 <= j < |nodes| && nodes[j].id == id
    decreases |nodes|
  {
    if nodes != [] {
      OccursMember(nodes[1..], id);
      if j :| 0 <= j < |nodes| && nodes[j].id == id {
        if j > 0 {
          assert nodes[1..][j - 1].id == id;
        }
      }
      if j :| 0 <= j < |nodes[1..]| && nodes[1..][j].id == id {
        assert nodes[j + 1].id == id;
      }
    }
  }

  lemma {:induction false} OccursUpdate(nodes: seq<Node>, j: nat, n: Node, id: Id)
    requires j < |nodes|
    ensures Occurs(nodes[j := n], id) + (if nodes[j].id == id then 1 else 0)
            == Occurs(nodes, id) + (if n.id == id then 1 else 0)
    decreases |nodes|
  {
    if j == 0 {
      assert nodes[0 := n][1..] == nodes[1..];
    } else {
      OccursUpdate(nodes[1..], j - 1, n, id);
      assert nodes[j := n][1..] == nodes[1..][j - 1 := n];
    }
  }

  lemma {:induction false} OccursAppend(a: seq<Node>, b: seq<Node>, id: Id)
    ensures Occurs(a + b, id) == Occurs(a, id) + Occurs(b, id)
    decreases |a|
  {
    if a == [] {
      assert a + b == b;
    } else {
      OccursAppend(a[1..], b, id);
      assert (a + b)[1..] == a[1..] + b;
    }
  }

  /** Replacing one bucket changes an id's count by what that bucket held and holds. */
  lemma {:induction false} TotalUpdate(bs: seq<Bucket>, i: nat, b: Bucket, id: Id)
    requires i < |bs|
    ensures Total(bs[i := b], id) + Occurs(bs[i].nodes, id) == Total(bs, id) + Occurs(b.nodes, id)
    decreases |bs|
  {
    hide Occurs;
    var n := |bs| - 1;
    if i == n {
      assert bs[i := b][..n] == bs[..n];
    } else {
      TotalUpdate(bs[..n], i, b, id);
      assert bs[i := b][..n] == bs[..n][i := b];
    }
  }

  /** Later buckets start higher. */
  lemma {:induction false} Ascending(bs: seq<Bucket>, i: nat, j: nat)
    requires Partition(bs) && i < j < |bs|
    ensures Hi(bs, i) <= Num(bs[j].first)
    decreases j - i
  {
    hide Num, Pow2;
    if i + 1 < j {
      Ascending(bs, i + 1, j);
      var k :| Dyadic(Num(bs[i + 1].first), Hi(bs, i + 1), k);
    }
  }

  /** No id belongs to two buckets. */
  lemma OneBucket(bs: seq<Bucket>, i: nat, j: nat, id: Id)
    requires Partition(bs) && i < |bs| && j < |bs| && Within(bs, i, id) && Within(bs, j, id)
    ensures i == j
  {
    hide Num, Pow2;
    if i < j {
      Ascending(bs, i, j);
    } else if j < i {
      Ascending(bs, j, i);
    }
  }

  /** Other buckets cannot hold an id that belongs to bucket `i`. */
  lemma {:induction false} TotalOf(bs: seq<Bucket>, n: nat, i: nat, id: Id)
    requires Partition(bs) && Filled(bs) && n <= |bs| && i < |bs| && Within(bs, i, id)
    ensures Total(bs[..n], id) == if i < n then Occurs(bs[i].nodes, id) else 0
    decreases n
  {
    hide Num, Pow2, Partition, Hi, Within, Occurs;
    if n > 0 {
      TotalOf(bs, n - 1, i, id);
      assert bs[..n][..n - 1] == bs[..n - 1];
      OccursMember(bs[n - 1].nodes, id);
      if Occurs(bs[n - 1].nodes, id) > 0 {
        var j :| 0 <= j < |bs[n - 1].nodes| && bs[n - 1].nodes[j].id == id;
        OneBucket(bs, i, n - 1, id);
      }
    }
  }

  /** An id is in the table just as often as in the bucket it belongs to: looking there is enough. */
  lemma BucketDecides(bs: seq<Bucket>, i: nat, id: Id)
    requires Partition(bs) && Filled(bs) && i < |bs| && Within(bs, i, id)
    ensures Total(bs, id) == Occurs(bs[i].nodes, id)
  {
    hide Num, Pow2, Partition, Hi, Within, Occurs, Total, Filled;
    TotalOf(bs, |bs|, i, id);
    assert bs[..|bs|] == bs;
  }

  /** Putting an empty half beside an emptied bucket. */
  function SplitAt(bs: seq<Bucket>, i: nat, a: Bucket, b: Bucket): seq<Bucket>
    requires i < |bs|
  {
    bs[..i] + [a, b] + bs[i + 1..]
  }

  /** The buckets on either side of a split keep their contents and ranges. */
  lemma SplitNeighbours(bs: seq<Bucket>, i: nat, a: Bucket, b: Bucket, j: nat)
    requires i < |bs| && a.first == bs[i].first && j <= |bs|
    ensures var bs' := SplitAt(bs, i, a, b);
            && |bs'| == |bs| + 1
            && (j < i ==> bs'[j] == bs[j] && Hi(bs', j) == Hi(bs, j))
            && (j == i ==> bs'[j] == a && Hi(bs', j) == Num(b.first))
            && (j == i + 1 ==> bs'[j] == b && Hi(bs', j) == Hi(bs, i))
            && (j > i + 1 ==> bs'[j] == bs[j - 1] && Hi(bs', j) == Hi(bs, j - 1))
  {
    hide Num, Pow2;
  }

  lemma SplitPartition(bs: seq<Bucket>, i: nat, a: Bucket, b: Bucket, k: nat)
    requires Partition(bs) && i < |bs| && k > 0
    requires Dyadic(Num(bs[i].first), Hi(bs, i), k)
    requires a.first == bs[i].first && Num(b.first) == Num(a.first) + Pow2(k - 1)
    ensures Partition(SplitAt(bs, i, a, b))
  {
    hide Num, Pow2, Dyadic, SplitAt, Hi, LowBitOf;
    HalfDyadic(Num(bs[i].first), Hi(bs, i), k);
    assert IsDyadic(Num(a.first), Num(b.first));
    assert IsDyadic(Num(b.first), Hi(bs, i));
    hide IsDyadic;
    var bs' := SplitAt(bs, i, a, b);
    SplitNeighbours(bs, i, a, b, 0);
    forall j | 0 <= j < |bs'|
      ensures IsDyadic(Num(bs'[j].first), Hi(bs', j))
    {
      SplitNeighbours(bs, i, a, b, j);
      if j > i + 1 {
        assert IsDyadic(Num(bs[j - 1].first), Hi(bs, j - 1));
      }
    }
  }

  lemma SplitFilled(bs: seq<Bucket>, i: nat, a: Bucket, b: Bucket)
    requires Filled(bs) && i < |bs| && a.first == bs[i].first
    requires a.nodes == b.nodes == [] && a.count == b.count == 0 && a.maxCount >= 8 && b.maxCount >= 8
    ensures Filled(SplitAt(bs, i, a, b))
  {
    hide Num, Pow2, SplitAt, Hi;
    var bs' := SplitAt(bs, i, a, b);
    SplitNeighbours(bs, i, a, b, 0);
    forall j | 0 <= j < |bs'|
      ensures bs'[j].count == |bs'[j].nodes| <= bs'[j].maxCount && bs'[j].maxCount >= 8
      ensures forall m :: 0 <= m < |bs'[j].nodes| ==> Within(bs', j, bs'[j].nodes[m].id)
    {
      SplitNeighbours(bs, i, a, b, j);
      forall m | 0 <= m < |bs'[j].nodes|
        ensures Within(bs', j, bs'[j].nodes[m].id)
      {
        assert Within(bs, if j < i then j else j - 1, bs'[j].nodes[m].id);
      }
    }
  }

  lemma SplitTotal(bs: seq<Bucket>, i: nat, a: Bucket, b: Bucket, id: Id)
    requires i < |bs| && a.nodes == b.nodes == []
    ensures Total(SplitAt(bs, i, a, b), id) + Occurs(bs[i].nodes, id) == Total(bs, id)
  {
    hide Occurs, Total;
    var none := bs[i].(nodes := []);
    TotalUpdate(bs, i, none, id);
    var front, back := bs[..i], bs[i + 1..];
    assert bs[i := none] == front + ([none] + back);
    assert SplitAt(bs, i, a, b) == front + ([a, b] + back);
    TotalAppend(front, [none] + back, id);
    TotalAppend([none], back, id);
    TotalAppend(front, [a, b] + back, id);
    TotalAppend([a, b], back, id);
    NoNodes([none], id);
    NoNodes([a, b], id);
    assert Occurs([], id) == 0 by { NoOccurrence(id); }
  }

  lemma NoOccurrence(id: Id)
    ensures Occurs([], id) == 0
  {
  }

  lemma {:induction false} NoNodes(bs: seq<Bucket>, id: Id)
    requires forall i :: 0 <= i < |bs| ==> bs[i].nodes == []
    ensures Total(bs, id) == 0
    decreases |bs|
  {
    if bs != [] {
      NoNodes(bs[..|bs| - 1], id);
    }
  }

  /** Changing one bucket's nodes, its range aside. */
  lemma ReplaceKeepsShape(bs: seq<Bucket>, i: nat, b: Bucket)
    requires Partition(bs) && Filled(bs) && i < |bs| && b.first == bs[i].first
    requires b.count == |b.nodes| <= b.maxCount && b.maxCount >= 8
    requires forall j :: 0 <= j < |b.nodes| ==> Within(bs, i, b.nodes[j].id)
    ensures Partition(bs[i := b]) && Filled(bs[i := b])
    ensures forall j :: 0 <= j < |bs| ==> Hi(bs[i := b], j) == Hi(bs, j)
  {
    hide Num, Pow2;
    var bs' := bs[i := b];
    assert forall j :: 0 <= j < |bs| ==> bs'[j].first == bs[j].first;
    assert forall j :: 0 <= j < |bs| ==> Hi(bs', j) == Hi(bs, j);
    forall j, m | 0 <= j < |bs'| && 0 <= m < |bs'[j].nodes|
      ensures Within(bs', j, bs'[j].nodes[m].id)
    {
      if j != i {
        assert Within(bs, j, bs[j].nodes[m].id);
      }
    }
  }

  /** The height of a bucket's range, as a number of ids. */
  function Span(bs: seq<Bucket>, i: nat): int
    requires i < |bs|
  {
    Hi(bs, i) - Num(bs[i].first)
  }

  function HalfCapacity(maxCount: nat): nat {
    if maxCount / 2 > 8 then maxCount / 2 else 8
  }

  predicate NodeGood(n: Node, now: int) {
    n.pinged <= 2 && n.replyTime >= now - 7200 && n.time >= now - 900
  }

  /** A node that gives its place to a new one: three unanswered pings, the last a while ago. */
  predicate Bad(n: Node, now: int) {
    n.pinged >= 3 && n.pingedTime < now - 15
  }

  predicate Full(b: Bucket) {
    b.count >= b.maxCount
  }

  /** `n` at place `j` of the list. */
  function Replaced(b: Bucket, j: nat, n: Node): Bucket
    requires j < |b.nodes|
  {
    b.(nodes := b.nodes[j := n])
  }

  /** `n` in front of the list. */
  function Pushed(b: Bucket, n: Node): Bucket {
    b.(nodes := [n] + b.nodes, count := b.count + 1)
  }

  /** The first node of the list that is bad. */
  predicate FirstBad(nodes: seq<Node>, j: nat, now: int) {
    j < |nodes| && Bad(nodes[j], now) && forall k :: 0 <= k < j ==> !Bad(nodes[k], now)
  }

  /** A node heard of for the first time. */
  function Newcomer(id: Id, confirm: nat, now: int): Node {
    Node(id, 0, 0, if confirm > 0 then now else 0, if confirm >= 2 then now else 0)
  }

  /** What hearing again of a node changes in its record. */
  function Refreshed(n: Node, confirm: nat, now: int): (r: Node)
    ensures r.id == n.id
  {
    if confirm == 0 then n
    else if confirm == 1 then n.(time := now)
    else n.(time := now, replyTime := now, pinged := 0, pingedTime := 0)
  }

  /** The nodes that expiry leaves. */
  function Live(nodes: seq<Node>): seq<Node> {
    if nodes == [] then [] else (if nodes[0].pinged >= 4 then [] else [nodes[0]]) + Live(nodes[1..])
  }

  /** Every id of `bs` or still to be placed was in `was`, and ids outside `[lo, hi)` are untouched. */
  ghost predicate Accounted(bs: seq<Bucket>, todo: seq<Node>, was: seq<Bucket>, lo: nat, hi: nat) {
    forall id: Id {:trigger Total(bs, id)} ::
      && Total(bs, id) + Occurs(todo, id) <= Total(was, id)
      && (!(lo <= Num(id) < hi) ==> Total(bs, id) == Total(was, id))
  }

  class Table {
    const myid: Id
    var buckets: seq<Bucket>

    ghost predicate Shape()
      reads this
    {
      Partition(buckets) && Filled(buckets)
    }

    ghost predicate Valid()
      reads this
    {
      && Shape()
      && (forall id: Id {:trigger Total(buckets, id)} :: Total(buckets, id) <= 1)
      && Total(buckets, myid) == 0
    }

    constructor (me: Id)
      ensures Valid() && forall id: Id :: Total(buckets, id) == 0
    {
      myid := me;
      buckets := [Bucket(seq(20, _ => 0), 128, 0, [])];
      new;
      ZeroNum(20);
      assert Dyadic(0, Pow2(ID_BITS), ID_BITS) by {
        RemainderUnique(0, Pow2(ID_BITS), 0, 0);
      }
      assert buckets[0].first == seq(20, _ => 0);
      assert forall id: Id :: Total(buckets, id) == 0 by {
        forall id: Id
          ensures Total(buckets, id) == 0
        {
          NoNodes(buckets, id);
        }
      }
    }

    /** The first bucket whose successor starts above the id: the only one the id belongs to. */
    method FindBucket(id: Id) returns (b: nat)
      requires Partition(buckets)
      ensures b < |buckets| && Within(buckets, b, id)
    {
      hide Num, Pow2, Compare;
      b := 0;
      while b + 1 < |buckets| && Compare(id, buckets[b + 1].first) >= 0
        invariant b < |buckets| && Num(buckets[b].first) <= Num(id)
        decreases |buckets| - b
      {
        CompareIsNumeric(id, buckets[b + 1].first);
        b := b + 1;
      }
      if b + 1 < |buckets| {
        CompareIsNumeric(id, buckets[b + 1].first);
      }
      NumBound(id);
    }

    method InBucket(id: Id, b: nat) returns (r: bool)
      requires b < |buckets|
      ensures r <==> Within(buckets, b, id)
    {
      hide Num, Pow2, Compare;
      CompareIsNumeric(buckets[b].first, id);
      if b + 1 < |buckets| {
        CompareIsNumeric(id, buckets[b + 1].first);
      }
      NumBound(id);
      r := Compare(buckets[b].first, id) <= 0 && (b + 1 == |buckets| || Compare(id, buckets[b + 1].first) < 0);
    }

    /** Looking in one bucket finds a node exactly when the table has it anywhere. */
    method FindNode(id: Id) returns (found: bool, b: nat, j: nat)
      requires Shape()
      ensures found <==> Total(buckets, id) > 0
      ensures found ==> b < |buckets| && j < |buckets[b].nodes| && buckets[b].nodes[j].id == id
    {
      hide Num, Pow2, Hi, Within, Occurs, Total;
      b := FindBucket(id);
      BucketDecides(buckets, b, id);
      OccursMember(buckets[b].nodes, id);
      j := 0;
      while j < |buckets[b].nodes|
        invariant j <= |buckets[b].nodes|
        invariant forall k :: 0 <= k < j ==> buckets[b].nodes[k].id != id
      {
        if buckets[b].nodes[j].id == id {
          return true, b, j;
        }
        j := j + 1;
      }
      return false, b, j;
    }

    /** 1 when the node went to the front of its bucket, 0 when that bucket is full. */
    method InsertNode(n: Node) returns (rc: int, split: nat)
      requires Shape()
      modifies this`buckets
      ensures Shape() && |buckets| == |old(buckets)| && split < |buckets|
      ensures forall i :: 0 <= i < |buckets| ==> buckets[i].first == old(buckets)[i].first
      ensures rc == 0 || rc == 1
      ensures Within(old(buckets), split, n.id)
      ensures rc == 0 <==> Full(old(buckets)[split])
      ensures buckets == if rc == 0 then old(buckets) else old(buckets)[split := Pushed(old(buckets)[split], n)]
      ensures rc == 0 ==> buckets == old(buckets) && Within(buckets, split, n.id)
      ensures rc == 1 ==> forall id: Id {:trigger Total(buckets, id)} ::
                Total(buckets, id) == Total(old(buckets), id) + (if n.id == id then 1 else 0)
    {
      hide Num, Pow2, Hi, Total, Partition, Filled;
      split := FindBucket(n.id);
      FilledAt(buckets, split);
      if buckets[split].count >= buckets[split].maxCount {
        return 0, split;
      }
      Push(split, n);
      return 1, split;
    }

    /** Put a node in front of a bucket's list. */
    method Push(b: nat, n: Node)
      requires Shape() && b < |buckets| && Within(buckets, b, n.id) && buckets[b].count < buckets[b].maxCount
      modifies this`buckets
      ensures Shape() && |buckets| == |old(buckets)|
      ensures forall i :: 0 <= i < |buckets| ==> buckets[i].first == old(buckets)[i].first
      ensures buckets == old(buckets)[b := Pushed(old(buckets)[b], n)]
      ensures forall id: Id {:trigger Total(buckets, id)} ::
                Total(buckets, id) == Total(old(buckets), id) + (if n.id == id then 1 else 0)
    {
      hide Num, Pow2, Hi, Total, Partition, Filled;
      FilledAt(buckets, b);
      var b' := buckets[b].(nodes := [n] + buckets[b].nodes, count := buckets[b].count + 1);
      PushWithin(buckets, b, n);
      ReplaceKeepsShape(buckets, b, b');
      forall id: Id
        ensures Total(buckets[b := b'], id) == Total(buckets, id) + (if n.id == id then 1 else 0)
      {
        TotalUpdate(buckets, b, b', id);
        assert b'.nodes[1..] == buckets[b].nodes;
      }
      buckets := buckets[b := b'];
    }

    /** `bucket_middle`: the midpoint of the bucket's range, or none when the range is one id. */
    method BucketMiddle(b: nat, ghost k: nat) returns (ok: bool, mid: Id)
      requires b < |buckets| && Dyadic(Num(buckets[b].first), Hi(buckets, b), k)
      ensures ok <==> k > 0
      ensures ok ==> Num(mid) == Num(buckets[b].first) + Pow2(k - 1)
      ensures ok ==> 2 * (Num(mid) - Num(buckets[b].first)) == Span(buckets, b)
    {
      hide Num, BitSet, LowBitOf;
      var bit := MiddlePosition(b, k);
      mid := buckets[b].first;
      if bit >= 160 {
        return false, mid;
      }
      SetBitAdds(mid, bit);
      mid := mid[bit / 8 := OrBit(mid[bit / 8], bit % 8)];
      return true, mid;
    }

    /** Which bit of the first id to set. */
    method MiddlePosition(b: nat, ghost k: nat) returns (bit: nat)
      requires b < |buckets| && Dyadic(Num(buckets[b].first), Hi(buckets, b), k)
      ensures k <= ID_BITS && bit == ID_BITS - k
    {
      hide Num, BitSet, LowBitOf;
      MiddleBit(Num(buckets[b].first), Hi(buckets, b), k);
      var bit1 := LowBit(buckets[b].first);
      var bit2 := -1;
      if b + 1 < |buckets| {
        bit2 := LowBit(buckets[b + 1].first);
        NumBound(buckets[b + 1].first);
      }
      bit := (if bit1 > bit2 then bit1 else bit2) + 1;
    }

    /** Halve the bucket our id is in; its nodes are handed back to be placed again. `m` is where our
        id is afterwards, in a bucket half as wide. */
    method SplitHelper(b: nat) returns (rc: int, moved: seq<Node>, ghost m: nat)
      requires Shape() && b < |buckets|
      modifies this`buckets
      ensures Shape() && (rc == 1 || rc == -1)
      ensures rc < 0 ==> buckets == old(buckets)
      ensures rc > 0 ==>
                && moved == old(buckets)[b].nodes
                && m < |buckets| && Within(buckets, m, myid) && Span(buckets, m) < Span(old(buckets), b)
                && Num(old(buckets)[b].first) <= Num(buckets[m].first) && Hi(buckets, m) <= Hi(old(buckets), b)
      // the half our id is in gets half the capacity, the other half keeps it
      ensures rc > 0 ==>
                && (m == b || m == b + 1) && b + 1 < |buckets|
                && buckets[m].maxCount == HalfCapacity(old(buckets)[b].maxCount)
                && buckets[2 * b + 1 - m].maxCount == old(buckets)[b].maxCount
      ensures rc > 0 ==> forall id: Id {:trigger Total(buckets, id)} ::
                Total(buckets, id) + Occurs(moved, id) == Total(old(buckets), id)
    {
      hide Num, Pow2, Total, Occurs, Within, IsDyadic, Filled;
      var mine := InBucket(myid, b);
      m, moved := b, [];
      if !mine {
        return -1, moved, m;
      }
      ghost var k := HeightOf(buckets, b);
      var ok, mid := BucketMiddle(b, k);
      if !ok {
        return -1, moved, m;
      }
      FilledAt(buckets, b);
      var half := HalfCapacity(buckets[b].maxCount);
      CompareIsNumeric(myid, mid);
      var lower := Compare(myid, mid) < 0;
      var x := buckets[b].(nodes := [], count := 0, maxCount := if lower then half else buckets[b].maxCount);
      var y := Bucket(mid, if lower then buckets[b].maxCount else half, 0, []);
      moved := buckets[b].nodes;
      SplitPartition(buckets, b, x, y, k);
      SplitFilled(buckets, b, x, y);
      SplitNeighbours(buckets, b, x, y, b);
      SplitNeighbours(buckets, b, x, y, b + 1);
      forall id: Id
        ensures Total(SplitAt(buckets, b, x, y), id) + Occurs(moved, id) == Total(buckets, id)
      {
        SplitTotal(buckets, b, x, y, id);
      }
      m := if lower then b else b + 1;
      MineAfter(buckets, SplitAt(buckets, b, x, y), b, mid, k, lower, myid);
      hide SplitAt;
      buckets := SplitAt(buckets, b, x, y);
      return 1, moved, m;
    }

    /** Split the bucket our id is in and place its nodes again, splitting further as needed. Each
        further split halves the range around our id, so this ends. Nodes of other buckets stay; a node
        of this one may be dropped, none is duplicated. */
    method SplitBucket(b: nat) returns (rc: int, ghost m: nat)
      requires Shape() && b < |buckets| && Within(buckets, b, myid)
      modifies this`buckets
      ensures Shape() && m < |buckets| && Within(buckets, m, myid)
      ensures rc > 0 ==> Span(buckets, m) < Span(old(buckets), b)
      ensures rc <= 0 ==> buckets == old(buckets)
      ensures Accounted(buckets, [], old(buckets), Num(old(buckets)[b].first), Hi(old(buckets), b))
    {
      hide Num, Pow2, Total, Occurs, Hi, Partition, Filled;
      ghost var lo, hi := Num(buckets[b].first), Hi(buckets, b);
      var rc0, moved0, m0 := SplitHelper(b);
      if rc0 < 0 {
        NothingMoved(buckets, lo, hi);
        return -1, b;
      }
      m := m0;
      var todo := moved0;
      MovedAccounted(buckets, old(buckets), todo, b);
      while todo != []
        invariant Shape() && m < |buckets| && Within(buckets, m, myid)
        invariant Span(buckets, m) < Span(old(buckets), b)
        invariant lo <= Num(buckets[m].first) && Hi(buckets, m) <= hi
        invariant InRange(todo, lo, hi)
        invariant Accounted(buckets, todo, old(buckets), lo, hi)
        decreases Span(buckets, m), |todo|
      {
        m, todo := Place(todo, m, old(buckets), lo, hi);
      }
      return 1, m;
    }

    /** One turn of the placing loop: the first node is inserted, or dropped, or its bucket is split. */
    method Place(todo: seq<Node>, ghost m: nat, ghost was: seq<Bucket>, ghost lo: nat, ghost hi: nat)
        returns (ghost m': nat, todo': seq<Node>)
      requires Shape() && m < |buckets| && Within(buckets, m, myid) && todo != []
      requires lo <= Num(buckets[m].first) && Hi(buckets, m) <= hi
      requires InRange(todo, lo, hi) && Accounted(buckets, todo, was, lo, hi)
      modifies this`buckets
      ensures Shape() && m' < |buckets| && Within(buckets, m', myid)
      ensures lo <= Num(buckets[m'].first) && Hi(buckets, m') <= hi
      ensures InRange(todo', lo, hi) && Accounted(buckets, todo', was, lo, hi)
      ensures Span(buckets, m') < Span(old(buckets), m)
              || (Span(buckets, m') == Span(old(buckets), m) && |todo'| < |todo|)
    {
      hide Num, Pow2, Total, Occurs, Hi, Partition, Filled, Accounted;
      var rc, split := InsertNode(todo[0]);
      if rc > 0 {
        FirstsKeepRanges(old(buckets), buckets);
        PlacedAccounted(buckets, old(buckets), todo, was, lo, hi);
        return m, todo[1..];
      }
      var mine := InBucket(myid, split);
      if !mine {
        DroppedAccounted(buckets, todo, was, lo, hi);
        return m, todo[1..];
      }
      OneBucket(buckets, m, split, myid);
      FilledAt(buckets, split);
      var rc', moved, m2 := SplitHelper(split);
      if rc' < 0 {
        DroppedAccounted(buckets, todo, was, lo, hi);
        return m, todo[1..];
      }
      SplitAccounted(buckets, old(buckets), todo, moved, was, lo, hi);
      return m2, todo + moved;
    }

    /** Store a changed node in place of node `j` of bucket `b`. */
    method StoreNode(b: nat, j: nat, n: Node)
      requires Shape() && b < |buckets| && j < |buckets[b].nodes| && Within(buckets, b, n.id)
      modifies this`buckets
      ensures Shape() && |buckets| == |old(buckets)|
      ensures forall i :: 0 <= i < |buckets| ==> buckets[i].first == old(buckets)[i].first
      ensures buckets == old(buckets)[b := Replaced(old(buckets)[b], j, n)]
      ensures forall id: Id {:trigger Total(buckets, id)} ::
                Total(buckets, id) + (if old(buckets)[b].nodes[j].id == id then 1 else 0)
                == Total(old(buckets), id) + (if n.id == id then 1 else 0)
    {
      hide Num, Pow2, Total, Occurs, Hi, Within, Partition, Filled;
      var b' := buckets[b].(nodes := buckets[b].nodes[j := n]);
      FilledAt(buckets, b);
      ReplaceKeepsShape(buckets, b, b');
      forall id: Id
        ensures Total(buckets[b := b'], id) + (if buckets[b].nodes[j].id == id then 1 else 0)
                == Total(buckets, id) + (if n.id == id then 1 else 0)
      {
        TotalUpdate(buckets, b, b', id);
        OccursUpdate(buckets[b].nodes, j, n, id);
      }
      buckets := buckets[b := b'];
    }

    /** The first node of bucket `b` that looks dead, if any, gives its place to the new one. */
    method ReplaceBad(b: nat, n: Node, now: int) returns (done: bool, ghost gone: Id, ghost at: nat)
      requires Shape() && b < |buckets| && Within(buckets, b, n.id)
      modifies this`buckets
      ensures Shape() && |buckets| == |old(buckets)| && (!done ==> buckets == old(buckets))
      ensures forall i :: 0 <= i < |buckets| ==> buckets[i].first == old(buckets)[i].first
      ensures !done ==> forall k :: 0 <= k < |buckets[b].nodes| ==> !Bad(buckets[b].nodes[k], now)
      ensures done ==>
                && FirstBad(old(buckets)[b].nodes, at, now) && gone == old(buckets)[b].nodes[at].id
                && buckets == old(buckets)[b := Replaced(old(buckets)[b], at, n)]
      ensures done ==>
                && Total(old(buckets), gone) >= 1
                && forall id: Id {:trigger Total(buckets, id)} ::
                     Total(buckets, id) + (if gone == id then 1 else 0)
                     == Total(old(buckets), id) + (if n.id == id then 1 else 0)
    {
      hide Num, Pow2, Total, Occurs, Hi, Within, Partition, Filled;
      gone, at := n.id, 0;
      for j := 0 to |buckets[b].nodes|
        invariant buckets == old(buckets)
        invariant forall k :: 0 <= k < j ==> !Bad(buckets[b].nodes[k], now)
      {
        var bad := buckets[b].nodes[j];
        if bad.pinged >= 3 && bad.pingedTime < now - 15 {
          gone := bad.id;
          FilledAt(buckets, b);
          BucketDecides(buckets, b, bad.id);
          OccursMember(buckets[b].nodes, bad.id);
          assert FirstBad(buckets[b].nodes, j, now);
          StoreNode(b, j, n);
          return true, gone, j;
        }
      }
      return false, gone, at;
    }

    /** Is some node of the bucket not known to be good? The first such that was not pinged in the
        last 15 seconds is pinged. */
    method PingDubious(b: nat, now: int) returns (dubious: bool)
      requires Shape() && b < |buckets|
      modifies this`buckets
      ensures Shape() && |buckets| == |old(buckets)|
      ensures forall i :: 0 <= i < |buckets| ==> buckets[i].first == old(buckets)[i].first
      ensures forall id: Id {:trigger Total(buckets, id)} :: Total(buckets, id) == Total(old(buckets), id)
      ensures dubious <==> exists j :: 0 <= j < |old(buckets)[b].nodes| && !NodeGood(old(buckets)[b].nodes[j], now)
      ensures !dubious ==> buckets == old(buckets)
      ensures forall i :: 0 <= i < |buckets| ==> Full(buckets[i]) == Full(old(buckets)[i])
    {
      hide Num, Pow2, Total, Occurs, Hi, Within, Partition, Filled;
      dubious := false;
      for j := 0 to |buckets[b].nodes|
        invariant buckets == old(buckets)
        invariant dubious <==> exists k :: 0 <= k < j && !NodeGood(buckets[b].nodes[k], now)
      {
        var n := buckets[b].nodes[j];
        if !NodeGood(n, now) {
          dubious := true;
          if n.pingedTime < now - 15 {
            FilledAt(buckets, b);
            StoreNode(b, j, n.(pinged := n.pinged + 1, pingedTime := now));
            return;
          }
        }
      }
    }

    /** `new_node`: learn of a node. A known one is refreshed and displaces nobody. A new one takes the place of
        the first bad node of its bucket, or a free place, and nothing else changes; only when its bucket is
        full of good nodes and is ours, the bucket is split and nodes may be dropped. It ends up in the table, or
        its bucket is full; none is ever duplicated. */
    method NewNode(id: Id, confirm: nat, rejected: bool, now: int) returns (found: bool)
      requires Valid()
      modifies this`buckets
      ensures Valid()
      ensures rejected || id == myid ==> !found && buckets == old(buckets)
      ensures found ==> Total(buckets, id) == 1
      ensures !rejected && id != myid && !found ==> Total(buckets, id) == 0 && NoRoom(buckets, id)
      ensures forall x: Id {:trigger Total(buckets, x)} :: x != id ==> Total(buckets, x) <= Total(old(buckets), x)
      ensures !rejected && Total(old(buckets), id) == 1 ==>
                && found
                && (forall x: Id {:trigger Total(buckets, x)} :: Total(buckets, x) == Total(old(buckets), x))
                && exists b, j :: 0 <= b < |old(buckets)| && 0 <= j < |old(buckets)[b].nodes|
                     && old(buckets)[b].nodes[j].id == id && KnownAs(old(buckets), buckets, b, j, confirm, now)
      ensures !rejected && id != myid && Total(old(buckets), id) == 0 ==>
                forall b :: 0 <= b < |old(buckets)| && Within(old(buckets), b, id) ==>
                  LearntAs(old(buckets), buckets, b, id, myid, confirm, now, found)
    {
      hide Num, Pow2, Total, Occurs, Hi, Partition, Filled, Accounted, LearntAs, KnownAs, NoRoom, Within;
      if id == myid || rejected {
        return false;
      }
      var known, kb, kj := FindNode(id);
      if known {
        UpdateKnown(kb, kj, confirm, now);
        return true;
      }
      found := Learn(id, confirm, now);
    }

    /** The part of `new_node` for a node not known yet. */
    method Learn(id: Id, confirm: nat, now: int) returns (found: bool)
      requires Valid() && id != myid && Total(buckets, id) == 0
      modifies this`buckets
      ensures Valid()
      ensures if found then Total(buckets, id) == 1 else Total(buckets, id) == 0 && NoRoom(buckets, id)
      ensures forall x: Id {:trigger Total(buckets, x)} :: x != id ==> Total(buckets, x) <= Total(old(buckets), x)
      ensures forall b :: 0 <= b < |old(buckets)| && Within(old(buckets), b, id) ==>
                LearntAs(old(buckets), buckets, b, id, myid, confirm, now, found)
    {
      hide Num, Pow2, Total, Occurs, Hi, Partition, Filled, Accounted, LearntAs, MustSplit, NoRoom;
      ghost var home: nat := HomeOf(buckets, myid);
      ghost var was := buckets;
      var b: nat, rc: int := Try(id, confirm, now);
      OnlyThere(was, buckets, b, id, myid, confirm, now, rc > 0);
      ghost var b0 := b;
      while rc == 0
        invariant Valid() && Total(buckets, id) == (if rc > 0 then 1 else 0)
        invariant forall x: Id {:trigger Total(buckets, x)} :: x != id ==> Total(buckets, x) <= Total(was, x)
        invariant rc == 0 ==> home < |buckets| && Within(buckets, home, myid)
        invariant rc <= 0 ==> NoRoom(buckets, id)
        invariant rc == 0 ==> b < |buckets| && Within(buckets, b, myid)
        invariant forall c :: 0 <= c < |was| && Within(was, c, id) ==>
                    LearntAs(was, buckets, c, id, myid, confirm, now, rc > 0)
        invariant rc == 0 ==> b0 < |was| && MustSplit(was, b0, myid, now) && Within(was, b0, id)
        decreases if rc == 0 then Span(buckets, home) else 0
      {
        ghost var before := buckets;
        OneBucket(buckets, home, b, myid);
        var split, m := SplitBucket(b);
        SplitBounds(buckets, before, b);
        if split <= 0 {
          return false;
        }
        home := m;
        b, rc := Try(id, confirm, now);
        OnlyThere(was, buckets, b0, id, myid, confirm, now, rc > 0);
      }
      return rc > 0;
    }

    /** One turn: 1 when the node has taken a bad one's place or a free one, -1 when there is no room, 0 when
        our own bucket is to be split. */
    method Try(id: Id, confirm: nat, now: int) returns (b: nat, rc: int)
      requires Valid() && id != myid && Total(buckets, id) == 0
      modifies this`buckets
      ensures Valid() && rc in {1, 0, -1}
      ensures Total(buckets, id) == if rc > 0 then 1 else 0
      ensures forall x: Id {:trigger Total(buckets, x)} :: x != id ==> Total(buckets, x) <= Total(old(buckets), x)
      ensures b < |old(buckets)| && Within(old(buckets), b, id)
      ensures LearntAs(old(buckets), buckets, b, id, myid, confirm, now, rc > 0)
      ensures rc <= 0 ==> NoRoom(buckets, id)
      ensures rc == 0 ==> buckets == old(buckets) && MustSplit(buckets, b, myid, now) && Within(buckets, b, myid)
    {
      hide Num, Pow2, Total, Occurs, Hi, Partition, Filled;
      var newcomer := Newcomer(id, confirm, now);
      b := FindBucket(id);
      var mine := InBucket(myid, b);
      FilledAt(buckets, b);
      var done, gone, at := ReplaceBad(b, newcomer, now);
      if done {
        return b, 1;
      }
      if buckets[b].count < buckets[b].maxCount {
        Push(b, newcomer);
        return b, 1;
      }
      var dubious := PingDubious(b, now);
      FirstsKeepRanges(old(buckets), buckets);
      FullThere(buckets, b, id);
      return b, if mine && !dubious then 0 else -1;
    }

    /** Hearing again of a node refreshes its record, and nothing else changes. */
    method UpdateKnown(b: nat, j: nat, confirm: nat, now: int)
      requires Valid() && b < |buckets| && j < |buckets[b].nodes|
      modifies this`buckets
      ensures Valid()
      ensures KnownAs(old(buckets), buckets, b, j, confirm, now)
      ensures forall x: Id {:trigger Total(buckets, x)} :: Total(buckets, x) == Total(old(buckets), x)
    {
      hide Num, Pow2, Total, Occurs, Hi, Partition, Filled, Within;
      var n := buckets[b].nodes[j];
      FilledAt(buckets, b);
      if confirm > 0 || n.time < now - 15 * 60 {
        if confirm > 0 {
          n := n.(time := now);
        }
        if confirm >= 2 {
          n := n.(replyTime := now, pinged := 0, pingedTime := 0);
        }
        StoreNode(b, j, n);
      } else {
        assert buckets[b].nodes[j := n] == buckets[b].nodes;
        assert buckets[b := Replaced(buckets[b], j, n)] == buckets;
      }
    }

    /** Purge every node that has not answered four pings. Nothing else about the table changes. */
    method ExpireBuckets()
      requires Valid()
      modifies this`buckets
      ensures Valid() && |buckets| == |old(buckets)|
      ensures forall i :: 0 <= i < |buckets| ==>
                && buckets[i].first == old(buckets)[i].first
                && buckets[i].maxCount == old(buckets)[i].maxCount
                && buckets[i].nodes == Live(old(buckets)[i].nodes)
    {
      hide Num, Pow2, Total, Occurs, Hi, Partition, Filled, Within, Live;
      for i := 0 to |buckets|
        invariant Valid() && |buckets| == |old(buckets)|
        invariant forall j :: 0 <= j < i ==>
                    && buckets[j].first == old(buckets)[j].first
                    && buckets[j].maxCount == old(buckets)[j].maxCount
                    && buckets[j].nodes == Live(old(buckets)[j].nodes)
        invariant forall j :: i <= j < |buckets| ==> buckets[j] == old(buckets)[j]
      {
        ExpireBucket(i);
      }
    }

    method ExpireBucket(i: nat)
      requires Valid() && i < |buckets|
      modifies this`buckets
      ensures Valid() && |buckets| == |old(buckets)|
      ensures forall j :: 0 <= j < |buckets| && j != i ==> buckets[j] == old(buckets)[j]
      ensures buckets[i].first == old(buckets)[i].first && buckets[i].maxCount == old(buckets)[i].maxCount
      ensures buckets[i].nodes == Live(old(buckets)[i].nodes)
    {
      hide Num, Pow2, Total, Occurs, Hi, Partition, Filled, Within, Live;
      var b := buckets[i];
      var kept := Purge(b.nodes);
      FilledAt(buckets, i);
      LiveSubset(b.nodes);
      var b' := b.(nodes := kept, count := |kept|);
      forall j | 0 <= j < |kept|
        ensures Within(buckets, i, kept[j].id)
      {
        assert kept[j] in b.nodes;
      }
      ReplaceKeepsShape(buckets, i, b');
      LiveTotal(buckets, i, b');
      buckets := buckets[i := b'];
    }

    /** Unlink dead nodes: first at the head of the list, then behind each node that stays. */
    static method Purge(nodes: seq<Node>) returns (kept: seq<Node>)
      ensures kept == Live(nodes)
    {
      kept := nodes;
      while kept != [] && kept[0].pinged >= 4
        invariant Live(kept) == Live(nodes)
        decreases |kept|
      {
        kept := kept[1..];
      }
      var p := 0;
      while p < |kept|
        invariant p <= |kept| && Live(kept) == Live(nodes)
        invariant forall k :: 0 <= k <= p && k < |kept| ==> kept[k].pinged < 4
        decreases |kept| - p
      {
        while p + 1 < |kept| && kept[p + 1].pinged >= 4
          invariant p < |kept| && Live(kept) == Live(nodes)
          invariant forall k :: 0 <= k <= p ==> kept[k].pinged < 4
          decreases |kept|
        {
          LiveUnlink(kept, p + 1);
          kept := kept[..p + 1] + kept[p + 2..];
        }
        p := p + 1;
      }
      LiveAll(kept);
    }
  }

  /** The bucket an id belongs to is full. */
  ghost predicate NoRoom(bs: seq<Bucket>, id: Id) {
    forall b :: 0 <= b < |bs| && Within(bs, b, id) ==> Full(bs[b])
  }

  lemma FullThere(bs: seq<Bucket>, b: nat, id: Id)
    requires Partition(bs) && b < |bs| && Within(bs, b, id) && Full(bs[b])
    ensures NoRoom(bs, id)
  {
    hide Num, Pow2, Within, Partition;
    forall c | 0 <= c < |bs| && Within(bs, c, id)
      ensures c == b
    {
      OneBucket(bs, c, b, id);
    }
  }

  /** Our own bucket, full of good nodes. */
  ghost predicate MustSplit(bs: seq<Bucket>, b: nat, me: Id, now: int)
    requires b < |bs|
  {
    && Full(bs[b]) && Within(bs, b, me)
    && forall k :: 0 <= k < |bs[b].nodes| ==> NodeGood(bs[b].nodes[k], now) && !Bad(bs[b].nodes[k], now)
  }

  /** A known node's record is refreshed. */
  ghost predicate KnownAs(was: seq<Bucket>, bs: seq<Bucket>, b: nat, j: nat, confirm: nat, now: int)
    requires b < |was| && j < |was[b].nodes|
  {
    bs == was[b := Replaced(was[b], j, Refreshed(was[b].nodes[j], confirm, now))]
  }

  /** What learning of an unknown node does, short of splitting our own bucket. */
  ghost predicate LearntAs(was: seq<Bucket>, bs: seq<Bucket>, b: nat, id: Id, me: Id, confirm: nat, now: int,
      found: bool)
    requires b < |was|
  {
    var n := Newcomer(id, confirm, now);
    if exists k :: 0 <= k < |was[b].nodes| && Bad(was[b].nodes[k], now) then
      found && exists j :: FirstBad(was[b].nodes, j, now) && bs == was[b := Replaced(was[b], j, n)]
    else if !Full(was[b]) then
      found && bs == was[b := Pushed(was[b], n)]
    else
      MustSplit(was, b, me, now)
      || (!found && forall x: Id {:trigger Total(bs, x)} :: Total(bs, x) == Total(was, x))
  }

  lemma OnlyThere(was: seq<Bucket>, bs: seq<Bucket>, b: nat, id: Id, me: Id, confirm: nat, now: int, found: bool)
    requires Partition(was) && b < |was| && Within(was, b, id)
    requires LearntAs(was, bs, b, id, me, confirm, now, found) || MustSplit(was, b, me, now)
    ensures forall c :: 0 <= c < |was| && Within(was, c, id) ==> LearntAs(was, bs, c, id, me, confirm, now, found)
  {
    hide Num, Pow2, Within, Partition, Total;
    forall c | 0 <= c < |was| && Within(was, c, id)
      ensures c == b
    {
      OneBucket(was, c, b, id);
    }
  }

  lemma LiveTotal(bs: seq<Bucket>, i: nat, b: Bucket)
    requires i < |bs| && b.nodes == Live(bs[i].nodes)
    ensures forall id: Id {:trigger Total(bs[i := b], id)} :: Total(bs[i := b], id) <= Total(bs, id)
  {
    hide Total, Occurs, Live, Num;
    forall id: Id
      ensures Total(bs[i := b], id) <= Total(bs, id)
    {
      TotalUpdate(bs, i, b, id);
      LiveFewer(bs[i].nodes, id);
    }
  }

  lemma {:induction false} LiveUnlink(nodes: seq<Node>, k: nat)
    requires k < |nodes| && nodes[k].pinged >= 4
    ensures Live(nodes[..k] + nodes[k + 1..]) == Live(nodes)
    decreases k
  {
    var less := nodes[..k] + nodes[k + 1..];
    if k == 0 {
      assert less == nodes[1..];
    } else {
      LiveUnlink(nodes[1..], k - 1);
      assert less[1..] == nodes[1..][..k - 1] + nodes[1..][k..];
    }
  }

  lemma {:induction false} LiveAll(nodes: seq<Node>)
    requires forall k :: 0 <= k < |nodes| ==> nodes[k].pinged < 4
    ensures Live(nodes) == nodes
    decreases |nodes|
  {
    if nodes != [] {
      LiveAll(nodes[1..]);
    }
  }

  lemma {:induction false} LiveSubset(nodes: seq<Node>)
    ensures |Live(nodes)| <= |nodes| && forall n <- Live(nodes) :: n in nodes
    decreases |nodes|
  {
    if nodes != [] {
      LiveSubset(nodes[1..]);
    }
  }

  lemma {:induction false} LiveFewer(nodes: seq<Node>, id: Id)
    ensures Occurs(Live(nodes), id) <= Occurs(nodes, id)
    decreases |nodes|
  {
    if nodes != [] {
      LiveFewer(nodes[1..], id);
      OccursAppend(if nodes[0].pinged >= 4 then [] else [nodes[0]], Live(nodes[1..]), id);
    }
  }

  lemma SplitBounds(bs: seq<Bucket>, was: seq<Bucket>, b: nat)
    requires b < |was| && Accounted(bs, [], was, Num(was[b].first), Hi(was, b))
    ensures forall x: Id {:trigger Total(bs, x)} :: Total(bs, x) <= Total(was, x)
  {
    hide Num, Pow2, Total, Occurs, Hi;
  }

  lemma HomeOf(bs: seq<Bucket>, id: Id) returns (h: nat)
    requires Partition(bs)
    ensures h < |bs| && Within(bs, h, id)
  {
    hide Num, Pow2;
    NumBound(id);
    h := HomeBelow(bs, |bs|, id);
  }

  lemma {:induction false} HomeBelow(bs: seq<Bucket>, n: nat, id: Id) returns (h: nat)
    requires Partition(bs) && 0 < n <= |bs| && Num(id) < Hi(bs, n - 1)
    ensures h < |bs| && Within(bs, h, id)
    decreases n
  {
    hide Num, Pow2, IsDyadic;
    if Num(bs[n - 1].first) <= Num(id) {
      h := n - 1;
    } else {
      h := HomeBelow(bs, n - 1, id);
    }
  }

  ghost predicate InRange(nodes: seq<Node>, lo: nat, hi: nat) {
    forall j :: 0 <= j < |nodes| ==> lo <= Num(nodes[j].id) < hi
  }

  lemma FirstsKeepRanges(bs: seq<Bucket>, bs': seq<Bucket>)
    requires |bs| == |bs'| && forall i :: 0 <= i < |bs| ==> bs'[i].first == bs[i].first
    ensures forall i :: 0 <= i < |bs| ==> Hi(bs', i) == Hi(bs, i)
  {
    hide Num, Pow2;
  }

  lemma NothingMoved(bs: seq<Bucket>, lo: nat, hi: nat)
    ensures Accounted(bs, [], bs, lo, hi)
  {
    hide Num, Total, Occurs;
    forall id: Id
      ensures Occurs([], id) == 0
    {
      NoOccurrence(id);
    }
  }

  lemma {:induction false} OutOfRange(nodes: seq<Node>, lo: nat, hi: nat, id: Id)
    requires InRange(nodes, lo, hi) && !(lo <= Num(id) < hi)
    ensures Occurs(nodes, id) == 0
  {
    hide Num, Occurs;
    OccursMember(nodes, id);
  }

  lemma MovedAccounted(bs: seq<Bucket>, was: seq<Bucket>, moved: seq<Node>, b: nat)
    requires b < |was| && Filled(was) && moved == was[b].nodes
    requires forall id: Id {:trigger Total(bs, id)} :: Total(bs, id) + Occurs(moved, id) == Total(was, id)
    ensures InRange(moved, Num(was[b].first), Hi(was, b))
    ensures Accounted(bs, moved, was, Num(was[b].first), Hi(was, b))
  {
    hide Num, Pow2, Total, Occurs, Hi;
    FilledAt(was, b);
    forall id: Id | !(Num(was[b].first) <= Num(id) < Hi(was, b))
      ensures Occurs(moved, id) == 0
    {
      OutOfRange(moved, Num(was[b].first), Hi(was, b), id);
    }
  }

  lemma PlacedAccounted(bs: seq<Bucket>, before: seq<Bucket>, todo: seq<Node>, was: seq<Bucket>, lo: nat, hi: nat)
    requires todo != [] && InRange(todo, lo, hi) && Accounted(before, todo, was, lo, hi)
    requires forall id: Id {:trigger Total(bs, id)} ::
               Total(bs, id) == Total(before, id) + (if todo[0].id == id then 1 else 0)
    ensures Accounted(bs, todo[1..], was, lo, hi)
  {
    hide Num, Total;
  }

  lemma DroppedAccounted(bs: seq<Bucket>, todo: seq<Node>, was: seq<Bucket>, lo: nat, hi: nat)
    requires todo != [] && Accounted(bs, todo, was, lo, hi)
    ensures Accounted(bs, todo[1..], was, lo, hi)
  {
    hide Num, Total;
  }

  lemma SplitAccounted(bs: seq<Bucket>, before: seq<Bucket>, todo: seq<Node>, moved: seq<Node>, was: seq<Bucket>,
      lo: nat, hi: nat)
    requires InRange(moved, lo, hi) && Accounted(before, todo, was, lo, hi)
    requires forall id: Id {:trigger Total(bs, id)} :: Total(bs, id) + Occurs(moved, id) == Total(before, id)
    ensures Accounted(bs, todo + moved, was, lo, hi)
  {
    hide Num, Total, Occurs;
    forall id: Id
      ensures Total(bs, id) + Occurs(todo + moved, id) <= Total(was, id)
      ensures !(lo <= Num(id) < hi) ==> Total(bs, id) == Total(was, id)
    {
      OccursAppend(todo, moved, id);
      if !(lo <= Num(id) < hi) {
        OutOfRange(moved, lo, hi, id);
      }
      assert Total(before, id) + Occurs(todo, id) <= Total(was, id);
    }
  }

  /** After a split our id is in the half that `lower` names, which is half as wide. */
  lemma MineAfter(bs: seq<Bucket>, bs': seq<Bucket>, b: nat, mid: Id, k: nat, lower: bool, me: Id)
    requires b < |bs| && b + 1 < |bs'| && Within(bs, b, me) && (lower <==> Num(me) < Num(mid))
    requires k > 0 && Dyadic(Num(bs[b].first), Hi(bs, b), k) && Num(mid) == Num(bs[b].first) + Pow2(k - 1)
    requires bs'[b].first == bs[b].first && Hi(bs', b) == Num(mid)
    requires bs'[b + 1].first == mid && Hi(bs', b + 1) == Hi(bs, b)
    ensures var m := if lower then b else b + 1;
            && Within(bs', m, me) && Span(bs', m) < Span(bs, b)
            && Num(bs[b].first) <= Num(bs'[m].first) && Hi(bs', m) <= Hi(bs, b)
  {
    hide Num, Hi;
    assert Pow2(k) == 2 * Pow2(k - 1) && Pow2(k - 1) >= 1;
  }

  lemma HeightOf(bs: seq<Bucket>, b: nat) returns (k: nat)
    requires Partition(bs) && b < |bs|
    ensures Dyadic(Num(bs[b].first), Hi(bs, b), k)
  {
    hide Num, Pow2, Dyadic, Hi;
    assert IsDyadic(Num(bs[b].first), Hi(bs, b));
    k :| Dyadic(Num(bs[b].first), Hi(bs, b), k);
  }

  lemma FilledAt(bs: seq<Bucket>, i: nat)
    requires Filled(bs) && i < |bs|
    ensures bs[i].count == |bs[i].nodes| <= bs[i].maxCount && bs[i].maxCount >= 8
    ensures forall j :: 0 <= j < |bs[i].nodes| ==> Within(bs, i, bs[i].nodes[j].id)
  {
    hide Num, Pow2, Within;
  }

  lemma PushWithin(bs: seq<Bucket>, i: nat, n: Node)
    requires Filled(bs) && i < |bs| && Within(bs, i, n.id)
    ensures forall j :: 0 <= j < |[n] + bs[i].nodes| ==> Within(bs, i, ([n] + bs[i].nodes)[j].id)
  {
    hide Num, Pow2, Within;
  }

  lemma {:induction false} ZeroNum(n: nat)
    ensures Num(seq(n, _ => 0)) == 0
  {
    if n > 0 {
      ZeroNum(n - 1);
      var z: Bytes := seq(n, _ => 0);
      assert z[..n - 1] == seq(n - 1, _ => 0);
    }
  }
}

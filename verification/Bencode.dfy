/** Bencoding: what the parser accepts, what an encoder writes, and that the one undoes the other. Bytes
    are characters. */
module Bencode {
  import opened Options

  const INT64_MAX := 0x7fff_ffff_ffff_ffff
  const SIZE_MAX := 0xffff_ffff_ffff_ffff
  const MAX_DEPTH := 16

  // ---------------------------------------------------------------------------------------------
  // Numbers.

  predicate IsDigit(c: char) {
    '0' <= c <= '9'
  }

  function Digit(c: char): (d: nat)
    ensures d < 10
  {
    if IsDigit(c) then c as int - '0' as int else 0
  }

  predicate AllDigits(s: string) {
    forall i :: 0 <= i < |s| ==> IsDigit(s[i])
  }

  /** The value of a string of decimal digits. */
  function Number(ds: string): nat {
    if ds == "" then 0 else 10 * Number(ds[..|ds| - 1]) + Digit(ds[|ds| - 1])
  }

  /** The length of the longest run of digits in front. */
  function DigitRun(s: string): (n: nat)
    ensures n <= |s| && AllDigits(s[..n]) && (n < |s| ==> !IsDigit(s[n]))
  {
    if s == "" || !IsDigit(s[0]) then 0
    else
      assert forall i :: 1 <= i < 1 + DigitRun(s[1..]) ==> s[i] == s[1..][i - 1];
      1 + DigitRun(s[1..])
  }

  lemma DigitRunIs(s: string, n: nat)
    requires n <= |s| && AllDigits(s[..n]) && (n < |s| ==> !IsDigit(s[n]))
    ensures DigitRun(s) == n
  {
    hide DigitRun;
  }

  lemma {:induction false} NumberGrows(ds: string, k: nat)
    requires k <= |ds|
    ensures Number(ds[..k]) <= Number(ds)
    decreases |ds|
  {
    if k < |ds| {
      NumberGrows(ds[..|ds| - 1], k);
      assert ds[..|ds| - 1][..k] == ds[..k];
    } else {
      assert ds[..k] == ds;
    }
  }

  function DigitChar(d: nat): (c: char)
    requires d < 10
    ensures IsDigit(c) && Digit(c) == d
  {
    '0' + d as char
  }

  function Decimal(n: nat): (ds: string)
    ensures ds != "" && AllDigits(ds)
  {
    if n < 10 then [DigitChar(n)] else Decimal(n / 10) + [DigitChar(n % 10)]
  }

  lemma {:induction false} NumberOfDecimal(n: nat)
    ensures Number(Decimal(n)) == n
  {
    hide DigitChar;
    if n < 10 {
      var ds := [DigitChar(n)];
      assert ds[..0] == "";
      assert Number(ds) == Digit(ds[0]);
    } else {
      NumberOfDecimal(n / 10);
      var front, ds := Decimal(n / 10), Decimal(n);
      assert ds[..|ds| - 1] == front;
    }
  }

  // ---------------------------------------------------------------------------------------------
  // What the parser accepts in front of a buffer, and how many bytes it takes.

  function IntAt(s: string): (r: Option<(int, nat)>)
    ensures r.Some? ==> 2 < r.value.1 <= |s| && -INT64_MAX <= r.value.0 <= INT64_MAX
  {
    if s == "" || s[0] != 'i' then None
    else
      var b := if |s| > 1 && s[1] == '-' then 2 else 1;
      var n := DigitRun(s[b..]);
      var v := Number(s[b..b + n]);
      if n == 0 || v > INT64_MAX || b + n >= |s| || s[b + n] != 'e' then None
      else Some((if b == 2 then -(v as int) else v, b + n + 1))
  }

  /** The string's bytes and all that was taken. */
  function StrAt(s: string): (r: Option<(string, nat)>)
    ensures r.Some? ==> 1 < r.value.1 <= |s| && |r.value.0| < r.value.1
  {
    var n := DigitRun(s);
    var len := Number(s[..n]);
    if n == 0 || len > SIZE_MAX || n >= |s| || s[n] != ':' || |s| - (n + 1) < len then None
    else Some((s[n + 1..n + 1 + len], n + 1 + len))
  }

  /** One value of any kind, nested no deeper than the cap. */
  function SkipAt(s: string, depth: nat): (r: Option<nat>)
    ensures r.Some? ==> 1 <= r.value <= |s|
    decreases |s|, 0
  {
    if s == "" || depth > MAX_DEPTH then None
    else if s[0] == 'i' then
      match IntAt(s) case None => None case Some((v, n)) => Some(n)
    else if IsDigit(s[0]) then
      match StrAt(s) case None => None case Some((v, n)) => Some(n)
    else if s[0] == 'l' then
      match SkipItems(s[1..], depth + 1) case None => None case Some(n) => Some(1 + n)
    else if s[0] == 'd' then
      match SkipPairs(s[1..], depth + 1) case None => None case Some(n) => Some(1 + n)
    else None
  }

  /** Values up to and with the closing `e`. */
  function SkipItems(s: string, depth: nat): (r: Option<nat>)
    ensures r.Some? ==> 1 <= r.value <= |s|
    decreases |s|, 1
  {
    if s == "" then None
    else if s[0] == 'e' then Some(1)
    else
      match SkipAt(s, depth)
      case None => None
      case Some(n) =>
        match SkipItems(s[n..], depth) case None => None case Some(m) => Some(n + m)
  }

  /** Keys and values up to and with the closing `e`. */
  function SkipPairs(s: string, depth: nat): (r: Option<nat>)
    ensures r.Some? ==> 1 <= r.value <= |s|
    decreases |s|, 1
  {
    if s == "" then None
    else if s[0] == 'e' then Some(1)
    else
      match StrAt(s)
      case None => None
      case Some((key, k)) =>
        match SkipAt(s[k..], depth)
        case None => None
        case Some(n) =>
          match SkipPairs(s[k + n..], depth) case None => None case Some(m) => Some(k + n + m)
  }

  datatype Kind = BeInt | BeStr | BeList | BeDict

  /** A decoded value: its raw bytes, and its contents if it is a number or a string. */
  datatype Node = Node(kind: Kind, raw: string, ival: int, sval: string)

  function DecodeAt(s: string): (r: Option<Node>)
    ensures r.Some? ==> r.value.raw <= s && r.value.raw != ""
  {
    if s == "" then None
    else if s[0] == 'i' then
      match IntAt(s) case None => None case Some((v, n)) => Some(Node(BeInt, s[..n], v, ""))
    else if IsDigit(s[0]) then
      match StrAt(s) case None => None case Some((v, n)) => Some(Node(BeStr, s[..n], 0, v))
    else if s[0] == 'l' || s[0] == 'd' then
      match SkipAt(s, 0)
      case None => None
      case Some(n) => Some(Node(if s[0] == 'l' then BeList else BeDict, s[..n], 0, ""))
    else None
  }

  /** One key with its value. */
  datatype Entry = Entry(key: string, node: Node, used: nat)

  function EntryAt(s: string): (r: Option<Entry>)
    ensures r.Some? ==> 0 < r.value.used <= |s|
  {
    if s == "" || s[0] == 'e' then None
    else
      match StrAt(s)
      case None => None
      case Some((key, k)) =>
        match DecodeAt(s[k..])
        case None => None
        case Some(node) => Some(Entry(key, node, k + |node.raw|))
  }

  /** What `be_dict_next` yields, call after call, from a position behind the `d`. */
  function EntriesAt(s: string): seq<Entry>
    decreases |s|
  {
    match EntryAt(s)
    case None => []
    case Some(e) => [e] + EntriesAt(s[e.used..])
  }

  /** The value of the first entry with that key. */
  function FirstWith(entries: seq<Entry>, key: string): (r: Option<Node>)
    ensures r.None? <==> forall i :: 0 <= i < |entries| ==> entries[i].key != key
    ensures r.Some? ==> exists i :: 0 <= i < |entries| && entries[i].key == key && entries[i].node == r.value
                                    && forall j :: 0 <= j < i ==> entries[j].key != key
  {
    if entries == [] then None
    else if entries[0].key == key then Some(entries[0].node)
    else FirstWith(entries[1..], key)
  }

  /** `be_dict_get`. */
  function GetAt(dict: string, key: string): Option<Node> {
    if dict == "" || dict[0] != 'd' then None else FirstWith(EntriesAt(dict[1..]), key)
  }

  // ---------------------------------------------------------------------------------------------
  // The encoder.

  datatype Value = Int(i: int) | Str(s: string) | List(items: seq<Value>) | Dict(pairs: seq<(string, Value)>)

  function EncodeStr(s: string): (e: string)
    ensures e != "" && IsDigit(e[0])
  {
    Decimal(|s|) + ":" + s
  }

  function Encode(v: Value): (e: string)
    ensures e != "" && e[0] != 'e'
    decreases v
  {
    match v
    case Int(i) => "i" + (if i < 0 then "-" + Decimal(-i) else Decimal(i)) + "e"
    case Str(s) => EncodeStr(s)
    case List(items) => "l" + EncodeItems(items) + "e"
    case Dict(pairs) => "d" + EncodePairs(pairs) + "e"
  }

  function EncodeItems(items: seq<Value>): string
    decreases items
  {
    if items == [] then "" else Encode(items[0]) + EncodeItems(items[1..])
  }

  function EncodePairs(pairs: seq<(string, Value)>): string
    decreases pairs
  {
    if pairs == [] then ""
    else
      assert pairs[0].1 < pairs[0];
      EncodeStr(pairs[0].0) + Encode(pairs[0].1) + EncodePairs(pairs[1..])
  }

  /** Nothing of the value lies deeper than the cap, its numbers have a 64-bit negation, its strings a
      length that a machine word holds. */
  predicate Fits(v: Value, depth: nat)
    decreases v
  {
    depth <= MAX_DEPTH &&
    match v
    case Int(i) => -INT64_MAX <= i <= INT64_MAX
    case Str(s) => |s| <= SIZE_MAX
    case List(items) => ItemsFit(items, depth + 1)
    case Dict(pairs) => PairsFit(pairs, depth + 1)
  }

  predicate ItemsFit(items: seq<Value>, depth: nat)
    decreases items
  {
    items == [] || (Fits(items[0], depth) && ItemsFit(items[1..], depth))
  }

  predicate PairsFit(pairs: seq<(string, Value)>, depth: nat)
    decreases pairs
  {
    pairs == [] ||
    (assert pairs[0].1 < pairs[0];
     |pairs[0].0| <= SIZE_MAX && Fits(pairs[0].1, depth) && PairsFit(pairs[1..], depth))
  }

  // ---------------------------------------------------------------------------------------------
  // Parsing what was encoded.

  /** A number in front of something that is no digit is the whole run of digits. */
  lemma {:induction false} RunOfDecimal(n: nat, rest: string)
    requires rest != "" && !IsDigit(rest[0])
    ensures DigitRun(Decimal(n) + rest) == |Decimal(n)|
    ensures Number((Decimal(n) + rest)[..|Decimal(n)|]) == n
  {
    hide Decimal, Number, DigitRun;
    var ds := Decimal(n);
    assert (ds + rest)[..|ds|] == ds;
    DigitRunIs(ds + rest, |ds|);
    NumberOfDecimal(n);
  }

  /** Where the parts of a signed number are. */
  lemma Placed(sign: string, ds: string, tail: string)
    requires 1 <= |sign| <= 2 && ds != "" && tail != ""
    ensures var s := sign + (ds + tail);
            && s[|sign|..] == ds + tail
            && s[|sign|..|sign| + |ds|] == ds == (ds + tail)[..|ds|]
            && s[|sign| + |ds|] == tail[0]
            && s[0] == sign[0] && s[1] == if |sign| == 2 then sign[1] else ds[0]
  {
    var s := sign + (ds + tail);
    assert s[|sign|..] == ds + tail;
    assert (ds + tail)[..|ds|] == ds;
  }

  lemma {:induction false} IntShape(i: int, rest: string)
    ensures var sign, m := if i < 0 then "i-" else "i", if i < 0 then -i else i;
            && Encode(Int(i)) + rest == sign + (Decimal(m) + ("e" + rest))
            && |Encode(Int(i))| == |sign| + |Decimal(m)| + 1
  {
    hide Decimal;
  }

  lemma {:induction false} IntRoundTrip(i: int, rest: string)
    ensures var e := Encode(Int(i));
            IntAt(e + rest) == if -INT64_MAX <= i <= INT64_MAX then Some((i, |e|)) else None
  {
    hide Encode, Decimal, Number, DigitRun, IntAt;
    var m: nat := if i < 0 then -i else i;
    var sign, tail := if i < 0 then "i-" else "i", "e" + rest;
    IntShape(i, rest);
    Placed(sign, Decimal(m), tail);
    RunOfDecimal(m, tail);
    FirstDigit(m);
    SignedRun(Encode(Int(i)) + rest, |sign|, |Decimal(m)|);
  }

  lemma FirstDigit(m: nat)
    ensures IsDigit(Decimal(m)[0])
  {
    hide Decimal, IsDigit;
    var ds := Decimal(m);
    assert AllDigits(ds);
  }

  /** The parser's verdict on a number once its sign and its digits are known. */
  lemma {:induction false} SignedRun(s: string, b: nat, n: nat)
    requires 0 < n && b + n < |s| && s[0] == 'i' && s[b + n] == 'e'
    requires b == if s[1] == '-' then 2 else 1
    requires DigitRun(s[b..]) == n
    ensures var v := Number(s[b..b + n]);
            IntAt(s) == if v > INT64_MAX then None else Some((if b == 2 then -(v as int) else v, b + n + 1))
  {
    hide Number, DigitRun;
  }

  lemma {:induction false} StrRoundTrip(v: string, rest: string)
    ensures StrAt(EncodeStr(v) + rest) == if |v| <= SIZE_MAX then Some((v, |EncodeStr(v)|)) else None
  {
    hide Decimal, Number, DigitRun;
    var ds, tail := Decimal(|v|), ":" + v + rest;
    var s := EncodeStr(v) + rest;
    assert s == ds + tail;
    RunOfDecimal(|v|, tail);
    assert s[|ds|] == ':';
    assert s[|ds| + 1..|ds| + 1 + |v|] == v;
  }

  lemma {:induction false} ListShape(items: seq<Value>, rest: string)
    ensures var s := Encode(List(items)) + rest;
            && s[0] == 'l' && s[1..] == EncodeItems(items) + ("e" + rest)
            && |Encode(List(items))| == |EncodeItems(items)| + 2
  {
    hide EncodeItems;
  }

  lemma {:induction false} DictShape(pairs: seq<(string, Value)>, rest: string)
    ensures var s := Encode(Dict(pairs)) + rest;
            && s[0] == 'd' && s[1..] == EncodePairs(pairs) + ("e" + rest)
            && |Encode(Dict(pairs))| == |EncodePairs(pairs)| + 2
  {
    hide EncodePairs;
  }

  lemma {:induction false} SkipScalar(v: Value, depth: nat, rest: string)
    requires v.Int? || v.Str?
    ensures SkipAt(Encode(v) + rest, depth) == if Fits(v, depth) then Some(|Encode(v)|) else None
  {
    hide IntAt, StrAt, EncodeStr, Decimal;
    match v
    case Int(i) =>
      IntRoundTrip(i, rest);
      IntNeedsI(v);
    case Str(x) =>
      StrRoundTrip(x, rest);
  }

  /** The parser's verdict on a list or dictionary, given that on its contents. */
  lemma {:induction false} SkipNested(s: string, depth: nat)
    requires s != "" && s[0] in {'l', 'd'}
    ensures SkipAt(s, depth)
            == if depth > MAX_DEPTH then None
               else match if s[0] == 'l' then SkipItems(s[1..], depth + 1) else SkipPairs(s[1..], depth + 1)
                    case None => None
                    case Some(n) => Some(1 + n)
  {
    hide IntAt, StrAt, SkipItems, SkipPairs;
  }

  /** The parser takes exactly an encoding, whatever follows it, if the value fits; and refuses it
      otherwise. */
  lemma {:induction false} SkipRoundTrip(v: Value, depth: nat, rest: string)
    ensures SkipAt(Encode(v) + rest, depth) == if Fits(v, depth) then Some(|Encode(v)|) else None
    decreases v
  {
    hide SkipAt, Encode, EncodeItems, EncodePairs, ItemsFit, PairsFit;
    match v
    case Int(i) =>
      SkipScalar(v, depth, rest);
    case Str(x) =>
      SkipScalar(v, depth, rest);
    case List(items) =>
      ListShape(items, rest);
      SkipNested(Encode(v) + rest, depth);
      ItemsRoundTrip(items, depth + 1, "e" + rest);
    case Dict(pairs) =>
      DictShape(pairs, rest);
      SkipNested(Encode(v) + rest, depth);
      PairsRoundTrip(pairs, depth + 1, "e" + rest);
  }

  lemma IntNeedsI(v: Value)
    requires v.Int?
    ensures Encode(v)[0] == 'i'
  {
  }

  lemma {:induction false} ItemsRoundTrip(items: seq<Value>, depth: nat, rest: string)
    requires rest != "" && rest[0] == 'e'
    ensures SkipItems(EncodeItems(items) + rest, depth)
            == if ItemsFit(items, depth) then Some(|EncodeItems(items)| + 1) else None
    decreases items
  {
    hide Encode, SkipAt, Fits;
    var s := EncodeItems(items) + rest;
    if items == [] {
      assert s == rest;
    } else {
      var one, more := Encode(items[0]), EncodeItems(items[1..]);
      assert s == one + (more + rest);
      SkipRoundTrip(items[0], depth, more + rest);
      assert s[|one|..] == more + rest;
      ItemsRoundTrip(items[1..], depth, rest);
    }
  }

  lemma {:induction false} PairsRoundTrip(pairs: seq<(string, Value)>, depth: nat, rest: string)
    requires rest != "" && rest[0] == 'e'
    ensures SkipPairs(EncodePairs(pairs) + rest, depth)
            == if PairsFit(pairs, depth) then Some(|EncodePairs(pairs)| + 1) else None
    decreases pairs
  {
    hide *;
    if pairs == [] {
      PairsNone(pairs, depth, rest);
    } else {
      var key, one, more := EncodeStr(pairs[0].0), Encode(pairs[0].1), EncodePairs(pairs[1..]);
      assert pairs[0].1 < pairs[0];
      PairsSplit(pairs, depth);
      Cut(key, one, more, rest);
      StrRoundTrip(pairs[0].0, one + (more + rest));
      SkipRoundTrip(pairs[0].1, depth, more + rest);
      PairsRoundTrip(pairs[1..], depth, rest);
      PairStep(EncodePairs(pairs) + rest, |key|, |one|, depth);
    }
  }

  lemma Cut(a: string, b: string, c: string, d: string)
    ensures var s := a + b + c + d;
            && s == a + (b + (c + d))
            && s[|a|..] == b + (c + d)
            && s[|a| + |b|..] == c + d
            && (a != "" ==> s[0] == a[0])
  {
  }

  lemma {:induction false} PairsNone(pairs: seq<(string, Value)>, depth: nat, rest: string)
    requires pairs == [] && rest != "" && rest[0] == 'e'
    ensures EncodePairs(pairs) == "" && PairsFit(pairs, depth)
    ensures SkipPairs(EncodePairs(pairs) + rest, depth) == Some(1)
  {
  }

  lemma {:induction false} PairsSplit(pairs: seq<(string, Value)>, depth: nat)
    requires pairs != []
    ensures EncodePairs(pairs) == EncodeStr(pairs[0].0) + Encode(pairs[0].1) + EncodePairs(pairs[1..])
    ensures PairsFit(pairs, depth) <==>
              |pairs[0].0| <= SIZE_MAX && Fits(pairs[0].1, depth) && PairsFit(pairs[1..], depth)
  {
    hide Encode, EncodeStr, Fits;
    assert pairs[0].1 < pairs[0];
  }

  /** One turn of the dictionary loop. */
  lemma {:induction false} PairStep(s: string, k: nat, n: nat, depth: nat)
    requires s != "" && IsDigit(s[0]) && k + n <= |s|
    ensures StrAt(s).None? ==> SkipPairs(s, depth).None?
    ensures StrAt(s).Some? && StrAt(s).value.1 == k ==>
              && (SkipAt(s[k..], depth).None? ==> SkipPairs(s, depth).None?)
              && (SkipAt(s[k..], depth) == Some(n) ==>
                    SkipPairs(s, depth)
                    == match SkipPairs(s[k + n..], depth) case None => None case Some(m) => Some(k + n + m))
  {
    hide StrAt, SkipAt;
  }

  /** The node of a value. */
  function NodeOf(v: Value): (n: Node)
    ensures n.raw == Encode(v)
  {
    match v
    case Int(i) => Node(BeInt, Encode(v), i, "")
    case Str(s) => Node(BeStr, Encode(v), 0, s)
    case List(_) => Node(BeList, Encode(v), 0, "")
    case Dict(_) => Node(BeDict, Encode(v), 0, "")
  }

  /** `be_decode` on an encoding, whatever follows it. */
  lemma {:induction false} DecodeRoundTrip(v: Value, rest: string)
    ensures DecodeAt(Encode(v) + rest) == if Fits(v, 0) then Some(NodeOf(v)) else None
  {
    hide SkipAt, IntAt, StrAt, EncodeStr, EncodeItems, EncodePairs, ItemsFit, PairsFit;
    var s := Encode(v) + rest;
    assert s[..|Encode(v)|] == Encode(v);
    match v
    case Int(i) =>
      IntRoundTrip(i, rest);
      IntNeedsI(v);
    case Str(x) =>
      StrRoundTrip(x, rest);
    case List(_) =>
      SkipRoundTrip(v, 0, rest);
      assert s[0] == 'l';
    case Dict(_) =>
      SkipRoundTrip(v, 0, rest);
      assert s[0] == 'd';
  }

  lemma {:induction false} FitsShallower(v: Value, depth: nat)
    requires Fits(v, depth + 1)
    ensures Fits(v, depth)
    decreases v
  {
    match v
    case Int(_) =>
    case Str(_) =>
    case List(items) => ItemsFitShallower(items, depth + 1);
    case Dict(pairs) => PairsFitShallower(pairs, depth + 1);
  }

  lemma {:induction false} ItemsFitShallower(items: seq<Value>, depth: nat)
    requires ItemsFit(items, depth + 1)
    ensures ItemsFit(items, depth)
    decreases items
  {
    hide Fits;
    if items != [] {
      FitsShallower(items[0], depth);
      ItemsFitShallower(items[1..], depth);
    }
  }

  lemma {:induction false} PairsFitShallower(pairs: seq<(string, Value)>, depth: nat)
    requires PairsFit(pairs, depth + 1)
    ensures PairsFit(pairs, depth)
    decreases pairs
  {
    hide Fits;
    if pairs != [] {
      assert pairs[0].1 < pairs[0];
      FitsShallower(pairs[0].1, depth);
      PairsFitShallower(pairs[1..], depth);
    }
  }

  // ---------------------------------------------------------------------------------------------
  // Walking a decoded value with the two iterators gives back the tree.

  function ReadValue(n: Node): Value
    decreases |n.raw|, 0
  {
    match n.kind
    case BeInt => Int(n.ival)
    case BeStr => Str(n.sval)
    case BeList => if n.raw == "" then List([]) else List(ReadItems(n.raw[1..]))
    case BeDict => if n.raw == "" then Dict([]) else Dict(ReadPairs(n.raw[1..]))
  }

  /** `be_list_next` until it says no. */
  function ReadItems(s: string): seq<Value>
    decreases |s|, 1
  {
    if s == "" || s[0] == 'e' then []
    else
      match DecodeAt(s)
      case None => []
      case Some(n) => [ReadValue(n)] + ReadItems(s[|n.raw|..])
  }

  /** `be_dict_next` until it says no. */
  function ReadPairs(s: string): seq<(string, Value)>
    decreases |s|, 1
  {
    match EntryAt(s)
    case None => []
    case Some(e) => [(e.key, ReadValue(e.node))] + ReadPairs(s[e.used..])
  }

  lemma {:induction false} ReadItemsStep(s: string)
    ensures ReadItems(s)
            == if s == "" || s[0] == 'e' || DecodeAt(s).None? then []
               else [ReadValue(DecodeAt(s).value)] + ReadItems(s[|DecodeAt(s).value.raw|..])
  {
    hide DecodeAt, ReadValue;
  }

  /** Any value that fits, whatever follows its encoding, is decoded into the same tree. */
  lemma {:induction false} TreeRoundTrip(v: Value)
    requires Fits(v, 0)
    ensures ReadValue(NodeOf(v)) == v
    decreases v
  {
    hide Encode, EncodeItems, EncodePairs, ItemsFit, PairsFit, ReadItems, ReadPairs;
    assert Encode(v) + "" == Encode(v) && "e" + "" == "e";
    match v
    case Int(_) =>
    case Str(_) =>
    case List(items) =>
      ListShape(items, "");
      ItemsFitShallower(items, 0);
      ReadItemsRoundTrip(items, "e");
    case Dict(pairs) =>
      DictShape(pairs, "");
      PairsFitShallower(pairs, 0);
      ReadPairsRoundTrip(pairs, "e");
  }

  lemma {:induction false} ReadItemsRoundTrip(items: seq<Value>, rest: string)
    requires ItemsFit(items, 0) && rest != "" && rest[0] == 'e'
    ensures ReadItems(EncodeItems(items) + rest) == items
    decreases items
  {
    hide Encode, DecodeAt, Fits, ReadValue;
    var s := EncodeItems(items) + rest;
    if items == [] {
      assert s == rest;
    } else {
      var one, more := Encode(items[0]), EncodeItems(items[1..]);
      assert s == one + (more + rest);
      DecodeRoundTrip(items[0], more + rest);
      TreeRoundTrip(items[0]);
      assert s[|one|..] == more + rest;
      ReadItemsRoundTrip(items[1..], rest);
    }
  }

  lemma {:induction false} ReadPairsRoundTrip(pairs: seq<(string, Value)>, rest: string)
    requires PairsFit(pairs, 0) && rest != "" && rest[0] == 'e'
    ensures ReadPairs(EncodePairs(pairs) + rest) == pairs
    decreases pairs
  {
    hide *;
    if pairs == [] {
      NoEntries(pairs, rest);
    } else {
      assert pairs[0].1 < pairs[0];
      EntryRoundTrip(pairs, rest);
      TreeRoundTrip(pairs[0].1) by {
        PairsSplit(pairs, 0);
      }
      ReadPairsRoundTrip(pairs[1..], rest) by {
        PairsSplit(pairs, 0);
      }
      ReadPairsStep(EncodePairs(pairs) + rest);
      assert pairs == [(pairs[0].0, pairs[0].1)] + pairs[1..];
    }
  }

  lemma {:induction false} ReadPairsStep(s: string)
    requires EntryAt(s).Some?
    ensures var e := EntryAt(s).value; ReadPairs(s) == [(e.key, ReadValue(e.node))] + ReadPairs(s[e.used..])
  {
    hide EntryAt, ReadValue;
  }

  lemma {:induction false} NoEntries(pairs: seq<(string, Value)>, rest: string)
    requires pairs == [] && rest != "" && rest[0] == 'e'
    ensures EncodePairs(pairs) == "" && EntryAt(EncodePairs(pairs) + rest) == None
    ensures ReadPairs(EncodePairs(pairs) + rest) == [] && EntriesAt(EncodePairs(pairs) + rest) == []
  {
  }

  /** The first entry of a dictionary, and where the next begins. */
  lemma {:induction false} EntryRoundTrip(pairs: seq<(string, Value)>, rest: string)
    requires pairs != [] && PairsFit(pairs, 0)
    ensures var s := EncodePairs(pairs) + rest;
            var used := |EncodeStr(pairs[0].0)| + |Encode(pairs[0].1)|;
            && EntryAt(s) == Some(Entry(pairs[0].0, NodeOf(pairs[0].1), used))
            && s[used..] == EncodePairs(pairs[1..]) + rest
  {
    hide EncodePairs, Encode, EncodeStr, StrAt, DecodeAt, Fits, PairsFit, NodeOf;
    var key, one, more := EncodeStr(pairs[0].0), Encode(pairs[0].1), EncodePairs(pairs[1..]);
    PairsSplit(pairs, 0);
    Cut(key, one, more, rest);
    StrRoundTrip(pairs[0].0, one + (more + rest));
    DecodeRoundTrip(pairs[0].1, more + rest);
  }

  /** The entries of an encoded dictionary, as the iterator sees them. */
  function EntriesOf(pairs: seq<(string, Value)>): seq<Entry> {
    seq(|pairs|, i requires 0 <= i < |pairs| =>
      Entry(pairs[i].0, NodeOf(pairs[i].1), |EncodeStr(pairs[i].0)| + |Encode(pairs[i].1)|))
  }

  lemma {:induction false} EntriesRoundTrip(pairs: seq<(string, Value)>, rest: string)
    requires PairsFit(pairs, 0) && rest != "" && rest[0] == 'e'
    ensures EntriesAt(EncodePairs(pairs) + rest) == EntriesOf(pairs)
    decreases pairs
  {
    hide EncodePairs, PairsFit, EntryAt, NodeOf, Encode, EncodeStr, Fits;
    if pairs == [] {
      NoEntries(pairs, rest);
    } else {
      EntryRoundTrip(pairs, rest);
      PairsSplit(pairs, 0);
      EntriesRoundTrip(pairs[1..], rest);
      assert EntriesOf(pairs) == [EntriesOf(pairs)[0]] + EntriesOf(pairs[1..]);
    }
  }

  /** Looking a key up in an encoded dictionary: the first pair with that key, or none. */
  lemma {:induction false} LookupRoundTrip(pairs: seq<(string, Value)>, key: string, rest: string)
    requires Fits(Dict(pairs), 0)
    ensures var r := GetAt(Encode(Dict(pairs)) + rest, key);
            && (r.None? <==> forall i :: 0 <= i < |pairs| ==> pairs[i].0 != key)
            && (r.Some? ==> exists i :: 0 <= i < |pairs| && pairs[i].0 == key && r == Some(NodeOf(pairs[i].1))
                                        && forall j :: 0 <= j < i ==> pairs[j].0 != key)
  {
    hide EntriesAt, EncodePairs, NodeOf, EncodeStr, PairsFit;
    var s := Encode(Dict(pairs)) + rest;
    assert s[1..] == EncodePairs(pairs) + ("e" + rest);
    PairsFitShallower(pairs, 0);
    EntriesRoundTrip(pairs, "e" + rest);
    var entries := EntriesOf(pairs);
    assert GetAt(s, key) == FirstWith(entries, key);
    forall i | 0 <= i < |pairs|
      ensures entries[i].key == pairs[i].0 && entries[i].node == NodeOf(pairs[i].1)
    {
    }
    var r := FirstWith(entries, key);
    if r.None? {
      forall i | 0 <= i < |pairs|
        ensures pairs[i].0 != key
      {
        assert entries[i].key != key;
      }
    } else {
      var i :| 0 <= i < |entries| && entries[i].key == key && entries[i].node == r.value
               && forall j :: 0 <= j < i ==> entries[j].key != key;
      forall j | 0 <= j < i
        ensures pairs[j].0 != key
      {
        assert entries[j].key != key;
      }
      assert pairs[i].0 == key && r == Some(NodeOf(pairs[i].1));
    }
  }

  /** Encodings are prefix-free: a buffer begins with the encoding of at most one value that fits. */
  lemma {:induction false} EncodingUnique(v: Value, w: Value, x: string, y: string)
    requires Fits(v, 0) && Fits(w, 0) && Encode(v) + x == Encode(w) + y
    ensures v == w && x == y
  {
    hide Encode, Fits;
    DecodeRoundTrip(v, x);
    DecodeRoundTrip(w, y);
    TreeRoundTrip(v);
    TreeRoundTrip(w);
    assert x == (Encode(v) + x)[|Encode(v)|..];
    assert y == (Encode(w) + y)[|Encode(w)|..];
  }
}

/** The parser itself: a position moved through a buffer. */
module BencodeParser {
  import opened Options
  import opened Bencode

  lemma Tail(buf: string, p: nat, n: nat)
    requires p + n <= |buf|
    ensures buf[p..][n..] == buf[p + n..]
    ensures buf[p..][..n] == buf[p..p + n]
  {
  }

  lemma Slice(buf: string, p: nat, a: nat, b: nat)
    requires a <= b && p + b <= |buf|
    ensures buf[p..][a..b] == buf[p + a..p + b]
  {
  }

  /** One more digit. */
  lemma {:induction false} NumberSnoc(ds: string, c: char)
    ensures Number(ds + [c]) == 10 * Number(ds) + Digit(c)
  {
    assert (ds + [c])[..|ds|] == ds;
  }

  /** The run of digits in front of `p`, or the point where its value exceeds the bound. */
  method ScanNumber(buf: string, p: nat, bound: nat) returns (ok: bool, v: nat, q: nat)
    requires p <= |buf| && bound >= 9
    ensures p <= q <= |buf|
    ensures ok ==> q - p == DigitRun(buf[p..]) && v == Number(buf[p..q]) <= bound
    ensures !ok ==> Number(buf[p..][..DigitRun(buf[p..])]) > bound
  {
    hide Number, DigitRun;
    q, v := p, 0;
    EmptyNumber();
    assert buf[p..p] == "";
    while q < |buf| && IsDigit(buf[q])
      invariant p <= q <= |buf| && AllDigits(buf[p..q])
      invariant v == Number(buf[p..q]) <= bound
    {
      var d := Digit(buf[q]);
      assert buf[p..q + 1] == buf[p..q] + [buf[q]];
      NumberSnoc(buf[p..q], buf[q]);
      if v > (bound - d) / 10 {
        Overflows(buf, p, q + 1);
        return false, 0, q;
      }
      v := 10 * v + d;
      q := q + 1;
    }
    Tail(buf, p, q - p);
    DigitRunIs(buf[p..], q - p);
    return true, v, q;
  }

  lemma {:induction false} EmptyNumber()
    ensures Number("") == 0
  {
  }

  lemma {:induction false} RunAtLeast(s: string, k: nat)
    requires k <= |s| && AllDigits(s[..k])
    ensures DigitRun(s) >= k
  {
    if k > 0 {
      assert s[..k][0] == s[0];
      assert s[1..][..k - 1] == s[..k][1..];
      RunAtLeast(s[1..], k - 1);
    }
  }

  /** A run is worth at least what its beginning is worth. */
  lemma {:induction false} Overflows(buf: string, p: nat, q: nat)
    requires p <= q <= |buf| && AllDigits(buf[p..q])
    ensures Number(buf[p..][..DigitRun(buf[p..])]) >= Number(buf[p..q])
  {
    hide Number, DigitRun;
    var s := buf[p..];
    var n := DigitRun(s);
    Tail(buf, p, q - p);
    RunAtLeast(s, q - p);
    NumberGrows(s[..n], q - p);
    assert s[..n][..q - p] == s[..q - p];
  }

  /** An integer in front of `p`, by positions in the buffer. */
  lemma {:induction false} IntHere(buf: string, p: nat)
    requires p <= |buf|
    ensures p == |buf| || buf[p] != 'i' ==> IntAt(buf[p..]) == None
    ensures p < |buf| && buf[p] == 'i' ==>
              var s := if p + 1 < |buf| && buf[p + 1] == '-' then p + 2 else p + 1;
              var n := DigitRun(buf[s..]);
              var m := Number(buf[s..][..n]);
              IntAt(buf[p..]) == if n == 0 || m > INT64_MAX || s + n == |buf| || buf[s + n] != 'e' then None
                                 else Some((if s == p + 2 then -(m as int) else m, s + n + 1 - p))
  {
    hide Number, DigitRun;
    if p < |buf| && buf[p] == 'i' {
      var s := if p + 1 < |buf| && buf[p + 1] == '-' then p + 2 else p + 1;
      Tail(buf, p, s - p);
      var n := DigitRun(buf[s..]);
      Slice(buf, p, s - p, s - p + n);
      Slice(buf, s, 0, n);
    }
  }

  /** `parse_int`. */
  method ParseInt(buf: string, p: nat) returns (ok: bool, v: int, q: nat)
    requires p <= |buf|
    ensures p <= q <= |buf|
    ensures IntAt(buf[p..]) == if ok then Some((v, q - p)) else None
  {
    hide Number, DigitRun, IntAt;
    ok, v, q := false, 0, p;
    IntHere(buf, p);
    if p >= |buf| || buf[p] != 'i' {
      return;
    }
    var s := p + 1;
    var neg := false;
    if s < |buf| && buf[s] == '-' {
      neg := true;
      s := s + 1;
    }
    var fits, m, e := ScanNumber(buf, s, INT64_MAX);
    if !fits {
      return;
    }
    Slice(buf, s, 0, e - s);
    if e == s || e >= |buf| || buf[e] != 'e' {
      return;
    }
    ok, v, q := true, if neg then -(m as int) else m, e + 1;
  }

  /** `parse_str`. */
  method ParseStr(buf: string, p: nat) returns (ok: bool, v: string, q: nat)
    requires p <= |buf|
    ensures p <= q <= |buf|
    ensures StrAt(buf[p..]) == if ok then Some((v, q - p)) else None
  {
    hide Number, DigitRun;
    ok, v, q := false, "", p;
    var fits, len, s := ScanNumber(buf, p, SIZE_MAX);
    if !fits {
      return;
    }
    Tail(buf, p, s - p);
    if s == p || s >= |buf| || buf[s] != ':' {
      return;
    }
    s := s + 1;
    if |buf| - s < len {
      return;
    }
    Slice(buf, p, s - p, s - p + len);
    ok, v, q := true, buf[s..s + len], s + len;
  }

  /** `be_skip`: the position behind one value. */
  method Skip(buf: string, p: nat, depth: nat) returns (ok: bool, q: nat)
    requires p <= |buf|
    ensures p <= q <= |buf|
    ensures SkipAt(buf[p..], depth) == if ok then Some(q - p) else None
    decreases |buf| - p, 0
  {
    hide IntAt, StrAt, SkipItems, SkipPairs;
    ok, q := false, p;
    if p >= |buf| || depth > MAX_DEPTH {
      return;
    }
    var c := buf[p];
    Tail(buf, p, 1);
    if c == 'i' {
      var v;
      ok, v, q := ParseInt(buf, p);
    } else if IsDigit(c) {
      var v;
      ok, v, q := ParseStr(buf, p);
    } else if c == 'l' {
      ok, q := SkipList(buf, p + 1, depth + 1);
    } else if c == 'd' {
      ok, q := SkipDict(buf, p + 1, depth + 1);
    }
  }

  method SkipList(buf: string, p: nat, depth: nat) returns (ok: bool, q: nat)
    requires p <= |buf|
    ensures p <= q <= |buf|
    ensures SkipItems(buf[p..], depth) == if ok then Some(q - p) else None
    decreases |buf| - p, 1
  {
    hide SkipAt, SkipItems;
    ok, q := true, p;
    while q < |buf| && buf[q] != 'e'
      invariant p <= q <= |buf| && ok
      invariant SkipItems(buf[p..], depth)
                == match SkipItems(buf[q..], depth) case None => None case Some(n) => Some(q - p + n)
      decreases |buf| - q
    {
      var next;
      ItemsStep(buf[q..], depth);
      ok, next := Skip(buf, q, depth);
      if !ok {
        return;
      }
      Tail(buf, q, next - q);
      q := next;
    }
    ItemsEnd(buf[q..], depth);
    if q >= |buf| {
      return false, q;
    }
    q := q + 1;
  }

  lemma {:induction false} ItemsStep(s: string, depth: nat)
    requires s != "" && s[0] != 'e'
    ensures SkipItems(s, depth)
            == match SkipAt(s, depth)
               case None => None
               case Some(n) =>
                 match SkipItems(s[n..], depth) case None => None case Some(m) => Some(n + m)
  {
    hide SkipAt;
  }

  lemma {:induction false} ItemsEnd(s: string, depth: nat)
    requires s == "" || s[0] == 'e'
    ensures SkipItems(s, depth) == if s == "" then None else Some(1)
  {
  }

  method SkipDict(buf: string, p: nat, depth: nat) returns (ok: bool, q: nat)
    requires p <= |buf|
    ensures p <= q <= |buf|
    ensures SkipPairs(buf[p..], depth) == if ok then Some(q - p) else None
    decreases |buf| - p, 1
  {
    hide SkipAt, StrAt, SkipPairs;
    ok, q := true, p;
    while q < |buf| && buf[q] != 'e'
      invariant p <= q <= |buf| && ok
      invariant SkipPairs(buf[p..], depth)
                == match SkipPairs(buf[q..], depth) case None => None case Some(n) => Some(q - p + n)
      decreases |buf| - q
    {
      var key, k, next;
      PairsNeedKey(buf[q..], depth);
      ok, key, k := ParseStr(buf, q);
      if !ok {
        return;
      }
      Tail(buf, q, k - q);
      PairsNeedValue(buf[q..], k - q, depth);
      ok, next := Skip(buf, k, depth);
      if !ok {
        return;
      }
      Tail(buf, q, next - q);
      q := next;
    }
    PairsEnd(buf[q..], depth);
    if q >= |buf| {
      return false, q;
    }
    q := q + 1;
  }

  lemma {:induction false} PairsNeedKey(s: string, depth: nat)
    requires s != "" && s[0] != 'e'
    ensures StrAt(s).None? ==> SkipPairs(s, depth).None?
  {
    hide StrAt, SkipAt;
  }

  lemma {:induction false} PairsNeedValue(s: string, k: nat, depth: nat)
    requires s != "" && s[0] != 'e' && k <= |s| && StrAt(s).Some? && StrAt(s).value.1 == k
    ensures match SkipAt(s[k..], depth)
            case None => SkipPairs(s, depth).None?
            case Some(n) =>
              SkipPairs(s, depth)
              == match SkipPairs(s[k + n..], depth) case None => None case Some(m) => Some(k + n + m)
  {
    hide StrAt, SkipAt;
  }

  lemma {:induction false} PairsEnd(s: string, depth: nat)
    requires s == "" || s[0] == 'e'
    ensures SkipPairs(s, depth) == if s == "" then None else Some(1)
  {
  }

  /** `be_decode`. */
  method DecodeNode(buf: string, p: nat) returns (r: Option<Node>, q: nat)
    requires p <= |buf|
    ensures p <= q <= |buf| && r == DecodeAt(buf[p..])
    ensures r.Some? ==> q == p + |r.value.raw|
  {
    hide IntAt, StrAt, SkipAt;
    r, q := None, p;
    if p >= |buf| {
      return;
    }
    var c := buf[p];
    var ok, next;
    if c == 'i' {
      var v;
      ok, v, next := ParseInt(buf, p);
      if ok {
        Tail(buf, p, next - p);
        return Some(Node(BeInt, buf[p..next], v, "")), next;
      }
    } else if IsDigit(c) {
      var v;
      ok, v, next := ParseStr(buf, p);
      if ok {
        Tail(buf, p, next - p);
        return Some(Node(BeStr, buf[p..next], 0, v)), next;
      }
    } else if c == 'l' || c == 'd' {
      ok, next := Skip(buf, p, 0);
      if ok {
        Tail(buf, p, next - p);
        return Some(Node(if c == 'l' then BeList else BeDict, buf[p..next], 0, "")), next;
      }
    }
  }

  /** `be_list_next`. */
  method ListNext(buf: string, p: nat) returns (r: Option<Node>, q: nat)
    requires p <= |buf|
    ensures p <= q <= |buf|
    ensures r == if p < |buf| && buf[p] != 'e' then DecodeAt(buf[p..]) else None
    ensures r.Some? ==> q == p + |r.value.raw|
  {
    if p >= |buf| || buf[p] == 'e' {
      return None, p;
    }
    r, q := DecodeNode(buf, p);
  }

  /** A caller's loop over a list: the tree's items, in order. */
  method WalkItems(buf: string, p: nat) returns (items: seq<Value>)
    requires p <= |buf|
    ensures items == ReadItems(buf[p..])
  {
    hide DecodeAt, ReadValue, ReadItems;
    items := [];
    var q := p;
    while true
      invariant p <= q <= |buf| && items + ReadItems(buf[q..]) == ReadItems(buf[p..])
      decreases |buf| - q
    {
      ReadItemsStep(buf[q..]);
      var r, next := ListNext(buf, q);
      if r.None? {
        return;
      }
      Tail(buf, q, next - q);
      items := items + [ReadValue(r.value)];
      q := next;
    }
  }

  /** `be_dict_next`. */
  method DictNext(buf: string, p: nat) returns (r: Option<Entry>, q: nat)
    requires p <= |buf|
    ensures p <= q <= |buf| && r == EntryAt(buf[p..])
    ensures r.Some? ==> q == p + r.value.used
  {
    hide StrAt, DecodeAt;
    if p >= |buf| || buf[p] == 'e' {
      return None, p;
    }
    var ok, key, k := ParseStr(buf, p);
    if !ok {
      return None, p;
    }
    Tail(buf, p, k - p);
    var node;
    node, q := DecodeNode(buf, k);
    if node.None? {
      return None, q;
    }
    return Some(Entry(key, node.value, q - p)), q;
  }

  /** `be_dict_get`. */
  method DictGet(dict: string, key: string) returns (r: Option<Node>)
    ensures r == GetAt(dict, key)
  {
    hide EntryAt, EntriesAt, FirstWith;
    if dict == "" || dict[0] != 'd' {
      return None;
    }
    var p := 1;
    while true
      invariant 1 <= p <= |dict|
      invariant GetAt(dict, key) == FirstWith(EntriesAt(dict[p..]), key)
      decreases |dict| - p
    {
      LookupStep(dict[p..], key);
      var e, next := DictNext(dict, p);
      if e.None? {
        return None;
      }
      Tail(dict, p, next - p);
      if e.value.key == key {
        return Some(e.value.node);
      }
      p := next;
    }
  }

  lemma {:induction false} LookupStep(s: string, key: string)
    ensures FirstWith(EntriesAt(s), key)
            == match EntryAt(s)
               case None => None
               case Some(e) => if e.key == key then Some(e.node) else FirstWith(EntriesAt(s[e.used..]), key)
  {
    hide EntryAt;
    if EntryAt(s).Some? {
      var e := EntryAt(s).value;
      var more := EntriesAt(s[e.used..]);
      assert EntriesAt(s) == [e] + more;
      assert ([e] + more)[1..] == more;
    }
  }
}

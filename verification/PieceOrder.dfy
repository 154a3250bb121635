/** The order in which pieces are wanted: what a scan of all of it would find, and a cursor that spares
    the scan. */
module PieceOrder {
  import opened Options
  import opened PieceSlots

  /** An empty list means the pieces' own order. */
  function OrderCount(order: seq<nat>, pieces: nat): nat {
    if order == [] then pieces else |order|
  }

  function OrderAt(order: seq<nat>, pos: nat): nat
    requires order == [] || pos < |order|
  {
    if order == [] then pos else order[pos]
  }

  /** No piece is listed twice; numbers of no piece do not matter. */
  ghost predicate NoRepeats(order: seq<nat>, pieces: nat) {
    forall p, q :: 0 <= p < q < |order| && order[p] < pieces ==> order[p] != order[q]
  }

  /** Nothing left to do at this entry: no such piece, or done. */
  predicate Finished(slots: seq<Slot>, i: nat) {
    i >= |slots| || slots[i].state == Done
  }

  /** Everything in front of the cursor is finished. */
  ghost predicate CursorOk(order: seq<nat>, slots: seq<Slot>, cursor: nat) {
    && cursor <= OrderCount(order, |slots|)
    && forall p :: 0 <= p < cursor ==> Finished(slots, OrderAt(order, p))
  }

  /** Each piece's last position in the order, -1 if it has none. */
  ghost predicate LastPositions(order: seq<nat>, pieces: nat, pos: seq<int>) {
    && |pos| == pieces
    && forall i {:trigger pos[i]} :: 0 <= i < pieces ==>
         && -1 <= pos[i] < OrderCount(order, pieces)
         && (pos[i] >= 0 ==> OrderAt(order, pos[i]) == i)
         && forall p :: 0 <= p < OrderCount(order, pieces) && OrderAt(order, p) == i ==> p <= pos[i]
  }

  /** The table of positions, as the piece manager's constructor fills it in. */
  method PositionsOf(order: seq<nat>, pieces: nat) returns (pos: seq<int>)
    ensures LastPositions(order, pieces, pos)
  {
    if order == [] {
      return seq(pieces, i => i);
    }
    pos := seq(pieces, _ => -1);
    for n := 0 to |order|
      invariant |pos| == pieces
      invariant forall i {:trigger pos[i]} :: 0 <= i < pieces ==> -1 <= pos[i] < n
      invariant forall i {:trigger pos[i]} :: 0 <= i < pieces && pos[i] >= 0 ==> order[pos[i]] == i
      invariant forall p :: 0 <= p < n && order[p] < pieces ==> p <= pos[order[p]]
    {
      if order[n] < pieces {
        pos := pos[order[n] := n];
      }
    }
  }

  /** Finishing a piece never upsets the cursor. */
  lemma CursorFinish(order: seq<nat>, slots: seq<Slot>, cursor: nat, i: nat, s: Slot)
    requires CursorOk(order, slots, cursor) && i < |slots|
    requires s.state == Done || slots[i].state != Done
    ensures CursorOk(order, slots[i := s], cursor)
  {
    forall p | 0 <= p < cursor
      ensures Finished(slots[i := s], OrderAt(order, p))
    {
      assert Finished(slots, OrderAt(order, p));
    }
  }

  /** `order_cursor_rewind`: pulled back to the piece's position, the cursor is right again. */
  function Rewound(pos: int, cursor: nat): (c: nat)
    ensures c <= cursor
  {
    if pos != -1 && 0 <= pos < cursor then pos else cursor
  }

  lemma CursorRewind(order: seq<nat>, slots: seq<Slot>, cursor: nat, i: nat, s: Slot, pos: seq<int>)
    requires CursorOk(order, slots, cursor) && i < |slots|
    requires NoRepeats(order, |slots|) && LastPositions(order, |slots|, pos)
    ensures CursorOk(order, slots[i := s], Rewound(pos[i], cursor))
  {
    var c := Rewound(pos[i], cursor);
    forall p | 0 <= p < c
      ensures Finished(slots[i := s], OrderAt(order, p))
    {
      assert Finished(slots, OrderAt(order, p));
      assert pos[i] >= 0 ==> OrderAt(order, pos[i]) == i;
      assert OrderAt(order, p) != i;
    }
  }

  /** Taking a piece back leaves the cursor right. */
  ghost predicate RewindsWell(order: seq<nat>, pos: seq<int>, slots: seq<Slot>, cursor: nat, i: nat, s: Slot) {
    |slots| == |pos| && i < |pos| && CursorOk(order, slots, cursor)
    ==> CursorOk(order, slots[i := s], Rewound(pos[i], cursor))
  }

  /** The cursor is right after every taking back, whatever the pieces' states, exactly when no piece is
      listed twice. */
  lemma {:induction false} RewindExact(order: seq<nat>, pieces: nat, pos: seq<int>)
    requires LastPositions(order, pieces, pos)
    ensures NoRepeats(order, pieces) <==>
              forall slots, cursor: nat, i: nat, s :: RewindsWell(order, pos, slots, cursor, i, s)
  {
    if NoRepeats(order, pieces) {
      forall slots, cursor: nat, i: nat, s
        ensures RewindsWell(order, pos, slots, cursor, i, s)
      {
        if |slots| == pieces && i < pieces && CursorOk(order, slots, cursor) {
          CursorRewind(order, slots, cursor, i, s, pos);
        }
      }
    } else {
      var p, q :| 0 <= p < q < |order| && order[p] < pieces && order[p] == order[q];
      var i, cursor := order[p], OrderCount(order, pieces);
      var done, blank := Slot(Done, None, [], 0, []), Slot(Empty, None, [], 0, []);
      var slots := seq(pieces, _ => done);
      assert CursorOk(order, slots, cursor);
      assert OrderAt(order, q) == i && q <= pos[i];
      assert !Finished(slots[i := blank], OrderAt(order, p));
      assert !RewindsWell(order, pos, slots, cursor, i, blank);
    }
  }

  // ---------------------------------------------------------------------------------------------
  // What a scan finds.

  /** The first unfinished piece from a position on. */
  function HeadFrom(order: seq<nat>, slots: seq<Slot>, from: nat): (r: Option<nat>)
    ensures r.Some? ==> r.value < |slots| && slots[r.value].state != Done
    decreases OrderCount(order, |slots|) - from
  {
    if from >= OrderCount(order, |slots|) then None
    else
      var i := OrderAt(order, from);
      if Finished(slots, i) then HeadFrom(order, slots, from + 1) else Some(i)
  }

  /** The unfinished pieces from a position on, up to the first that may not be requested and no more
      than `k` of them. */
  function Window(order: seq<nat>, slots: seq<Slot>, allowed: nat -> bool, from: nat, k: nat): (w: seq<nat>)
    ensures |w| <= k
    decreases OrderCount(order, |slots|) - from
  {
    if from >= OrderCount(order, |slots|) then []
    else
      var i := OrderAt(order, from);
      if Finished(slots, i) then Window(order, slots, allowed, from + 1, k)
      else if !allowed(i) || k == 0 then []
      else [i] + Window(order, slots, allowed, from + 1, k - 1)
  }

  lemma {:induction false} HeadSkips(order: seq<nat>, slots: seq<Slot>, cursor: nat, from: nat)
    requires CursorOk(order, slots, cursor) && from <= cursor
    ensures HeadFrom(order, slots, from) == HeadFrom(order, slots, cursor)
    decreases cursor - from
  {
    if from < cursor {
      assert Finished(slots, OrderAt(order, from));
      HeadSkips(order, slots, cursor, from + 1);
    }
  }

  /** Starting at the cursor sees the same window as starting at the front. */
  lemma {:induction false} WindowSkips(order: seq<nat>, slots: seq<Slot>, allowed: nat -> bool, cursor: nat,
      from: nat, k: nat)
    requires CursorOk(order, slots, cursor) && from <= cursor
    ensures Window(order, slots, allowed, from, k) == Window(order, slots, allowed, cursor, k)
    decreases cursor - from
  {
    if from < cursor {
      assert Finished(slots, OrderAt(order, from));
      WindowSkips(order, slots, allowed, cursor, from + 1, k);
    }
  }

  predicate Requestable(s: Slot) {
    exists b :: 0 <= b < |s.blocks| && b < |s.requests| && !s.blocks[b] && s.requests[b] == 0
  }

  /** A piece begun, with a block that nobody was asked for. */
  predicate Resumable(slots: seq<Slot>, has: nat -> bool, i: nat) {
    i < |slots| && has(i) && slots[i].state == Pending && Requestable(slots[i])
  }

  /** A piece not begun. */
  predicate Startable(slots: seq<Slot>, has: nat -> bool, i: nat) {
    i < |slots| && has(i) && slots[i].state == Empty
  }

  /** Worth requesting from: a piece begun, or one not begun. */
  predicate Good(slots: seq<Slot>, has: nat -> bool, begun: bool, i: nat) {
    if begun then Resumable(slots, has, i) else Startable(slots, has, i)
  }

  /** The first such piece. */
  function First(w: seq<nat>, slots: seq<Slot>, has: nat -> bool, begun: bool): Option<nat> {
    if w == [] then None
    else if Good(slots, has, begun, w[0]) then Some(w[0])
    else First(w[1..], slots, has, begun)
  }

  lemma {:induction false} FirstIs(w: seq<nat>, slots: seq<Slot>, has: nat -> bool, begun: bool)
    ensures var r := First(w, slots, has, begun);
            && (r.Some? ==> exists j :: 0 <= j < |w| && w[j] == r.value && Good(slots, has, begun, w[j])
                                        && forall k :: 0 <= k < j ==> !Good(slots, has, begun, w[k]))
            && (r.None? <==> forall j :: 0 <= j < |w| ==> !Good(slots, has, begun, w[j]))
  {
    hide Good;
    if w != [] {
      if Good(slots, has, begun, w[0]) {
        assert First(w, slots, has, begun) == Some(w[0]);
      } else {
        FirstIs(w[1..], slots, has, begun);
        assert forall j :: 1 <= j < |w| ==> w[j] == w[1..][j - 1];
        var r := First(w[1..], slots, has, begun);
        if r.Some? {
          var j :| 0 <= j < |w[1..]| && w[1..][j] == r.value && Good(slots, has, begun, w[1..][j])
                   && forall k :: 0 <= k < j ==> !Good(slots, has, begun, w[1..][k]);
          assert w[j + 1] == r.value;
          assert forall k :: 1 <= k < j + 1 ==> w[k] == w[1..][k - 1];
        }
      }
    }
  }

  /** One entry of the order further. */
  lemma {:induction false} WindowStep(order: seq<nat>, slots: seq<Slot>, allowed: nat -> bool, from: nat, k: nat)
    ensures Window(order, slots, allowed, from, k)
            == if from >= OrderCount(order, |slots|) then []
               else if Finished(slots, OrderAt(order, from)) then Window(order, slots, allowed, from + 1, k)
               else if !allowed(OrderAt(order, from)) || k == 0 then []
               else [OrderAt(order, from)] + Window(order, slots, allowed, from + 1, k - 1)
  {
  }

  lemma FirstNothing(slots: seq<Slot>, has: nat -> bool, begun: bool)
    ensures First([], slots, has, begun) == None
  {
  }

  lemma {:induction false} FirstSnoc(w: seq<nat>, i: nat, slots: seq<Slot>, has: nat -> bool, begun: bool)
    ensures First(w + [i], slots, has, begun)
            == if First(w, slots, has, begun).Some? then First(w, slots, has, begun)
               else if Good(slots, has, begun, i) then Some(i) else None
    decreases |w|
  {
    hide Good;
    if w == [] {
      assert w + [i] == [i];
    } else {
      assert (w + [i])[1..] == w[1..] + [i];
      FirstSnoc(w[1..], i, slots, has, begun);
    }
  }

  lemma {:induction false} FirstGrows(w: seq<nat>, more: seq<nat>, slots: seq<Slot>, has: nat -> bool, begun: bool)
    requires First(w, slots, has, begun).Some?
    ensures First(w + more, slots, has, begun) == First(w, slots, has, begun)
    decreases |w|
  {
    hide Good;
    if !Good(slots, has, begun, w[0]) {
      assert (w + more)[1..] == w[1..] + more;
      FirstGrows(w[1..], more, slots, has, begun);
    }
  }

  /** What the strict picker is to choose from a window. */
  function Choice(w: seq<nat>, slots: seq<Slot>, has: nat -> bool, fillFirst: bool): Option<nat> {
    var begun := First(w, slots, has, true);
    var unbegun := First(w, slots, has, false);
    if fillFirst then if begun.Some? then begun else unbegun
    else if unbegun.Some? then unbegun else begun
  }

  /** A candidate of the preferred kind settles the choice, whatever comes later in the window. */
  lemma {:induction false} ChoiceSettled(seen: seq<nat>, rest: seq<nat>, slots: seq<Slot>, has: nat -> bool,
      fillFirst: bool)
    requires First(seen, slots, has, fillFirst).Some?
    ensures Choice(seen + rest, slots, has, fillFirst) == First(seen, slots, has, fillFirst)
  {
    hide First;
    FirstGrows(seen, rest, slots, has, fillFirst);
  }

  /** With no candidate of the preferred kind, the other kind is chosen. */
  lemma {:induction false} ChoiceOpen(w: seq<nat>, slots: seq<Slot>, has: nat -> bool, fillFirst: bool)
    requires First(w, slots, has, fillFirst).None?
    ensures Choice(w, slots, has, fillFirst) == First(w, slots, has, !fillFirst)
  {
    hide First;
  }

  /** `slot_has_requestable_block`. */
  method HasRequestable(s: Slot) returns (r: bool)
    requires |s.blocks| == |s.requests|
    ensures r <==> Requestable(s)
  {
    for b := 0 to |s.blocks|
      invariant forall c :: 0 <= c < b ==> s.blocks[c] || s.requests[c] != 0
    {
      if !s.blocks[b] && s.requests[b] == 0 {
        return true;
      }
    }
    return false;
  }

  /** One more piece of the window against the candidates so far. */
  method Consider(slots: seq<Slot>, has: nat -> bool, ghost seen: seq<nat>, i: nat, begun: Option<nat>,
      unbegun: Option<nat>)
    returns (begun': Option<nat>, unbegun': Option<nat>)
    requires i < |slots| && |slots[i].blocks| == |slots[i].requests|
    requires begun == First(seen, slots, has, true) && unbegun == First(seen, slots, has, false)
    ensures begun' == First(seen + [i], slots, has, true) && unbegun' == First(seen + [i], slots, has, false)
  {
    hide Requestable, First;
    FirstSnoc(seen, i, slots, has, true);
    FirstSnoc(seen, i, slots, has, false);
    begun', unbegun' := begun, unbegun;
    if has(i) {
      var requestable := HasRequestable(slots[i]);
      if slots[i].state == Pending && requestable && begun == None {
        begun' := Some(i);
      } else if slots[i].state == Empty && unbegun == None {
        unbegun' := Some(i);
      }
    }
  }

  /** The strict picker's loop, from a position on. */
  method PickFrom(order: seq<nat>, slots: seq<Slot>, has: nat -> bool, allowed: nat -> bool, from: nat, k: nat,
      fillFirst: bool)
    returns (r: Option<nat>)
    requires forall i :: 0 <= i < |slots| ==> |slots[i].blocks| == |slots[i].requests|
    ensures r == Choice(Window(order, slots, allowed, from, k), slots, has, fillFirst)
  {
    hide First, Window, Choice, Requestable;
    FirstNothing(slots, has, true);
    FirstNothing(slots, has, false);
    ghost var whole := Window(order, slots, allowed, from, k);
    ghost var seen: seq<nat> := [];
    var begun: Option<nat>, unbegun: Option<nat> := None, None;
    var n, unfinished := from, 0;
    assert seen + whole == whole;
    while n < OrderCount(order, |slots|)
      invariant unfinished == |seen| <= k
      invariant seen + Window(order, slots, allowed, n, k - unfinished) == whole
      invariant begun == First(seen, slots, has, true) && unbegun == First(seen, slots, has, false)
      invariant if fillFirst then begun == None else unbegun == None
    {
      WindowStep(order, slots, allowed, n, k - unfinished);
      var i := OrderAt(order, n);
      if Finished(slots, i) {
        n := n + 1;
        continue;
      }
      if !allowed(i) || unfinished >= k {
        break;
      }
      n := n + 1;
      unfinished := unfinished + 1;
      Shift(seen, i, Window(order, slots, allowed, n, k - unfinished));
      begun, unbegun := Consider(slots, has, seen, i, begun, unbegun);
      seen := seen + [i];
      if (if fillFirst then begun else unbegun).Some? {
        ChoiceSettled(seen, Window(order, slots, allowed, n, k - unfinished), slots, has, fillFirst);
        return if fillFirst then begun else unbegun;
      }
    }
    WindowStep(order, slots, allowed, n, k - unfinished);
    assert seen + [] == seen;
    ChoiceOpen(seen, slots, has, fillFirst);
    r := if begun.Some? then begun else unbegun;
  }

  lemma Shift(seen: seq<nat>, i: nat, rest: seq<nat>)
    ensures (seen + [i]) + rest == seen + ([i] + rest)
  {
  }

  /** A case where the cursor misjudges the head of the download: with a piece listed twice, rewinding to
      its last position alone leaves an unfinished piece in front of the cursor. */
  lemma {:induction false} RepeatsMislead()
    ensures var order: seq<nat> := [0, 1, 0];
            var done := Slot(Done, None, [true], 1, [0]);
            var slots := [Cleared(done), Cleared(done)];
            && CursorOk(order, [done, done], 3)
            // piece 0 reset first, its last position being 2; then piece 1, at position 1
            && !CursorOk(order, slots, Rewound(1, Rewound(2, 3)))
            && HeadFrom(order, slots, 0) == Some(0)
            && HeadFrom(order, slots, Rewound(1, Rewound(2, 3))) == Some(1)
  {
    var order: seq<nat> := [0, 1, 0];
    var done := Slot(Done, None, [true], 1, [0]);
    var slots := [Cleared(done), Cleared(done)];
    assert !Finished(slots, OrderAt(order, 0));
  }
}

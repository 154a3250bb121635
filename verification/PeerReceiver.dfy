/** The receive buffer itself: a linear array with a read cursor, compacted when its tail runs out,
    bytes decrypted in place once, and the state machine that works on it. */
module PeerReceiver {
  import opened Octets
  import Rc4
  import Mse
  import opened PeerRecv

  class Receiver {
    const rbuf: array<Byte>
    const mse: Mse.MseClient
    var head: nat
    var len: nat
    var mseActive: bool
    var phase: Phase
    var hello: Bytes
    var log: seq<Bytes>
    var reply: Bytes

    ghost predicate Shape()
      reads this, mse, mse.sendRc4, mse.recvRc4
    {
      && rbuf.Length == CAPACITY && head <= len <= CAPACITY
      && mse.Valid()
      && rbuf != mse.sendRc4.s && rbuf != mse.recvRc4.s
    }

    ghost function Pending(): Bytes
      requires head <= len <= rbuf.Length
      reads this, rbuf
    {
      rbuf[head..len]
    }

    ghost function Abstract(): Conn
      requires Shape()
      reads this, rbuf, mse, mse.sendRc4, mse.recvRc4, mse.sendRc4.s, mse.recvRc4.s
    {
      Conn(Parse(phase, hello, log), mse.Abstract(), mseActive, Pending(), reply)
    }

    ghost predicate Valid()
      reads this, rbuf, mse, mse.sendRc4, mse.recvRc4, mse.sendRc4.s, mse.recvRc4.s
    {
      Shape() && Sane(Abstract())
    }

    constructor (encrypting: bool)
      ensures Valid() && Abstract() == Fresh(encrypting)
      ensures fresh(rbuf) && fresh(mse) && fresh(mse.sendRc4) && fresh(mse.recvRc4)
      ensures fresh(mse.sendRc4.s) && fresh(mse.recvRc4.s)
    {
      hide Mse.Start;
      rbuf := new Byte[CAPACITY](_ => 0);
      mse := new Mse.MseClient();
      head, len, mseActive := 0, 0, false;
      phase := if encrypting then Encrypting else Handshake;
      hello, log, reply := [], [], [];
    }

    /** The `memmove` to the front. */
    method Compact()
      requires head <= len <= rbuf.Length
      modifies this`head, this`len, rbuf
      ensures head == 0 && len == old(len - head) && Pending() == old(Pending())
    {
      forall k | 0 <= k < len - head {
        rbuf[k] := rbuf[head + k];
      }
      len := len - head;
      head := 0;
    }

    /** A buffer with nothing unread starts over at the front. */
    method Rewind()
      requires head <= len <= rbuf.Length
      modifies this`head, this`len
      ensures head <= len <= old(len) && Pending() == old(Pending())
      ensures old(head) == old(len) ==> head == len == 0
      ensures old(head) < old(len) ==> head == old(head) && len == old(len)
    {
      if head == len {
        head, len := 0, 0;
      }
    }

    /** Writes `data` behind the unread bytes, decrypted if the cipher is on. */
    method Store(data: Bytes)
      requires Valid() && len + |data| <= CAPACITY
      modifies this`len, rbuf, mse.recvRc4, mse.recvRc4.s
      ensures Valid() && Abstract() == Take(old(Abstract()), data)
      ensures head == old(head) && len == old(len) + |data|
    {
      hide Rc4.Crypt, Rc4.After, Sane;
      var plain := data;
      ghost var was := Abstract();
      if mseActive {
        plain := mse.recvRc4.Encrypt(data);
      }
      Write(plain);
      assert Abstract() == Take(was, data);
    }

    method Write(data: Bytes)
      requires head <= len <= len + |data| <= rbuf.Length
      modifies this`len, rbuf
      ensures len == old(len) + |data| && Pending() == old(Pending()) + data
    {
      forall k | 0 <= k < |data| {
        rbuf[len + k] := data[k];
      }
      len := len + |data|;
    }

    /** `peer_rbuf_space`. */
    method Space() returns (n: nat)
      requires Shape()
      ensures n == CAPACITY - |Pending()|
    {
      n := CAPACITY - (len - head);
    }

    /** `peer_rbuf_append`: takes all of the data, or none of it when it exceeds the space reported. */
    method Append(data: Bytes) returns (ok: bool)
      requires Valid()
      modifies this`head, this`len, rbuf, mse.recvRc4, mse.recvRc4.s
      ensures Valid()
      ensures ok <==> |old(Pending())| + |data| <= CAPACITY
      ensures Abstract() == if ok then Take(old(Abstract()), data) else old(Abstract())
    {
      hide Sane, Take;
      if |data| == 0 {
        TakeNothing(Abstract());
        return true;
      }
      Rewind();
      if CAPACITY - len < |data| && head > 0 {
        Compact();
      }
      if |data| > CAPACITY - len {
        return false;
      }
      Store(data);
      ok := true;
    }

    /** Feeds the handshake machine and drops what it used. */
    method FeedMse(env: Mse.Env)
      requires Shape()
      modifies this`head, this`reply
      modifies mse, mse.sendRc4, mse.recvRc4, mse.sendRc4.s, mse.recvRc4.s
      ensures Shape()
      ensures var r := Mse.Feed(env, old(mse.Abstract()), old(Pending()));
              && mse.Abstract() == r.c && Pending() == old(Pending())[r.used..]
              && reply == old(reply) + r.out
    {
      hide Mse.Feed;
      ghost var was := Pending();
      var used, out := mse.FeedBytes(env, rbuf[head..len]);
      head := head + used;
      reply := reply + out;
      assert Pending() == was[used..];
    }

    /** The encrypted handshake's turn. */
    method Handshaking(env: Mse.Env)
      requires Valid()
      modifies this`head, this`reply, this`phase, this`mseActive, rbuf
      modifies mse, mse.sendRc4, mse.recvRc4, mse.sendRc4.s, mse.recvRc4.s
      ensures Valid() && Abstract() == Negotiate(env, old(Abstract()))
    {
      hide Rc4.Crypt, Rc4.After, Mse.Feed, Sane, Mse.Sane;
      ghost var was := Abstract();
      if phase != Encrypting {
        return;
      }
      FeedMse(env);
      if mse.phase == Mse.Fail {
        phase := Dead;
        assert Abstract() == Negotiate(env, was);
      } else if mse.phase == Mse.Done {
        mseActive := true;
        phase := Handshake;
        DecryptUnread();
        assert Abstract() == Negotiate(env, was);
      } else {
        assert Abstract() == Negotiate(env, was);
      }
    }

    /** What was buffered before the cipher was on is decrypted where it lies. */
    method DecryptUnread()
      requires Shape()
      modifies rbuf, mse.recvRc4, mse.recvRc4.s
      ensures Shape() && Pending() == Rc4.Crypt(old(mse.recvRc4.Abstract()), old(Pending()))
      ensures mse.recvRc4.Abstract() == Rc4.After(old(mse.recvRc4.Abstract()), |Pending()|)
      ensures mse.Abstract() == old(mse.Abstract()).(recv := mse.recvRc4.Abstract())
    {
      hide Rc4.Crypt, Rc4.After;
      var plain := mse.recvRc4.Encrypt(rbuf[head..len]);
      forall k | head <= k < len {
        rbuf[k] := plain[k - head];
      }
    }

    /** `process_handshake`. */
    method Greeting(rules: Rules)
      requires head <= len <= rbuf.Length && WellFormed(rules)
      modifies this`head, this`phase, this`hello
      ensures var r := Greet(rules, old(Parse(phase, hello, log)), old(Pending()));
              Parse(phase, hello, log) == r.0 && head == old(head) + r.1 <= len
    {
      if phase != Handshake || len - head < HANDSHAKE_LEN {
        return;
      }
      var hs := rbuf[head..head + HANDSHAKE_LEN];
      assert hs == rbuf[head..len][..HANDSHAKE_LEN];
      assert hs[..20] == rbuf[head..len][..20] && hs[28..48] == rbuf[head..len][28..48];
      if hs[..20] != rules.protocol || hs[28..48] != rules.infoHash {
        phase := Dead;
        return;
      }
      head := head + HANDSHAKE_LEN;
      phase, hello := Active, hs;
    }

    /** `process_message`: false when it has to wait or gives the peer up. */
    method OneMessage(rules: Rules) returns (more: bool)
      requires head <= len <= rbuf.Length && phase == Active
      modifies this`head, this`phase, this`log
      ensures var r := Message(rules, old(Parse(phase, hello, log)), old(Pending()));
              && Parse(phase, hello, log) == r.0 && head == old(head) + r.1 <= len
              && (more <==> r.1 > 0)
    {
      hide Be32;
      var avail := len - head;
      if avail < 4 {
        return false;
      }
      var v := rbuf[head..len];
      var size := Be32(v[..4]);
      if size > MAX_MESSAGE {
        phase := Dead;
        return false;
      }
      if avail < 4 + size {
        return false;
      }
      if size == 0 {
        head := head + 4;
        return true;
      }
      log := log + [v[4..4 + size]];
      if rules.fatal(log) {
        phase := Dead;
        return false;
      }
      head := head + 4 + size;
      return true;
    }

    /** The dispatch loop. */
    method Dispatch(rules: Rules)
      requires head <= len <= rbuf.Length
      modifies this`head, this`phase, this`log
      ensures var r := Messages(rules, old(Parse(phase, hello, log)), old(Pending()));
              Parse(phase, hello, log) == r.0 && head == old(head) + r.1 <= len
    {
      hide Message;
      ghost var p, v := Parse(phase, hello, log), Pending();
      while phase == Active
        invariant head <= len && old(head) <= head
        invariant Messages(rules, p, v)
                  == var r := Messages(rules, Parse(phase, hello, log), Pending()); (r.0, head - old(head) + r.1)
        decreases len - head, phase == Active
      {
        ghost var was, h := Pending(), head;
        var more := OneMessage(rules);
        if !more {
          break;
        }
        assert Pending() == was[head - h..];
      }
    }

    /** `peer_process`: false when the peer is given up. */
    method ProcessAll(env: Mse.Env, rules: Rules) returns (ok: bool)
      requires Valid() && phase != Dead && WellFormed(rules)
      modifies this, rbuf, mse, mse.sendRc4, mse.recvRc4, mse.sendRc4.s, mse.recvRc4.s
      ensures Valid() && Abstract() == Process(env, rules, old(Abstract()))
      ensures ok <==> phase != Dead
      ensures ok ==> |Pending()| < CAPACITY
    {
      hide Sane, Negotiate, Settle, Mse.MseClient.Valid, Mse.MseClient.Abstract;
      ProcessedIsShort(env, rules, Abstract());
      Handshaking(env);
      if phase == Dead {
        SettleDead(rules, Abstract());
        return false;
      }
      Settling(rules);
      ok := phase != Dead;
      if ok {
        Rewind();
      }
    }

    /** The parser's turn. */
    method Settling(rules: Rules)
      requires Valid() && WellFormed(rules)
      modifies this`head, this`phase, this`log, this`hello
      ensures Valid() && Abstract() == Settle(rules, old(Abstract()))
    {
      hide Plain, Sane, Mse.Sane, Settle, Mse.MseClient.Valid, Mse.MseClient.Abstract;
      SettleIs(rules, Abstract());
      if phase != Encrypting {
        Parsing(rules);
      }
    }

    /** Handshake, then messages. */
    method Parsing(rules: Rules)
      requires Shape() && WellFormed(rules)
      modifies this`head, this`phase, this`log, this`hello
      ensures Shape()
      ensures var r := Plain(rules, old(Parse(phase, hello, log)), old(Pending()));
              Parse(phase, hello, log) == r.0 && Pending() == old(Pending())[r.1..]
    {
      hide Plain;
      ghost var v, h := Pending(), head;
      Reading(rules);
      assert Pending() == v[head - h..];
    }

    /** The same on the bare buffer: how far it was read. */
    method Reading(rules: Rules)
      requires head <= len <= rbuf.Length && WellFormed(rules)
      modifies this`head, this`phase, this`log, this`hello
      ensures var r := Plain(rules, old(Parse(phase, hello, log)), old(Pending()));
              Parse(phase, hello, log) == r.0 && head == old(head) + r.1 <= len
    {
      hide Greet, Messages;
      ghost var v, h := Pending(), head;
      Greeting(rules);
      assert Pending() == v[head - h..];
      Dispatch(rules);
    }

    /** One arrival: store it, process it. */
    method Receive(env: Mse.Env, rules: Rules, chunk: Bytes) returns (ok: bool)
      requires Valid() && phase != Dead && WellFormed(rules) && len + |chunk| <= CAPACITY
      modifies this, rbuf, mse, mse.sendRc4, mse.recvRc4, mse.sendRc4.s, mse.recvRc4.s
      ensures Valid() && Abstract() == Arrive(env, rules, old(Abstract()), chunk)
      ensures ok <==> phase != Dead
      ensures ok ==> |Pending()| < CAPACITY
    {
      hide Sane, Process, Take;
      TakePhase(Abstract(), chunk);
      Store(chunk);
      ok := ProcessAll(env, rules);
    }

    /** `peer_recv` on a connected socket that has `data` for us before it would block, in portions of
        the kernel's choosing. The buffer is never full: the only ways to lose the peer are the stream's
        end and the peer's own bytes. `chunks` is how the data was cut. */
    method Recv(env: Mse.Env, rules: Rules, data: Bytes, eof: bool) returns (ok: bool, ghost chunks: seq<Bytes>)
      requires Valid() && phase != Dead && WellFormed(rules)
      modifies this, rbuf, mse, mse.sendRc4, mse.recvRc4, mse.sendRc4.s, mse.recvRc4.s
      ensures Valid() && Abstract() == Run(env, rules, old(Abstract()), chunks)
      ensures chunks != [] && Flatten(chunks) <= data
      ensures phase != Dead ==> Flatten(chunks) == data
      ensures ok <==> phase != Dead && !eof
    {
      hide Sane, Arrive, Flatten, Run, Mse.MseClient.Valid, Mse.MseClient.Abstract;
      ghost var c := Abstract();
      var taken := 0;
      ok := Receive(env, rules, []);
      chunks := [[]];
      FirstChunk(env, rules, c);
      while ok
        invariant taken <= |data| && Valid() && chunks != []
        invariant Flatten(chunks) == data[..taken]
        invariant ok <==> phase != Dead
        invariant ok ==> |Pending()| < CAPACITY
        invariant Abstract() == Run(env, rules, c, chunks)
        decreases |data| - taken, ok
      {
        if len == CAPACITY {
          Compact();
        }
        if taken == |data| {
          return !eof, chunks;
        }
        var n: nat :| 1 <= n <= CAPACITY - len && n <= |data| - taken;
        var chunk := data[taken..taken + n];
        NextChunk(env, rules, c, chunks, chunk);
        assert data[..taken] + chunk == data[..taken + n];
        chunks := chunks + [chunk];
        taken := taken + n;
        ok := Receive(env, rules, chunk);
      }
    }
  }

  lemma {:induction false} FirstChunk(env: Mse.Env, rules: Rules, c: Conn)
    requires Sane(c) && WellFormed(rules)
    ensures Flatten([[]]) == [] && Run(env, rules, c, [[]]) == Arrive(env, rules, c, [])
  {
    hide Arrive;
    var one: seq<Bytes> := [[]];
    assert one[..0] == [];
    assert Run(env, rules, c, one[..0]) == c;
    assert Flatten(one[..0]) == [];
  }

  lemma {:induction false} NextChunk(env: Mse.Env, rules: Rules, c: Conn, chunks: seq<Bytes>, chunk: Bytes)
    requires Sane(c) && WellFormed(rules)
    ensures Flatten(chunks + [chunk]) == Flatten(chunks) + chunk
    ensures Run(env, rules, c, chunks + [chunk]) == Arrive(env, rules, Run(env, rules, c, chunks), chunk)
  {
    hide Arrive, Flatten;
    FlattenSnoc(chunks, chunk);
    assert (chunks + [chunk])[..|chunks|] == chunks;
  }

  lemma {:induction false} SettleIs(rules: Rules, c: Conn)
    requires Sane(c) && WellFormed(rules)
    ensures var r := Plain(rules, c.parse, c.pending);
            Settle(rules, c)
            == if c.parse.phase == Encrypting then c else c.(parse := r.0, pending := c.pending[r.1..])
  {
    hide Plain;
  }

  lemma {:induction false} SettleDead(rules: Rules, c: Conn)
    requires Sane(c) && WellFormed(rules) && c.parse.phase == Dead
    ensures Settle(rules, c) == c
  {
    hide Plain;
    PlainIdle(rules, c.parse, c.pending);
  }

  lemma {:induction false} TakeNothing(c: Conn)
    requires Sane(c)
    ensures Take(c, []) == c
  {
  }
}

/** The receiving half of a peer connection: bytes arrive in arbitrary pieces, are decrypted once, and
    are cut into a handshake and length-prefixed messages. */
module PeerRecv {
  import opened Octets
  import Rc4
  import Mse
  import S = PeerSend

  const HANDSHAKE_LEN := 68
  const MAX_MESSAGE := 0x4_0000
  const CAPACITY := 256 * 1024 + 4

  datatype Phase = Encrypting | Handshake | Active | Dead

  /** What a connection is checked against: the protocol string, the torrent's hash, and whether the
      messages handled so far (the last one included) make the handler give the peer up. */
  datatype Rules = Rules(protocol: Bytes, infoHash: Bytes, fatal: seq<Bytes> -> bool)

  /** What has been recognised on the plain stream: the accepted handshake, the messages dispatched. */
  datatype Parse = Parse(phase: Phase, hello: Bytes, log: seq<Bytes>)

  ghost predicate WellFormed(rules: Rules) {
    |rules.protocol| == 20 && |rules.infoHash| == 20
  }

  /** `process_handshake`: bytes used, with the parse after it. */
  function Greet(rules: Rules, p: Parse, v: Bytes): (r: (Parse, nat))
    requires WellFormed(rules)
    ensures r.1 <= |v|
  {
    if p.phase != Handshake || |v| < HANDSHAKE_LEN then (p, 0)
    else if v[..20] != rules.protocol || v[28..48] != rules.infoHash then (p.(phase := Dead), 0)
    else (p.(phase := Active, hello := v[..HANDSHAKE_LEN]), HANDSHAKE_LEN)
  }

  /** What one call of `process_message` does: the parse after it and the bytes used, 0 when it has to
      wait or gives the peer up. A message the handler finds fatal is logged and stays in the buffer. */
  function Message(rules: Rules, p: Parse, v: Bytes): (r: (Parse, nat))
    requires p.phase == Active
    ensures r.1 <= |v| && r.0.phase in {Active, Dead} && (r.0.phase == Dead ==> r.1 == 0)
    ensures r.0.hello == p.hello && p.log <= r.0.log
    ensures r.1 == 0 && r.0.phase == Active ==> r.0 == p && |v| < CAPACITY
  {
    if |v| < 4 then (p, 0)
    else
      var len := Be32(v[..4]);
      if len > MAX_MESSAGE then (p.(phase := Dead), 0)
      else if |v| < 4 + len then (p, 0)
      else if len == 0 then (p, 4)
      else
        var log := p.log + [v[4..4 + len]];
        if rules.fatal(log) then (p.(phase := Dead, log := log), 0) else (p.(log := log), 4 + len)
  }

  /** Messages as long as there is a whole one. */
  function Messages(rules: Rules, p: Parse, v: Bytes): (r: (Parse, nat))
    ensures r.1 <= |v|
    ensures r.0.phase in {p.phase, Dead}
    ensures r.0.hello == p.hello && p.log <= r.0.log
    decreases |v|
  {
    if p.phase != Active then (p, 0)
    else
      var m := Message(rules, p, v);
      if m.1 == 0 then m
      else
        var r := Messages(rules, m.0, v[m.1..]);
        (r.0, m.1 + r.1)
  }

  function Plain(rules: Rules, p: Parse, v: Bytes): (r: (Parse, nat))
    requires WellFormed(rules)
    ensures r.1 <= |v|
  {
    var g := Greet(rules, p, v);
    var m := Messages(rules, g.0, v[g.1..]);
    (m.0, g.1 + m.1)
  }

  // ---------------------------------------------------------------------------------------------
  // The plain stream.

  /** More bytes behind do not change what a message, or its refusal, is. */
  lemma MessageExtends(rules: Rules, p: Parse, x: Bytes, y: Bytes)
    requires p.phase == Active
    requires Message(rules, p, x).1 > 0 || Message(rules, p, x).0.phase == Dead
    ensures Message(rules, p, x + y) == Message(rules, p, x)
  {
    hide Be32;
    assert (x + y)[..4] == x[..4];
    var len := Be32(x[..4]);
    if 4 + len <= |x| {
      assert (x + y)[4..4 + len] == x[4..4 + len];
    }
  }

  lemma {:induction false} MessagesResume(rules: Rules, p: Parse, x: Bytes, y: Bytes)
    ensures var a := Messages(rules, p, x);
            var b := Messages(rules, a.0, x[a.1..] + y);
            Messages(rules, p, x + y) == (b.0, a.1 + b.1)
    decreases |x|
  {
    hide Message;
    if p.phase == Active {
      var m := Message(rules, p, x);
      if m.1 > 0 {
        MessageExtends(rules, p, x, y);
        var rest := x[m.1..];
        assert (x + y)[m.1..] == rest + y;
        MessagesResume(rules, m.0, rest, y);
        var a := Messages(rules, m.0, rest);
        assert x[m.1 + a.1..] == rest[a.1..];
      } else if m.0.phase == Dead {
        MessageExtends(rules, p, x, y);
      } else {
        assert x[0..] + y == x + y;
      }
    }
  }

  lemma {:induction false} MessagesIdle(rules: Rules, p: Parse, v: Bytes)
    requires p.phase != Active
    ensures Messages(rules, p, v) == (p, 0)
  {
  }

  lemma {:induction false} PlainResumes(rules: Rules, p: Parse, x: Bytes, y: Bytes)
    requires WellFormed(rules)
    ensures var a := Plain(rules, p, x);
            var b := Plain(rules, a.0, x[a.1..] + y);
            Plain(rules, p, x + y) == (b.0, a.1 + b.1)
  {
    hide Messages;
    var g := Greet(rules, p, x);
    if p.phase == Handshake && |x| < HANDSHAKE_LEN {
      MessagesIdle(rules, p, x[0..]);
      assert x[0..] + y == x + y;
    } else {
      assert |x| >= 48 ==> (x + y)[..20] == x[..20] && (x + y)[28..48] == x[28..48];
      assert |x| >= HANDSHAKE_LEN ==> (x + y)[..HANDSHAKE_LEN] == x[..HANDSHAKE_LEN];
      assert Greet(rules, p, x + y) == g;
      var rest := x[g.1..];
      assert (x + y)[g.1..] == rest + y;
      MessagesResume(rules, g.0, rest, y);
      var m := Messages(rules, g.0, rest);
      assert x[g.1 + m.1..] == rest[m.1..];
      var more := rest[m.1..] + y;
      assert more[0..] == more;
      assert Greet(rules, m.0, more) == (m.0, 0);
    }
  }

  /** What is left when the parser waits is shorter than the receive buffer, so there is always room. */
  lemma {:induction false} WaitingIsShort(rules: Rules, p: Parse, v: Bytes)
    requires WellFormed(rules) && p.phase != Encrypting
    ensures var r := Plain(rules, p, v); r.0.phase != Dead ==> |v| - r.1 < CAPACITY
  {
    var g := Greet(rules, p, v);
    MessagesShort(rules, g.0, v[g.1..]);
  }

  lemma {:induction false} MessagesShort(rules: Rules, p: Parse, v: Bytes)
    ensures var r := Messages(rules, p, v); r.0.phase == Active ==> |v| - r.1 < CAPACITY
    decreases |v|
  {
    hide Message;
    if p.phase == Active {
      var m := Message(rules, p, v);
      if m.1 > 0 {
        MessagesShort(rules, m.0, v[m.1..]);
      }
    }
  }

  // ---------------------------------------------------------------------------------------------
  // The connection: encrypted handshake, decryption on arrival, parsing.

  /** `pending` is what the buffer holds: raw bytes while the encrypted handshake runs, plain after. */
  datatype Conn = Conn(parse: Parse, mse: Mse.Client, encrypted: bool, pending: Bytes, reply: Bytes)

  ghost predicate Sane(c: Conn) {
    && Mse.Sane(c.mse)
    && (c.mse.phase == Mse.SyncVc ==> c.mse.skipped <= Mse.SKIP_LIMIT || c.parse.phase == Dead)
    && (c.parse.phase == Encrypting ==> !c.encrypted && c.mse.phase !in {Mse.Done, Mse.Fail})
  }

  /** A connection that begins with the encrypted handshake, or without. */
  function Fresh(encrypting: bool): Conn {
    Conn(Parse(if encrypting then Encrypting else Handshake, [], []), Mse.Start(), false, [], [])
  }

  /** Bytes arrive: decrypted once if the cipher is on. */
  function Take(c: Conn, data: Bytes): (c': Conn)
    requires Sane(c)
    ensures Sane(c')
  {
    if c.encrypted then
      c.(pending := c.pending + Rc4.Crypt(c.mse.recv, data),
         mse := c.mse.(recv := Rc4.After(c.mse.recv, |data|)))
    else c.(pending := c.pending + data)
  }

  /** The encrypted handshake's turn in `peer_process`. When it ends, what is already buffered is
      decrypted in place. */
  function Negotiate(env: Mse.Env, c: Conn): (c': Conn)
    requires Sane(c)
    ensures Sane(c')
  {
    if c.parse.phase != Encrypting then c
    else
      var r := Mse.Feed(env, c.mse, c.pending);
      var rest, reply := c.pending[r.used..], c.reply + r.out;
      if r.c.phase == Mse.Fail then
        c.(parse := c.parse.(phase := Dead), mse := r.c, pending := rest, reply := reply)
      else if r.c.phase == Mse.Done then
        Conn(c.parse.(phase := Handshake), r.c.(recv := Rc4.After(r.c.recv, |rest|)), true,
             Rc4.Crypt(r.c.recv, rest), reply)
      else
        c.(mse := r.c, pending := rest, reply := reply)
  }

  /** The parser's turn in `peer_process`. */
  function Settle(rules: Rules, c: Conn): (c': Conn)
    requires Sane(c) && WellFormed(rules)
    ensures Sane(c')
  {
    if c.parse.phase == Encrypting then c
    else
      var r := Plain(rules, c.parse, c.pending);
      c.(parse := r.0, pending := c.pending[r.1..])
  }

  /** One `peer_process`. */
  function Process(env: Mse.Env, rules: Rules, c: Conn): (c': Conn)
    requires Sane(c) && WellFormed(rules)
    ensures Sane(c')
  {
    Settle(rules, Negotiate(env, c))
  }

  /** Bytes arrive and are processed; a peer once given up is gone. */
  function Arrive(env: Mse.Env, rules: Rules, c: Conn, data: Bytes): (c': Conn)
    requires Sane(c) && WellFormed(rules)
    ensures Sane(c')
  {
    if c.parse.phase == Dead then c else Process(env, rules, Take(c, data))
  }

  /** Any number of arrivals. */
  function Run(env: Mse.Env, rules: Rules, c: Conn, chunks: seq<Bytes>): (c': Conn)
    requires Sane(c) && WellFormed(rules)
    ensures Sane(c')
  {
    if chunks == [] then c
    else Arrive(env, rules, Run(env, rules, c, chunks[..|chunks| - 1]), chunks[|chunks| - 1])
  }

  /** The same handshake and messages, the same verdict and reply; and for a living peer the same
      everything, down to the cipher's position and the unfinished bytes. */
  ghost predicate Same(a: Conn, b: Conn) {
    && a.parse == b.parse && a.reply == b.reply
    && (a.parse.phase != Dead ==> a == b)
  }

  lemma {:induction false} SettleResumes(env: Mse.Env, rules: Rules, c: Conn, y: Bytes)
    requires Sane(c) && WellFormed(rules) && c.parse.phase != Encrypting
    ensures Settle(rules, c).parse.phase != Encrypting
    ensures Same(Arrive(env, rules, Settle(rules, c), y), Settle(rules, Take(c, y)))
  {
    hide Rc4.Crypt, Rc4.After, Plain;
    var coded := if c.encrypted then Rc4.Crypt(c.mse.recv, y) else y;
    PlainResumes(rules, c.parse, c.pending, coded);
    var a := Plain(rules, c.parse, c.pending);
    PlainPhase(rules, c.parse, c.pending);
    var rest := c.pending[a.1..] + coded;
    if a.0.phase == Dead {
      PlainIdle(rules, a.0, rest);
    } else {
      var b := Plain(rules, a.0, rest);
      assert (c.pending + coded)[a.1 + b.1..] == rest[b.1..];
    }
  }

  lemma {:induction false} PlainPhase(rules: Rules, p: Parse, v: Bytes)
    requires WellFormed(rules) && p.phase != Encrypting
    ensures Plain(rules, p, v).0.phase != Encrypting
  {
    hide Messages;
  }

  lemma {:induction false} PlainIdle(rules: Rules, p: Parse, v: Bytes)
    requires WellFormed(rules) && p.phase == Dead
    ensures Plain(rules, p, v) == (p, 0)
  {
    MessagesIdle(rules, p, v[0..]);
  }

  lemma {:induction false} MseIdle(env: Mse.Env, c: Mse.Client, input: Bytes)
    requires Mse.Sane(c) && c.phase in {Mse.Done, Mse.Fail}
    ensures Mse.Feed(env, c, input) == Mse.Step(c, 0, [])
  {
    hide Mse.FromSelect;
    Mse.PubIdle(env, c, input);
    Mse.SyncIdle(c, input);
    Mse.SelectIdle(c, input);
  }

  /** The encrypted handshake's turn resumes. */
  lemma {:induction false} NegotiateResumes(env: Mse.Env, c: Conn, y: Bytes)
    requires Sane(c) && c.parse.phase == Encrypting
    requires Mse.RobustStream(env, c.mse, c.pending + y)
    ensures var n, w := Negotiate(env, c), Negotiate(env, Take(c, y));
            if n.parse.phase == Dead then Same(n, w)
            else if n.parse.phase == Encrypting then Negotiate(env, Take(n, y)) == w
            else n.parse.phase == Handshake && Take(n, y) == w
  {
    hide Mse.Feed, Mse.RobustStream, Rc4.Crypt, Rc4.After;
    var x := c.pending;
    Mse.FeedResumes(env, c.mse, x, y);
    var a := Mse.Feed(env, c.mse, x);
    var rest := x[a.used..];
    if a.c.phase in {Mse.Done, Mse.Fail} {
      MseIdle(env, a.c, rest + y);
      assert (x + y)[a.used..] == rest + y;
      Rc4.CryptConcat(a.c.recv, rest, y);
      Rc4.AfterSum(a.c.recv, |rest|, |y|);
    } else {
      var b := Mse.Feed(env, a.c, rest + y);
      assert (x + y)[a.used + b.used..] == (rest + y)[b.used..];
      assert c.reply + a.out + b.out == c.reply + (a.out + b.out);
    }
  }

  lemma {:induction false} TakeTwice(c: Conn, x: Bytes, y: Bytes)
    requires Sane(c)
    ensures Take(Take(c, x), y) == Take(c, x + y)
  {
    hide Rc4.Crypt, Rc4.After;
    Rc4.CryptConcat(c.mse.recv, x, y);
    Rc4.AfterSum(c.mse.recv, |x|, |y|);
  }

  /** Chunking can matter only through the encrypted handshake's search. */
  ghost predicate Robust(env: Mse.Env, c: Conn, data: Bytes)
    requires Sane(c)
  {
    c.parse.phase == Encrypting ==> Mse.RobustStream(env, c.mse, c.pending + data)
  }

  lemma {:induction false} ArriveResumes(env: Mse.Env, rules: Rules, c: Conn, x: Bytes, y: Bytes)
    requires Sane(c) && WellFormed(rules) && Robust(env, c, x + y)
    ensures Same(Arrive(env, rules, Arrive(env, rules, c, x), y), Arrive(env, rules, c, x + y))
  {
    hide Take, Negotiate, Mse.RobustStream, Sane;
    if c.parse.phase != Dead {
      var t := Take(c, x);
      TakeTwice(c, x, y);
      TakePhase(c, x);
      TakePhase(t, y);
      var n := Negotiate(env, t);
      NegotiateIdle(env, t);
      NegotiateIdle(env, Take(t, y));
      TakePhase(n, y);
      if c.parse.phase == Encrypting {
        assert c.pending + (x + y) == t.pending + y;
        NegotiateResumes(env, t, y);
      } else {
        assert n == t;
      }
      if n.parse.phase == Dead {
        hide Plain;
        PlainIdle(rules, n.parse, n.pending);
        PlainIdle(rules, n.parse, Negotiate(env, Take(t, y)).pending);
      } else if n.parse.phase != Encrypting {
        hide Settle;
        SettleResumes(env, rules, n, y);
      }
    }
  }

  lemma TakePhase(c: Conn, x: Bytes)
    requires Sane(c)
    ensures Take(c, x).parse == c.parse && Take(c, x).mse.phase == c.mse.phase
    ensures c.parse.phase == Encrypting ==> Take(c, x).mse == c.mse && Take(c, x).pending == c.pending + x
  {
  }

  lemma NegotiateIdle(env: Mse.Env, c: Conn)
    requires Sane(c)
    ensures c.parse.phase != Encrypting ==> Negotiate(env, c) == c
    ensures c.parse.phase != Dead && Negotiate(env, c).parse.phase == Dead ==> c.parse.phase == Encrypting
  {
  }

  /** However the stream of a connection is cut into arrivals, the outcome is that of one arrival of
      all of it. A connection without the encrypted handshake needs no condition. */
  lemma {:induction false} ChunkingIndependent(env: Mse.Env, rules: Rules, encrypting: bool, chunks: seq<Bytes>)
    requires WellFormed(rules) && chunks != []
    requires encrypting ==> Mse.RobustStream(env, Mse.Start(), Flatten(chunks))
    ensures Same(Run(env, rules, Fresh(encrypting), chunks), Arrive(env, rules, Fresh(encrypting), Flatten(chunks)))
    decreases |chunks|
  {
    hide Arrive, Mse.RobustStream;
    var n, c := |chunks| - 1, Fresh(encrypting);
    var front := Flatten(chunks[..n]);
    if n == 0 {
      assert Run(env, rules, c, chunks[..0]) == c;
      assert Flatten(chunks) == chunks[0];
    } else {
      if encrypting {
        Mse.RobustPrefix(env, front, chunks[n]);
        assert c.pending + Flatten(chunks) == Flatten(chunks);
      }
      ChunkingIndependent(env, rules, encrypting, chunks[..n]);
      ArriveResumes(env, rules, c, front, chunks[n]);
      var r, a := Run(env, rules, c, chunks[..n]), Arrive(env, rules, c, front);
      if r.parse.phase == Dead {
        DeadStays(env, rules, r, chunks[n]);
        DeadStays(env, rules, a, chunks[n]);
      }
    }
  }

  lemma DeadStays(env: Mse.Env, rules: Rules, c: Conn, data: Bytes)
    requires Sane(c) && WellFormed(rules) && c.parse.phase == Dead
    ensures Arrive(env, rules, c, data) == c
  {
  }

  /** After `peer_process` a living peer's unfinished bytes leave room in the receive buffer. */
  lemma {:induction false} ProcessedIsShort(env: Mse.Env, rules: Rules, c: Conn)
    requires Sane(c) && WellFormed(rules) && c.parse.phase != Dead
    ensures var c' := Process(env, rules, c); c'.parse.phase != Dead ==> |c'.pending| < CAPACITY
  {
    hide Plain, Rc4.Crypt, Rc4.After;
    var n := Negotiate(env, c);
    if n.parse.phase == Encrypting {
      MseWaitingIsShort(env, c.mse, c.pending);
    } else {
      WaitingIsShort(rules, n.parse, n.pending);
    }
  }

  lemma {:induction false} MseWaitingIsShort(env: Mse.Env, c: Mse.Client, v: Bytes)
    requires Mse.Sane(c)
    ensures var r := Mse.Feed(env, c, v); r.c.phase !in {Mse.Done, Mse.Fail} ==> |v| - r.used < Mse.DH_LEN
  {
    hide Mse.FirstVc, Rc4.Crypt, Rc4.After, Mse.StreamKey, Mse.RequestPlain;
    var p := Mse.PubStep(env, c, v);
    SyncWaitingIsShort(p.c, v[p.used..]);
  }

  lemma {:induction false} SyncWaitingIsShort(c: Mse.Client, v: Bytes)
    requires Mse.Sane(c)
    ensures var r := Mse.FromSync(c, v);
            if c.phase == Mse.ReadPub then r == Mse.Step(c, 0, [])
            else r.c.phase !in {Mse.Done, Mse.Fail} ==> |v| - r.used < Mse.VC_LEN
  {
    hide Mse.FirstVc, Rc4.Crypt, Rc4.After;
  }

  // ---------------------------------------------------------------------------------------------
  // Framing: what the sending side frames, this side takes apart.

  function Frames(payloads: seq<Bytes>): (f: seq<Bytes>)
    requires forall p <- payloads :: |p| <= MAX_MESSAGE
    ensures |f| == |payloads|
  {
    seq(|payloads|, i requires 0 <= i < |payloads| => S.Frame(payloads[i]))
  }

  /** Empty messages only keep the connection alive. */
  function Contentful(payloads: seq<Bytes>): seq<Bytes> {
    if payloads == [] then []
    else
      var n := |payloads| - 1;
      Contentful(payloads[..n]) + if payloads[n] == [] then [] else [payloads[n]]
  }

  /** No message up to there makes the handler give the peer up. */
  ghost predicate Tolerated(rules: Rules, log: seq<Bytes>) {
    forall l :: l <= log ==> !rules.fatal(l)
  }

  /** Any stream of frames is taken apart into the payloads that were framed, none lost or torn. */
  lemma {:induction false} FramesParse(rules: Rules, p: Parse, payloads: seq<Bytes>)
    requires forall x <- payloads :: |x| <= MAX_MESSAGE
    requires p.phase == Active && Tolerated(rules, p.log + Contentful(payloads))
    ensures var v := Flatten(Frames(payloads));
            Messages(rules, p, v) == (p.(log := p.log + Contentful(payloads)), |v|)
    decreases |payloads|
  {
    hide Messages, S.Frame, Tolerated;
    if payloads == [] {
      OneFrame(rules, p, []);
      assert Flatten(Frames(payloads)) == [] && p.log + [] == p.log;
    } else {
      hide *;
      var n := |payloads| - 1;
      FramesSnoc(p.log, payloads);
      TolerantSo(rules, p.log, payloads);
      FramesParse(rules, p, payloads[..n]);
      FrameMore(rules, p, Flatten(Frames(payloads[..n])), p.log + Contentful(payloads[..n]), payloads[n]);
    }
  }

  /** One more frame on the stream is one more message dispatched. */
  lemma {:induction false} FrameMore(rules: Rules, p: Parse, x: Bytes, log: seq<Bytes>, payload: Bytes)
    requires p.phase == Active && |payload| <= MAX_MESSAGE
    requires Messages(rules, p, x) == (p.(log := log), |x|)
    requires payload != [] ==> !rules.fatal(log + [payload])
    ensures Messages(rules, p, x + S.Frame(payload))
            == (p.(log := if payload == [] then log else log + [payload]), |x + S.Frame(payload)|)
  {
    hide Messages, S.Frame;
    var last := S.Frame(payload);
    MessagesResume(rules, p, x, last);
    assert x[|x|..] + last == last;
    OneFrame(rules, p.(log := log), payload);
  }

  lemma {:induction false} FramesSnoc(log: seq<Bytes>, payloads: seq<Bytes>)
    requires payloads != [] && forall x <- payloads :: |x| <= MAX_MESSAGE
    ensures var n := |payloads| - 1;
            && Flatten(Frames(payloads)) == Flatten(Frames(payloads[..n])) + S.Frame(payloads[n])
            && log + Contentful(payloads)
               == if payloads[n] == [] then log + Contentful(payloads[..n])
                  else log + Contentful(payloads[..n]) + [payloads[n]]
  {
    hide S.Frame;
    var n := |payloads| - 1;
    assert Frames(payloads)[..n] == Frames(payloads[..n]);
    var front := Contentful(payloads[..n]);
    assert front + [] == front;
    assert log + (front + [payloads[n]]) == log + front + [payloads[n]];
  }

  lemma {:induction false} TolerantSo(rules: Rules, log: seq<Bytes>, payloads: seq<Bytes>)
    requires payloads != [] && Tolerated(rules, log + Contentful(payloads))
    ensures Tolerated(rules, log + Contentful(payloads[..|payloads| - 1]))
    ensures !rules.fatal(log + Contentful(payloads))
  {
  }

  lemma {:induction false} OneFrame(rules: Rules, p: Parse, payload: Bytes)
    requires |payload| <= MAX_MESSAGE
    requires p.phase == Active
    requires payload != [] ==> !rules.fatal(p.log + [payload])
    ensures Messages(rules, p, []) == (p, 0)
    ensures Messages(rules, p, S.Frame(payload))
            == (if payload == [] then p else p.(log := p.log + [payload]), 4 + |payload|)
  {
    hide Be32, Be32Bytes;
    var f := S.Frame(payload);
    assert f[..4] == Be32Bytes(|payload|);
    assert f[4..4 + |payload|] == payload;
    assert f[4 + |payload|..] == [];
  }

  /** Of a stream cut off anywhere, the messages recognised are the first of the whole stream's. */
  lemma {:induction false} CutOffIsPrefix(rules: Rules, p: Parse, x: Bytes, y: Bytes)
    ensures Messages(rules, p, x).0.log <= Messages(rules, p, x + y).0.log
  {
    hide Message, Messages;
    MessagesResume(rules, p, x, y);
  }

  /** Two ends with ciphers in the same state: whatever part of an encrypted stream of frames has
      reached the wire, decrypting and parsing it dispatches the first of the framed messages, and all
      of them once all of it is there. */
  lemma {:induction false} WireIsUnderstood(rules: Rules, p: Parse, st: Rc4.State, payloads: seq<Bytes>, wire: Bytes)
    requires |st.s| == 256 && p.phase == Active && Tolerated(rules, p.log + Contentful(payloads))
    requires forall x <- payloads :: |x| <= MAX_MESSAGE
    requires wire <= Rc4.Crypt(st, Flatten(Frames(payloads)))
    ensures var got := Messages(rules, p, Rc4.Crypt(st, wire)).0.log;
            && got <= p.log + Contentful(payloads)
            && (|wire| == |Flatten(Frames(payloads))| ==> got == p.log + Contentful(payloads))
  {
    hide Rc4.Crypt, Messages, Frames, Contentful;
    var v := Flatten(Frames(payloads));
    FramesParse(rules, p, payloads);
    var x, y := v[..|wire|], v[|wire|..];
    assert v == x + y;
    Rc4.CryptConcat(st, x, y);
    assert wire == Rc4.Crypt(st, x);
    Rc4.CryptTwice(st, x);
    CutOffIsPrefix(rules, p, x, y);
    if |wire| == |v| {
      assert x == v;
    }
  }

  /** The same for a sender at work: once encryption is on, the receiving end dispatches the first of
      the accepted frames, and all of them as soon as nothing waits in the send buffer. */
  lemma {:induction false} SentIsUnderstood(s: S.Sender, rules: Rules, p: Parse, payloads: seq<Bytes>)
    requires s.Valid() && s.Faithful() && !s.dead && s.mseActive
    requires forall x <- payloads :: |x| <= MAX_MESSAGE
    requires s.sent[s.clear..] == Frames(payloads)
    requires p.phase == Active && Tolerated(rules, p.log + Contentful(payloads))
    requires |Flatten(s.sent[..s.clear])| <= |s.transport.wire|
    ensures var wire := s.transport.wire[|Flatten(s.sent[..s.clear])|..];
            var got := Messages(rules, p, Rc4.Crypt(s.base, wire)).0.log;
            && got <= p.log + Contentful(payloads)
            && (s.sbufLen == 0 ==> got == p.log + Contentful(payloads))
  {
    hide Rc4.Crypt, Rc4.After, Messages, Frames, Contentful, Flatten, Tolerated;
    var head, v := Flatten(s.sent[..s.clear]), Flatten(Frames(payloads));
    var wire := s.transport.wire[|head|..];
    assert s.Stream() == head + Rc4.Crypt(s.base, v);
    assert s.Stream()[|head|..] == wire + s.sbuf[..s.sbufLen];
    WireIsUnderstood(rules, p, s.base, payloads, wire);
  }
}

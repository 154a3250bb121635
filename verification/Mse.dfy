/** The initiator side of the encrypted handshake: a machine that is fed whatever bytes have arrived
    and says how many it used. */
module Mse {
  import opened Octets
  import opened Rc4

  const DH_LEN := 96
  const VC_LEN := 8
  /** The verification constant. */
  const VC: Bytes := [0, 0, 0, 0, 0, 0, 0, 0]
  const MAX_PAD := 512
  const SKIP_LIMIT := 608

  datatype Phase = ReadPub | SyncVc | ReadSelect | ReadPadD | Done | Fail

  datatype Client = Client(phase: Phase, send: State, recv: State, vc: Bytes, skipped: nat, select: Bytes, padd: nat)

  /** What the machine takes as given: the Diffie-Hellman secret for a public key, the two stream keys
      and the 40 bytes of request hashes for a secret, the payload to send along, and the caller's
      output capacity. */
  datatype Env = Env(secret: Bytes -> Bytes, keyA: Bytes -> Bytes, keyB: Bytes -> Bytes,
                     hashes: Bytes -> Bytes, ia: Bytes, outCap: nat)

  /** The state after a call, the bytes used and the bytes to send. */
  datatype Step = Step(c: Client, used: nat, out: Bytes)

  /** Client states that occur: cipher tables of full size, a partial selection shorter than 6. */
  predicate Sane(c: Client) {
    && |c.send.s| == |c.recv.s| == 256
    && |c.vc| == VC_LEN
    && (c.phase == ReadSelect ==> |c.select| < 6)
  }

  function Start(): (c: Client)
    ensures Sane(c) && c.phase == ReadPub
  {
    var z: Bytes := seq(256, _ => 0);
    Client(ReadPub, State(z, 0, 0), State(z, 0, 0), VC, 0, [], 0)
  }

  /** The plain part of the request: the verification constant, the RC4 offer, no padding, the payload. */
  function RequestPlain(ia: Bytes): Bytes {
    VC + [0, 0, 0, 2] + [0, 0] + [|ia| / 256 % 256, |ia| % 256] + ia
  }

  function StreamKey(key: Bytes): (st: State)
    ensures |st.s| == 256
  {
    After(Keyed(key), 1024)
  }

  function PubStep(env: Env, c: Client, input: Bytes): (r: Step)
    requires Sane(c)
    ensures Sane(r.c) && r.used <= |input|
  {
    if c.phase != ReadPub || |input| < DH_LEN then Step(c, 0, [])
    else
      var secret := env.secret(input[..DH_LEN]);
      var recv := StreamKey(env.keyB(secret));
      var vc := Crypt(recv, VC);
      if env.outCap < 40 + |RequestPlain(env.ia)| then
        Step(c.(phase := Fail, send := StreamKey(env.keyA(secret)), recv := recv, vc := vc), DH_LEN, [])
      else
        var send := StreamKey(env.keyA(secret));
        var plain := RequestPlain(env.ia);
        Step(Client(SyncVc, After(send, |plain|), recv, vc, 0, c.select, c.padd), DH_LEN,
             env.hashes(secret) + Crypt(send, plain))
  }

  predicate VcAt(v: Bytes, vc: Bytes, j: int) {
    0 <= j && j + VC_LEN <= |v| && v[j..j + VC_LEN] == vc
  }

  /** The first place at or after `k` where the eight bytes `vc` stand, -1 if there is none. */
  function FirstVc(v: Bytes, vc: Bytes, k: nat): (i: int)
    requires |vc| == VC_LEN
    ensures -1 <= i && (i >= 0 ==> k <= i && VcAt(v, vc, i))
    ensures forall j :: k <= j && VcAt(v, vc, j) ==> 0 <= i <= j
    decreases |v| - k
  {
    if k + VC_LEN > |v| then -1
    else if VcAt(v, vc, k) then k
    else FirstVc(v, vc, k + 1)
  }

  /** All but the last seven bytes: none of them can begin a match that is still incomplete. */
  function Skippable(n: nat): nat {
    if n > VC_LEN - 1 then n - (VC_LEN - 1) else 0
  }

  function SyncStep(c: Client, input: Bytes): (r: Step)
    requires Sane(c)
    ensures Sane(r.c) && r.used <= |input|
  {
    if c.phase != SyncVc then Step(c, 0, [])
    else
      var k := FirstVc(input, c.vc, 0);
      if k >= 0 then
        Step(c.(phase := ReadSelect, recv := After(c.recv, VC_LEN), skipped := c.skipped + k, select := []),
             k + VC_LEN, [])
      else
        var skipped := c.skipped + Skippable(|input|);
        Step(c.(phase := if skipped > SKIP_LIMIT then Fail else SyncVc, skipped := skipped), Skippable(|input|), [])
  }

  /** What six decrypted bytes decide: `crypto_select` must offer RC4 and the padding must be short. */
  function Selected(c: Client, select: Bytes): Client
    requires |select| == 6
  {
    var padd := (select[4] as int) * 256 + select[5];
    // bit 1 of the 32-bit big-endian selection
    if select[3] / 2 % 2 == 0 || padd > MAX_PAD then c.(phase := Fail, select := select)
    else c.(phase := ReadPadD, select := select, padd := padd)
  }

  function SelectStep(c: Client, input: Bytes): (r: Step)
    requires Sane(c)
    ensures Sane(r.c) && r.used <= |input|
  {
    if c.phase != ReadSelect then Step(c, 0, [])
    else
      var need := 6 - |c.select|;
      var n := if |input| < need then |input| else need;
      var select := c.select + Crypt(c.recv, input[..n]);
      var c' := c.(recv := After(c.recv, n));
      if |select| < 6 then Step(c'.(select := select), n, []) else Step(Selected(c', select), n, [])
  }

  function PadStep(c: Client, input: Bytes): (r: Step)
    requires Sane(c)
    ensures Sane(r.c) && r.used <= |input|
  {
    if c.phase != ReadPadD then Step(c, 0, [])
    else
      var n := if |input| < c.padd then |input| else c.padd;
      Step(c.(recv := After(c.recv, n), padd := c.padd - n, phase := if c.padd - n > 0 then ReadPadD else Done), n, [])
  }

  /** From the selection on. */
  function FromSelect(c: Client, input: Bytes): (r: Step)
    requires Sane(c)
    ensures Sane(r.c) && r.used <= |input|
  {
    var a := SelectStep(c, input);
    var b := PadStep(a.c, input[a.used..]);
    Step(b.c, a.used + b.used, [])
  }

  /** From the resynchronisation on. */
  function FromSync(c: Client, input: Bytes): (r: Step)
    requires Sane(c)
    ensures Sane(r.c) && r.used <= |input|
  {
    var a := SyncStep(c, input);
    var b := FromSelect(a.c, input[a.used..]);
    Step(b.c, a.used + b.used, [])
  }

  /** One call of `mse_client_feed`. */
  function Feed(env: Env, c: Client, input: Bytes): (r: Step)
    requires Sane(c)
    ensures Sane(r.c) && r.used <= |input|
  {
    var a := PubStep(env, c, input);
    var b := FromSync(a.c, input[a.used..]);
    Step(b.c, a.used + b.used, a.out)
  }

  // ---------------------------------------------------------------------------------------------
  // Chunking.

  /** Feeding `x`, then what it left over together with `y`, is feeding `x + y`. */
  ghost predicate Resumes(first: Step, second: Step, whole: Step) {
    && second.c == whole.c
    && first.used + second.used == whole.used
    && first.out + second.out == whole.out
  }

  lemma {:induction false} AfterZero(st: State)
    requires |st.s| == 256
    ensures After(st, 0) == st
  {
  }

  lemma {:induction false} PadResumes(c: Client, x: Bytes, y: Bytes)
    requires Sane(c)
    ensures var a := PadStep(c, x); Resumes(a, PadStep(a.c, x[a.used..] + y), PadStep(c, x + y))
  {
    hide After;
    var a := PadStep(c, x);
    if c.phase == ReadPadD && c.padd > |x| {
      assert x[a.used..] + y == y;
      var n := if |y| < c.padd - |x| then |y| else c.padd - |x|;
      AfterSum(c.recv, |x|, n);
    }
  }

  /** The selection alone: once it is complete nothing more is used. */
  lemma {:induction false} SelectResumes(c: Client, x: Bytes, y: Bytes)
    requires Sane(c)
    ensures var a := SelectStep(c, x); Resumes(a, SelectStep(a.c, x[a.used..] + y), SelectStep(c, x + y))
    ensures SelectStep(c, x).c.phase != ReadSelect ==>
              SelectStep(c, x + y) == SelectStep(c, x)
  {
    if c.phase == ReadSelect {
      if |x| < 6 - |c.select| {
        SelectWaits(c, x, y);
      } else {
        SelectEnds(c, x, y);
      }
    }
  }

  /** Too few bytes are all kept, and decrypted piece by piece. */
  lemma {:induction false} SelectWaits(c: Client, x: Bytes, y: Bytes)
    requires Sane(c) && c.phase == ReadSelect && |x| < 6 - |c.select|
    ensures SelectStep(c, x) == Step(c.(recv := After(c.recv, |x|), select := c.select + Crypt(c.recv, x)), |x|, [])
    ensures var a := SelectStep(c, x); Resumes(a, SelectStep(a.c, x[a.used..] + y), SelectStep(c, x + y))
  {
    hide After, Crypt;
    var need := 6 - |c.select|;
    assert x[..|x|] == x && x[|x|..] + y == y;
    var n := if |y| < need - |x| then |y| else need - |x|;
    assert (x + y)[..|x| + n] == x + y[..n];
    CryptConcat(c.recv, x, y[..n]);
    AfterSum(c.recv, |x|, n);
    assert c.select + (Crypt(c.recv, x) + Crypt(After(c.recv, |x|), y[..n]))
           == (c.select + Crypt(c.recv, x)) + Crypt(After(c.recv, |x|), y[..n]);
  }

  /** Enough bytes are enough. */
  lemma {:induction false} SelectEnds(c: Client, x: Bytes, y: Bytes)
    requires Sane(c) && c.phase == ReadSelect && |x| >= 6 - |c.select|
    ensures SelectStep(c, x).c.phase != ReadSelect && SelectStep(c, x + y) == SelectStep(c, x)
  {
    hide After, Crypt;
    var need := 6 - |c.select|;
    assert (x + y)[..need] == x[..need];
    SelectedMoves(c.(recv := After(c.recv, need)), c.select + Crypt(c.recv, x[..need]));
  }

  lemma SelectedMoves(c: Client, select: Bytes)
    requires |select| == 6
    ensures Selected(c, select).phase != ReadSelect
  {
  }

  lemma {:induction false} FromSelectResumes(c: Client, x: Bytes, y: Bytes)
    requires Sane(c)
    ensures var a := FromSelect(c, x); Resumes(a, FromSelect(a.c, x[a.used..] + y), FromSelect(c, x + y))
  {
    hide SelectStep, PadStep;
    SelectResumes(c, x, y);
    var s := SelectStep(c, x);
    var rest := x[s.used..];
    var p := PadStep(s.c, rest);
    if s.c.phase == ReadSelect {
      Unselected(s.c, rest);
      assert x[s.used + p.used..] == rest;
      assert (x + y)[SelectStep(c, x + y).used..] == (rest + y)[SelectStep(s.c, rest + y).used..];
    } else {
      assert (x + y)[s.used..] == rest + y;
      PadResumes(s.c, rest, y);
      assert x[s.used + p.used..] == rest[p.used..];
      NotSelecting(p.c, rest[p.used..] + y, s.c, rest);
      assert (rest[p.used..] + y)[0..] == rest[p.used..] + y;
    }
  }

  lemma {:induction false} Unselected(c: Client, rest: Bytes)
    requires Sane(c) && c.phase == ReadSelect
    ensures PadStep(c, rest) == Step(c, 0, [])
  {
  }

  lemma {:induction false} NotSelecting(p: Client, input: Bytes, c: Client, rest: Bytes)
    requires Sane(c) && c.phase != ReadSelect && p == PadStep(c, rest).c
    ensures Sane(p) && SelectStep(p, input) == Step(p, 0, [])
  {
  }

  /** Chunking cannot matter: the verification constant starts within the limit, or has not started
      within one byte more than the limit allows to be skipped. */
  ghost predicate Robust(c: Client, v: Bytes)
    requires |c.vc| == VC_LEN
  {
    c.phase == SyncVc ==>
      var k := FirstVc(v, c.vc, 0);
      if k >= 0 then c.skipped + k <= SKIP_LIMIT else c.skipped + Skippable(|v|) <= SKIP_LIMIT + 1
  }

  /** A match lies in `x` exactly when it lies in the front of `x + y`. */
  lemma VcFront(x: Bytes, y: Bytes, vc: Bytes)
    requires |vc| == VC_LEN
    ensures forall j :: VcAt(x, vc, j) <==> VcAt(x + y, vc, j) && j + VC_LEN <= |x|
  {
    forall j
      ensures VcAt(x, vc, j) <==> VcAt(x + y, vc, j) && j + VC_LEN <= |x|
    {
      if 0 <= j && j + VC_LEN <= |x| {
        assert (x + y)[j..j + VC_LEN] == x[j..j + VC_LEN];
      }
    }
  }

  /** Dropping bytes in front moves every match. */
  lemma VcBehind(v: Bytes, s: nat, vc: Bytes)
    requires |vc| == VC_LEN && s <= |v|
    ensures forall j {:trigger VcAt(v, vc, j)} :: j >= s ==> (VcAt(v, vc, j) <==> VcAt(v[s..], vc, j - s))
  {
    forall j | j >= s
      ensures VcAt(v, vc, j) <==> VcAt(v[s..], vc, j - s)
    {
      if j + VC_LEN <= |v| {
        assert v[s..][j - s..j - s + VC_LEN] == v[j..j + VC_LEN];
      }
    }
  }

  lemma {:induction false} NotSyncing(c: Client, input: Bytes)
    requires Sane(c) && c.phase != SyncVc && c.phase != ReadPub
    ensures FromSelect(c, input).c.phase != SyncVc && FromSelect(c, input).c.phase != ReadPub
  {
  }

  lemma {:induction false} SyncIdle(c: Client, input: Bytes)
    requires Sane(c) && c.phase != SyncVc
    ensures FromSync(c, input) == FromSelect(c, input)
  {
    assert input[0..] == input;
  }

  lemma {:induction false} SelectIdle(c: Client, input: Bytes)
    requires Sane(c) && c.phase != ReadSelect && c.phase != ReadPadD
    ensures FromSelect(c, input) == Step(c, 0, [])
  {
  }

  lemma {:induction false} FromSyncResumes(c: Client, x: Bytes, y: Bytes)
    requires Sane(c) && Robust(c, x + y) && (c.phase == SyncVc ==> c.skipped <= SKIP_LIMIT)
    ensures var a := FromSync(c, x); Resumes(a, FromSync(a.c, x[a.used..] + y), FromSync(c, x + y))
  {
    if c.phase != SyncVc {
      FromSelectResumes(c, x, y);
      SyncIdle(c, x);
      SyncIdle(c, x + y);
      if c.phase != ReadPub {
        NotSyncing(c, x);
      } else {
        SelectIdle(c, x);
      }
      var a := FromSelect(c, x);
      SyncIdle(a.c, x[a.used..] + y);
    } else if FirstVc(x, c.vc, 0) >= 0 {
      FoundResumes(c, x, y);
    } else {
      MissedResumes(c, x, y);
    }
  }

  lemma {:induction false} FoundResumes(c: Client, x: Bytes, y: Bytes)
    requires Sane(c) && c.phase == SyncVc && FirstVc(x, c.vc, 0) >= 0
    ensures var a := FromSync(c, x); Resumes(a, FromSync(a.c, x[a.used..] + y), FromSync(c, x + y))
  {
    hide FromSelect;
    VcFront(x, y, c.vc);
    var k := FirstVc(x, c.vc, 0);
    assert FirstVc(x + y, c.vc, 0) == k;
    var c', rest := SyncStep(c, x).c, x[k + VC_LEN..];
    assert (x + y)[k + VC_LEN..] == rest + y;
    FromSelectResumes(c', rest, y);
    NotSyncing(c', rest);
    var a := FromSelect(c', rest);
    assert x[k + VC_LEN + a.used..] == rest[a.used..];
    SyncIdle(a.c, rest[a.used..] + y);
  }

  lemma {:induction false} MissedResumes(c: Client, x: Bytes, y: Bytes)
    requires Sane(c) && c.phase == SyncVc && FirstVc(x, c.vc, 0) < 0
    requires Robust(c, x + y) && c.skipped <= SKIP_LIMIT
    ensures var a := FromSync(c, x); Resumes(a, FromSync(a.c, x[a.used..] + y), FromSync(c, x + y))
  {
    hide FromSelect, FirstVc, FromSync, Robust;
    var s := Skippable(|x|);
    if c.skipped + s > SKIP_LIMIT {
      Overrun(c, x, y);
    } else {
      SyncResumes(c, x, y);
      var c', rest := SyncStep(c, x).c, x[s..] + y;
      assert (x + y)[s..] == rest;
      var w, w' := SyncStep(c, x + y), SyncStep(c', rest);
      assert (x + y)[w.used..] == rest[w'.used..];
      SelectIdle(c', x[s..]);
      assert FromSync(c, x) == Step(c', s, []) by { SyncThen(c, x); }
      SyncThen(c, x + y);
      SyncThen(c', rest);
    }
  }

  lemma {:induction false} SyncThen(c: Client, input: Bytes)
    requires Sane(c)
    ensures var a := SyncStep(c, input); var b := FromSelect(a.c, input[a.used..]);
            FromSync(c, input) == Step(b.c, a.used + b.used, [])
  {
    hide SyncStep, FromSelect;
  }

  /** What was skipped without a match need not be looked at again. */
  lemma {:induction false} SearchResumes(x: Bytes, y: Bytes, vc: Bytes)
    requires |vc| == VC_LEN && FirstVc(x, vc, 0) < 0
    ensures var k, k' := FirstVc(x + y, vc, 0), FirstVc(x[Skippable(|x|)..] + y, vc, 0);
            if k < 0 then k' < 0 else k' == k - Skippable(|x|) >= 0
  {
    hide FirstVc, VcAt;
    VcFront(x, y, vc);
    var s, k := Skippable(|x|), FirstVc(x + y, vc, 0);
    var rest := x[s..] + y;
    assert (x + y)[s..] == rest;
    VcBehind(x + y, s, vc);
    var k' := FirstVc(rest, vc, 0);
    if k' >= 0 {
      assert VcAt(x + y, vc, k' + s);
    }
    if k >= 0 {
      assert k >= s by {
        assert VcAt(x + y, vc, k) && !VcAt(x, vc, k);
        VcBounded(x + y, vc, k);
      }
      assert VcAt(rest, vc, k - s);
    }
  }

  lemma VcBounded(v: Bytes, vc: Bytes, j: int)
    requires VcAt(v, vc, j)
    ensures 0 <= j && j + VC_LEN <= |v|
  {
  }

  /** The search state alone resumes. */
  lemma {:induction false} SyncResumes(c: Client, x: Bytes, y: Bytes)
    requires Sane(c) && c.phase == SyncVc && FirstVc(x, c.vc, 0) < 0 && c.skipped + Skippable(|x|) <= SKIP_LIMIT
    ensures SyncStep(c, x) == Step(c.(skipped := c.skipped + Skippable(|x|)), Skippable(|x|), [])
    ensures var a := SyncStep(c, x);
            var b := SyncStep(a.c, x[Skippable(|x|)..] + y);
            b.c == SyncStep(c, x + y).c && a.used + b.used == SyncStep(c, x + y).used
  {
    hide FirstVc, After, VcAt;
    SearchResumes(x, y, c.vc);
  }

  /** Within the condition, too much is skipped only when nothing follows. */
  lemma {:induction false} Overrun(c: Client, x: Bytes, y: Bytes)
    requires Sane(c) && c.phase == SyncVc && FirstVc(x, c.vc, 0) < 0
    requires Robust(c, x + y) && c.skipped <= SKIP_LIMIT < c.skipped + Skippable(|x|)
    ensures var a := FromSync(c, x); Resumes(a, FromSync(a.c, x[a.used..] + y), FromSync(c, x + y))
  {
    hide FirstVc, FromSelect;
    VcFront(x, y, c.vc);
    var kk := FirstVc(x + y, c.vc, 0);
    assert kk >= 0 ==> VcAt(x + y, c.vc, kk) && !VcAt(x, c.vc, kk);
    assert y == [] && x + y == x;
    var s := Skippable(|x|);
    var c' := SyncStep(c, x).c;
    assert x[s..] + y == x[s..];
    SelectIdle(c', x[s..]);
    SyncIdle(c', x[s..]);
  }

  /** The same for the whole stream, public key included. */
  ghost predicate RobustStream(env: Env, c: Client, v: Bytes)
    requires Sane(c)
  {
    if c.phase != ReadPub then Robust(c, v)
    else |v| >= DH_LEN ==> Robust(PubStep(env, c, v).c, v[DH_LEN..])
  }

  lemma {:induction false} FeedResumes(env: Env, c: Client, x: Bytes, y: Bytes)
    requires Sane(c) && RobustStream(env, c, x + y) && (c.phase == SyncVc ==> c.skipped <= SKIP_LIMIT)
    ensures var a := Feed(env, c, x); Resumes(a, Feed(env, a.c, x[a.used..] + y), Feed(env, c, x + y))
  {
    hide FromSync, StreamKey, Crypt, RequestPlain;
    var p := PubStep(env, c, x);
    if c.phase == ReadPub && |x| < DH_LEN {
      SyncIdle(c, x[0..]);
      SelectIdle(c, x[0..]);
      assert x[0..] == x;
    } else {
      assert x[..p.used] == (x + y)[..p.used];
      assert PubStep(env, c, x + y) == p;
      var rest := x[p.used..];
      assert (x + y)[p.used..] == rest + y;
      FromSyncResumes(p.c, rest, y);
      var a := FromSync(p.c, rest);
      assert x[p.used + a.used..] == rest[a.used..];
      PubOver(p.c, rest);
      PubIdle(env, a.c, rest[a.used..] + y);
    }
  }

  lemma {:induction false} PubOver(c: Client, input: Bytes)
    requires Sane(c) && c.phase != ReadPub
    ensures FromSync(c, input).c.phase != ReadPub
  {
  }

  lemma {:induction false} PubIdle(env: Env, c: Client, input: Bytes)
    requires Sane(c) && c.phase != ReadPub
    ensures Feed(env, c, input) == FromSync(c, input)
  {
    assert input[0..] == input;
  }

  // ---------------------------------------------------------------------------------------------
  // Any number of chunks.

  /** The caller's loop: each arrival is appended to the bytes not used yet, and all of them are
      presented. */
  function Run(env: Env, chunks: seq<Bytes>): (r: Step)
    ensures Sane(r.c) && r.used <= |Flatten(chunks)|
  {
    if chunks == [] then Step(Start(), 0, [])
    else
      var n := |chunks| - 1;
      var prev := Run(env, chunks[..n]);
      var r := Feed(env, prev.c, Flatten(chunks[..n])[prev.used..] + chunks[n]);
      Step(r.c, prev.used + r.used, prev.out + r.out)
  }

  lemma {:induction false} RobustPrefix(env: Env, x: Bytes, y: Bytes)
    requires RobustStream(env, Start(), x + y)
    ensures RobustStream(env, Start(), x)
  {
    hide StreamKey, Crypt, RequestPlain;
    if |x| >= DH_LEN {
      assert (x + y)[..DH_LEN] == x[..DH_LEN];
      assert (x + y)[DH_LEN..] == x[DH_LEN..] + y;
      VcFront(x[DH_LEN..], y, PubStep(env, Start(), x).c.vc);
    }
  }

  /** However the stream is cut, the machine ends in the same state, has used the same bytes, sent the
      same request once, and its receive cipher is at the same place, as after one feed of it all. */
  lemma {:induction false} ChunkingIndependent(env: Env, chunks: seq<Bytes>)
    requires RobustStream(env, Start(), Flatten(chunks))
    ensures Run(env, chunks) == Feed(env, Start(), Flatten(chunks))
    decreases |chunks|
  {
    hide FromSync, PubStep, RobustStream;
    if chunks == [] {
      EmptyFeed(env);
    } else {
      var n := |chunks| - 1;
      var front := Flatten(chunks[..n]);
      RobustPrefix(env, front, chunks[n]);
      ChunkingIndependent(env, chunks[..n]);
      FeedResumes(env, Start(), front, chunks[n]);
    }
  }

  lemma {:induction false} EmptyFeed(env: Env)
    ensures Feed(env, Start(), []) == Step(Start(), 0, [])
  {
    hide StreamKey, Crypt, RequestPlain, Start, FromSync, FromSelect;
    SyncIdle(Start(), []);
    SelectIdle(Start(), []);
  }

  /** The condition is exact: when a verification constant starts too late, or never while too much is
      skipped, cutting the stream 712 bytes in changes what is used. */
  lemma {:induction false} RobustIsExact(env: Env, v: Bytes)
    requires |v| >= DH_LEN && 40 + |RequestPlain(env.ia)| <= env.outCap
    ensures RobustStream(env, Start(), v) <==>
              forall i :: 0 <= i <= |v| ==> Run(env, [v[..i], v[i..]]) == Feed(env, Start(), v)
  {
    hide Run, Feed, StreamKey, Crypt;
    if RobustStream(env, Start(), v) {
      forall i | 0 <= i <= |v|
        ensures Run(env, [v[..i], v[i..]]) == Feed(env, Start(), v)
      {
        TwoChunks(v[..i], v[i..]);
        assert v[..i] + v[i..] == v;
        ChunkingIndependent(env, [v[..i], v[i..]]);
      }
    } else {
      LateDiffers(env, v);
    }
  }

  lemma {:induction false} TwoChunks(x: Bytes, y: Bytes)
    ensures Flatten([x, y]) == x + y && Flatten([x]) == x && [x, y][..1] == [x] && [x][..0] == []
  {
    assert [x, y][..1] == [x] && [x][..0] == [];
    assert Flatten([x][..0]) == [];
    assert Flatten([x]) == x;
  }

  lemma {:induction false} LateDiffers(env: Env, v: Bytes)
    requires |v| >= DH_LEN && 40 + |RequestPlain(env.ia)| <= env.outCap
    requires !RobustStream(env, Start(), v)
    ensures |v| >= 712
    ensures Run(env, [v[..712], v[712..]]).c.phase == Fail
    ensures Run(env, [v[..712], v[712..]]).used == 705 < Feed(env, Start(), v).used
  {
    hide StreamKey, Crypt, RequestPlain, FromSelect;
    var p := PubStep(env, Start(), v);
    var w := v[DH_LEN..];
    assert |v| >= 712;
    var x, y := v[..712], v[712..];
    assert x[..DH_LEN] == v[..DH_LEN] && PubStep(env, Start(), x) == p;
    var w1 := x[DH_LEN..];
    assert w == w1 + y;
    VcFront(w1, y, p.c.vc);
    assert FirstVc(w1, p.c.vc, 0) < 0;
    var c' := SyncStep(p.c, w1).c;
    assert c'.phase == Fail;
    SelectIdle(c', w1[609..]);
    var a := Feed(env, Start(), x);
    assert a.c == c' && a.used == 705;
    TwoChunks(x, y);
    OneChunk(env, x);
    PubIdle(env, c', x[705..] + y);
    SyncIdle(c', x[705..] + y);
    SelectIdle(c', x[705..] + y);
  }

  /** A stream on which that happens: a public key of zeros, then 617 bytes none of which can begin the
      verification constant. */
  function LateStream(env: Env): (v: Bytes)
    ensures |v| == DH_LEN + 617
  {
    var key: Bytes := seq(DH_LEN, _ => 0);
    var vc := Crypt(StreamKey(env.keyB(env.secret(key))), VC);
    var other: Byte := if vc[0] == 0 then 1 else 0;
    key + seq(617, _ => other)
  }

  lemma {:induction false} LateStreamDiffers(env: Env)
    requires 40 + |RequestPlain(env.ia)| <= env.outCap
    ensures var v := LateStream(env);
            Run(env, [v[..712], v[712..]]).used == 705 < Feed(env, Start(), v).used
  {
    hide StreamKey, Crypt, RequestPlain, Feed, Run;
    var v := LateStream(env);
    var key: Bytes := seq(DH_LEN, _ => 0);
    assert v[..DH_LEN] == key;
    var c, w := PubStep(env, Start(), v).c, v[DH_LEN..];
    assert forall j :: 0 <= j < |w| ==> w[j] != c.vc[0];
    forall j
      ensures !VcAt(w, c.vc, j)
    {
      if 0 <= j && j + VC_LEN <= |w| {
        assert w[j..j + VC_LEN][0] == w[j];
      }
    }
    assert FirstVc(w, c.vc, 0) == -1;
    LateDiffers(env, v);
  }

  lemma {:induction false} OneChunk(env: Env, x: Bytes)
    ensures Run(env, [x]) == Feed(env, Start(), x)
  {
    hide Feed;
    TwoChunks(x, []);
    assert Run(env, []) == Step(Start(), 0, []);
    assert Flatten([]) == [];
    assert Flatten([x][..0])[0..] + x == x;
  }

  // ---------------------------------------------------------------------------------------------
  // The machine itself.

  class MseClient {
    const sendRc4: Cipher
    const recvRc4: Cipher
    var phase: Phase
    var vc: Bytes
    var skipped: nat
    var select: Bytes
    var padd: nat

    ghost predicate Valid()
      reads this, sendRc4, recvRc4
    {
      && sendRc4 != recvRc4 && sendRc4.s != recvRc4.s
      && sendRc4.Valid() && recvRc4.Valid()
      && |vc| == VC_LEN
      && (phase == ReadSelect ==> |select| < 6)
    }

    ghost function Abstract(): (c: Client)
      requires Valid()
      reads this, sendRc4, recvRc4, sendRc4.s, recvRc4.s
      ensures Sane(c)
    {
      Client(phase, sendRc4.Abstract(), recvRc4.Abstract(), vc, skipped, select, padd)
    }

    constructor ()
      ensures Valid() && Abstract() == Start()
      ensures fresh(sendRc4) && fresh(recvRc4) && fresh(sendRc4.s) && fresh(recvRc4.s)
    {
      sendRc4 := new Cipher();
      recvRc4 := new Cipher();
      phase, skipped, padd, select := ReadPub, 0, 0, [];
      vc := VC;
      new;
      var z: Bytes := seq(256, _ => 0);
      assert sendRc4.s[..] == z && recvRc4.s[..] == z;
    }

    /** `mse_client_feed`. */
    method FeedBytes(env: Env, input: Bytes) returns (used: nat, out: Bytes)
      requires Valid()
      modifies this, sendRc4, recvRc4, sendRc4.s, recvRc4.s
      ensures Valid()
      ensures Step(Abstract(), used, out) == Feed(env, old(Abstract()), input)
    {
      hide PubStep, SyncStep, SelectStep, PadStep;
      var n: nat;
      used, out := FeedPub(env, input);
      n := FeedSync(input[used..]);
      ghost var p := used;
      used := used + n;
      assert input[used..] == input[p..][n..];
      n := FeedSelect(input[used..]);
      ghost var q := used;
      used := used + n;
      assert input[used..] == input[p..][q - p..][n..];
      n := FeedPad(input[used..]);
      used := used + n;
    }

    method FeedPub(env: Env, input: Bytes) returns (used: nat, out: Bytes)
      requires Valid()
      modifies this, sendRc4, recvRc4, sendRc4.s, recvRc4.s
      ensures Valid()
      ensures Step(Abstract(), used, out) == PubStep(env, old(Abstract()), input)
    {
      hide After, Crypt, StreamKey, RequestPlain;
      used, out := 0, [];
      if phase != ReadPub || |input| < DH_LEN {
        return;
      }
      used := DH_LEN;
      var secret := env.secret(input[..DH_LEN]);
      DeriveKeys(env.keyA(secret), env.keyB(secret));
      var plain := RequestPlain(env.ia);
      if env.outCap < 40 + |plain| {
        phase := Fail;
        return;
      }
      var block := sendRc4.Encrypt(plain);
      out := env.hashes(secret) + block;
      phase, skipped := SyncVc, 0;
    }

    /** Both ciphers keyed and advanced, and the eight bytes to look for. */
    method DeriveKeys(keyA: Bytes, keyB: Bytes)
      requires Valid()
      modifies this`vc, sendRc4, recvRc4, sendRc4.s, recvRc4.s
      ensures Valid()
      ensures sendRc4.Abstract() == StreamKey(keyA) && recvRc4.Abstract() == StreamKey(keyB)
      ensures vc == Crypt(StreamKey(keyB), VC)
    {
      hide After, Crypt, Keyed;
      sendRc4.Init(keyA);
      sendRc4.Discard(1024);
      recvRc4.Init(keyB);
      recvRc4.Discard(1024);
      var probe := new Cipher.Copy(recvRc4);
      vc := probe.Encrypt(VC);
    }

    method FeedSync(input: Bytes) returns (used: nat)
      requires Valid()
      modifies this, recvRc4, recvRc4.s
      ensures Valid() && used <= |input|
      ensures Step(Abstract(), used, []) == SyncStep(old(Abstract()), input)
    {
      hide After;
      used := 0;
      if phase != SyncVc {
        return;
      }
      var k := 0;
      var found := false;
      while k + VC_LEN <= |input|
        invariant !found && 0 <= k
        invariant FirstVc(input, vc, 0) == FirstVc(input, vc, k)
      {
        if input[k..k + VC_LEN] == vc {
          found := true;
          break;
        }
        k := k + 1;
      }
      if found {
        used := k + VC_LEN;
        recvRc4.Discard(VC_LEN);
        skipped := skipped + k;
        phase, select := ReadSelect, [];
      } else {
        used := if |input| > VC_LEN - 1 then |input| - (VC_LEN - 1) else 0;
        skipped := skipped + used;
        if skipped > SKIP_LIMIT {
          phase := Fail;
        }
      }
    }

    method FeedSelect(input: Bytes) returns (used: nat)
      requires Valid()
      modifies this, recvRc4, recvRc4.s
      ensures Valid() && used <= |input|
      ensures Step(Abstract(), used, []) == SelectStep(old(Abstract()), input)
    {
      hide After, Crypt;
      used := 0;
      if phase != ReadSelect {
        return;
      }
      used := FillSelect(input);
      if |select| < 6 {
        return;
      }
      var chosen, pad := select[..4], (select[4] as int) * 256 + select[5];
      if chosen[3] / 2 % 2 == 0 || pad > MAX_PAD {
        phase := Fail;
        return;
      }
      padd := pad;
      phase := ReadPadD;
    }

    /** Decrypts one byte at a time until six are there or the input runs out. */
    method FillSelect(input: Bytes) returns (used: nat)
      requires Valid() && phase == ReadSelect
      modifies this`select, recvRc4, recvRc4.s
      ensures sendRc4.Valid() && recvRc4.Valid()
      ensures used == if |input| < 6 - old(|select|) then |input| else 6 - old(|select|)
      ensures select == old(select) + Crypt(old(recvRc4.Abstract()), input[..used])
      ensures recvRc4.Abstract() == After(old(recvRc4.Abstract()), used)
    {
      hide After, Crypt;
      used := 0;
      ghost var r0 := recvRc4.Abstract();
      CryptNothing(r0);
      while |select| < 6 && used < |input|
        invariant used <= |input| && |select| == old(|select|) + used <= 6
        invariant sendRc4.Valid() && recvRc4.Valid()
        invariant recvRc4.Abstract() == After(r0, used)
        invariant select == old(select) + Crypt(r0, input[..used])
      {
        var b := recvRc4.Encrypt([input[used]]);
        assert input[..used + 1] == input[..used] + [input[used]];
        CryptConcat(r0, input[..used], [input[used]]);
        AfterSum(r0, used, 1);
        select := select + b;
        used := used + 1;
      }
    }

    method FeedPad(input: Bytes) returns (used: nat)
      requires Valid()
      modifies this`phase, this`padd, recvRc4, recvRc4.s
      ensures Valid() && used <= |input|
      ensures Step(Abstract(), used, []) == PadStep(old(Abstract()), input)
    {
      hide After;
      used := 0;
      if phase != ReadPadD {
        return;
      }
      ghost var r0 := recvRc4.Abstract();
      AfterZero(r0);
      while padd > 0 && used < |input|
        invariant used <= |input| && padd + used == old(padd)
        invariant Valid() && phase == ReadPadD
        invariant recvRc4.Abstract() == After(r0, used)
        invariant sendRc4.Abstract() == old(sendRc4.Abstract())
      {
        recvRc4.Discard(1);
        AfterSum(r0, used, 1);
        used := used + 1;
        padd := padd - 1;
      }
      if padd > 0 {
        return;
      }
      phase := Done;
    }
  }

  lemma {:induction false} CryptNothing(st: State)
    requires |st.s| == 256
    ensures Crypt(st, []) == [] && After(st, 0) == st
  {
  }
}

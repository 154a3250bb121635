/** The sending half of a peer connection: frames, encrypted once the handshake is over, written to a
    transport that may take only some of what it is offered, the rest kept in a bounded buffer. */
module PeerSend {
  import opened Octets
  import opened Rc4

  const CAPACITY := 4 + 1 + 0x4000 + 9
  const CHUNK := 4096

  /** A length-prefixed message. */
  function Frame(payload: Bytes): (f: Bytes)
    requires |payload| < 0x1_0000_0000
    ensures |f| == 4 + |payload|
  {
    Be32Bytes(|payload|) + payload
  }

  /** What `data` looks like on the wire. */
  function Coded(active: bool, st: State, data: Bytes): (c: Bytes)
    requires |st.s| == 256
    ensures |c| == |data|
  {
    if active then Crypt(st, data) else data
  }

  function Moved(active: bool, st: State, n: nat): (st': State)
    requires |st.s| == 256
    ensures |st'.s| == 256
  {
    if active then After(st, n) else st
  }

  lemma {:induction false} CodedConcat(active: bool, st: State, a: Bytes, b: Bytes)
    requires |st.s| == 256
    ensures Coded(active, st, a + b) == Coded(active, st, a) + Coded(active, Moved(active, st, |a|), b)
    ensures Moved(active, st, |a + b|) == Moved(active, Moved(active, st, |a|), |b|)
  {
    hide Crypt, After;
    CryptConcat(st, a, b);
    AfterSum(st, |a|, |b|);
  }

  lemma {:induction false} CodedPlain(active: bool, st: State, data: Bytes)
    requires |st.s| == 256 && (!active || data == [])
    ensures Coded(active, st, data) == data && Moved(active, st, |data|) == st
  {
  }

  /** One more chunk through the cipher. */
  lemma {:induction false} ChunkCoded(st: State, data: Bytes, done: nat, len: nat)
    requires |st.s| == 256 && done + len <= |data|
    ensures var next := Coded(true, st, data[..done]) + Crypt(Moved(true, st, done), data[done..done + len]);
            next == Coded(true, st, data[..done + len]) && next <= Coded(true, st, data)
    ensures After(Moved(true, st, done), len) == Moved(true, st, done + len)
  {
    hide Crypt, After;
    assert data[..done] + data[done..done + len] == data[..done + len];
    CodedConcat(true, st, data[..done], data[done..done + len]);
    assert data[..done + len] + data[done + len..] == data;
    CodedConcat(true, st, data[..done + len], data[done + len..]);
  }

  lemma Halves(was: Bytes, data: Bytes, n: nat)
    requires n <= |data|
    ensures was <= was + data[..n] <= was + data
    ensures was + data[..n] + data[n..] == was + data
  {
    assert was + data[..n] + data[n..] == was + (data[..n] + data[n..]);
  }

  lemma PrefixStep(was: Bytes, a: Bytes, c: Bytes, whole: Bytes, s: Bytes)
    requires was + a <= s <= was + a + c && a + c <= whole
    ensures was <= s <= was + whole && was + a + c == was + (a + c)
  {
    assert was + a + c == was + (a + c);
    assert was + whole == was + (a + c) + whole[|a + c|..];
  }

  /** A further unit appends its coded form to what the wire is meant to carry. */
  lemma {:induction false} IntendedSnoc(sent: seq<Bytes>, clear: nat, active: bool, base: State, unit: Bytes)
    requires clear <= |sent| && |base.s| == 256
    ensures var n := |Flatten(sent[clear..])|;
            && Intended(sent + [unit], clear, active, base)
               == Intended(sent, clear, active, base) + Coded(active, Moved(active, base, n), unit)
            && Moved(active, Moved(active, base, n), |unit|)
               == Moved(active, base, |Flatten((sent + [unit])[clear..])|)
  {
    hide Coded, Moved, Flatten;
    assert (sent + [unit])[..clear] == sent[..clear];
    assert (sent + [unit])[clear..] == sent[clear..] + [unit];
    FlattenSnoc(sent[clear..], unit);
    CodedConcat(active, base, Flatten(sent[clear..]), unit);
  }

  /** What accepted units look like on the wire, those after the first `clear` encrypted from `base`. */
  function Intended(sent: seq<Bytes>, clear: nat, active: bool, base: State): Bytes
    requires clear <= |sent| && |base.s| == 256
  {
    Flatten(sent[..clear]) + Coded(active, base, Flatten(sent[clear..]))
  }

  /** The connection's transport: takes any number of the bytes offered, or fails. */
  class Transport {
    ghost var wire: Bytes
    ghost var failed: bool

    constructor ()
      ensures wire == [] && !failed
    {
      wire, failed := [], false;
    }

    method Write(data: Bytes) returns (n: int)
      modifies this
      ensures -1 <= n <= |data|
      ensures wire == if n < 0 then old(wire) else old(wire) + data[..n]
      ensures failed == (old(failed) || n < 0)
    {
      n :| -1 <= n <= |data|;
      if n >= 0 {
        wire := wire + data[..n];
      } else {
        failed := true;
      }
    }
  }

  class Sender {
    const transport: Transport
    const cipher: Cipher
    const sbuf: array<Byte>
    var sbufLen: nat
    var mseActive: bool
    /** What was accepted, in order: handshake blobs and frames. */
    ghost var sent: seq<Bytes>
    /** How many of them before encryption began, and the cipher's state then. */
    ghost var clear: nat
    ghost var base: State
    /** A write failed for good, or a handshake blob did not fit: the connection is given up. */
    ghost var dead: bool

    ghost predicate Valid()
      reads this, cipher
    {
      && cipher.Valid() && cipher.s != sbuf
      && sbuf.Length == CAPACITY && sbufLen <= CAPACITY
    }

    /** Every byte given to the transport or still waiting for it. */
    ghost function Stream(): Bytes
      requires Valid()
      reads this, cipher, transport, sbuf
    {
      transport.wire + sbuf[..sbufLen]
    }

    /** Unless given up, the connection has put on its stream exactly what it accepted, and its cipher
        has moved by exactly what it encrypted. */
    ghost predicate Faithful()
      requires Valid()
      reads this, cipher, cipher.s, transport, sbuf
    {
      && |base.s| == 256 && clear <= |sent|
      && (!dead ==>
           && Stream() == Intended(sent, clear, mseActive, base)
           && (mseActive ==> cipher.Abstract() == After(base, |Flatten(sent[clear..])|)))
    }

    constructor ()
      ensures Valid() && Faithful() && !dead && !mseActive && Stream() == []
      ensures fresh(transport) && fresh(cipher) && fresh(cipher.s) && fresh(sbuf)
    {
      transport := new Transport();
      cipher := new Cipher();
      sbuf := new Byte[CAPACITY](_ => 0);
      sbufLen, mseActive := 0, false;
      sent, clear, dead := [], 0, false;
      base := State(seq(256, _ => 0), 0, 0);
      new;
      base := cipher.Abstract();
    }

    /** Copies `data` behind the waiting bytes. */
    method Append(data: Bytes)
      requires Valid() && sbufLen + |data| <= CAPACITY
      modifies this`sbufLen, sbuf
      ensures Valid() && sbufLen == old(sbufLen) + |data|
      ensures Stream() == old(Stream()) + data
    {
      forall k | 0 <= k < |data| {
        sbuf[sbufLen + k] := data[k];
      }
      ghost var was := old(sbuf[..sbufLen]);
      sbufLen := sbufLen + |data|;
      assert sbuf[..sbufLen] == was + data;
    }

    /** `peer_send_plain`. Whatever happens, only a prefix of the data joins the stream. */
    method SendPlain(data: Bytes) returns (ok: bool)
      requires Valid()
      modifies this`sbufLen, this`dead, sbuf, transport
      ensures Valid()
      ensures old(Stream()) <= Stream() <= old(Stream()) + data
      ensures ok ==> Stream() == old(Stream()) + data
      ensures dead == (old(dead) || !ok)
      ensures !ok ==> transport.failed || old(sbufLen) + |data| > CAPACITY
      ensures sbufLen <= old(sbufLen) + |data| && (old(transport.failed) ==> transport.failed)
    {
      var n := 0;
      if sbufLen == 0 && |data| > 0 {
        n := WriteNow(data);
        if n < 0 {
          dead := true;
          return false;
        }
      }
      Halves(old(Stream()), data, n);
      if n == |data| {
        return true;
      }
      if sbufLen + (|data| - n) > CAPACITY {
        dead := true;
        return false;
      }
      Append(data[n..]);
      return true;
    }

    /** Nothing waits: the data goes to the transport first. */
    method WriteNow(data: Bytes) returns (n: int)
      requires Valid() && sbufLen == 0
      modifies transport
      ensures -1 <= n <= |data| && transport.failed == (old(transport.failed) || n < 0)
      ensures Stream() == if n < 0 then old(Stream()) else old(Stream()) + data[..n]
    {
      n := transport.Write(data);
      assert sbuf[..sbufLen] == [];
    }

    /** `peer_send_raw`: in chunks, through the cipher when encryption is on. */
    method SendRaw(data: Bytes) returns (ok: bool)
      requires Valid()
      modifies this`sbufLen, this`dead, sbuf, transport, cipher, cipher.s
      ensures Valid()
      ensures old(Stream()) <= Stream() <= old(Stream()) + Coded(mseActive, old(cipher.Abstract()), data)
      ensures ok ==> Stream() == old(Stream()) + Coded(mseActive, old(cipher.Abstract()), data)
                     && cipher.Abstract() == Moved(mseActive, old(cipher.Abstract()), |data|)
      ensures dead == (old(dead) || !ok)
      ensures !ok ==> transport.failed || old(sbufLen) + |data| > CAPACITY
      ensures sbufLen <= old(sbufLen) + |data| && (old(transport.failed) ==> transport.failed)
    {
      hide Coded, Moved;
      if !mseActive || |data| == 0 {
        CodedPlain(mseActive, cipher.Abstract(), data);
        ok := SendPlain(data);
      } else {
        ok := SendCoded(data);
      }
    }

    /** The chunk loop of `peer_send_raw`. */
    method SendCoded(data: Bytes) returns (ok: bool)
      requires Valid() && mseActive
      modifies this`sbufLen, this`dead, sbuf, transport, cipher, cipher.s
      ensures Valid()
      ensures old(Stream()) <= Stream() <= old(Stream()) + Coded(true, old(cipher.Abstract()), data)
      ensures ok ==> Stream() == old(Stream()) + Coded(true, old(cipher.Abstract()), data)
                     && cipher.Abstract() == Moved(true, old(cipher.Abstract()), |data|)
      ensures dead == (old(dead) || !ok)
      ensures !ok ==> transport.failed || old(sbufLen) + |data| > CAPACITY
      ensures sbufLen <= old(sbufLen) + |data| && (old(transport.failed) ==> transport.failed)
    {
      hide Coded, Moved, Crypt, After;
      var done := 0;
      ghost var st, was := cipher.Abstract(), Stream();
      CodedPlain(true, st, []);
      assert data[..0] == [];
      while done < |data|
        invariant 0 <= done <= |data| && Valid() && dead == old(dead)
        invariant cipher.Abstract() == Moved(true, st, done)
        invariant Stream() == was + Coded(true, st, data[..done])
        invariant sbufLen <= old(sbufLen) + done && (old(transport.failed) ==> transport.failed)
      {
        var len := if |data| - done > CHUNK then CHUNK else |data| - done;
        ChunkCoded(st, data, done, len);
        var chunk := data[done..done + len];
        ghost var enc, coded := Crypt(cipher.Abstract(), chunk), Coded(true, st, data[..done]);
        ok := SendChunk(chunk);
        PrefixStep(was, coded, enc, Coded(true, st, data), Stream());
        if !ok {
          return;
        }
        done := done + len;
      }
      assert data[..done] == data;
      ok := true;
    }

    /** Encrypts one chunk and sends it. */
    method SendChunk(chunk: Bytes) returns (ok: bool)
      requires Valid() && mseActive
      modifies this`sbufLen, this`dead, sbuf, transport, cipher, cipher.s
      ensures Valid()
      ensures old(Stream()) <= Stream() <= old(Stream()) + Crypt(old(cipher.Abstract()), chunk)
      ensures ok ==> Stream() == old(Stream()) + Crypt(old(cipher.Abstract()), chunk)
      ensures cipher.Abstract() == After(old(cipher.Abstract()), |chunk|)
      ensures dead == (old(dead) || !ok)
      ensures !ok ==> transport.failed || old(sbufLen) + |chunk| > CAPACITY
      ensures sbufLen <= old(sbufLen) + |chunk| && (old(transport.failed) ==> transport.failed)
    {
      hide Crypt, After;
      ghost var before := Stream();
      var enc := cipher.Encrypt(chunk);
      assert Stream() == before;
      ok := SendPlain(enc);
    }

    /** `peer_flush`: offers what is waiting; the stream is the same, more of it is on the wire. */
    method Flush() returns (ok: bool)
      requires Valid()
      modifies this`sbufLen, this`dead, sbuf, transport
      ensures Valid() && Stream() == old(Stream()) && old(transport.wire) <= transport.wire
      ensures sbufLen <= old(sbufLen) && (old(transport.failed) ==> transport.failed)
      ensures dead == (old(dead) || !ok)
      ensures !ok ==> transport.failed
      ensures old(Faithful()) ==> Faithful()
    {
      hide Intended, After;
      ok := Offer();
    }

    /** The write, and what it leaves to be written. */
    method Offer() returns (ok: bool)
      requires Valid()
      modifies this`sbufLen, this`dead, sbuf, transport
      ensures Valid() && Stream() == old(Stream()) && old(transport.wire) <= transport.wire
      ensures sbufLen <= old(sbufLen) && (old(transport.failed) ==> transport.failed)
      ensures dead == (old(dead) || !ok)
      ensures !ok ==> transport.failed
    {
      if sbufLen == 0 {
        return true;
      }
      var n := transport.Write(sbuf[..sbufLen]);
      if n < 0 {
        dead := true;
        return false;
      }
      if n > 0 {
        Shift(n);
      }
      return true;
    }

    /** The `memmove` of `peer_flush`. */
    method Shift(n: nat)
      requires Valid() && n <= sbufLen
      modifies this`sbufLen, sbuf
      ensures Valid() && sbufLen == old(sbufLen) - n
      ensures sbuf[..sbufLen] == old(sbuf[..sbufLen])[n..]
    {
      forall k | 0 <= k < sbufLen - n {
        sbuf[k] := sbuf[n + k];
      }
      sbufLen := sbufLen - n;
    }

    /** `send_msg`: the whole frame joins the stream, or, unless the transport fails, none of it and
        the cipher stays where it was. It is refused only for want of room. */
    method SendMsg(payload: Bytes) returns (ok: bool)
      requires Valid() && Faithful() && |payload| < 0x1_0000_0000
      modifies this`sbufLen, this`dead, this`sent, sbuf, transport, cipher, cipher.s
      ensures Valid() && Faithful()
      ensures sent == if ok then old(sent) + [Frame(payload)] else old(sent)
      ensures ok ==> Stream() == old(Stream()) + Coded(mseActive, old(cipher.Abstract()), Frame(payload))
      ensures !transport.failed ==>
                && dead == old(dead)
                && (old(sbufLen) + 4 + |payload| <= CAPACITY ==> ok)
                && (!ok ==> Stream() == old(Stream()) && cipher.Abstract() == old(cipher.Abstract())
                            && sbufLen + 4 + |payload| > CAPACITY)
    {
      hide Coded, Moved, Intended;
      if sbufLen + 4 + |payload| > CAPACITY {
        var flushed := Flush();
        if !flushed || sbufLen + 4 + |payload| > CAPACITY {
          return false;
        }
      }
      ok := SendFrame(payload);
    }

    /** The header, then the payload, once there is room for both. */
    method SendFrame(payload: Bytes) returns (ok: bool)
      requires Valid() && Faithful() && |payload| < 0x1_0000_0000
      requires sbufLen + 4 + |payload| <= CAPACITY
      modifies this`sbufLen, this`dead, this`sent, sbuf, transport, cipher, cipher.s
      ensures Valid() && Faithful()
      ensures sent == if ok then old(sent) + [Frame(payload)] else old(sent)
      ensures ok ==> Stream() == old(Stream()) + Coded(mseActive, old(cipher.Abstract()), Frame(payload))
      ensures dead == (old(dead) || !ok)
      ensures !ok ==> transport.failed
      ensures old(transport.failed) ==> transport.failed
    {
      hide Coded, Moved, Intended;
      ghost var st := cipher.Abstract();
      ok := SendParts(payload);
      if ok {
        Accept(Frame(payload), st);
      }
    }

    /** The two parts of a frame, one behind the other. */
    method SendParts(payload: Bytes) returns (ok: bool)
      requires Valid() && |payload| < 0x1_0000_0000 && sbufLen + 4 + |payload| <= CAPACITY
      modifies this`sbufLen, this`dead, sbuf, transport, cipher, cipher.s
      ensures Valid() && dead == (old(dead) || !ok)
      ensures ok ==> Stream() == old(Stream()) + Coded(mseActive, old(cipher.Abstract()), Frame(payload))
                     && cipher.Abstract() == Moved(mseActive, old(cipher.Abstract()), |Frame(payload)|)
      ensures (!ok ==> transport.failed) && (old(transport.failed) ==> transport.failed)
    {
      hide Coded, Moved;
      var hdr := Be32Bytes(|payload|);
      CodedConcat(mseActive, cipher.Abstract(), hdr, payload);
      ok := SendRaw(hdr);
      if ok && |payload| > 0 {
        ok := SendRaw(payload);
      } else if ok {
        CodedPlain(mseActive, cipher.Abstract(), []);
      }
    }

    /** Books an accepted unit; nothing but the ghost record changes. */
    ghost method Accept(unit: Bytes, st: State)
      requires Valid() && |st.s| == 256 && |base.s| == 256 && clear <= |sent|
      requires !dead ==> cipher.Abstract() == Moved(mseActive, st, |unit|)
      requires !dead && mseActive ==> st == After(base, |Flatten(sent[clear..])|)
      requires !dead ==>
                 Stream() == Intended(sent, clear, mseActive, base) + Coded(mseActive, st, unit)
      modifies this`sent
      ensures Faithful() && sent == old(sent) + [unit]
    {
      hide Intended, Crypt, After;
      IntendedSnoc(sent, clear, mseActive, base, unit);
      sent := sent + [unit];
    }

    /** `peer_send_handshake` and the handshake's own bytes in `peer_connected` and `peer_process`. */
    method SendBlob(data: Bytes) returns (ok: bool)
      requires Valid() && Faithful()
      modifies this`sbufLen, this`dead, this`sent, sbuf, transport, cipher, cipher.s
      ensures Valid() && Faithful()
      ensures ok ==> sent == old(sent) + [data] && dead == old(dead)
      ensures !ok ==> dead
    {
      hide Coded, Moved, Intended;
      ghost var st := cipher.Abstract();
      ok := SendRaw(data);
      if ok {
        Accept(data, st);
      }
    }

    /** Everything accepted from here on goes through the cipher as it stands now. */
    method Activate()
      requires Valid() && Faithful() && !mseActive
      modifies this`mseActive, this`base, this`clear
      ensures Valid() && Faithful() && mseActive
      ensures clear == |sent| && base == cipher.Abstract()
    {
      hide Flatten;
      ClearSoFar(sent, clear);
      mseActive := true;
      base := cipher.Abstract();
      clear := |sent|;
      Nothing(sent, base);
    }
  }

  lemma {:induction false} ClearSoFar(sent: seq<Bytes>, clear: nat)
    requires clear <= |sent|
    ensures Flatten(sent[..clear]) + Flatten(sent[clear..]) == Flatten(sent)
  {
    hide Flatten;
    FlattenConcat(sent[..clear], sent[clear..]);
    assert sent[..clear] + sent[clear..] == sent;
  }

  lemma {:induction false} Nothing(sent: seq<Bytes>, st: State)
    requires |st.s| == 256
    ensures Intended(sent, |sent|, true, st) == Flatten(sent) && After(st, |Flatten(sent[|sent|..])|) == st
  {
    assert sent[..|sent|] == sent && sent[|sent|..] == [];
  }
}

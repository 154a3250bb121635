/** How a torrent's bytes are cut into pieces, and pieces into blocks. */
module PieceLayout {
  function BlockOf(offset: nat): nat {
    offset / 0x4000
  }

  function OffsetOf(block: nat): nat {
    block * 0x4000
  }

  lemma BlockOfOffset(block: nat)
    ensures BlockOf(OffsetOf(block)) == block
  {
  }

  /** The length of a block of a piece of `plen` bytes; only the last may be short. */
  function BlockLen(plen: nat, block: nat): int {
    if OffsetOf(block) + 0x4000 <= plen then 0x4000 else plen - OffsetOf(block)
  }

  function NumBlocks(plen: nat): nat {
    (plen + 0x3fff) / 0x4000
  }

  lemma {:induction false} BlocksCover(plen: nat, block: nat)
    ensures block < NumBlocks(plen) <==> OffsetOf(block) < plen
    ensures block < NumBlocks(plen) ==> 0 < BlockLen(plen, block) <= 0x4000
    ensures block + 1 < NumBlocks(plen) ==> OffsetOf(block) + BlockLen(plen, block) == OffsetOf(block + 1)
    ensures block + 1 == NumBlocks(plen) ==> OffsetOf(block) + BlockLen(plen, block) == plen
  {
  }

  /** Total bytes, bytes of every piece but the last, number of pieces. */
  datatype Torrent = Torrent(total: nat, pieceLength: nat, pieces: nat)

  /** What the metainfo parser lets through, provided the true piece count fits 32 bits: as many pieces
      as the bytes need. */
  ghost predicate Consistent(t: Torrent) {
    && t.pieceLength > 0
    && t.pieces == (t.total + t.pieceLength - 1) / t.pieceLength
  }

  /** `piece_len`. */
  function PieceLen(t: Torrent, i: nat): nat {
    if i + 1 < t.pieces then t.pieceLength
    else
      var rem: int := t.total - i * t.pieceLength;
      if rem > 0 then rem else 0
  }

  function SumLens(t: Torrent, n: nat): nat {
    if n == 0 then 0 else SumLens(t, n - 1) + PieceLen(t, n - 1)
  }

  lemma {:induction false} LastPiece(t: Torrent)
    requires Consistent(t) && t.pieces > 0
    ensures (t.pieces - 1) * t.pieceLength < t.total <= (t.pieces - 1) * t.pieceLength + t.pieceLength
  {
    var q, x, d := t.pieces, t.total + t.pieceLength - 1, t.pieceLength;
    DivBounds(x, d);
    assert (q - 1) * d == q * d - d;
  }

  lemma DivBounds(x: nat, d: nat)
    requires d > 0
    ensures (x / d) * d <= x < (x / d) * d + d
  {
  }

  /** No piece is empty, none longer than a piece buffer. */
  lemma {:induction false} PieceLenBounds(t: Torrent, i: nat)
    requires Consistent(t) && i < t.pieces
    ensures 0 < PieceLen(t, i) <= t.pieceLength
  {
    if i + 1 == t.pieces {
      LastPiece(t);
    }
  }

  lemma {:induction false} SumBefore(t: Torrent, n: nat)
    requires n < t.pieces
    ensures SumLens(t, n) == n * t.pieceLength
  {
    if n > 0 {
      SumBefore(t, n - 1);
      assert n * t.pieceLength == (n - 1) * t.pieceLength + t.pieceLength;
    }
  }

  /** The pieces' lengths sum to the torrent's. */
  lemma {:induction false} SumIsTotal(t: Torrent)
    requires Consistent(t)
    ensures SumLens(t, t.pieces) == t.total
  {
    if t.pieces == 0 {
      DivBounds(t.total + t.pieceLength - 1, t.pieceLength);
    } else {
      var n := t.pieces - 1;
      SumBefore(t, n);
      LastPiece(t);
    }
  }
}

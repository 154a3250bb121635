# A verified model of a BitTorrent engine

This project models the stateful core of a BitTorrent client written in C (with a vendored uTP
transport and a vendored Kademlia DHT) and proves what its parts promise. Objects whose fields the
program updates in place are classes whose methods are proved against specification functions on
values; what is promised over whole runs is proved as lemmas about those functions.

`dafny verify dfyconfig.toml` checks everything.

| component | modules |
|---|---|
| uTP reliability (BEP 29) | `UtpBuffer`, `UtpReceive`, `UtpSend`, `UtpStream` |
| piece manager and its hash worker | `PieceLayout`, `PieceSlots`, `PieceOrder`, `HashRing`, `PieceBuffers`, `PieceBooks`, `PieceManager` |
| request scheduler, peer queue | `Requests`, `PeerQueue` |
| peer byte streams, encrypted handshake | `Rc4`, `Mse`, `PeerSend`, `PeerRecv`, `PeerReceiver` |
| Kademlia table and searches (BEP 5) | `DhtId`, `DhtTable`, `DhtClosest` |
| flat storage over files | `Storage` |
| bencoding (BEP 3), streaming SHA-1 | `Bencode`, `BencodeParser`, `Sha1` |
| shared vocabulary | `ModMath`, `Octets`, `Options` |

How some things are represented:

- uTP packets carry unbounded ghost numbers; the sockets' fields hold what 16 bits keep of them, and the
  circular buffers are indexed by the 16-bit names. `cur_window`, `reorder_count` and the window are
  tied to the ghost queue by the class invariants.
- The piece manager's two threads are interleaved steps: `WorkerStep` may run between any two steps of
  the torrent thread. `PieceBooks.Sound` is the invariant of everything the torrent thread keeps:
  counters and bitfields, the order cursor, the owner of every buffer, the contents of buffers, the
  order of results. Buffers are handles into a map from handle to bytes; a fresh or recycled buffer
  contains anything.
- Whether given bytes have a piece's hash, the Diffie-Hellman secret, the stream keys, the SHA-1
  compression function and what a message makes its handler decide are parameters: every result holds
  for all of them. Partial acceptance by a transport, portions read from a socket, time, a failing
  allocation of a piece buffer and refusing sinks are free choices at each step.
- A uTP sender keeps a ghost log of the datagrams it ever sent, with their 16-bit numbers; the network
  is any list of entries of that log.

What the proofs showed about the program:

- **Handshake chunking.** The initiator's search for the verification constant does not depend on how
  the stream is cut exactly when the constant starts within 608 bytes of the public key's end, or is
  missing with no more than 609 bytes to skip (`Mse.RobustIsExact`). Otherwise one feed of the stream
  and a feed cut after 712 bytes disagree, because the limit is looked at only when the search fails;
  `Mse.LateStreamDiffers` gives such a stream.
- **Peer queue rotation.** A rebuild of the hash during an insertion enters the new key twice
  (`core/torrent.c:363-364`), so the hash may keep one surplus key after its endpoint has left.
  `torrent_add_initial_peers` rotates earlier entries by popping and re-inserting them, which drops an
  endpoint whose key is that surplus one, although the comment there says the entries are preserved.
  `PeerQueue.Rotation` is exactly what is left, in every state; `PeerQueue.RotationExact` says when
  that is everything: when no earlier entry is refused, and none is stale unless the first
  re-insertion rebuilds the hash again. A lost entry was refused or stale (`PeerQueue.RotationLoses`), and
  `PeerQueue.InitialPeersLoseEndpoint` is a history in which the call loses one.
- **Stranded block.** A peer takes a request out of its pipeline before `piece_mgr_got_block` runs, and
  that returns at `core/piece.c:421-424` without clearing the block's request count when no buffer can
  be allocated. Unless another peer was asked too, the block is then counted with nobody asked for it
  (`Requests.StrandsBlock`). Nothing else strands a block (`Requests.Swarm.Stranded`), and the torrent
  ends through `fatal_error` (`core/torrent.c:460-461`, `core/torrent.c:1594-1595`).
- **Order cursor.** Rewinding the cursor to a piece's recorded position is right in every state exactly
  when the wanted order lists no piece twice (`PieceOrder.RewindExact`), since only the last position
  is recorded (`core/piece.c:313-316`). The piece manager is modelled under that premise.
- **Smallest integer.** The bencoding parser refuses INT64_MIN, whose digits exceed INT64_MAX
  (`Bencode.IntRoundTrip`).

## Model

| member | source | states |
|---|---|---|
| UtpBuffer.ShowsPut | core/libutp/utp_internal.cpp:185-197 | writing one slot of the `& mask` ring changes the entry of one number only, for numbers less than a ring apart |
| UtpBuffer.CircularBuffer.Put | core/libutp/utp_internal.cpp:185-197 | exactly the slot of the index changes |
| UtpBuffer.CircularBuffer.EnsureSize | core/libutp/utp_internal.cpp:194-221 | afterwards the index fits, the ring has not shrunk, it is the least power of two above the index, and every live number is found where its 16-bit name points |
| UtpBuffer.CircularBuffer.Grow | core/libutp/utp_internal.cpp:201-221 | re-hashing into the larger ring keeps the view: each live number keeps its entry, all others stay empty |
| UtpReceive.RunDeliversInOrder | core/libutp/utp_internal.cpp:2341-2474 | after any arrivals, with duplicates, gaps and reordering, the bytes handed up are the payloads of a gap-free range in sequence order, once each, all of which arrived; what is held arrived and is genuine |
| UtpReceive.RunStopsAtFirstGap | core/libutp/utp_internal.cpp:2341-2474 | when no packet was beyond the reorder buffer, delivery stops exactly at the first packet that never arrived |
| UtpReceive.ArrivalOrderIrrelevant | core/libutp/utp_internal.cpp:2341-2474 | two runs over the same packets in any order hand up the same bytes |
| UtpReceive.Receiver.Incoming | core/libutp/utp_internal.cpp:2341-2474 | 16-bit arithmetic over the ring does to the socket what one arrival does to the unbounded receive state: deliver, drain, remember, or ignore |
| UtpReceive.Receiver.DeliverNext | core/libutp/utp_internal.cpp:2385-2402 | one turn of the drain loop: the next held packet is handed up and its slot emptied, `reorder_count` follows |
| UtpReceive.Receiver.Remember | core/libutp/utp_internal.cpp:2435-2466 | an early packet is stored once; a duplicate changes nothing; `reorder_count` is the number held |
| UtpReceive.Receiver.MakeRoom | core/libutp/utp_internal.cpp:2435-2439 | growing around `ack_nr + 1` loses nothing and keeps the slots of `ack_nr` and `ack_nr + 1` empty |
| UtpReceive.Receiver.SendAck | core/libutp/utp_internal.cpp:771-832 | an EACK is sent iff something is held, and bit i is set iff packet ack_nr + 2 + i is held |
| UtpReceive.Receiver.SendKeepAlive | core/libutp/utp_internal.cpp:834-844 | with `ack_nr` lowered for the duration, the EACK bits are still true, and the receive state is unchanged |
| UtpSend.WrappingLessIsLess | core/libutp/utp_internal.cpp:227-238 | on numbers less than half a turn apart the wrapping comparison is the true order |
| UtpSend.Sender.SendPacket | core/libutp/utp_internal.cpp:867-929 | the packet counts as in flight again and nothing else changes; `cur_window` stays the payload in flight; what goes out is the 16-bit number and the payload recorded for it |
| UtpSend.Sender.FlushPackets | core/libutp/utp_internal.cpp:963-986 | unless quota stops it, everything queued is in flight, but for a short last packet with others before it |
| UtpSend.Sender.OnTimeout | core/libutp/utp_internal.cpp:1230-1255 | afterwards exactly the oldest packet is in flight, it alone was sent, no payload is lost and `cur_window` is that payload |
| UtpSend.Sender.MarkLost | core/libutp/utp_internal.cpp:1230-1237 | every packet is given up for lost once, and `cur_window` becomes 0 without going below it |
| UtpSend.Sender.AckPacket | core/libutp/utp_internal.cpp:1329-1400 | 0 iff a sent packet was removed, 1 iff it was gone, 2 iff it was never sent; the books stay exact |
| UtpSend.Sender.AckOldest | core/libutp/utp_internal.cpp:2194-2216 | the oldest numbers leave in order, stopping at the first packet never sent |
| UtpSend.Sender.SkipAcked | core/libutp/utp_internal.cpp:2223-2244 | afterwards the oldest slot of a non-empty window is filled |
| UtpSend.Sender.Enqueue | core/libutp/utp_internal.cpp:1029-1092 | one new packet at the end of the window; the window never exceeds 1024, with one place kept for the FIN |
| UtpSend.Sender.FillLast | core/libutp/utp_internal.cpp:1017-1028 | only a packet never sent grows, at its end |
| UtpSend.Sender.WriteOutgoing | core/libutp/utp_internal.cpp:992-1099 | the numbered packets join to exactly the bytes written; a number whose packet was sent or is gone stays so and keeps its payload, over any sequence of calls |
| UtpSend.Sender.CutAll | core/libutp/utp_internal.cpp:1003-1097 | the cutting loop appends all the data and changes no payload that was ever sent |
| UtpSend.Sender.WriteV | core/libutp/utp_internal.cpp:3154-3240 | the bytes taken are a prefix of the data, appended to the stream; what was sent keeps its payload and the record of transmissions only grows |
| UtpSend.Sender.SendFin | core/libutp/utp_internal.cpp:3375-3380 | the FIN takes the place that `is_full` keeps free; no bytes are written and what was sent keeps its payload |
| UtpSend.Sender.SelectiveAck | core/libutp/utp_internal.cpp:1441-1613 | of the packets above the oldest, exactly those sent and named by a set bit leave the queue |
| UtpSend.Sender.AckBit | core/libutp/utp_internal.cpp:1502-1531 | what one mask bit removes, in true numbers |
| UtpSend.Sender.ResendLost | core/libutp/utp_internal.cpp:1578-1607 | at most four packets are sent again; every invariant and every payload is kept |
| UtpSend.Sender.AckCountExact | core/libutp/utp_internal.cpp:1903-1907 | the 16-bit subtraction counts exactly the packets an ack number covers |
| UtpSend.Sender.IncomingAck | core/libutp/utp_internal.cpp:1800-2290 | an ack outside the window changes nothing; otherwise exactly the packets below the new front leave, and of those above it exactly those sent and named by the mask; the front moves over sent and covered packets only, and over all covered ones when all were sent |
| UtpSend.Sender.CumulativeAck | core/libutp/utp_internal.cpp:2194-2261 | exactly the covered packets leave, and all of them when all were sent; of the rest only the oldest may be sent again |
| UtpSend.Sender.AfterAck | core/libutp/utp_internal.cpp:2246-2283 | only the oldest packet is sent again after an ack; every other keeps its state |
| UtpStream.ReceivedIsPrefixOfWritten | core/libutp/utp_internal.cpp:2341-2474 | end to end, for any sender: from any of the datagrams it ever sent, in any order and any number of times, the bytes handed up are a prefix of the bytes written to it, and all of them once every numbered packet arrived within reach |
| UtpStream.Transfer | core/libutp/utp_internal.cpp:2341-2474 | the same for the two sockets: the receiver, shown only the 16-bit numbers, ends with such a prefix |
| UtpStream.DeliveredIsRun | core/libutp/utp_internal.cpp:2341-2474 | datagrams that carry the recorded payloads make a run over their numbers |
| PieceLayout.PieceLenBounds | core/piece.c:10-16 | no piece is empty or longer than a piece buffer |
| PieceLayout.SumIsTotal | core/metainfo.c:200-208 | the piece lengths sum to the torrent length |
| PieceLayout.BlocksCover | core/piece.c:18-21 | blocks are consecutive, none empty, and end where the piece ends |
| HashRing.Ring.Push | core/piece.c:257-266 | a job goes behind all others; entry k is done iff k < hashed <= count <= 2; the entry the worker holds is not touched |
| HashRing.Ring.Pop | core/piece.c:202-211 | the oldest job leaves with its own verdict; the entry the worker holds is still the oldest unhashed one |
| HashRing.Ring.Take | core/piece.c:134-146 | the worker finds the oldest unhashed job |
| HashRing.Ring.Publish | core/piece.c:154-159 | the verdict lands in the entry of the job it is about |
| PieceManager.Manager.WorkerStep | core/piece.c:131-161 | any worker step, between any steps of the torrent thread, keeps every invariant; the verdict it computes is that of the bytes handed over |
| PieceManager.Manager.Await | core/piece.c:216-224 | waiting for results ends |
| PieceManager.Manager.Apply | core/piece.c:166-195 | the oldest completed piece is written and done, or empty again with its buffer back in the slot; the slot is given exactly, no other piece changes; the guard against a slot that is not being hashed never fires |
| PieceManager.Manager.ApplyHead | core/piece.c:200-213 | the result popped from the ring is that of the oldest completed piece not applied yet |
| PieceManager.Manager.Drain | core/piece.c:197-214 | results are applied in completion order, all of them if all were ready |
| PieceManager.Manager.Flush | core/piece.c:216-224 | afterwards nothing is queued and the storage has seen exactly what inline hashing would have shown it |
| PieceManager.Manager.Enqueue | core/piece.c:230-270 | queued: exactly the received blocks are handed over and the slot is being hashed; not queued: the ring is empty, so inline hashing cannot reorder |
| PieceManager.Manager.Inline | core/piece.c:442-465 | inline hashing judges the piece just completed; status and state agree |
| PieceManager.Manager.GotBlock | core/piece.c:407-466 | which blocks are usable, what a usable block changes, that anything else changes nothing, and that a whole piece is handed over as the blocks received for it |
| PieceManager.Manager.MarkPending | core/piece.c:395-405 | a piece begins; nothing received is lost; done and hashing pieces are left alone |
| PieceManager.Manager.BufGet | core/piece.c:74-78 | a pooled or fresh buffer, whatever it contains, or none; nothing else changes |
| PieceManager.Manager.BufPut | core/piece.c:80-87 | to the pool of at most four, or freed |
| PieceManager.Manager.ResetPiece | core/piece.c:89-109 | the new state in full; with `PieceBooks.ResetSound` the saturating branches are dead |
| PieceManager.Manager.MarkDone | core/piece.c:112-123 | the new state in full |
| PieceManager.Manager.AdvanceCursor | core/piece.c:52-60 | the cursor stops at the first unfinished position |
| PieceManager.Manager.VerifyPiece | core/piece.c:477-503 | a done piece begins anew iff its readable range no longer has its hash |
| PieceManager.Manager.CheckExisting | core/piece.c:520-551 | result and state agree in every case; no other piece changes |
| PieceManager.Manager.PresetHave | core/piece.c:553-570 | exactly the saved pieces whose range is skipped or readable become done, available iff readable and not skipped |
| PieceManager.Manager.HeadPiece | core/piece.c:706-716 | what a scan from the front of the order would return |
| PieceManager.Manager.PickStrict | core/piece.c:641-681 | what a scan of the whole order would choose, under the lookahead, permission and pending/empty rules |
| PieceManager.Manager.PickAny | core/piece.c:683-703 | the first unbegun piece the peer has, else the first unfinished one; none only if there is none |
| PieceOrder.PositionsOf | core/piece.c:302-317 | the table holds each piece's last position in the order |
| PieceOrder.CursorRewind | core/piece.c:62-68 | with an order that lists no piece twice, everything before the rewound cursor is finished |
| PieceOrder.RewindExact | core/piece.c:62-68 | rewinding keeps the cursor right in every state iff no piece is listed twice |
| PieceOrder.RepeatsMislead | core/piece.c:62-68 | a concrete order with a repeated piece for which the head of the download is misjudged |
| PieceOrder.HeadSkips | core/piece.c:706-716 | the head found from the cursor is the head found from the front |
| PieceOrder.WindowSkips | core/piece.c:649-660 | the lookahead window seen from the cursor is the one seen from the front |
| PieceOrder.PickFrom | core/piece.c:651-680 | the picker's loop chooses the first candidate of the preferred kind in the window, else the first of the other |
| PieceOrder.HasRequestable | core/piece.c:629-637 | true iff some block is missing and requested from nobody |
| PieceSlots.CompleteIsTotal | core/piece.c:112-123 | num_done equals the number of pieces iff every bit of the have-bitfield is set, and then completed_bytes is the torrent length |
| PieceSlots.ProgressDone | core/piece.c:112-123 | marking a piece done keeps the counters and bitfields exact |
| PieceSlots.ProgressUndone | core/piece.c:89-100 | taking a done piece back keeps them exact, and neither counter can go below zero |
| PieceSlots.PopulationSet | core/piece.c:429-432 | setting a new block bit raises the bitmap's population by one |
| PieceBuffers.FullIsAssembled | core/piece.c:70-78 | once every block has arrived, the buffer's first bytes are the blocks in order, whatever it held before |
| PieceBuffers.StoredParts | core/piece.c:417-427 | a block overwrites its own range of the buffer and no other block's |
| PieceBuffers.SlotToJob | core/piece.c:259-268 | detaching a buffer into a job keeps every buffer with exactly one owner |
| PieceBuffers.JobToSlot | core/piece.c:173-186 | so does handing it back |
| PieceBuffers.JobToPool | core/piece.c:188-190 | so does recycling or freeing it |
| PieceBuffers.PoolToSlot | core/piece.c:74-78 | so does taking one from the pool |
| PieceBooks.ResetSound | core/piece.c:89-109 | resetting keeps all invariants |
| PieceBooks.TookSound | core/piece.c:426-433 | storing a block keeps all invariants |
| PieceBooks.FromPoolSound | core/piece.c:74-78 | a recycled buffer keeps all invariants |
| PieceBooks.FromHeapSound | core/piece.c:74-78 | so does a fresh one with arbitrary content |
| PieceBooks.CompleteIsAssembled | core/piece.c:434-443 | the bytes hashed and written for a piece are the blocks received for it since its last reset |
| PieceBooks.HandedSound | core/piece.c:257-270 | handing a piece over keeps all invariants |
| PieceBooks.AcceptedSound | core/piece.c:178-191 | the success path of applying a result keeps all invariants |
| PieceBooks.RefusedSound | core/piece.c:173-186 | so do the mismatch and write-error paths |
| PieceBooks.PresetSound | core/piece.c:507-518 | so does marking done without hashing |
| PieceBooks.QuiescentIsInline | core/piece.c:125-130 | with nothing queued, the storage calls are those of hashing inline in completion order |
| PieceBooks.WritesArePrefix | core/piece.c:125-130 | at any time they are a prefix of those |
| Requests.NoStrandedBlock | core/torrent.c:1051-1088 | a block that no pipeline holds, and a block received, has request count 0 |
| Requests.Swarm.constructor | core/piece.c:330-341 | the first state: nothing received, nobody asked, every invariant holds |
| Requests.Swarm.Stranded | core/piece.c:407-433 | in every reachable state a block that is counted though no peer is asked for it was lost to a failed buffer allocation, and the torrent is ending |
| Requests.SoundAsk | core/torrent.c:1066-1086 | asking one more peer keeps every count at most 2, at most the number of pipelines holding the block, and at most 16 blocks doubled |
| Requests.SoundRemove | core/torrent.c:710-716 | taking a request out of a pipeline keeps that |
| Requests.Swarm.Ask | core/peer.c:270-287 | the request is queued and counted, or nothing changes |
| Requests.Swarm.SchedulePiece | core/torrent.c:1059-1086 | with room left in the pipeline, no missing block of the piece stays unrequested |
| Requests.Swarm.Schedule | core/torrent.c:1051-1088 | filling a pipeline keeps the invariant, whichever pieces are picked |
| Requests.Swarm.PickHedgePeer | core/torrent.c:1104-1126 | the chosen peer is eligible and no eligible peer is preferred to it; none iff none is eligible |
| Requests.StrandsBlock | core/piece.c:421-424 | a concrete history that ends with a block counted and nobody asked for it |
| Requests.Swarm.HedgeOne | core/torrent.c:1189-1213 | on success exactly one block is doubled, asked of one other peer with the hedged request, and all else is as before; a refusal changes nothing |
| Requests.Swarm.Hedge | core/torrent.c:1159-1214 | at most four hedges a tick, at most 16 blocks doubled |
| Requests.Swarm.CountDoubled | core/torrent.c:1172-1179 | counts the doubled blocks |
| Requests.Swarm.Expire | core/peer.c:312-331 | exactly the overdue requests leave, in place, and each takes one from its block's count, not below 0 |
| Requests.Swarm.ClearPeer | core/torrent.c:718-724 | every request of the peer is given back, each taking one from its block's count, and no other pipeline changes |
| Requests.Swarm.Release | core/torrent.c:710-716 | the count of the block goes down by one, or stays 0, and no other count changes |
| Requests.Swarm.ReceivePiece | core/peer.c:372-386 | only an exact outstanding request is taken; then its block has count 0 and, if stored, is there; only when no buffer can be allocated has nothing but the pipeline changed, and then the torrent is about to end |
| Requests.Swarm.GotBlock | core/torrent.c:436-467 | no request stays counted for the block in any outcome but a failed allocation, which changes nothing and is possible exactly for an open piece without any block |
| Requests.Swarm.CancelDuplicates | core/torrent.c:422-433 | a pipeline changes only by losing one request for the block, and only if its peer is active |
| Requests.Swarm.ResetPiece | core/piece.c:89-109 | a piece that begins anew has no block and no request counted |
| PeerQueue.Queue.HashContains | core/torrent.c:265-277 | a probe finds a key iff some slot holds it |
| PeerQueue.Queue.HashAddRaw | core/torrent.c:279-292 | the key is entered once more, on its probe path; the tombstone count falls by one exactly when a dead slot is reused |
| PeerQueue.Queue.HashRemove | core/torrent.c:313-326 | one copy of the key becomes a tombstone, counted, which re-entering the key would reuse |
| PeerQueue.Queue.HashRebuild | core/torrent.c:297-305 | exactly the queued keys remain, no tombstone |
| PeerQueue.Queue.HashAdd | core/torrent.c:307-311 | the key is entered; after a rebuild it is the one surplus copy |
| PeerQueue.Queue.Insert | core/torrent.c:328-366 | accepted iff routable, room, not refused, not queued and not the stale surplus key; then at the chosen end; USED keys stay the queued keys plus at most one |
| PeerQueue.Queue.Pop | core/torrent.c:372-383 | the front entry leaves; its key and one tombstone are accounted for |
| PeerQueue.Queue.Rotate | core/torrent.c:404-413 | popping and re-inserting keeps an endpoint iff its key is not the stale surplus key and not refused; contents, stale key and tombstones afterwards are given exactly |
| PeerQueue.Queue.AddInitialPeers | core/torrent.c:385-420 | in every state: the verified endpoints come first, each once in list order, then exactly what `Rotation` leaves of the earlier entries; with fewer tombstones than the rebuild threshold those are preserved iff none was stale or refused, with more iff none was refused |
| PeerQueue.Queue.RotatePrior | core/torrent.c:404-413 | the rotation loop leaves exactly `Rotation` of the earlier entries |
| PeerQueue.RotationExact | core/torrent.c:404-413 | all earlier entries survive iff none is hit: none refused, and none stale unless the first re-insertion rebuilds the hash |
| PeerQueue.RotationLoses | core/torrent.c:404-413 | in every state the survivors keep their order and flags, a lost entry was refused or stale, a refused one is lost |
| PeerQueue.PreservedIff | core/torrent.c:385-420 | the condition in terms of the state before the call |
| PeerQueue.InitialPeersLoseEndpoint | core/torrent.c:385-420 | a concrete history in which `torrent_add_initial_peers` itself loses an endpoint |
| PeerQueue.Queue.StillClean | core/torrent.c:395-403 | a rebuild during the pushes cannot make an earlier entry stale |
| PeerQueue.RotationLosesEndpoint | core/torrent.c:404-413 | a concrete history in which rotation loses an endpoint |
| PeerQueue.WellProbedUpdate | core/torrent.c:279-292 | filling a slot of a key's path, or killing a used one, breaks no other key's path |
| PeerSend.Sender.SendPlain | core/peer.c:28-43 | only a prefix of the data joins the stream; all of it on success; with room it fails only with the transport |
| PeerSend.Sender.SendRaw | core/peer.c:48-61 | the same for the encrypted data, the cipher moving by exactly its length |
| PeerSend.Sender.SendCoded | core/peer.c:51-60 | encrypting chunk by chunk is encrypting the whole |
| PeerSend.Sender.Flush | core/peer.c:63-72 | the stream is unchanged, more of it is on the wire |
| PeerSend.Sender.SendMsg | core/peer.c:75-94 | without a transport failure: the whole frame joins the stream, or nothing does, the cipher stays put and there was no room |
| PeerSend.Sender.SendBlob | core/peer.c:112-117 | handshake bytes join the stream whole, or the connection is given up |
| PeerSend.Sender.Activate | core/peer.c:579-586 | from here on the stream is what is accepted, encrypted in order |
| PeerRecv.ChunkingIndependent | core/peer.c:561-619 | for every way of cutting the stream into arrivals, the handshake, the messages, the verdict and the reply are those of one arrival; for a living peer also the cipher position and the unfinished bytes |
| PeerRecv.MessagesResume | core/peer.c:416-440 | parsing resumes where it stopped |
| PeerRecv.PlainResumes | core/peer.c:334-353 | so does the handshake |
| PeerRecv.ArriveResumes | core/peer.c:561-619 | two arrivals are one |
| PeerRecv.ProcessedIsShort | core/peer.c:561-619 | after a successful call fewer bytes than the buffer holds are left |
| PeerRecv.FramesParse | core/peer.c:416-440 | a stream of frames is taken apart into exactly the payloads framed |
| PeerRecv.WireIsUnderstood | core/peer.c:28-94 | decrypting and parsing any part of the wire yields the first framed payloads, and all of them from all of it |
| PeerRecv.SentIsUnderstood | core/peer.c:28-94 | so for a sender at work, and all frames once nothing waits in its buffer |
| PeerReceiver.Receiver.Compact | core/peer.c:635-641 | compaction keeps the unread bytes |
| PeerReceiver.Receiver.Space | core/peer.c:621-625 | the free capacity after compaction |
| PeerReceiver.Receiver.Append | core/peer.c:627-655 | all of the data is taken, decrypted once, iff it fits the space reported |
| PeerReceiver.Receiver.Handshaking | core/peer.c:564-590 | the encrypted handshake's turn, with what is already buffered decrypted in place |
| PeerReceiver.Receiver.OneMessage | core/peer.c:416-440 | one message, in place |
| PeerReceiver.Receiver.ProcessAll | core/peer.c:561-619 | `peer_process` does to the buffer what the specification does to the stream |
| PeerReceiver.Receiver.Recv | core/peer.c:674-708 | whatever portions the kernel chooses, the outcome is that of a run over them, and the buffer is never full |
| Mse.ChunkingIndependent | core/mse.c:214-301 | if the constant first starts within 608 bytes after the public key (or is absent and no more than that is skipped), any split ends in the same state, bytes used, single request and receive-cipher position as one feed |
| Mse.RobustIsExact | core/mse.c:240-264 | that condition is exact: it holds iff every split into two is harmless |
| Mse.LateDiffers | core/mse.c:240-264 | the split after 712 bytes that tells the difference |
| Mse.LateStreamDiffers | core/mse.c:240-264 | a concrete stream for every environment, of a zero key and 617 bytes, for which the difference occurs |
| Mse.FeedResumes | core/mse.c:214-301 | presenting the unused bytes again with more is presenting all at once |
| Mse.SearchResumes | core/mse.c:245-262 | bytes skipped without a match need not be looked at again |
| Mse.MseClient.FeedBytes | core/mse.c:214-301 | the machine's fields follow the specification in every state |
| Mse.MseClient.FeedPub | core/mse.c:220-238 | keys, expected constant and request, exactly once |
| Mse.MseClient.FeedSync | core/mse.c:240-264 | the first occurrence is found, or all but seven bytes are skipped |
| Mse.MseClient.FeedSelect | core/mse.c:266-284 | six bytes, however they arrive, decide |
| Mse.MseClient.FeedPad | core/mse.c:286-296 | exactly the announced padding is dropped |
| Rc4.CryptConcat | core/mse.c:35-48 | encrypting piecewise is encrypting the whole |
| Rc4.CryptTwice | core/mse.c:35-48 | two ends in the same state understand each other |
| Rc4.ReachableIsPermutation | core/mse.c:20-61 | the table is a permutation in every reachable state |
| Rc4.Cipher.Init | core/mse.c:20-33 | key scheduling in place is the specified schedule |
| Rc4.Cipher.Encrypt | core/mse.c:35-48 | the in-place generator yields the specified keystream and moves on by its length |
| Rc4.Cipher.Discard | core/mse.c:50-61 | discarding moves the cipher exactly as encrypting would |
| DhtId.CompareIsNumeric | core/dht_vendor/dht.c:410-415 | comparing ids byte by byte compares the 160-bit numbers |
| DhtId.LowBit | core/dht_vendor/dht.c:418-434 | the position of the lowest one bit of the number |
| DhtId.MiddleBit | core/dht_vendor/dht.c:563-576 | `MAX(bit1, bit2) + 1` is the depth of a dyadic range |
| DhtId.SetBitAdds | core/dht_vendor/dht.c:563-576 | setting the bit adds exactly its weight |
| DhtTable.Table.FindBucket | core/dht_vendor/dht.c:490-505 | the one bucket whose range holds the id |
| DhtTable.Table.InBucket | core/dht_vendor/dht.c:483-488 | range membership |
| DhtTable.Table.FindNode | core/dht_vendor/dht.c:525-541 | looking in one bucket finds a node iff a scan of the whole table would |
| DhtTable.BucketDecides | core/dht_vendor/dht.c:525-541 | an id occurs in the table as often as in its bucket |
| DhtTable.Table.BucketMiddle | core/dht_vendor/dht.c:563-576 | the true midpoint, none iff the range is a single id |
| DhtTable.Table.InsertNode | core/dht_vendor/dht.c:735-751 | in front of its bucket, or the table unchanged exactly when that bucket is full |
| DhtTable.SplitPartition | core/dht_vendor/dht.c:755-795 | halving a bucket keeps the partition of the id space |
| DhtTable.Table.SplitHelper | core/dht_vendor/dht.c:755-795 | two halves, the one with our id with half the capacity; no node lost: all are handed back |
| DhtTable.Table.SplitBucket | core/dht_vendor/dht.c:797-842 | recursive splitting ends; ids outside the bucket keep their place, inside none is doubled or invented |
| DhtTable.Table.Place | core/dht_vendor/dht.c:809-838 | one turn of re-insertion makes progress |
| DhtTable.Table.ReplaceBad | core/dht_vendor/dht.c:901-916 | the first node with three unanswered pings, the last over 15 seconds ago, gives its place to the new one; nothing changes iff there is none |
| DhtTable.Table.PingDubious | core/dht_vendor/dht.c:918-941 | true iff some node of the bucket is not good |
| DhtTable.Table.NewNode | core/dht_vendor/dht.c:846-977 | every run keeps a sorted dyadic partition of the id space, each node in its bucket, ids distinct, counts exact and within capacity; a known id is refreshed and displaces nobody; an unknown one takes the first dead node's place, else a free one, and nothing else changes; it is refused only when its bucket is full; without a split no other node leaves |
| DhtTable.Table.Learn | core/dht_vendor/dht.c:892-977 | the part for an unknown id: found iff it is in the table at the end, and its bucket is full if not |
| DhtTable.Table.Try | core/dht_vendor/dht.c:892-946 | one turn: placed, refused, or our own bucket full of good nodes and to be split |
| DhtTable.Table.UpdateKnown | core/dht_vendor/dht.c:872-890 | exactly one record changes, and how; nothing moves |
| DhtTable.Table.ExpireBuckets | core/dht_vendor/dht.c:982-1016 | exactly the nodes with four unanswered pings go, the rest stay in order |
| DhtClosest.XorCmpIsDistance | core/dht_vendor/dht.c:462-479 | xorcmp is the numeric order of xor distances: strict and total on distinct ids |
| DhtClosest.StreamKeepsClosest | core/dht_vendor/dht.c:1039-1097 | after any stream of candidates the array is sorted and holds exactly the k closest distinct ids |
| DhtClosest.ClosestUnique | core/dht_vendor/dht.c:1039-1097 | so the order of arrival does not matter |
| DhtClosest.OfferCloses | core/dht_vendor/dht.c:1039-1097 | one candidate keeps that |
| DhtClosest.Search.InsertSearchNode | core/dht_vendor/dht.c:1039-1097 | in-place insertion with k = 14 is one offered candidate; the entry returned is the id's |
| DhtClosest.InsertClosestNode | core/dht_vendor/dht.c:2648-2693 | so is insertion into the reply array with k = 8 |
| Storage.LayOut | core/metainfo.c:122-175 | running offsets are prefix sums of the lengths |
| Storage.OwnerUnique | core/platform_storage.c:193-216 | a position has at most one owner, empty files allowed |
| Storage.OwnedIffInside | core/platform_storage.c:193-216 | exactly the positions from 0 to the total length are owned |
| Storage.Store.FindFile | core/platform_storage.c:193-216 | binary search finds the unique owner and the local offset, or fails outside the layout |
| Storage.Store.Write | core/platform_storage.c:218-270 | bytes on disk ranges are what was written, all else is unchanged but for zero-filled holes; the sinks get exactly the bytes at or past their mark, ascending; it stops only at a position outside the layout or at a sink that refuses, whatever the error state was |
| Storage.Store.WritePart | core/platform_storage.c:225-267 | one file's part, by mode |
| Storage.SinkSegment | core/platform_storage.c:231-253 | of a stretch of one file exactly the part past the mark is handed over |
| Storage.RoundTrip | core/platform_storage.c:218-299 | reading back a written disk range returns the data |
| Storage.DisjointUnchanged | core/platform_storage.c:218-299 | any range elsewhere reads as before |
| Storage.Store.Read | core/platform_storage.c:282-299 | succeeds iff every byte of the range is on disk, with those bytes |
| Storage.Store.RangeHasMode | core/platform_storage.c:301-318 | iff every position belongs to a file of the mode |
| Storage.Store.RangeSkipped | core/platform_storage.c:324-348 | iff every position is skipped or below a sink's mark |
| Storage.DroppedLandsNowhere | core/platform_storage.c:218-348 | writing a skipped range hands nothing to a sink and puts nothing on disk |
| BencodeParser.ScanNumber | core/bencode.c:12-20 | the run of digits has its mathematical value, or that value exceeds the bound: the overflow guard is exact |
| BencodeParser.ParseInt | core/bencode.c:6-26 | accepts exactly i, optional minus, digits of value at most INT64_MAX, e |
| BencodeParser.ParseStr | core/bencode.c:29-48 | accepts exactly a length that fits and is present, with its bytes |
| BencodeParser.Skip | core/bencode.c:57-86 | terminates on every input and takes exactly what the grammar with the depth cap allows |
| BencodeParser.DecodeNode | core/bencode.c:88-115 | kind, raw bytes and contents of the value in front |
| BencodeParser.ListNext | core/bencode.c:125-128 | the next item or none |
| BencodeParser.DictNext | core/bencode.c:117-123 | the next key with its value or none |
| BencodeParser.DictGet | core/bencode.c:130-143 | the first pair with the key, or none |
| BencodeParser.WalkItems | core/bencode.c:125-128 | iterating a list yields its items in order |
| Bencode.IntRoundTrip | core/bencode.c:6-26 | an encoded integer is accepted, with its value, iff it lies in -INT64_MAX..INT64_MAX |
| Bencode.SkipRoundTrip | core/bencode.c:57-86 | an encoding, whatever follows, is skipped exactly iff the value fits: nothing below depth 16, numbers with a 64-bit negation |
| Bencode.DecodeRoundTrip | core/bencode.c:88-115 | it is decoded to its node iff it fits |
| Bencode.TreeRoundTrip | core/bencode.c:88-128 | walking the decoded node gives back the value |
| Bencode.LookupRoundTrip | core/bencode.c:130-143 | lookup in an encoded dictionary yields the first pair with the key or none |
| Bencode.EncodingUnique | core/bencode.c:88-115 | a buffer begins with the encoding of at most one value that fits |
| Sha1.Context.CountUp | core/sha1.c:80-83 | the two 32-bit words count the bits modulo 2^64, carry included |
| Sha1.Context.Update | core/sha1.c:78-95 | any piece of the message is absorbed: state, buffer and count stay those of all bytes so far |
| Sha1.Context.Direct | core/sha1.c:88-89 | full blocks straight from the input |
| Sha1.Context.Pad | core/sha1.c:101-103 | the zero-padding loop ends with exactly the zeros of the standard |
| Sha1.Context.Final | core/sha1.c:97-107 | for a message under 2^64 bits the digest is the fold over the padded message of section 5.1.1 of FIPS 180-4 |
| Sha1.HashParts | core/sha1.c:69-114 | for every way of splitting it |
| Sha1.CountPosition | core/sha1.c:80 | the low count word gives the position in the block whatever the carry |
| Sha1.TwoWords | core/sha1.c:98-100 | the two words written high first are the 64-bit length field |
| Sha1.PaddedWhole | core/sha1.c:97-107 | the padded message is a whole number of blocks |

## Left out

- UtpReceive.Receiver.Incoming: packets before any FIN, with numbers the 16 bits can tell apart from the reorder window; the past-EOF test at core/libutp/utp_internal.cpp:2412 does not wrap.
- UtpSend.Sender.IncomingAck: connection states, timers and statistics are not modelled, nor what an invalid ack does besides leaving the queue alone.
- UtpSend.Sender.WriteV: the I/O vector is one byte string; the connection state is a flag, packet size and the smallest of the congestion, buffer and peer windows are inputs.
- UtpSend.Sender.ResendLost: which four packets are tried is the code's, but no claim is made about timing or window halving.
- UtpBuffer.CircularBuffer.Grow: entries are values in a sequence, not pointers.
- Allocation: only that of a piece buffer may fail; failing allocations in uTP, the DHT and elsewhere are left out.
- UtpStream.Transfer: the FIN travels as a packet with an empty payload; the receiver's closing is left out.
- Requests.Swarm.Schedule: the piece picked is any piece; the picker itself is `PieceManager.Manager.PickStrict` and `PickAny`.
- Requests.Swarm.GotBlock: what hashing and storing say is a given outcome here; they are modelled in `PieceManager`.
- Requests.Swarm.ReceivePiece: the ring of recently dropped requests, strikes and latency estimates are left out; they decide only whether a peer is dropped.
- PieceOrder.CursorRewind: only for an order that lists no piece twice, which is exactly when it holds.
- Mse.ChunkingIndependent: under the stated condition, which is exactly when it holds for every split.
- PeerQueue.HashIndex: the hash multiplies the address as the integer a little-endian machine reads.
- PeerSend.Sender.SendMsg: a hard transport error may leave a part of a frame on the wire; the contract then promises only that a prefix of it joined the stream.
- PeerRecv.ChunkingIndependent: clocks are left out, and replies are assumed to be sent; the handler of a message sees the sequence of messages and nothing else.
- PeerReceiver.Receiver.Recv: connect completion and errors of the socket other than end of stream are left out.
- Mse.MseClient.FeedBytes: the start of the handshake (`mse_client_start`) only copies its inputs and is left out.
- DhtTable.Table.NewNode: blacklisting and martian addresses are one given verdict, pings are only recorded, cached addresses of full buckets are left out.
- DhtTable.Table.ExpireBuckets: the confirm timer is left out.
- DhtClosest.Search.InsertSearchNode: searches without removal of nodes (`flush_search_node`) in between; the caller's token and address are copied.
- Storage.Store.Write: opening and naming of files, seek and short-write errors and 32-bit file offsets are left out; files are byte strings that may be shorter than their length.
- Storage.LayOut: an item of the file list that is not a dictionary keeps offset 0 in the program and is excluded here.
- PieceManager.Manager.Drain: the result callback and log lines are left out; shutdown of the worker and destruction are left out.
- PieceManager.Manager.WorkerStep: the worker's hashing of a buffer is one step; the buffer cannot change meanwhile, because its owner is the job.
- PieceManager.Manager.CheckExisting: only for a piece that is not being hashed, which is when the program calls it.
- PieceManager.Manager.GotBlock: a null data pointer and a manager without storage are left out.
- PieceLayout.SumIsTotal: for piece counts that fit 32 bits.
- Bencode.SkipRoundTrip: bytes are characters; the encoder is a reference definition, the program only parses.
- Sha1.Context.Update: the rounds of the compression function, and the hardware branch for the Switch.
- Sockets, tracker and web-seed transfers, logging, clocks, telemetry, UPnP and announce threads: input and output, or reporting.
- Congestion control, clock-drift estimates, path MTU and ICMP handling of uTP: floating point and heuristics.
- DHT message building and parsing: substring search rather than a grammar.
- SHA-256, the catalogue user interface and its JSON reading: an easier repeat of SHA-1, and glue.
- The DHT thread's mailbox and cache file, path building and directory creation: file and thread glue.

/** lib/TcpTxSignalClient, in its VITA-49 mode: Send cuts an arbitrary byte stream into packets
    built in place in the FIFO's block. Between any two steps the pump thread may run. */
module TcpTx {
  import opened Bytes
  import opened Rings
  import opened RingMoves
  import opened Accounts
  import opened Fifos
  import opened SocketTx
  import opened V49
  import opened V49Packets
  import opened Framing
  import opened TxStream
  import Resync

  class TcpTxSignalClient {
    const buffer: SocketTxBuffer
    const packet: V49Packet
    const dn: nat
    var plen: nat              // payload bytes in the frame being filled
    var nextFrameCount: nat    // 16 bits
    var nextPacketCount: nat   // 8 bits
    ghost var accepted: seq<byte>   // payload accepted by Send since the last Flush
    ghost var packets: nat          // packets completed since then
    ghost var first: nat            // packets attached before it

    /** The objects are apart from each other, and the FIFO's account is right. */
    ghost predicate Apart()
      reads this, buffer, buffer.fifo.Repr(), packet
    {
      && dn < 0x100 && buffer.Valid() && buffer.Accounted()
      && this !in buffer.fifo.Repr() && packet !in buffer.fifo.Repr()
    }

    /** The frame being filled is in the block being filled, behind its written part. */
    ghost predicate PointerGood()
      reads this, buffer, buffer.fifo, packet
    {
      && buffer.fifo.head < |buffer.fifo.blk| && buffer.fifo.head < |buffer.fifo.vals|
      && packet.buffer == buffer.fifo.blk[buffer.fifo.head].buf
      && packet.bufferAt == buffer.fifo.vals[buffer.fifo.head].len
      && packet.samplesLen == 2040
    }

    ghost predicate Counting(attached: nat)
      reads this
    {
      nextFrameCount == attached % 0x1_0000 && nextPacketCount == attached % 0x100
    }

    ghost predicate Valid()
      reads Repr()
    {
      && Apart()
      && TxInv(dn, first, buffer.fifo.Abs(), buffer.handed, accepted, packets, plen)
      && (0 < plen ==> PointerGood())
      && Counting(first + packets + if 0 < plen then 1 else 0)
    }

    /** Inside Send: a frame is open. */
    ghost predicate Filling()
      reads this, buffer, buffer.fifo.Repr(), packet
    {
      && Apart()
      && Streamed(dn, first, buffer.fifo.Abs(), buffer.handed, accepted, packets, plen)
      && Open(dn, first, buffer.fifo.Abs(), accepted, packets)
      && PointerGood()
      && Counting(first + packets + 1)
    }

    ghost function Repr(): set<object> {
      {this, buffer, packet} + buffer.fifo.Repr()
    }

    constructor (dn: nat, blkSize: nat, blkCount: nat)
      requires dn < 0x100 && PACKET_BYTES <= blkSize && 0 < blkCount
      ensures Valid() && accepted == [] == buffer.wire == buffer.before && first == 0 && plen == 0 && packets == 0
      ensures buffer.fifo.Abs() == Init(blkSize, blkCount) && !buffer.done && this.dn == dn
      ensures fresh(Repr())
    {
      hide TxInv, Ring.Valid, BlockFifo.Tied, Balanced, Init;
      this.dn := dn;
      buffer := new SocketTxBuffer(blkSize, blkCount);
      packet := new V49Packet();
      plen, nextFrameCount, nextPacketCount := 0, 0, 0;
      accepted, packets, first := [], 0, 0;
      new;
      TxStarts(dn, blkSize, blkCount);
    }

    /** The pump runs. */
    method Yield()
      requires Valid() || Filling()
      modifies buffer`wire, buffer`sent, buffer`done, buffer.fifo, buffer.fifo.blk
      ensures old(Valid()) ==> Valid()
      ensures old(Filling()) ==> Filling()
      ensures buffer.handed == old(buffer.handed) && old(buffer.wire) <= buffer.wire
      ensures ReaderMoved(old(buffer.fifo.Abs()), buffer.fifo.Abs())
    {
      hide BlockFifo.Tied, Ring.Valid, ReaderMoved, Balanced, Streamed, Open, Queue;
      ghost var r := buffer.fifo.Abs();
      buffer.Interfere();
      WriteSideStays(r, buffer.fifo.Abs());
      PumpKeeps(dn, first, r, buffer.fifo.Abs(), buffer.handed, accepted, packets, plen);
    }

    /** SendStart between frames: a pointer, unless the ring is full. */
    method Start(maxIn: nat) returns (p: array?<byte>, at: nat, max: nat)
      requires Valid() && plen == 0
      modifies buffer.fifo, buffer.fifo.blk
      ensures Valid()
      ensures p == null <==> old(buffer.fifo.Abs()).outBlk.None? && old(buffer.fifo.Abs()).Full()
      ensures p == null ==> max == maxIn && buffer.fifo.Abs() == old(buffer.fifo.Abs())
      ensures p != null ==> AtWriteOffset(p, at) && max == buffer.fifo.blkSize - at
      ensures p != null && old(buffer.fifo.Abs()).outBlk.None? ==> at == 0
      ensures old(buffer.fifo.outBlk) != null ==> p != null && at == old(buffer.fifo.outBlk.len)
      ensures buffer.fifo.count == old(buffer.fifo.count)
      ensures buffer.fifo.Abs().inBlk == old(buffer.fifo.Abs()).inBlk
    {
      hide BlockFifo.Tied, Ring.Valid, Balanced, Streamed, Open;
      ghost var r := buffer.fifo.Abs();
      buffer.fifo.OutPointer();
      if r.outBlk.None? && !r.Full() {
        TakeOutKeepsTx(dn, first, r, buffer.handed, accepted, packets);
      }
      p, at, max := buffer.SendStart(maxIn);
      buffer.fifo.OutPointer();
    }

    /** `p` and `at` point behind the written part of the block being filled. */
    ghost predicate AtWriteOffset(p: array<byte>, at: nat)
      reads buffer, buffer.fifo
    {
      && buffer.fifo.Abs().outBlk.Some?
      && buffer.fifo.head < |buffer.fifo.blk| && buffer.fifo.head < |buffer.fifo.vals|
      && p == buffer.fifo.blk[buffer.fifo.head].buf
      && at == buffer.fifo.vals[buffer.fifo.head].len <= buffer.fifo.blkSize
    }

    /** SendComplete(0), to get to the next block when no packet fits into this one. */
    method ForceNext(p: array<byte>, at: nat)
      requires Valid() && plen == 0 && AtWriteOffset(p, at) && buffer.fifo.blkSize - at < PACKET_BYTES
      modifies buffer`transferred, buffer`handed, buffer.fifo, buffer.fifo.blk
      ensures Valid() && buffer.fifo.Abs().outBlk.None?
    {
      hide BlockFifo.Tied, Ring.Valid, Balanced, Streamed, Open;
      ghost var r := buffer.fifo.Abs();
      buffer.fifo.OutPointer();
      ForceKeeps(dn, first, r, buffer.handed, accepted, packets);
      buffer.SendComplete(0);
      assert buffer.handed == old(buffer.handed);
    }

    /** Attach, at the write offset: header and trailer are laid out, the frame is open. */
    method AttachFrame(p: array<byte>, at: nat)
      requires Valid() && plen == 0 && AtWriteOffset(p, at) && at + PACKET_BYTES <= buffer.fifo.blkSize
      modifies this`nextFrameCount, this`nextPacketCount, packet, buffer.fifo`vals, p
      ensures Filling()
    {
      hide BlockFifo.Tied, Ring.Valid, Balanced, Streamed, Open, Queue, Attached, NewHeader;
      ghost var r, n := buffer.fifo.Abs(), first + packets;
      buffer.fifo.OutPointer();
      CountsInHeader(dn, 0, n);
      CountOn(n);
      ghost var end := LayOut(p, at);
      AttachKeeps(dn, first, r, end, buffer.handed, accepted, packets);
      StreamedFacts(dn, first, buffer.fifo.Abs(), buffer.handed, accepted, packets, 0);
      StillBalanced(buffer.handed, buffer.Out(), r, buffer.fifo.Abs());
    }

    /** The stores of Attach, and what they make of the ring. */
    method LayOut(p: array<byte>, at: nat) returns (ghost end: nat)
      requires dn < 0x100 && buffer.fifo.Tied() && packet !in buffer.fifo.Repr() && this !in buffer.fifo.Repr()
      requires AtWriteOffset(p, at) && at + PACKET_BYTES <= buffer.fifo.blkSize
      modifies this`nextFrameCount, this`nextPacketCount, packet, buffer.fifo`vals, p
      ensures buffer.fifo.Tied()
      ensures end == at + PACKET_BYTES - 4
      ensures buffer.fifo.Abs() == Attached(old(buffer.fifo.Abs()), at, end,
                                            NewHeader(dn, 0, old(nextFrameCount), old(nextPacketCount)))
      ensures packet.buffer == p && packet.bufferAt == at && packet.samplesLen == 2040
      ensures nextFrameCount == (old(nextFrameCount) + 1) % 0x1_0000
      ensures nextPacketCount == (old(nextPacketCount) + 1) % 0x100
    {
      hide HeaderBytes, ToBytes, NewHeader, Splice;
      ghost var b := buffer.fifo.vals[buffer.fifo.head];
      nextFrameCount, nextPacketCount :=
        packet.Attach(dn, 0, p, at, PACKET_BYTES, nextFrameCount, nextPacketCount);
      end := at + HEADER_BYTES + 4 * packet.samplesLen;
      buffer.fifo.Stored(b.(buf := p[..]));
    }

    /** WaitForReadySend and SendStart. Once the first has said there is room, the second finds
        it: whatever the pump does in between, the pointer is not null. */
    method FindBlock(maxIn: nat) returns (ready: bool, p: array?<byte>, at: nat, max: nat)
      requires Valid() && plen == 0
      modifies buffer`wire, buffer`sent, buffer`done, buffer.fifo, buffer.fifo.blk
      ensures Valid() && |old(buffer.wire)| <= |buffer.wire|
      ensures ready ==> p != null && AtWriteOffset(p, at) && max == buffer.fifo.blkSize - at
      ensures ready && buffer.fifo.blkSize % PACKET_BYTES == 0 ==> PACKET_BYTES <= max
      ensures !ready ==> p == null && Stuck()
    {
      hide BlockFifo.Tied, Ring.Valid, Balanced, Streamed, Open, ReaderMoved;
      Yield();
      buffer.fifo.OutPointer();
      ready := buffer.fifo.WaitNotFull();
      if !ready { return ready, null, 0, maxIn; }
      ghost var r := buffer.fifo.Abs();
      Yield();
      WriteSideStays(r, buffer.fifo.Abs());
      p, at, max := Start(maxIn);
      if buffer.fifo.blkSize % PACKET_BYTES == 0 { RoomForNext(); }
    }

    /** When packets divide the block size a packet always fits behind the last, whether or not
        anything is committed: Send never has to force the next block. */
    lemma RoomForNext()
      requires Valid() && buffer.fifo.blkSize % PACKET_BYTES == 0
      ensures buffer.fifo.head < |buffer.fifo.vals|
      ensures buffer.fifo.outBlk != null ==>
        && buffer.fifo.outBlk.len == buffer.fifo.vals[buffer.fifo.head].len
        && PACKET_BYTES <= buffer.fifo.blkSize - buffer.fifo.outBlk.len
    {
      buffer.fifo.OutPointer();
      if buffer.fifo.outBlk != null { RoomForPacket(buffer.fifo.Abs()); }
    }

    /** SendComplete(0) and SendStart again, when no packet fits into the block. */
    method FindNextBlock(p: array<byte>, at: nat, max: nat) returns (q: array?<byte>, qAt: nat, qMax: nat)
      requires Valid() && plen == 0 && AtWriteOffset(p, at) && max == buffer.fifo.blkSize - at < PACKET_BYTES
      modifies buffer`wire, buffer`sent, buffer`done, buffer`transferred, buffer`handed
      modifies buffer.fifo, buffer.fifo.blk
      ensures Valid() && |old(buffer.wire)| <= |buffer.wire|
      ensures if q == null then Stuck() && qMax == max
        else AtWriteOffset(q, qAt) && qAt == 0 && qMax == buffer.fifo.blkSize
    {
      hide BlockFifo.Tied, Ring.Valid, Balanced, Streamed, Open, ReaderMoved;
      ghost var r := buffer.fifo.Abs();
      Yield();
      buffer.fifo.OutPointer();
      WriteSideStays(r, buffer.fifo.Abs());
      ForceNext(p, at);
      r := buffer.fifo.Abs();
      Yield();
      buffer.fifo.OutPointer();
      WriteSideStays(r, buffer.fifo.Abs());
      q, qAt, qMax := Start(max);
    }

    /** The part of Send's loop that opens a frame when none is open. It gives up only when the
        ring is full. */
    method NextFrame() returns (ok: bool)
      requires Valid() && plen == 0
      modifies this`nextFrameCount, this`nextPacketCount, packet
      modifies buffer`wire, buffer`sent, buffer`done, buffer`transferred, buffer`handed
      modifies buffer.fifo, buffer.fifo.blk, buffer.fifo.Bufs()
      ensures |old(buffer.wire)| <= |buffer.wire|
      ensures if ok then Filling() else Valid() && Stuck()
    {
      hide BlockFifo.Tied, Ring.Valid, Balanced, Streamed, Open, ReaderMoved;
      var max: nat := *;   // not initialised in the source
      var ready, p, at;
      ready, p, at, max := FindBlock(max);
      if !ready { return false; }
      StreamedFacts(dn, first, buffer.fifo.Abs(), buffer.handed, accepted, packets, plen);
      if max < PACKET_BYTES {
        p, at, max := FindNextBlock(p, at, max);
        if max < PACKET_BYTES {
          return false;   // no space in buffer
        }
      }
      if p == null { return false; }
      AttachFrame(p, at);
      ok := true;
    }

    /** The ring is full, so no block is checked out. */
    ghost predicate Stuck()
      reads buffer, buffer.fifo
    {
      buffer.fifo.head < |buffer.fifo.vals| && buffer.fifo.Abs().Full()
    }

    /** memcpy into the sample buffer of the open frame, behind the samples already there. */
    method StoreSamples(data: seq<byte>)
      requires Filling() && plen + |data| <= CHUNK
      modifies this`plen, this`accepted, buffer.fifo`vals, buffer.fifo.Bufs()
      ensures Filling() && plen == old(plen) + |data| && accepted == old(accepted) + data
    {
      hide Ring.Valid, Balanced, Streamed, Open, Queue;
      ghost var r := buffer.fifo.Abs();
      buffer.fifo.OutPointer();
      StreamedFacts(dn, first, r, buffer.handed, accepted, packets, plen);
      OpenFits(dn, first, r, accepted, packets);
      var at := packet.bufferAt + HEADER_BYTES + plen;
      FillKeeps(dn, first, r, at, data, buffer.handed, accepted, packets, plen);
      buffer.fifo.CopyIn(packet.buffer, at, data);
      StillBalanced(buffer.handed, buffer.Out(), r, buffer.fifo.Abs());
      plen := plen + |data|;
      accepted := accepted + data;
    }

    /** SendComplete of a full frame. */
    method CloseFrame()
      requires Filling() && plen == CHUNK
      modifies this`plen, this`packets, buffer`transferred, buffer`handed, buffer.fifo, buffer.fifo.blk
      ensures Valid() && plen == 0 && packets == old(packets) + 1
      ensures old(buffer.fifo.outBlk) != null && old(buffer.fifo.head) < |buffer.fifo.blk|
      ensures buffer.fifo.Abs() == old(buffer.fifo.Abs()).Commit(PACKET_BYTES)
    {
      hide BlockFifo.Tied, Ring.Valid, Balanced, Streamed, Open, Queue;
      buffer.fifo.OutPointer();
      StreamedFacts(dn, first, buffer.fifo.Abs(), buffer.handed, accepted, packets, plen);
      OpenFits(dn, first, buffer.fifo.Abs(), accepted, packets);
      CloseKeeps(dn, first, buffer.fifo.Abs(), buffer.handed, accepted, packets);
      buffer.SendComplete(PACKET_BYTES);
      plen := 0;
      packets := packets + 1;
    }

    lemma BlockBeingFilled()
      requires Filling()
      ensures buffer.fifo.outBlk != null && buffer.fifo.head < |buffer.fifo.vals|
      ensures buffer.fifo.outBlk == buffer.fifo.blk[buffer.fifo.head]
      ensures buffer.fifo.Abs().outBlk == Some(buffer.fifo.head)
      ensures buffer.fifo.vals[buffer.fifo.head].len == buffer.fifo.outBlk.len == packet.bufferAt
    {
      OpenFits(dn, first, buffer.fifo.Abs(), accepted, packets);
      buffer.fifo.OutPointer();
    }

    lemma BlocksSeen()
      requires Valid()
      ensures buffer.fifo.head < |buffer.fifo.vals|
      ensures buffer.fifo.Abs().inBlk.None? <==> buffer.fifo.inBlk == null
      ensures buffer.fifo.Abs().outBlk.None? <==> buffer.fifo.outBlk == null
      ensures buffer.fifo.outBlk != null ==> buffer.fifo.outBlk.len == buffer.fifo.vals[buffer.fifo.head].len
    {
      buffer.fifo.OutPointer();
    }

    lemma FillingIsValid()
      requires Filling() && 0 < plen < CHUNK
      ensures Valid()
    {
    }

    lemma FrameLength()
      requires Filling()
      ensures packet.samplesLen == 2040
    {
    }

    /** The part of Send's loop that copies samples into the open frame, and completes it when
        it is full. */
    method FillFrame(data: seq<byte>) returns (amt: nat)
      requires Filling() && plen < CHUNK && 0 < |data|
      modifies this`plen, this`accepted, this`packets
      modifies buffer`wire, buffer`sent, buffer`done, buffer`transferred, buffer`handed
      modifies buffer.fifo, buffer.fifo.blk, buffer.fifo.Bufs()
      ensures Valid() && 0 < amt <= |data| && accepted == old(accepted) + data[..amt] && old(packets) <= packets
      ensures |old(buffer.wire)| <= |buffer.wire|
    {
      hide TcpTxSignalClient.Valid, TcpTxSignalClient.Filling, ReaderMoved;
      FrameLength();
      var slen := 4 * packet.samplesLen;
      amt := if |data| > slen - plen then slen - plen else |data|;
      Yield();
      StoreSamples(data[..amt]);
      Yield();
      if plen == slen {
        CloseFrame();
      } else {
        FillingIsValid();
      }
    }

    /** One turn of Send's loop; no bytes means the ring is full between two frames. */
    method SendSome(data: seq<byte>) returns (amt: nat)
      requires Valid() && 0 < |data|
      modifies this`plen, this`accepted, this`packets, this`nextFrameCount, this`nextPacketCount, packet
      modifies buffer`wire, buffer`sent, buffer`done, buffer`transferred, buffer`handed
      modifies buffer.fifo, buffer.fifo.blk, buffer.fifo.Bufs()
      ensures Valid() && amt <= |data| && accepted == old(accepted) + data[..amt] && old(packets) <= packets
      ensures amt == 0 ==> plen == 0 && Stuck()
      ensures |old(buffer.wire)| <= |buffer.wire|
    {
      hide BlockFifo.Tied, Ring.Valid, Balanced, Streamed, Open;
      if plen == 0 {
        var ok := NextFrame();
        if !ok { return 0; }
      }
      amt := FillFrame(data);
    }

    /** Every byte accepted is in the frame being filled or in a completed one. Send returns
        early only when the ring is full between two frames. */
    method Send(data: seq<byte>) returns (sent: nat)
      requires Valid() && 0 < |data|
      modifies Repr()
      ensures Valid() && sent <= |data| && accepted == old(accepted) + data[..sent] && first == old(first)
      ensures sent < |data| ==> plen == 0 && Stuck()
      ensures old(buffer.wire) <= buffer.wire && buffer.before == old(buffer.before)
    {
      hide TcpTxSignalClient.Valid, Stuck, Wire;
      buffer.fifo.Owns();
      sent := 0;
      ghost var x, k, w := accepted, packets, buffer.wire;
      WireIsFramed();
      while sent < |data|
        invariant Valid() && sent <= |data| && accepted == x + data[..sent] && first == old(first)
        invariant k <= packets && |w| <= |buffer.wire| && buffer.before == old(buffer.before)
      {
        ghost var n := sent;
        var amt := SendSome(data[sent..]);
        sent := sent + amt;
        TakeMore(data, n, amt, sent);
        if amt == 0 { break; }
      }
      WireIsFramed();
      WireGrows(dn, first, x, k, accepted, packets);
      SameStart(w, buffer.wire, buffer.before);
    }

    /** Only the pump runs. */
    method Idle()
      requires Valid()
      modifies Repr()
      ensures Valid() && accepted == old(accepted) && old(buffer.wire) <= buffer.wire
      ensures buffer.before == old(buffer.before)
    {
      hide Apart, TxInv, PointerGood;
      buffer.fifo.Owns();
      Yield();
    }

    /** What is on the wire, or on its way, is the accepted payload, framed. */
    lemma WireIsFramed()
      requires Valid()
      ensures dn < 0x100 && CHUNK * packets <= |accepted| && |accepted| == CHUNK * packets + plen
      ensures buffer.before <= buffer.wire && buffer.Out() <= buffer.handed == Wire(dn, first, accepted, packets)
    {
    }

    /** Every completed packet on the wire is one a receiver accepts: numbered in order from the
        first, addressed to the device, with the next bytes of the input as its payload. */
    lemma WireImage(i: nat)
      requires Valid() && i < packets
      ensures PACKET_BYTES * (i + 1) <= |buffer.handed| && CHUNK * (i + 1) <= |accepted|
      ensures var f := buffer.handed[PACKET_BYTES * i..PACKET_BYTES * (i + 1)];
        var h := FrameHeader(f);
        && Acceptable(h, FrameTrailer(f)) && h.streamId == dn * 0x1_0000
        && h.frameCount == (first + i) % 0x1000 && h.pktCount == (first + i) % 0x10
        && h.pktType == 1 && h.tsi == 1 && h.tsf == 1 && h.frameSize == 0x800 && h.pktSize == 0x7FD
        && Payload(f) == accepted[CHUNK * i..CHUNK * (i + 1)]
        && InBytes(f, dn, first + i, accepted[CHUNK * i..CHUNK * (i + 1)])
    {
      hide TxInv, Apart, Wire, Unpack, Words, InBytes;
      WireIsFramed();
      PacketAccepted(dn, first, accepted, packets, i);
    }

    /** Every committed block is a whole number of packets, never none, and full when packets
        divide the block size. */
    lemma CommittedBlocks(i: nat)
      requires Valid() && i < |buffer.fifo.vals| && buffer.fifo.Abs().Committed(i)
      ensures 0 < buffer.fifo.vals[i].len && buffer.fifo.vals[i].len % PACKET_BYTES == 0
      ensures buffer.fifo.blkSize % PACKET_BYTES == 0 ==> buffer.fifo.vals[i].len == buffer.fifo.blkSize
    {
      assert WholeBlock(buffer.fifo.Abs().blk[i], buffer.fifo.blkSize);
    }

    /** So the pump is never left with nothing to send, and never mistakes that for end of file:
        on a healthy connection its turns do not end the thread, and one that meets room sends. */
    method PumpTurn(os: seq<SendResult>)
      requires Valid() && Healthy(os)
      modifies Repr()
      ensures Valid() && buffer.done == old(buffer.done) && accepted == old(accepted)
      ensures first == old(first) && packets == old(packets) && plen == old(plen)
      ensures old(buffer.wire) <= buffer.wire && buffer.before == old(buffer.before)
      ensures buffer.handed == old(buffer.handed)
      ensures !old(buffer.done) && old(buffer.fifo.count) != 0 && (exists i :: 0 <= i < |os| && os[i].Room?)
        ==> |old(buffer.wire)| < |buffer.wire|
      ensures old(buffer.fifo.tail) < |old(buffer.fifo.vals)|
        && old(buffer.fifo.vals)[old(buffer.fifo.tail)].read <= old(buffer.fifo.vals)[old(buffer.fifo.tail)].len
      ensures var r := old(buffer.fifo.Abs());
        |buffer.wire| == |old(buffer.wire)| + if old(buffer.done) then 0 else Turn(r.count != 0, Front(r), os).0
    {
      hide BlockFifo.Tied, Ring.Valid, ReaderMoved, Balanced, Streamed, Open, Queue, WholePackets;
      hide Turn, Fronts, Behind;
      ghost var r := buffer.fifo.Abs();
      buffer.fifo.Owns();
      StreamedNoneEmpty(dn, first, r, buffer.handed, accepted, packets, plen);
      buffer.HealthyTurn(os);
      if exists i :: 0 <= i < |os| && os[i].Room? { buffer.HealthyTurnSends(os); }
      buffer.WriteData(os);
      WriteSideStays(r, buffer.fifo.Abs());
      PumpKeeps(dn, first, r, buffer.fifo.Abs(), buffer.handed, accepted, packets, plen);
    }

    /** What Send has accepted but no committed block contains: the packets in the block being
        filled and the open frame, always less than one block of payload. */
    lemma Lag()
      requires Valid() && buffer.fifo.blkSize % PACKET_BYTES == 0
      ensures |buffer.before| <= |buffer.wire|
      ensures var r := buffer.fifo.Abs();
        var lag := |accepted| - CHUNK * ((|buffer.wire| - |buffer.before| + |Readable(r)|) / PACKET_BYTES);
        && lag == CHUNK * (|Pending(r)| / PACKET_BYTES) + plen
        && lag < CHUNK * (buffer.fifo.blkSize / PACKET_BYTES)
    {
      var r := buffer.fifo.Abs();
      WireIsFramed();
      OpenRoom(dn, first, r, buffer.handed, accepted, packets, plen);
      LagArithmetic(packets, |buffer.Out()| + |Readable(r)|, |Pending(r)|, buffer.fifo.blkSize);
    }

    /** Quiescent: drops the open frame and everything queued. What the socket has taken stays
        taken, and the counters go on. The connection stays framed, whatever is sent next, if and
        only if whole packets have gone out. */
    method Flush()
      requires Valid()
      modifies this`plen, this`accepted, this`packets, this`first
      modifies buffer`transferred, buffer`sent, buffer`handed, buffer`before, buffer.fifo, buffer.fifo.blk
      ensures Valid() && accepted == [] && plen == 0 && buffer.before == buffer.wire
      ensures first == old(first + packets + if 0 < plen then 1 else 0)
      ensures (forall next, y, m | CHUNK * m <= |y| :: Resync.Rejoins(dn, buffer.wire, next, y, m))
        <==> |buffer.wire| % PACKET_BYTES == 0
    {
      hide BlockFifo.Tied, Ring.Valid, Balanced, Open, Resync.Rejoins;
      ghost var r, n := buffer.fifo.Abs(), first + packets + if 0 < plen then 1 else 0;
      StreamedFacts(dn, first, r, buffer.handed, accepted, packets, plen);
      buffer.Reset();
      FlushedStream(dn, n, r);
      plen := 0;
      accepted, packets, first := [], 0, n;
      Resync.RejoinsIff(dn, buffer.wire);
    }

    /** So the whole packets of the connection carry what went out in whole packets before the
        last Flush, and then what Send has accepted since. */
    lemma StaysFramed()
      requires Valid() && |buffer.before| % PACKET_BYTES == 0
      ensures buffer.before <= buffer.wire
      ensures var j, n := |buffer.before| / PACKET_BYTES, |buffer.wire| / PACKET_BYTES;
        && j <= n && CHUNK * (n - j) <= |accepted|
        && Payloads(buffer.wire, n) == Payloads(buffer.before, j) + accepted[..CHUNK * (n - j)]
    {
      hide TxInv, Apart, Wire, Payloads;
      WireIsFramed();
      var j, n, w := |buffer.before| / PACKET_BYTES, |buffer.wire| / PACKET_BYTES, buffer.Out();
      assert buffer.wire == buffer.before + w;
      Resync.PayloadsJoin(buffer.before, w, j, n - j);
      Unframe(dn, first, accepted, packets, w, n - j);
    }

    /** Send stops short only after it has accepted more than all blocks but two can hold. */
    lemma ShortSendIsLate()
      requires Valid() && Stuck() && buffer.fifo.blkSize % PACKET_BYTES == 0
      ensures CHUNK * ((buffer.fifo.blkCount - 2) * (buffer.fifo.blkSize / PACKET_BYTES)) < |accepted|
    {
      var r := buffer.fifo.Abs();
      WireIsFramed();
      FullRing(dn, first, r, buffer.handed, accepted, packets, plen);
      PacketsInBlocks(r.blkSize, |r.blk| - 2, packets);
    }
  }

  // ----- runs of one packet -----

  /** A new client that has laid out its first frame, while the pump did not run. */
  method OpenFrame(dn: nat, blkSize: nat) returns (tx: TcpTxSignalClient)
    requires dn < 0x100 && PACKET_BYTES <= blkSize
    ensures tx.Filling() && fresh(tx.Repr()) && tx.dn == dn && tx.buffer.fifo.blkSize == blkSize
    ensures tx.accepted == [] && tx.packets == 0 && tx.first == 0 && tx.plen == 0
    ensures tx.buffer.wire == [] == tx.buffer.before && !tx.buffer.done && tx.buffer.fifo.Abs().inBlk.None?
    ensures tx.buffer.fifo.count == 0 && tx.buffer.fifo.outBlk != null && tx.buffer.fifo.outBlk.len == 0
  {
    hide TcpTxSignalClient.Valid, TcpTxSignalClient.Filling, BlockFifo.Tied, Init;
    tx := new TcpTxSignalClient(dn, blkSize, 64);
    tx.buffer.fifo.Owns();
    NewRing(blkSize);
    var p, at, max := tx.Start(0);
    tx.BlocksSeen();
    assert p in tx.buffer.fifo.Bufs();
    tx.AttachFrame(p, at);
  }

  /** A new client that has built one packet, while the pump did not run. */
  method OnePacket(dn: nat, blkSize: nat, x: seq<byte>) returns (tx: TcpTxSignalClient)
    requires dn < 0x100 && PACKET_BYTES <= blkSize && |x| == CHUNK
    ensures tx.Valid() && fresh(tx.Repr()) && tx.dn == dn && tx.buffer.fifo.blkSize == blkSize
    ensures tx.accepted == x && tx.packets == 1 && tx.first == 0 && tx.plen == 0
    ensures tx.buffer.wire == [] == tx.buffer.before && !tx.buffer.done && tx.buffer.fifo.inBlk == null
    ensures if blkSize == PACKET_BYTES
      then tx.buffer.fifo.count == 1
      else tx.buffer.fifo.count == 0 && tx.buffer.fifo.outBlk != null && tx.buffer.fifo.outBlk.len == PACKET_BYTES
  {
    hide TcpTxSignalClient.Valid, TcpTxSignalClient.Filling, BlockFifo.Tied;
    tx := OpenFrame(dn, blkSize);
    tx.buffer.fifo.Owns();
    tx.BlockBeingFilled();
    tx.StoreSamples(x);
    tx.BlockBeingFilled();
    tx.CloseFrame();
    tx.BlocksSeen();
  }

  lemma NewRing(size: nat)
    requires 0 < size
    ensures var r := Init(size, 64);
      && r.blkSize == size && r.head < |r.blk| == 64 && !r.Full() && r.count == 0 && r.inBlk.None? && r.outBlk.None?
  {
  }

  /** When packets do not divide the block size the branch that forces the next block is taken: the
      room left behind the first packet of a block of 0x3000 bytes is too small. */
  method ForcesNextBlock(dn: nat) returns (tx: TcpTxSignalClient, p: array?<byte>, max: nat)
    requires dn < 0x100
    ensures tx.Valid() && tx.plen == 0 && p != null && max < PACKET_BYTES
  {
    hide TcpTxSignalClient.Valid, BlockFifo.Tied;
    tx := OnePacket(dn, 0x3000, Resync.Ones(CHUNK));
    tx.buffer.fifo.Owns();
    var at;
    p, at, max := tx.Start(0);
  }

  /** With 100 bytes of a packet gone out, a Flush leaves a fragment on the connection. */
  method FlushLeavesFragment(dn: nat, x: seq<byte>) returns (tx: TcpTxSignalClient)
    requires dn < 0x100 && |x| == CHUNK
    ensures tx.Valid() && tx.buffer.wire == Wire(dn, 0, x, 1)[..100] && tx.first == 1
    ensures !Resync.Rejoins(dn, tx.buffer.wire, 1, Resync.Ones(CHUNK * 2), 2)
  {
    hide TcpTxSignalClient.Valid, BlockFifo.Tied, Turn, Wire, Resync.Rejoins;
    tx := OnePacket(dn, PACKET_BYTES, x);
    tx.buffer.fifo.Owns();
    FirstPacketWaits(tx);
    tx.PumpTurn([Room(100)]);
    tx.WireIsFramed();
    tx.Flush();
    Resync.FragmentBreaks(dn, tx.buffer.wire, 1);
  }

  lemma FirstPacketWaits(tx: TcpTxSignalClient)
    requires tx.Valid() && tx.buffer.fifo.count == 1 && tx.buffer.fifo.inBlk == null
    requires tx.buffer.fifo.blkSize == PACKET_BYTES
    ensures tx.buffer.fifo.tail < |tx.buffer.fifo.vals|
    ensures tx.buffer.fifo.vals[tx.buffer.fifo.tail].read <= tx.buffer.fifo.vals[tx.buffer.fifo.tail].len
    ensures Turn(true, Front(tx.buffer.fifo.Abs()), [Room(100)]).0 == 100
  {
    var r := tx.buffer.fifo.Abs();
    assert r.Committed(r.tail);
    tx.CommittedBlocks(r.tail);
  }

  lemma PacketsInBlocks(size: nat, n: int, packets: nat)
    requires size % PACKET_BYTES == 0 && n * size < PACKET_BYTES * packets
    ensures n * (size / PACKET_BYTES) < packets
  {
    var q := size / PACKET_BYTES;
    assert size == PACKET_BYTES * q;
    assert n * size == PACKET_BYTES * (n * q);
  }

  lemma SameStart(w: seq<byte>, w': seq<byte>, start: seq<byte>)
    requires start <= w && start <= w' && |w| <= |w'|
    requires w[|start|..] <= w'[|start|..] || w'[|start|..] <= w[|start|..]
    ensures w <= w'
  {
    assert w == start + w[|start|..] && w' == start + w'[|start|..];
  }

  lemma OpenRoom(dn: nat, first: nat, r: Ring, handed: seq<byte>, accepted: seq<byte>, k: nat, plen: nat)
    requires TxInv(dn, first, r, handed, accepted, k, plen) && r.blkSize % PACKET_BYTES == 0
    ensures |Pending(r)| % PACKET_BYTES == 0 && |Pending(r)| + PACKET_BYTES <= r.blkSize
  {
    if r.outBlk.Some? { RoomForPacket(r); }
  }

  lemma LagArithmetic(packets: nat, committed: nat, pending: nat, size: nat)
    requires committed + pending == PACKET_BYTES * packets
    requires pending % PACKET_BYTES == 0 && size % PACKET_BYTES == 0 && pending + PACKET_BYTES <= size
    ensures committed / PACKET_BYTES == packets - pending / PACKET_BYTES
    ensures pending / PACKET_BYTES + 1 <= size / PACKET_BYTES
  {
    var p, q := pending / PACKET_BYTES, size / PACKET_BYTES;
    assert pending == PACKET_BYTES * p && size == PACKET_BYTES * q;
    assert committed == PACKET_BYTES * (packets - p);
  }

  lemma CountOn(n: nat)
    ensures (n % 0x1_0000 + 1) % 0x1_0000 == (n + 1) % 0x1_0000
    ensures (n % 0x100 + 1) % 0x100 == (n + 1) % 0x100
  {
    CountOn16(n, n / 0x1_0000, n % 0x1_0000);
    CountOn8(n, n / 0x100, n % 0x100);
  }

  lemma CountOn16(n: nat, high: nat, low: nat)
    requires low < 0x1_0000 && n == 0x1_0000 * high + low
    ensures (low + 1) % 0x1_0000 == (n + 1) % 0x1_0000
  {
  }

  lemma CountOn8(n: nat, high: nat, low: nat)
    requires low < 0x100 && n == 0x100 * high + low
    ensures (low + 1) % 0x100 == (n + 1) % 0x100
  {
  }
}

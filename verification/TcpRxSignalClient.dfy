/** lib/TcpRxSignalClient, in its VITA-49 mode: ReceiveSamples reads packets in place in the
    FIFO's block and emits a time tag for each. Between any two steps the pump may run. */
module TcpRx {
  import opened Bytes
  import opened Rings
  import opened RingMoves
  import opened Accounts
  import opened Fifos
  import opened SocketRx
  import opened V49
  import opened V49Packets
  import opened Framing
  import opened RxStream
  import Resync

  /** Where a call of ReceiveSamples started from. */
  datatype Call = Call(position: nat, delivered: seq<byte>, stale: bool, partial: nat)

  /** What a call has done when it has read `recv` samples, the bytes `got`: first `junk`, from a
      stale packet, and then samples of the stream. */
  ghost predicate SoFar(c: Call, received: seq<byte>, delivered: seq<byte>, stale: bool, partial: nat,
      recv: nat, got: seq<byte>, junk: seq<byte>, raw: seq<TimeTag>, tList: seq<TimeTag>)
  {
    var s := |junk| / 4;
    && |junk| == 4 * s && s <= recv && |got| == 4 * recv
    && c.delivered <= delivered && got == junk + delivered[|c.delivered|..]
    && |c.delivered| == 4 * c.position
    && StaleSoFar(c, stale, partial, recv, s)
    && Tagged(received, c.position, recv - s, raw) && tList == Shifted(raw, s)
    && (stale ==> raw == [])
  }

  /** Of `recv` samples the first `s` were stale. */
  ghost predicate StaleSoFar(c: Call, stale: bool, partial: nat, recv: nat, s: nat) {
    if !c.stale then !stale && s == 0
    else if stale then s == recv && partial == c.partial + s
    else c.partial + s == SAMPLES
  }

  lemma NoMore(c: Call, w: seq<byte>, w': seq<byte>, x: seq<byte>, q: nat, q': nat,
      recv: nat, got: seq<byte>, junk: seq<byte>, raw: seq<TimeTag>, tList: seq<TimeTag>)
    requires SoFar(c, w, x, false, q, recv, got, junk, raw, tList) && w <= w'
    ensures SoFar(c, w', x, false, q', recv, got, junk, raw, tList)
  {
    hide Tagged, Shifted;
    TaggedOfPrefix(w, w', c.position, recv - |junk| / 4, raw);
  }

  lemma MoreStale(c: Call, w: seq<byte>, w': seq<byte>, x: seq<byte>, q: nat, q': nat, stale': bool,
      recv: nat, got: seq<byte>, junk: seq<byte>, raw: seq<TimeTag>, tList: seq<TimeTag>, amt: nat, data: seq<byte>)
    requires SoFar(c, w, x, true, q, recv, got, junk, raw, tList) && w <= w' && |data| == 4 * amt
    requires 0 < amt <= SAMPLES - q && q' == (q + amt) % SAMPLES && (stale' <==> 0 < q')
    ensures SoFar(c, w', x, stale', q', recv + amt, got + data, junk + data, raw, tList)
  {
    hide Tagged, Shifted;
    TaggedOfPrefix(w, w', c.position, recv - |junk| / 4, raw);
    ShiftedNothing(tList);
    NoTags(|junk| / 4, |junk + data| / 4);
    assert x[|c.delivered|..] == [];
  }

  lemma NoTags(s: nat, t: nat)
    ensures Shifted([], s) == [] == Shifted([], t)
  {
  }

  lemma MoreFresh(c: Call, w: seq<byte>, w': seq<byte>, x: seq<byte>, k: nat, q: nat, q': nat,
      recv: nat, got: seq<byte>, junk: seq<byte>, raw: seq<TimeTag>, tList: seq<TimeTag>, amt: nat, data: seq<byte>)
    requires SoFar(c, w, x, false, q, recv, got, junk, raw, tList) && w <= w' && |data| == 4 * amt
    requires |x| == 4 * (SAMPLES * k + q) && PACKET_BYTES * (k + 1) <= |w'| && 0 < amt <= SAMPLES - q
    ensures |junk| / 4 <= recv
    ensures var n := recv - |junk| / 4;
      SoFar(c, w', x + data, false, q', recv + amt, got + data, junk, raw + TagHere(w', k, q, n),
        tList + TagHere(w', k, q, recv))
  {
    hide Tagged, Shifted, TagHere;
    var s := |junk| / 4;
    var n := recv - s;
    TaggedOfPrefix(w, w', c.position, n, raw);
    assert c.position + n == SAMPLES * k + q;
    TaggedMore(w', c.position, n, k, q, amt, n + amt, raw);
    ShiftedMore(raw, w', k, q, n, s, recv);
    assert (x + data)[|c.delivered|..] == x[|c.delivered|..] + data;
    assert got + data == junk + (x + data)[|c.delivered|..];
  }

  lemma NothingInReach(blkSize: nat, blkCount: nat)
    requires 0 < blkSize && 0 < blkCount
    ensures Init(blkSize, blkCount).Valid() && Readable(Init(blkSize, blkCount)) == []
  {
  }

  lemma InPackets(k: nat, readable: nat)
    ensures k <= (PACKET_BYTES * k + readable) / PACKET_BYTES
    ensures PACKET_BYTES <= readable ==> k + 1 <= (PACKET_BYTES * k + readable) / PACKET_BYTES
    ensures readable == 0 ==> k == (PACKET_BYTES * k + readable) / PACKET_BYTES
  {
  }

  class TcpRxSignalClient {
    const buffer: SocketRxBuffer
    const packet: V49Packet
    var partial: nat                 // samples read from the packet being read
    ghost var stale: bool            // Flush came while a packet was half read
    ghost var delivered: seq<byte>   // sample bytes delivered from packets received since Flush
    ghost var packets: nat           // packets released since Flush

    ghost predicate Apart()
      reads this, buffer, buffer.fifo.Repr(), packet
    {
      && buffer.Valid()
      && this !in buffer.fifo.Repr() && packet !in buffer.fifo.Repr()
    }

    /** The packet being read is in the block being read, at its read offset. */
    ghost predicate PointerGood()
      reads this, buffer, buffer.fifo, packet
    {
      && buffer.fifo.tail < |buffer.fifo.blk| && buffer.fifo.tail < |buffer.fifo.vals|
      && packet.samples == buffer.fifo.blk[buffer.fifo.tail].buf
      && packet.samplesAt == buffer.fifo.vals[buffer.fifo.tail].read + HEADER_BYTES
      && packet.samplesLen == SAMPLES
    }

    /** After a Flush that came while a packet was half read: no block is checked out, and the
        pointer is somewhere in the memory of the blocks. */
    ghost predicate PointerStale()
      reads this, buffer, buffer.fifo, packet
    {
      && 0 < partial < SAMPLES && packets == 0 && buffer.fifo.inBlk == null
      && packet.samples != null && packet.samples in buffer.fifo.Bufs()
      && packet.samplesAt + 4 * SAMPLES <= buffer.fifo.blkSize && packet.samplesLen == SAMPLES
    }

    /** Samples read from the packet of the stream that is being read. */
    ghost function Read(): nat
      reads this
    {
      if stale then 0 else partial
    }

    ghost predicate Valid()
      reads Repr()
    {
      && Apart()
      && RxInv(buffer.fifo.Abs(), buffer.received, delivered, packets, Read())
      && (stale ==> PointerStale())
      && (!stale && 0 < partial ==> PointerGood())
    }

    /** Inside ReceiveSamples: a packet is open. */
    ghost predicate Reading()
      reads this, buffer, buffer.fifo.Repr(), packet
    {
      Valid() && !stale && buffer.fifo.Abs().inBlk.Some? && PointerGood()
    }

    ghost function Repr(): set<object> {
      {this, buffer, packet} + buffer.fifo.Repr()
    }

    constructor (blkSize: nat, blkCount: nat)
      requires 0 < blkSize && blkSize % PACKET_BYTES == 0 && 0 < blkCount
      ensures Valid() && !stale && delivered == [] && partial == 0
      ensures buffer.before == [] == buffer.received && buffer.socket == [] && !buffer.done
      ensures fresh(Repr()) && buffer.fifo.Abs() == Init(blkSize, blkCount) && InReach() == 0
    {
      hide RxInv, Ring.Valid, BlockFifo.Tied, Balanced, Init;
      buffer := new SocketRxBuffer(blkSize, blkCount);
      packet := new V49Packet();
      partial, stale, delivered, packets := 0, false, [], 0;
      new;
      RxStarts(blkSize, blkCount);
      NothingInReach(blkSize, blkCount);
    }

    /** Samples of the stream delivered since Flush. */
    ghost function Position(): nat
      reads this
    {
      |delivered| / 4
    }

    lemma PositionIs()
      requires Valid()
      ensures Position() == SAMPLES * packets + Read() && |delivered| == 4 * Position()
      ensures Read() == Position() % SAMPLES
      ensures Opened(Position()) == packets + if 0 < Read() then 1 else 0
      ensures PACKET_BYTES * Opened(Position()) <= |buffer.received|
      ensures stale ==> Position() == 0
    {
      hide Apart, RxInv, Opened;
      RxFacts(buffer.fifo.Abs(), buffer.received, delivered, packets, Read());
      OpenedAt(Position(), packets, Read());
    }

    /** Bytes of the stream received in full blocks since Flush, released or not: what a call can
        return samples of whatever the pump does. */
    ghost function InReach(): nat
      requires Valid()
      reads Repr()
    {
      PACKET_BYTES * packets + |Readable(buffer.fifo.Abs())|
    }

    lemma WithinReach()
      requires Valid()
      ensures Position() <= SAMPLES * (InReach() / PACKET_BYTES)
      ensures !stale && partial == 0 && buffer.fifo.Abs().count == 0
        ==> Position() == SAMPLES * (InReach() / PACKET_BYTES)
    {
      hide RxInv, BlockFifo.Tied, Balanced, FullBlocks, AtPacket;
      PositionIs();
      RxFacts(buffer.fifo.Abs(), buffer.received, delivered, packets, Read());
      if 0 < Read() { ReadablePacket(buffer.fifo.Abs(), buffer.received, packets); }
      if buffer.fifo.Abs().count == 0 { NoBlocksNoBytes(buffer.fifo.Abs()); }
      InPackets(packets, |Readable(buffer.fifo.Abs())|);
    }

    /** When the ring is empty between packets, what has been delivered is all that was in reach. */
    lemma AllInReach()
      requires Valid() && !stale && partial == 0 && buffer.fifo.Abs().count == 0
      ensures PACKET_BYTES * (InReach() / PACKET_BYTES) <= |buffer.received|
      ensures delivered == Payloads(buffer.received, InReach() / PACKET_BYTES)
    {
      hide RxInv, BlockFifo.Tied, Balanced, FullBlocks, AtPacket, Payloads, Delivered;
      RxFacts(buffer.fifo.Abs(), buffer.received, delivered, packets, Read());
      NoBlocksNoBytes(buffer.fifo.Abs());
      InPackets(packets, |Readable(buffer.fifo.Abs())|);
      DeliveredWhole(buffer.received, packets);
    }

    /** The pump runs. */
    method Yield()
      requires Valid()
      modifies buffer`transferred, buffer`done, buffer`socket, buffer`received
      modifies buffer.fifo, buffer.fifo.blk, buffer.fifo.Bufs()
      ensures Valid() && (old(Reading()) ==> Reading())
      ensures old(buffer.received) <= buffer.received
      ensures buffer.received + buffer.socket == old(buffer.received + buffer.socket)
      ensures WriterMoved(old(buffer.fifo.Abs()), buffer.fifo.Abs())
      ensures old(InReach()) <= InReach()
    {
      hide BlockFifo.Tied, Ring.Valid, WriterMoved, Queue, Delivered, FullBlocks, Readable;
      ghost var r, was := buffer.fifo.Abs(), buffer.received;
      buffer.Interfere();
      TailStays(r, buffer.fifo.Abs());
      ReadableGrows(r, buffer.fifo.Abs());
      FillingKeeps(r, buffer.fifo.Abs(), was, buffer.received, delivered, packets, Read());
    }

    /** The peer sends more. */
    method Arrive(data: seq<byte>)
      requires Valid()
      modifies buffer`socket
      ensures Valid() && buffer.socket == old(buffer.socket) + data && InReach() == old(InReach())
    {
      hide BlockFifo.Tied, Ring.Valid, Queue, Delivered, FullBlocks;
      buffer.Arrive(data);
    }

    /** `p` and `at` point to a whole packet, the next of the stream. */
    ghost predicate AtReadOffset(p: array<byte>, at: nat)
      reads this, buffer, buffer.fifo, p
    {
      && buffer.fifo.Abs().inBlk.Some? && buffer.fifo.tail < |buffer.fifo.blk| && buffer.fifo.tail < |buffer.fifo.vals|
      && p == buffer.fifo.blk[buffer.fifo.tail].buf && at == buffer.fifo.vals[buffer.fifo.tail].read
      && at + PACKET_BYTES <= p.Length && PACKET_BYTES * (packets + 1) <= |buffer.received|
      && p[at..at + PACKET_BYTES] == buffer.received[PACKET_BYTES * packets..PACKET_BYTES * (packets + 1)]
    }

    /** ReceiveStart between packets: a pointer, unless the ring is empty. */
    method Start() returns (p: array?<byte>, at: nat, max: nat)
      requires Valid() && partial == 0
      modifies buffer.fifo
      ensures Valid()
      ensures p == null <==> old(buffer.fifo.Abs()).inBlk.None? && old(buffer.fifo.Abs()).count == 0
      ensures p != null ==> AtReadOffset(p, at) && max % PACKET_BYTES == 0
      ensures InReach() == old(InReach())
    {
      hide BlockFifo.Tied, Ring.Valid, Queue, Delivered, FullBlocks, Balanced, Readable;
      ghost var r := buffer.fifo.Abs();
      var anything: nat := *;   // not initialised in the source
      if r.inBlk.None? && r.count != 0 {
        TakeInKeepsRx(r, buffer.received, packets);
        ReadableStays(r);
      }
      p, at, max := buffer.ReceiveStart(anything);
      buffer.fifo.InPointer();
      if p != null { PacketAtFront(buffer.fifo.Abs(), buffer.received, packets); }
    }

    /** WaitForReadyReceive and ReceiveStart. Once the first has said there is data, the second
        finds it, in whole packets, whatever the pump does in between: both asserts hold. */
    method FindPacket() returns (ready: bool, p: array?<byte>, at: nat, max: nat)
      requires Valid() && partial == 0
      modifies buffer`transferred, buffer`done, buffer`socket, buffer`received
      modifies buffer.fifo, buffer.fifo.blk, buffer.fifo.Bufs()
      ensures Valid() && old(buffer.received) <= buffer.received
      ensures buffer.received + buffer.socket == old(buffer.received + buffer.socket)
      ensures ready ==> p != null && AtReadOffset(p, at) && max % 0x2000 == 0
      ensures !ready ==> buffer.fifo.Abs().count == 0
      ensures old(InReach()) <= InReach()
    {
      hide BlockFifo.Tied, Ring.Valid, WriterMoved, RxInv, FullBlocks, Balanced, AtReadOffset;
      hide TcpRxSignalClient.InReach;
      Yield();
      ready := buffer.fifo.WaitNotEmpty();
      if !ready { return ready, null, 0, 0; }
      ghost var r := buffer.fifo.Abs();
      Yield();
      TailStays(r, buffer.fifo.Abs());
      p, at, max := Start();
    }

    /** The part of ReceiveSamples' loop that opens a packet when none is open. It fails only
        when the ring is empty. Whether the packet is valid only decides on a warning. */
    method NextPacket(offset: nat) returns (ok: bool, tag: TimeTag)
      requires Valid() && partial == 0
      modifies packet, buffer`transferred, buffer`done, buffer`socket, buffer`received
      modifies buffer.fifo, buffer.fifo.blk, buffer.fifo.Bufs()
      ensures old(buffer.received) <= buffer.received
      ensures buffer.received + buffer.socket == old(buffer.received + buffer.socket)
      ensures Valid() && old(InReach()) <= InReach()
      ensures if !ok then buffer.fifo.Abs().count == 0
        else
          && Reading() && PACKET_BYTES * (packets + 1) <= |buffer.received|
          && tag == TagOf(buffer.received, packets, SAMPLES * packets).(offset := offset)
          && tag.valid && (packet.valid <==> GoodPacket(buffer.received, packets))
    {
      hide BlockFifo.Tied, Ring.Valid, Queue, RxInv, FullBlocks, Balanced, FrameHeader, FrameTrailer, Acceptable;
      tag := TimeTag(false, 0, 0, 0);
      var p, at, max;
      ok, p, at, max := FindPacket();
      if ok {
        packet.Init(p, at, PACKET_BYTES);
        tag := TimeTag(true, offset, packet.header.timeInt, packet.header.TimeFraction());
      }
    }

    /** The samples behind the packet pointer, in the stream. */
    lemma SamplesBehindPointer(amt: nat, from: nat, at: nat)
      requires Reading() && amt <= SAMPLES - partial && PACKET_BYTES * (packets + 1) <= |buffer.received|
      requires from == packet.samplesAt + 4 * partial && at == PACKET_BYTES * packets + HEADER_BYTES + 4 * partial
      ensures at + 4 * amt <= |buffer.received|
      ensures packet.samples in buffer.fifo.Bufs() && from + 4 * amt <= packet.samples.Length
      ensures packet.samples[from..from + 4 * amt] == buffer.received[at..at + 4 * amt]
    {
      hide BlockFifo.Tied, Ring.Valid, Queue, RxInv, AtPacket, FullBlocks, Balanced, Delivered;
      RxFacts(buffer.fifo.Abs(), buffer.received, delivered, packets, partial);
      SamplesAtFront(buffer.fifo.Abs(), buffer.received, packets, partial, amt, from, at);
      buffer.fifo.InPointer();
    }

    /** ReceiveComplete of a whole packet; of a stale one nothing is released. */
    method Release()
      requires Apart() && AtPacket(buffer.fifo.Abs(), buffer.received, packets)
      requires if stale then PointerStale() else buffer.fifo.Abs().inBlk.Some?
      modifies buffer`transferred, buffer`taken, buffer`phantom, buffer.fifo, buffer.fifo.blk
      ensures Apart() && AtPacket(buffer.fifo.Abs(), buffer.received, if stale then packets else packets + 1)
      ensures old(buffer.fifo.Abs()).Valid()
      ensures |Readable(buffer.fifo.Abs())|
        == |Readable(old(buffer.fifo.Abs()))| - if stale then 0 else PACKET_BYTES
    {
      hide BlockFifo.Tied, Ring.Valid, Queue, FullBlocks, Balanced, Delivered, Readable;
      buffer.fifo.InPointer();
      if !stale {
        FinishKeepsRx(buffer.fifo.Abs(), buffer.received, packets);
        ReadablePacket(buffer.fifo.Abs(), buffer.received, packets);
      }
      buffer.ReceiveComplete(PACKET_BYTES);
    }

    /** `amt` more samples of the open packet are read; the packet is released with its last. */
    method Advance(amt: nat, ghost at: nat)
      requires Valid() && (stale || (Reading() && PACKET_BYTES * (packets + 1) <= |buffer.received|))
      requires 0 < amt <= SAMPLES - partial
      requires at == PACKET_BYTES * packets + HEADER_BYTES + 4 * partial
      modifies this`partial, this`packets, this`delivered, this`stale
      modifies buffer`transferred, buffer`taken, buffer`phantom, buffer.fifo, buffer.fifo.blk
      ensures Valid() && buffer.received == old(buffer.received)
      ensures at + 4 * amt <= |buffer.received| || old(stale)
      ensures Drained(old(stale), old(partial), old(packets), old(delivered), amt,
                      if old(stale) then [] else buffer.received[at..at + 4 * amt])
      ensures InReach() == old(InReach())
    {
      hide SocketRxBuffer.Valid, Ring.Valid, RxInv, AtPacket, Delivered, Readable;
      RxFacts(buffer.fifo.Abs(), buffer.received, delivered, packets, Read());
      if !stale {
        ReadKeeps(buffer.fifo.Abs(), buffer.received, delivered, packets, partial, amt, at);
        delivered := delivered + buffer.received[at..at + 4 * amt];
      }
      if partial + amt == packet.samplesLen {
        Release();
        if !stale { packets := packets + 1; }
        partial, stale := 0, false;
        AtPacketFits(buffer.fifo.Abs(), buffer.received, packets);
        ReleasedKeeps(buffer.fifo.Abs(), buffer.received, delivered, packets);
      } else {
        partial := partial + amt;
      }
    }

    /** The part of ReceiveSamples' loop that copies samples out through the packet pointer, and
        releases the packet when all are copied. Only samples of a packet of the stream, and not
        those of a stale one, are delivered. */
    method DrainPacket(out: array<byte>, pos: nat, want: nat) returns (amt: nat, ghost data: seq<byte>)
      requires Valid() && (stale || Reading()) && 0 < want && pos + 4 * want <= out.Length
      requires out !in buffer.fifo.Repr()
      requires stale || PACKET_BYTES * (packets + 1) <= |buffer.received|
      modifies this`partial, this`packets, this`delivered, this`stale, out
      modifies buffer`transferred, buffer`taken, buffer`phantom, buffer.fifo, buffer.fifo.blk
      ensures Valid() && amt == Min(want, SAMPLES - old(partial)) && 0 < amt && |data| == 4 * amt
      ensures out[..] == Splice(old(out[..]), pos, data)
      ensures Drained(old(stale), old(partial), old(packets), old(delivered), amt, data)
      ensures var from := old(packet.samplesAt) + 4 * old(partial);
        && old(packet.samples) != null && from + 4 * amt <= old(packet.samples).Length
        && data == old(packet.samples[..])[from..from + 4 * amt]
      ensures InReach() == old(InReach())
    {
      hide TcpRxSignalClient.Valid, TcpRxSignalClient.Reading, TcpRxSignalClient.InReach, TcpRxSignalClient.Drained;
      hide Splice;
      OpenFacts();
      amt := if want > packet.samplesLen - partial then packet.samplesLen - partial else want;
      ghost var at := PACKET_BYTES * packets + HEADER_BYTES + 4 * partial;
      ghost var z, p, k, x := stale, partial, packets, delivered;
      data := CopyOut(out, pos, amt, at);
      Advance(amt, at);
      if z { DrainedStale(p, k, x, amt, [], data); }
    }

    /** memcpy through the packet pointer; `at` is where its samples are in the stream. */
    method CopyOut(out: array<byte>, pos: nat, amt: nat, ghost at: nat) returns (ghost data: seq<byte>)
      requires Valid() && (stale || Reading()) && 0 < amt <= SAMPLES - partial && pos + 4 * amt <= out.Length
      requires out !in buffer.fifo.Repr()
      requires stale || PACKET_BYTES * (packets + 1) <= |buffer.received|
      requires at == PACKET_BYTES * packets + HEADER_BYTES + 4 * partial
      modifies out
      ensures Valid() && (old(Reading()) ==> Reading()) && InReach() == old(InReach())
      ensures |data| == 4 * amt && out[..] == Splice(old(out[..]), pos, data)
      ensures var from := packet.samplesAt + 4 * partial;
        && packet.samples != null && from + 4 * amt <= packet.samples.Length
        && data == old(packet.samples[..])[from..from + 4 * amt]
      ensures !stale ==> at + 4 * amt <= |buffer.received| && data == buffer.received[at..at + 4 * amt]
    {
      hide BlockFifo.Valid, RxInv, Balanced, Splice, Readable;
      buffer.fifo.Owns();
      buffer.fifo.BufLengths();
      var from := packet.samplesAt + 4 * partial;
      if !stale { SamplesBehindPointer(amt, from, at); }
      data := packet.samples[from..from + 4 * amt];
      CopyTo(out, pos, packet.samples[from..from + 4 * amt]);
    }

    lemma OpenFacts()
      requires Valid() && (stale || Reading())
      ensures partial < SAMPLES && packet.samplesLen == SAMPLES
    {
      hide AtPacket, Delivered;
    }

    lemma DrainedStale(p: nat, k: nat, x: seq<byte>, amt: nat, a: seq<byte>, b: seq<byte>)
      ensures Drained(true, p, k, x, amt, a) == Drained(true, p, k, x, amt, b)
    {
    }

    /** `amt` samples, the bytes `data`, have been read: of the stale packet, or of the stream. */
    ghost predicate Drained(wasStale: bool, p: nat, k: nat, x: seq<byte>, amt: nat, data: seq<byte>)
      reads this
    {
      if wasStale
      then delivered == x && packets == k && partial == (p + amt) % SAMPLES && (stale <==> 0 < partial)
      else delivered == x + data && !stale
    }

    /** The part of ReceiveSamples' loop that opens a packet when none is open, and the time until
        its samples are copied. */
    method OpenPacket(offset: nat) returns (ok: bool, tags: seq<TimeTag>)
      requires Valid()
      modifies packet, buffer`transferred, buffer`done, buffer`socket, buffer`received
      modifies buffer.fifo, buffer.fifo.blk, buffer.fifo.Bufs()
      ensures Valid() && old(buffer.received) <= buffer.received
      ensures buffer.received + buffer.socket == old(buffer.received + buffer.socket)
      ensures if ok then (stale || Reading()) && Here(stale, packets, partial, offset, tags)
        else !stale && partial == 0 && buffer.fifo.Abs().count == 0 && tags == []
      ensures old(InReach()) <= InReach()
    {
      hide BlockFifo.Tied, Ring.Valid, WriterMoved, Queue, RxInv, FullBlocks, Balanced, TagOf, GoodPacket;
      hide TcpRxSignalClient.InReach;
      ok, tags := true, [];
      RxFacts(buffer.fifo.Abs(), buffer.received, delivered, packets, Read());
      if partial == 0 {
        var tag;
        ok, tag := NextPacket(offset);
        if !ok { return; }
        tags := [tag];
      }
      ghost var w := buffer.received;
      Yield();
      if partial == 0 { TagOfPrefix(w, buffer.received, packets, SAMPLES * packets); }
    }

    /** One turn of ReceiveSamples' loop; no samples means the ring is empty between packets. */
    method ReceiveSome(out: array<byte>, pos: nat, want: nat, offset: nat)
      returns (amt: nat, tags: seq<TimeTag>, ghost data: seq<byte>)
      requires Valid() && 0 < want && pos + 4 * want <= out.Length && out !in buffer.fifo.Repr()
      modifies this`partial, this`packets, this`delivered, this`stale, out, packet
      modifies buffer`transferred, buffer`done, buffer`socket, buffer`received, buffer`taken, buffer`phantom
      modifies buffer.fifo, buffer.fifo.blk, buffer.fifo.Bufs()
      ensures Valid() && amt <= want && |data| == 4 * amt && out[..] == Splice(old(out[..]), pos, data)
      ensures old(buffer.received) <= buffer.received
      ensures buffer.received + buffer.socket == old(buffer.received + buffer.socket)
      ensures if amt == 0
        then
          && partial == 0 && buffer.fifo.Abs().count == 0
          && delivered == old(delivered) && stale == old(stale) == false && tags == []
        else
          && amt <= SAMPLES - old(partial)
          && Drained(old(stale), old(partial), old(packets), old(delivered), amt, data)
          && Here(old(stale), old(packets), old(partial), offset, tags)
      ensures old(InReach()) <= InReach()
    {
      hide BlockFifo.Valid, RxInv, Balanced, FullBlocks, Splice, Drained, TagHere, TcpRxSignalClient.InReach;
      amt, data := 0, [];
      var ok;
      ok, tags := OpenPacket(offset);
      if !ok { return; }
      amt, data := DrainPacket(out, pos, want);
    }

    /** The tags of a turn that begins behind sample `q` of packet `k`, or in a stale packet. */
    ghost predicate Here(wasStale: bool, k: nat, q: nat, offset: nat, tags: seq<TimeTag>)
      reads buffer
    {
      if wasStale then tags == []
      else PACKET_BYTES * (k + 1) <= |buffer.received| && tags == TagHere(buffer.received, k, q, offset)
    }

    /** The samples delivered are the next ones of the payload of the received stream, however
        the calls are cut, and the tags are those of the packets that begin among them. Only
        after a Flush that came while a packet was half read do the samples begin with `junk`,
        the rest of that packet from wherever its pointer points. The call returns short if and
        only if more was asked for than is in reach when it returns, and in reach is at least what
        was when it began: all that was committed is returned, whatever the pump does. */
    method ReceiveSamples(out: array<byte>, count: nat)
      returns (recv: nat, tList: seq<TimeTag>, ghost junk: seq<byte>, ghost raw: seq<TimeTag>)
      requires Valid() && 4 * count <= out.Length && out !in Repr()
      modifies Repr(), out
      ensures Valid() && recv <= count && buffer.before == old(buffer.before)
      ensures |junk| == if old(stale) then 4 * Min(count, SAMPLES - old(partial)) else 0
      ensures |junk| <= 4 * recv && Position() == old(Position()) + recv - |junk| / 4
      ensures old(delivered) <= delivered && |delivered| == |old(delivered)| + 4 * recv - |junk|
      ensures out[..] == Splice(old(out[..]), 0, junk + delivered[|old(delivered)|..])
      ensures recv < count ==> partial == 0 && buffer.fifo.Abs().count == 0
      ensures stale ==> old(stale)
      ensures old(buffer.received) <= buffer.received
      ensures buffer.received + buffer.socket == old(buffer.received + buffer.socket)
      ensures Tagged(buffer.received, old(Position()), recv - |junk| / 4, raw) && tList == Shifted(raw, |junk| / 4)
      ensures !old(stale) ==> junk == [] && tList == raw
      ensures old(InReach()) <= InReach()
      ensures recv < count <==> SAMPLES * (InReach() / PACKET_BYTES) < old(Position()) + count - |junk| / 4
    {
      hide TcpRxSignalClient.Valid, TcpRxSignalClient.InReach, Splice, Progress, Tagged, Shifted;
      buffer.fifo.Owns();
      recv, tList, junk, raw := 0, [], [], [];
      ghost var c, net, got := Call(Position(), delivered, stale, partial), buffer.received + buffer.socket, [];
      ProgressStarts(c);
      while recv < count
        invariant Valid() && recv <= count && |got| == 4 * recv && buffer.before == old(buffer.before)
        invariant Progress(c, recv, got, junk, raw, tList) && out[..] == Splice(old(out[..]), 0, got)
        invariant old(buffer.received) <= buffer.received && buffer.received + buffer.socket == net
        invariant old(InReach()) <= InReach()
      {
        var pos, amt := 4 * recv, 0;
        ghost var data;
        amt, data, tList, junk, raw := ReceiveTurn(out, pos, count - recv, recv, tList, c, got, junk, raw);
        SpliceMore(old(out[..]), 0, got, pos, data);
        got := got + data;
        if amt == 0 { break; }
        recv := recv + amt;
      }
      ProgressEnds(c, recv, got, junk, raw, tList);
      WithinReach();
    }

    /** One turn, and what it does to what the call has done so far. */
    method ReceiveTurn(out: array<byte>, pos: nat, want: nat, recv: nat, tList: seq<TimeTag>,
        ghost c: Call, ghost got: seq<byte>, ghost junk: seq<byte>, ghost raw: seq<TimeTag>)
      returns (amt: nat, ghost data: seq<byte>, tList': seq<TimeTag>,
        ghost junk': seq<byte>, ghost raw': seq<TimeTag>)
      requires Valid() && 0 < want && pos + 4 * want <= out.Length && out !in buffer.fifo.Repr()
      requires Progress(c, recv, got, junk, raw, tList)
      modifies this`partial, this`packets, this`delivered, this`stale, out, packet
      modifies buffer`transferred, buffer`done, buffer`socket, buffer`received, buffer`taken, buffer`phantom
      modifies buffer.fifo, buffer.fifo.blk, buffer.fifo.Bufs()
      ensures Valid() && amt <= want && |data| == 4 * amt && out[..] == Splice(old(out[..]), pos, data)
      ensures old(buffer.received) <= buffer.received
      ensures buffer.received + buffer.socket == old(buffer.received + buffer.socket)
      ensures Progress(c, recv + amt, got + data, junk', raw', tList')
      ensures amt == 0 ==> !stale && partial == 0 && buffer.fifo.Abs().count == 0
      ensures old(InReach()) <= InReach()
    {
      hide TcpRxSignalClient.Valid, TcpRxSignalClient.InReach, Splice, SoFar, TagHere, Opened;
      ghost var w, x, k, q, z := buffer.received, delivered, packets, partial, stale;
      PositionIs();
      var tags;
      amt, tags, data := ReceiveSome(out, pos, want, recv);
      tList', junk', raw' := tList + tags, junk, raw;
      if amt == 0 {
        NoMore(c, w, buffer.received, x, q, partial, recv, got, junk, raw, tList);
        assert got + data == got && tList + tags == tList;
      } else if z {
        MoreStale(c, w, buffer.received, x, q, partial, stale, recv, got, junk, raw, tList, amt, data);
        junk' := junk + data;
        assert tList + tags == tList;
      } else {
        MoreFresh(c, w, buffer.received, x, k, q, partial, recv, got, junk, raw, tList, amt, data);
        raw' := raw + TagHere(buffer.received, k, q, recv - |junk| / 4);
      }
    }

    /** What a call has done when it has read `recv` samples, the bytes `got`. */
    ghost predicate Progress(c: Call, recv: nat, got: seq<byte>, junk: seq<byte>,
        raw: seq<TimeTag>, tList: seq<TimeTag>)
      reads this, buffer
    {
      SoFar(c, buffer.received, delivered, stale, partial, recv, got, junk, raw, tList)
    }

    lemma ProgressStarts(c: Call)
      requires Valid() && c == Call(Position(), delivered, stale, partial)
      ensures Progress(c, 0, [], [], [], [])
    {
      hide RxInv, Apart, PointerGood, PointerStale, Tagged;
      PositionIs();
      TaggedNothing(buffer.received, c.position);
    }

    lemma ProgressEnds(c: Call, recv: nat, got: seq<byte>, junk: seq<byte>, raw: seq<TimeTag>, tList: seq<TimeTag>)
      requires Valid() && Progress(c, recv, got, junk, raw, tList)
      ensures Position() == c.position + recv - |junk| / 4
      ensures |delivered| == |c.delivered| + 4 * recv - |junk|
      ensures c.stale && stale ==> recv < SAMPLES - c.partial && |junk| == 4 * recv
      ensures c.stale && !stale ==> |junk| == 4 * (SAMPLES - c.partial) <= 4 * recv
      ensures !c.stale ==> junk == [] && tList == raw && !stale
      ensures c.delivered <= delivered && got == junk + delivered[|c.delivered|..]
      ensures Tagged(buffer.received, c.position, recv - |junk| / 4, raw) && tList == Shifted(raw, |junk| / 4)
    {
      hide RxInv, Apart, PointerGood, Tagged, Shifted;
      PositionIs();
      ShiftedNothing(raw);
    }

    /** Only the pump runs. */
    method Idle()
      requires Valid()
      modifies Repr()
      ensures Valid() && delivered == old(delivered) && stale == old(stale) && buffer.before == old(buffer.before)
      ensures old(buffer.received) <= buffer.received && old(InReach()) <= InReach()
      ensures buffer.received + buffer.socket == old(buffer.received + buffer.socket)
    {
      hide RxInv, Apart, PointerGood, PointerStale, TcpRxSignalClient.InReach;
      buffer.fifo.Owns();
      Yield();
    }

    /** A turn of the pump with the given answers. */
    method PumpTurn(os: seq<RecvResult>)
      requires Valid()
      modifies Repr()
      ensures Valid() && delivered == old(delivered) && stale == old(stale) && buffer.before == old(buffer.before)
      ensures partial == old(partial)
      ensures old(buffer.received) <= buffer.received
      ensures buffer.received + buffer.socket == old(buffer.received + buffer.socket)
      ensures old(buffer.fifo.head) < |old(buffer.fifo.vals)| && old(buffer.LevelNow()).fill <= buffer.fifo.blkSize
      ensures |buffer.received| == |old(buffer.received)| +
        if old(buffer.done) then 0 else Receives(buffer.fifo.blkSize, old(buffer.LevelNow()), os).got
    {
      hide BlockFifo.Tied, Ring.Valid, WriterMoved, Queue, Delivered, FullBlocks;
      buffer.fifo.Owns();
      ghost var r, was := buffer.fifo.Abs(), buffer.received;
      buffer.ReadData(os);
      TailStays(r, buffer.fifo.Abs());
      FillingKeeps(r, buffer.fifo.Abs(), was, buffer.received, delivered, packets, Read());
    }

    /** What has been delivered is the payload of the received stream, up to the last sample. */
    lemma DeliversPayload()
      requires Valid()
      ensures PACKET_BYTES * Opened(Position()) <= |buffer.received|
      ensures delivered <= Payloads(buffer.received, Opened(Position()))
    {
      hide Apart, AtPacket, Delivered, Payloads;
      PositionIs();
      DeliveredIsPrefix(buffer.received, packets, Read(), Opened(Position()));
    }

    /** Quiescent. The source empties the buffer but keeps `partial`: a packet half read stays
        open, and what is read next is the rest of it. */
    method Flush()
      requires Valid()
      modifies this`stale, this`delivered, this`packets
      modifies buffer`transferred, buffer`before, buffer`received, buffer`taken, buffer`phantom
      modifies buffer.fifo, buffer.fifo.blk
      ensures Valid() && delivered == [] == buffer.received && buffer.before == old(buffer.before + buffer.received)
      ensures partial == old(partial) && (stale <==> 0 < partial)
      ensures !old(stale) && 0 < partial ==> StillSees(old(buffer.received), old(packets))
    {
      hide BlockFifo.Tied, Ring.Valid, Queue, FullBlocks, Balanced, Delivered;
      ghost var r := buffer.fifo.Abs();
      RxFacts(r, buffer.received, delivered, packets, Read());
      buffer.fifo.Owns();
      if !stale && 0 < partial { HalfReadPacket(); }
      buffer.Reset();
      FlushedRx(r);
      stale, delivered, packets := 0 < partial, [], 0;
    }

    lemma HalfReadPacket()
      requires Valid() && !stale && 0 < partial
      ensures packet.samples != null && packet.samples in buffer.fifo.Bufs()
      ensures packet.samplesAt + 4 * SAMPLES <= buffer.fifo.blkSize && packet.samplesLen == SAMPLES
      ensures StillSees(buffer.received, packets)
    {
      hide BlockFifo.Tied, Queue, FullBlocks, Balanced, Delivered;
      RxFacts(buffer.fifo.Abs(), buffer.received, delivered, packets, Read());
      buffer.fifo.InPointer();
      PacketAtFront(buffer.fifo.Abs(), buffer.received, packets);
      SamplesBehindPointer(SAMPLES - partial, packet.samplesAt + 4 * partial,
        PACKET_BYTES * packets + HEADER_BYTES + 4 * partial);
    }

    /** Behind the packet pointer is the rest of packet `k` of the stream `w`. */
    ghost predicate StillSees(w: seq<byte>, k: nat)
      reads this, packet, packet.samples
    {
      var from, at := packet.samplesAt + 4 * partial, PACKET_BYTES * k + HEADER_BYTES + 4 * partial;
      && partial < SAMPLES && PACKET_BYTES * (k + 1) <= |w|
      && packet.samples != null && from + 4 * (SAMPLES - partial) <= packet.samples.Length
      && packet.samples[from..from + 4 * (SAMPLES - partial)] == w[at..at + 4 * (SAMPLES - partial)]
    }

    /** When the ring is empty, less than a block of what was received is not released. */
    lemma EmptyRing()
      requires Valid() && buffer.fifo.Abs().count == 0
      ensures |buffer.received| < PACKET_BYTES * packets + buffer.fifo.blkSize
    {
      var r := buffer.fifo.Abs();
      RxFacts(r, buffer.received, delivered, packets, Read());
      NoBlocksNoBytes(r);
    }
  }

  // ----- the two ways a Flush can leave the client out of step -----

  /** A new client, with `w` sent to it and its first `n` bytes received. */
  method NewWith(w: seq<byte>, blkSize: nat, n: nat) returns (rx: TcpRxSignalClient)
    requires 0 < blkSize && blkSize % PACKET_BYTES == 0 && n <= |w| && n <= blkSize
    ensures rx.Valid() && fresh(rx.Repr()) && rx.partial == 0 && !rx.stale && rx.delivered == []
    ensures rx.buffer.before == [] && rx.buffer.received == w[..n] && rx.buffer.socket == w[n..]
    ensures rx.buffer.fifo.blkSize == blkSize
  {
    hide TcpRxSignalClient.Valid, BlockFifo.Tied, Init, Receives, Fill, Free;
    rx := new TcpRxSignalClient(blkSize, 64);
    rx.buffer.fifo.Owns();
    FirstRecv(blkSize, 64, |w|, n);
    rx.Arrive(w);
    rx.PumpTurn([Ready(n)]);
    assert rx.buffer.received + rx.buffer.socket == w;
  }

  /** With 5000 bytes received and no packet read, a Flush drops a fragment of a packet. */
  method FlushDropsFragment(w: seq<byte>) returns (rx: TcpRxSignalClient)
    requires 5000 <= |w|
    ensures rx.Valid() && rx.partial == 0 && !rx.stale
    ensures rx.buffer.before == w[..5000] && rx.buffer.received == [] && rx.buffer.socket == w[5000..]
  {
    hide TcpRxSignalClient.Valid, BlockFifo.Tied;
    rx := NewWith(w, 32 * 1024, 5000);
    rx.buffer.fifo.Owns();
    rx.Flush();
  }

  /** A client that has read `p` samples of the first packet of `w`. */
  method HalfRead(w: seq<byte>, p: nat) returns (rx: TcpRxSignalClient)
    requires PACKET_BYTES <= |w| && 0 < p < SAMPLES
    ensures rx.Valid() && fresh(rx.Repr()) && rx.partial == p && rx.packets == 0 && !rx.stale
    ensures rx.buffer.before == [] && PACKET_BYTES <= |rx.buffer.received|
    ensures rx.buffer.received + rx.buffer.socket == w
  {
    hide TcpRxSignalClient.Valid, TcpRxSignalClient.InReach, Tagged, Shifted, Splice, Opened;
    rx := NewWith(w, PACKET_BYTES, PACKET_BYTES);
    rx.PositionIs();
    var out := new byte[4 * p];
    var recv, tags, junk, raw := rx.ReceiveSamples(out, p);
    rx.PositionIs();
    if recv < p { FirstPacketRead(rx); }
  }

  /** With `p` samples read of its first packet, a Flush leaves that packet open, and the pointer
      on its rest. */
  method FlushKeepsHalfRead(w: seq<byte>, p: nat) returns (rx: TcpRxSignalClient)
    requires PACKET_BYTES <= |w| && 0 < p < SAMPLES
    ensures rx.Valid() && fresh(rx.Repr()) && rx.partial == p && rx.stale
    ensures PACKET_BYTES <= |rx.buffer.before| && rx.buffer.before + rx.buffer.socket == w
    ensures rx.buffer.received == [] && rx.StillSees(w, 0)
  {
    hide TcpRxSignalClient.Valid, TcpRxSignalClient.StillSees;
    rx := HalfRead(w, p);
    rx.buffer.fifo.Owns();
    ghost var v := rx.buffer.received;
    rx.Flush();
    assert [] + v == v;
    SeesMore(rx, v, w);
  }

  lemma SeesMore(rx: TcpRxSignalClient, v: seq<byte>, w: seq<byte>)
    requires rx.StillSees(v, 0) && v <= w
    ensures rx.StillSees(w, 0)
  {
  }

  /** And so, for any payload framed, the next samples given out are the rest of that packet. */
  method FlushGivesOutRest(dn: nat, first: nat, x: seq<byte>, m: nat, p: nat)
    returns (rx: TcpRxSignalClient, out: seq<byte>)
    requires dn < 0x100 && CHUNK * m <= |x| && 0 < m && 0 < p < SAMPLES
    ensures PACKET_BYTES <= |rx.buffer.before| && rx.buffer.before <= Wire(dn, first, x, m)
    ensures rx.Valid() && !rx.stale && out == Resync.Rest(x, 0, p)
  {
    hide TcpRxSignalClient.Valid, TcpRxSignalClient.InReach, Wire, Splice, Resync.Rest;
    var w := Wire(dn, first, x, m);
    rx := FlushKeepsHalfRead(w, p);
    Resync.RestOnWire(dn, first, x, m, p, HEADER_BYTES + 4 * p);
    var a := new byte[4 * (SAMPLES - p)];
    ghost var was := a[..];
    rx.buffer.fifo.Owns();
    var amt;
    ghost var data;
    amt, data := rx.DrainPacket(a, 0, SAMPLES - p);
    out := a[..];
    AllSpliced(was, data);
  }

  /** For example after one sample: what is given out next is not the payload from any packet
      boundary on. */
  method FlushOutOfStep(dn: nat) returns (rx: TcpRxSignalClient, x: seq<byte>, out: seq<byte>)
    requires dn < 0x100
    ensures |x| == CHUNK * 3 && PACKET_BYTES <= |rx.buffer.before| && rx.buffer.before <= Wire(dn, 0, x, 3)
    ensures forall c: nat | c <= 3 :: !(out <= x[CHUNK * c..])
  {
    hide Wire, Resync.Rest, Resync.Marked;
    x := Resync.Marked(0, 1, 3);
    rx, out := FlushGivesOutRest(dn, 0, x, 3, 1);
    forall c: nat | c <= 3
      ensures !(out <= x[CHUNK * c..])
    {
      Resync.RestIsNowhere(0, 1, 3, c, []);
      assert out + [] == out;
    }
  }

  lemma AllSpliced(was: seq<byte>, data: seq<byte>)
    requires |data| == |was|
    ensures Splice(was, 0, data) == data
  {
  }

  lemma FirstPacketRead(rx: TcpRxSignalClient)
    requires rx.Valid() && rx.buffer.fifo.Abs().count == 0
    requires rx.buffer.fifo.blkSize == PACKET_BYTES <= |rx.buffer.received|
    ensures SAMPLES <= rx.Position()
  {
    hide RxInv;
    rx.PositionIs();
    rx.EmptyRing();
  }
}

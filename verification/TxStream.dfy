/** The invariant of the transmit side, on values: which bytes have gone into the FIFO, what is
    laid out in the block being filled, and how every step of Send and of the pump keeps it. */
module TxStream {
  import opened Bytes
  import opened Rings
  import opened RingMoves
  import opened V49
  import opened Framing

  /** Every committed block is a whole number of packets, at least one, and full when packets
      divide the block size; so is the written part of the block being filled. */
  ghost predicate WholePackets(r: Ring)
    requires r.Valid()
  {
    && (forall i | 0 <= i < |r.blk| && r.Committed(i) :: WholeBlock(r.blk[i], r.blkSize))
    && (r.outBlk.Some? ==> r.blk[r.head].len % PACKET_BYTES == 0)
  }

  ghost predicate WholeBlock(b: Blk, size: nat) {
    0 < b.len && b.len % PACKET_BYTES == 0 && (size % PACKET_BYTES == 0 ==> b.len == size)
  }

  /** A frame is laid out behind the written part of block `b`: header, `data` as the payload
      so far, and trailer. */
  ghost predicate Laid(b: Blk, h: Header, data: seq<byte>) {
    && b.len + PACKET_BYTES <= |b.buf| && |data| <= CHUNK
    && b.buf[b.len..b.len + HEADER_BYTES] == HeaderBytes(h)
    && b.buf[b.len + HEADER_BYTES..b.len + HEADER_BYTES + |data|] == data
    && b.buf[b.len + PACKET_BYTES - 4..b.len + PACKET_BYTES] == ToBytes(VEND)
  }

  /** `k` packets have been completed, `plen` more payload bytes accepted. */
  ghost predicate Streamed(dn: nat, first: nat, r: Ring, handed: seq<byte>, accepted: seq<byte>, k: nat, plen: nat) {
    && dn < 0x100 && r.Valid() && PACKET_BYTES <= r.blkSize && WholePackets(r)
    && plen <= CHUNK && |accepted| == CHUNK * k + plen
    && handed == Wire(dn, first, accepted, k)
  }

  /** And those bytes lie in a frame in the block being filled. */
  ghost predicate Open(dn: nat, first: nat, r: Ring, accepted: seq<byte>, k: nat)
    requires dn < 0x100 && r.Valid() && CHUNK * k <= |accepted|
  {
    r.outBlk.Some? && Laid(r.blk[r.head], NewHeader(dn, 0, first + k, first + k), accepted[CHUNK * k..])
  }

  /** The invariant between calls. */
  ghost predicate TxInv(dn: nat, first: nat, r: Ring, handed: seq<byte>, accepted: seq<byte>, k: nat, plen: nat) {
    && Streamed(dn, first, r, handed, accepted, k, plen) && plen < CHUNK
    && (0 < plen ==> Open(dn, first, r, accepted, k))
  }

  lemma OpenFits(dn: nat, first: nat, r: Ring, accepted: seq<byte>, k: nat)
    requires dn < 0x100 && r.Valid() && CHUNK * k <= |accepted| && Open(dn, first, r, accepted, k)
    ensures r.outBlk.Some? && r.head < |r.blk| && r.blk[r.head].len + PACKET_BYTES <= r.blkSize
  {
  }

  lemma StreamedFacts(dn: nat, first: nat, r: Ring, handed: seq<byte>, accepted: seq<byte>, k: nat, plen: nat)
    requires Streamed(dn, first, r, handed, accepted, k, plen)
    ensures r.Valid() && dn < 0x100 && CHUNK * k <= |accepted| && PACKET_BYTES <= r.blkSize
  {
  }

  lemma TxStarts(dn: nat, blkSize: nat, blkCount: nat)
    requires dn < 0x100 && PACKET_BYTES <= blkSize && 0 < blkCount
    ensures TxInv(dn, 0, Init(blkSize, blkCount), [], [], 0, 0)
  {
  }

  lemma StreamedNoneEmpty(dn: nat, first: nat, r: Ring, handed: seq<byte>, accepted: seq<byte>, k: nat, plen: nat)
    requires Streamed(dn, first, r, handed, accepted, k, plen)
    ensures r.Valid() && NoneEmpty(r)
  {
    assert forall i | 0 <= i < |r.blk| && r.Committed(i) :: WholeBlock(r.blk[i], r.blkSize);
  }

  /** The pump may run at any time. */
  lemma PumpKeeps(dn: nat, first: nat, r: Ring, s: Ring, handed: seq<byte>, accepted: seq<byte>, k: nat, plen: nat)
    requires Streamed(dn, first, r, handed, accepted, k, plen) && ReaderMoved(r, s)
    ensures Streamed(dn, first, s, handed, accepted, k, plen)
    ensures Open(dn, first, r, accepted, k) ==> Open(dn, first, s, accepted, k)
  {
  }

  lemma TakeOutKeepsTx(dn: nat, first: nat, r: Ring, handed: seq<byte>, accepted: seq<byte>, k: nat)
    requires Streamed(dn, first, r, handed, accepted, k, 0) && r.outBlk.None? && !r.Full()
    ensures Streamed(dn, first, r.TakeOut(), handed, accepted, k, 0)
  {
    TakeOutValid(r);
  }

  /** When packets divide the block size there is always room for one behind the last. */
  lemma RoomForPacket(r: Ring)
    requires r.Valid() && PACKET_BYTES <= r.blkSize && WholePackets(r) && r.outBlk.Some?
    ensures r.blkSize % PACKET_BYTES == 0 ==> r.blk[r.head].len + PACKET_BYTES <= r.blkSize
    ensures r.blkSize - r.blk[r.head].len < PACKET_BYTES ==> 0 < r.blk[r.head].len
  {
  }

  /** Forcing the next block completes a block that has packets in it, never an empty one. */
  lemma ForceKeeps(dn: nat, first: nat, r: Ring, handed: seq<byte>, accepted: seq<byte>, k: nat)
    requires Streamed(dn, first, r, handed, accepted, k, 0) && r.outBlk.Some?
    requires r.blkSize - r.blk[r.head].len < PACKET_BYTES
    ensures Streamed(dn, first, r.Commit(0), handed, accepted, k, 0)
  {
    CommitValid(r, 0);
    RoomForPacket(r);
  }

  /** The block being filled is the same and its written part as long. */
  ghost predicate SameSpot(r: Ring, s: Ring) {
    && s.head == r.head < |r.blk| == |s.blk| && s.outBlk == r.outBlk && s.blkSize == r.blkSize
    && s.blk[s.head].len == r.blk[r.head].len
  }

  /** The ring after Attach has laid out header and trailer; `end` is where the trailer goes. */
  ghost function Attached(r: Ring, at: nat, end: nat, h: Header): Ring
    requires r.head < |r.blk| && at + HEADER_BYTES <= end && end + 4 <= |r.blk[r.head].buf|
  {
    r.Poke(r.head, at, HeaderBytes(h)).Poke(r.head, end, ToBytes(VEND))
  }

  lemma AttachKeeps(dn: nat, first: nat, r: Ring, end: nat, handed: seq<byte>, accepted: seq<byte>, k: nat)
    requires Streamed(dn, first, r, handed, accepted, k, 0) && r.outBlk.Some?
    requires r.blk[r.head].len + PACKET_BYTES <= r.blkSize && end == r.blk[r.head].len + PACKET_BYTES - 4
    ensures var s := Attached(r, r.blk[r.head].len, end, NewHeader(dn, 0, first + k, first + k));
      && Streamed(dn, first, s, handed, accepted, k, 0) && Open(dn, first, s, accepted, k)
      && Queue(s) == Queue(r) && SameSpot(r, s)
  {
    hide Queue, WriterMoved, Wire;
    var at, h := r.blk[r.head].len, NewHeader(dn, 0, first + k, first + k);
    var p := r.Poke(r.head, at, HeaderBytes(h));
    PokeKeeps(r, at, HeaderBytes(h));
    PokeKeeps(p, end, ToBytes(VEND));
    var b := Attached(r, at, end, h).blk[r.head];
    assert b.buf[at..at + HEADER_BYTES] == p.blk[r.head].buf[at..at + HEADER_BYTES];
  }

  /** Copying `data` behind the payload so far; `at` is where it goes. */
  lemma FillKeeps(dn: nat, first: nat, r: Ring, at: nat, data: seq<byte>,
      handed: seq<byte>, accepted: seq<byte>, k: nat, plen: nat)
    requires Streamed(dn, first, r, handed, accepted, k, plen) && Open(dn, first, r, accepted, k)
    requires plen + |data| <= CHUNK && at == r.blk[r.head].len + HEADER_BYTES + plen
    ensures var s := r.Poke(r.head, at, data);
      && Streamed(dn, first, s, handed, accepted + data, k, plen + |data|)
      && Open(dn, first, s, accepted + data, k)
      && Queue(s) == Queue(r) && SameSpot(r, s)
  {
    PokeKeeps(r, at, data);
    WireOfPrefix(dn, first, accepted, accepted + data, k);
    var s := r.Poke(r.head, at, data);
    LaidMore(r.blk[r.head], s.blk[r.head], at, NewHeader(dn, 0, first + k, first + k), accepted[CHUNK * k..], data);
    assert (accepted + data)[CHUNK * k..] == accepted[CHUNK * k..] + data;
  }

  lemma LaidMore(b: Blk, c: Blk, at: nat, h: Header, x: seq<byte>, data: seq<byte>)
    requires Laid(b, h, x) && |x| + |data| <= CHUNK && at == b.len + HEADER_BYTES + |x|
    requires c == b.(buf := Splice(b.buf, at, data))
    ensures Laid(c, h, x + data)
  {
    var u, v := c.buf[b.len + HEADER_BYTES..b.len + HEADER_BYTES + |x + data|], x + data;
    forall i | 0 <= i < |v|
      ensures u[i] == v[i]
    {
      if i < |x| {
        assert b.buf[b.len + HEADER_BYTES..b.len + HEADER_BYTES + |x|][i] == x[i];
      } else {
        assert c.buf[at..at + |data|][i - |x|] == data[i - |x|];
      }
    }
  }

  /** A full frame is exactly packet number `first + k`; completing it extends the wire image. */
  lemma CloseKeeps(dn: nat, first: nat, r: Ring, handed: seq<byte>, accepted: seq<byte>, k: nat)
    requires Streamed(dn, first, r, handed, accepted, k, CHUNK) && Open(dn, first, r, accepted, k)
    ensures var b := r.blk[r.head];
      Streamed(dn, first, r.Commit(PACKET_BYTES), handed + b.buf[b.len..b.len + PACKET_BYTES], accepted, k + 1, 0)
  {
    hide HeaderBytes, NewHeader;
    var b := r.blk[r.head];
    CommitValid(r, PACKET_BYTES);
    CommitWholePackets(r);
    LaidPacket(b, NewHeader(dn, 0, first + k, first + k), accepted[CHUNK * k..]);
    hide WholePackets, Ring.Valid, Laid, Frame, Ring.Commit;
    assert accepted[CHUNK * k..CHUNK * (k + 1)] == accepted[CHUNK * k..];
  }

  lemma CommitWholePackets(r: Ring)
    requires r.Valid() && WholePackets(r) && r.outBlk.Some? && r.blk[r.head].len + PACKET_BYTES <= r.blkSize
    requires r.Commit(PACKET_BYTES).Valid()
    ensures WholePackets(r.Commit(PACKET_BYTES)) && r.Commit(PACKET_BYTES).blkSize == r.blkSize
  {
  }

  lemma LaidPacket(b: Blk, h: Header, data: seq<byte>)
    requires Laid(b, h, data) && |data| == CHUNK
    ensures b.buf[b.len..b.len + PACKET_BYTES] == Frame(h, data, VEND)
  {
    var f := b.buf[b.len..b.len + PACKET_BYTES];
    assert f[..HEADER_BYTES] == HeaderBytes(h);
    assert f[HEADER_BYTES..HEADER_BYTES + CHUNK] == data;
    assert f[HEADER_BYTES + CHUNK..] == ToBytes(VEND);
  }

  /** After a Flush nothing has been completed. */
  lemma FlushedStream(dn: nat, n: nat, r: Ring)
    requires dn < 0x100 && r.Valid() && PACKET_BYTES <= r.blkSize
    ensures TxInv(dn, n, ResetAll(r), [], [], 0, 0)
  {
  }

  // ----- how much a full ring holds -----

  /** `c` full blocks of `size` bytes, none of them read from. */
  lemma {:induction false} UnreadOfWhole(blk: seq<Blk>, t: nat, c: nat, size: nat)
    requires Sound(blk) && t < |blk| && c < |blk|
    requires forall k | 0 <= k < c :: blk[Slot(t, k, |blk|)].len == size && blk[Slot(t, k, |blk|)].read == 0
    ensures |Unread(blk, t, c)| == c * size
    decreases c
  {
    if 0 < c {
      var u := Next(t, |blk|);
      assert Slot(t, 0, |blk|) == t;
      forall k | 0 <= k < c - 1
        ensures blk[Slot(u, k, |blk|)].len == size && blk[Slot(u, k, |blk|)].read == 0
      {
        assert Slot(u, k, |blk|) == Slot(t, k + 1, |blk|);
      }
      UnreadOfWhole(blk, u, c - 1, size);
      OneLess(c, c - 1, size);
    }
  }

  /** More has been handed over than fits into all blocks but two, when the ring is full. */
  lemma FullRing(dn: nat, first: nat, r: Ring, handed: seq<byte>, accepted: seq<byte>, k: nat, plen: nat)
    requires Streamed(dn, first, r, handed, accepted, k, plen) && r.blkSize % PACKET_BYTES == 0
    requires r.Full() && |Readable(r)| <= |handed|
    ensures (|r.blk| - 2) * r.blkSize < PACKET_BYTES * k
  {
    hide Wire;
    CountIsDistance(r);
    assert |handed| == PACKET_BYTES * k;
    if r.count == 0 {
      assert (|r.blk| - 2) * r.blkSize == 0 - r.blkSize;
    } else {
      BehindTheFirst(r);
      assert r.Committed(r.tail) && WholeBlock(r.blk[r.tail], r.blkSize);
      assert 0 < |Avail(r.blk[r.tail])|;
    }
  }

  lemma BehindTheFirst(r: Ring)
    requires r.Valid() && WholePackets(r) && r.blkSize % PACKET_BYTES == 0 && 0 < r.count
    ensures Next(r.tail, |r.blk|) < |r.blk|
    ensures |Unread(r.blk, Next(r.tail, |r.blk|), r.count - 1)| == (r.count - 1) * r.blkSize
  {
    var u := Next(r.tail, |r.blk|);
    forall k | 0 <= k < r.count - 1
      ensures r.blk[Slot(u, k, |r.blk|)].len == r.blkSize && r.blk[Slot(u, k, |r.blk|)].read == 0
    {
      var i := Slot(u, k, |r.blk|);
      assert i == Slot(r.tail, k + 1, |r.blk|) && i != r.tail;
      CommittedIsSlot(r, i);
      assert WholeBlock(r.blk[i], r.blkSize);
    }
    UnreadOfWhole(r.blk, u, r.count - 1, r.blkSize);
  }
}

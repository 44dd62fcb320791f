/** The invariant of the receive side, on values: where in the received stream the reader is,
    what it has delivered, and which time tags go with which samples. */
module RxStream {
  import opened Bytes
  import opened Rings
  import opened RingMoves
  import opened SocketRx
  import opened V49
  import opened Framing

  /** Blocks are filled with whole packets, and `k` packets have been released: packet `k`
      is at the front of the queue, at a packet boundary of its block. */
  ghost predicate AtPacket(r: Ring, received: seq<byte>, k: nat) {
    && r.Valid() && r.blkSize % PACKET_BYTES == 0 && FullBlocks(r)
    && (r.inBlk.Some? ==> r.blk[r.tail].read % PACKET_BYTES == 0)
    && |received| == PACKET_BYTES * k + |Queue(r)| && received[PACKET_BYTES * k..] == Queue(r)
  }

  /** The payload of `k` whole packets of the stream and of `q` samples of the next. */
  function Delivered(received: seq<byte>, k: nat, q: nat): (d: seq<byte>)
    requires q < SAMPLES && PACKET_BYTES * k <= |received|
    requires 0 < q ==> PACKET_BYTES * (k + 1) <= |received|
    ensures |d| == CHUNK * k + 4 * q
  {
    var at := PACKET_BYTES * k + HEADER_BYTES;
    Payloads(received, k) + if q == 0 then [] else received[at..at + 4 * q]
  }

  /** The invariant between calls. */
  ghost predicate RxInv(r: Ring, received: seq<byte>, delivered: seq<byte>, k: nat, partial: nat) {
    && AtPacket(r, received, k) && partial < SAMPLES
    && (0 < partial ==> r.inBlk.Some? && PACKET_BYTES * (k + 1) <= |received|)
    && delivered == Delivered(received, k, partial)
  }

  lemma RxStarts(blkSize: nat, blkCount: nat)
    requires 0 < blkSize && blkSize % PACKET_BYTES == 0 && 0 < blkCount
    ensures RxInv(Init(blkSize, blkCount), [], [], 0, 0)
  {
  }

  lemma RxFacts(r: Ring, received: seq<byte>, delivered: seq<byte>, k: nat, partial: nat)
    requires RxInv(r, received, delivered, k, partial)
    ensures r.Valid() && AtPacket(r, received, k) && partial < SAMPLES
    ensures PACKET_BYTES * k <= |received| && |delivered| == CHUNK * k + 4 * partial
    ensures 0 < partial ==> r.inBlk.Some? && PACKET_BYTES * (k + 1) <= |received|
    ensures delivered == Delivered(received, k, partial)
  {
  }

  lemma FlushedRx(r: Ring)
    requires r.Valid() && r.blkSize % PACKET_BYTES == 0
    ensures RxInv(ResetAll(r), [], [], 0, 0)
  {
  }

  /** The pump may run at any time. */
  lemma FillingKeeps(r: Ring, s: Ring, received: seq<byte>, received': seq<byte>,
      delivered: seq<byte>, k: nat, partial: nat)
    requires RxInv(r, received, delivered, k, partial) && WriterMoved(r, s) && FullBlocks(s)
    requires received <= received' && received' == received[..PACKET_BYTES * k] + Queue(s)
    ensures RxInv(s, received', delivered, k, partial)
  {
    PayloadsOfPrefix(received, received', k);
    TailStays(r, s);
    var at := PACKET_BYTES * k + HEADER_BYTES;
    if 0 < partial {
      assert received[at..at + 4 * partial] == received'[at..at + 4 * partial];
    }
  }

  lemma TailStays(r: Ring, s: Ring)
    requires r.Valid() && WriterMoved(r, s)
    ensures s.tail == r.tail < |r.blk| == |s.blk| && s.inBlk == r.inBlk && s.blkSize == r.blkSize
    ensures 0 < r.count || r.inBlk.Some? ==> 0 < r.count <= s.count && s.blk[s.tail] == r.blk[r.tail]
  {
    if 0 < r.count { assert r.Committed(r.tail); }
  }

  /** A block checked out has a whole packet at its read offset, and it is packet `k`. */
  lemma PacketAtFront(r: Ring, received: seq<byte>, k: nat)
    requires AtPacket(r, received, k) && r.inBlk.Some?
    ensures var b := r.blk[r.tail];
      && (b.len - b.read) % PACKET_BYTES == 0 && b.read + PACKET_BYTES <= b.len == r.blkSize == |b.buf|
      && PACKET_BYTES * (k + 1) <= |received|
      && b.buf[b.read..b.read + PACKET_BYTES] == received[PACKET_BYTES * k..PACKET_BYTES * (k + 1)]
  {
    var b := r.blk[r.tail];
    assert r.Committed(r.tail);
    assert Queue(r)[..b.len - b.read] == Avail(b);
    WholePacketLeft(b.len, b.read);
    FrontSlice(received, PACKET_BYTES * k, PACKET_BYTES * (k + 1), b.buf, b.read, b.len);
  }

  /** The amount readable: it grows when the pump runs, stays when a block is checked out, holds
      a packet while one is being read, and is a packet less when one is released. */
  lemma ReadableGrows(r: Ring, s: Ring)
    requires r.Valid() && WriterMoved(r, s)
    ensures s.Valid() && |Readable(r)| <= |Readable(s)|
  {
  }

  lemma ReadableStays(r: Ring)
    requires r.Valid() && r.inBlk.None? && 0 < r.count
    ensures r.TakeIn().Valid() && |Readable(r.TakeIn())| == |Readable(r)|
  {
    TakeInValid(r);
  }

  lemma ReadablePacket(r: Ring, received: seq<byte>, k: nat)
    requires AtPacket(r, received, k) && r.inBlk.Some?
    ensures PACKET_BYTES <= |Readable(r)|
    ensures r.Finish(PACKET_BYTES).Valid() && |Readable(r.Finish(PACKET_BYTES))| == |Readable(r)| - PACKET_BYTES
  {
    PacketAtFront(r, received, k);
    TookByFinish(r, PACKET_BYTES);
  }

  lemma WholePacketLeft(len: nat, read: nat)
    requires len % PACKET_BYTES == 0 && read % PACKET_BYTES == 0 && read < len
    ensures (len - read) % PACKET_BYTES == 0 && read + PACKET_BYTES <= len
  {
  }

  lemma FrontSlice(w: seq<byte>, at: nat, end: nat, buf: seq<byte>, read: nat, len: nat)
    requires end == at + PACKET_BYTES && read + PACKET_BYTES <= len <= |buf|
    requires at + len - read <= |w| && w[at..][..len - read] == buf[read..len]
    ensures w[at..end] == buf[read..read + PACKET_BYTES]
  {
    assert w[at..end] == w[at..][..len - read][..PACKET_BYTES];
    assert buf[read..read + PACKET_BYTES] == buf[read..len][..PACKET_BYTES];
  }

  /** Samples `q` to `q + amt` of packet `k`, in its block and in the received stream. */
  lemma SamplesAtFront(r: Ring, received: seq<byte>, k: nat, q: nat, amt: nat, from: nat, at: nat)
    requires AtPacket(r, received, k) && r.inBlk.Some? && q + amt <= SAMPLES
    requires from == r.blk[r.tail].read + HEADER_BYTES + 4 * q && at == PACKET_BYTES * k + HEADER_BYTES + 4 * q
    ensures from + 4 * amt <= |r.blk[r.tail].buf| && at + 4 * amt <= |received|
    ensures r.blk[r.tail].buf[from..from + 4 * amt] == received[at..at + 4 * amt]
  {
    var b, i := r.blk[r.tail], HEADER_BYTES + 4 * q;
    hide AtPacket;
    PacketAtFront(r, received, k);
    SlicesAgree(b.buf, b.read, b.read + PACKET_BYTES, received, PACKET_BYTES * k, PACKET_BYTES * (k + 1),
      i, 4 * amt, from, at);
  }

  lemma SlicesAgree(s: seq<byte>, a: nat, a': nat, t: seq<byte>, b: nat, b': nat, i: nat, n: nat, from: nat, at: nat)
    requires a <= a' <= |s| && b <= b' <= |t| && s[a..a'] == t[b..b'] && i + n <= a' - a
    requires from == a + i && at == b + i
    ensures from + n <= |s| && at + n <= |t| && s[from..from + n] == t[at..at + n]
  {
    SliceOfSlice(s, a, a', i, i + n, from, from + n);
    SliceOfSlice(t, b, b', i, i + n, at, at + n);
  }

  lemma TakeInKeepsRx(r: Ring, received: seq<byte>, k: nat)
    requires AtPacket(r, received, k) && r.inBlk.None? && 0 < r.count
    ensures AtPacket(r.TakeIn(), received, k)
  {
    TakeInKeeps(r);
    assert r.Committed(r.tail);
  }

  /** Releasing a packet moves to the next. */
  lemma FinishKeepsRx(r: Ring, received: seq<byte>, k: nat)
    requires AtPacket(r, received, k) && r.inBlk.Some?
    ensures r.blk[r.tail].read + PACKET_BYTES <= r.blk[r.tail].len
    ensures AtPacket(r.Finish(PACKET_BYTES), received, k + 1)
  {
    PacketAtFront(r, received, k);
    var b, s := r.blk[r.tail], r.Finish(PACKET_BYTES);
    TookByFinish(r, PACKET_BYTES);
    TookFullBlocks(r, s, b.buf[b.read..b.read + PACKET_BYTES]);
    assert received[PACKET_BYTES * (k + 1)..] == Queue(r)[PACKET_BYTES..] == Queue(s);
  }

  /** Copying `amt` more samples of packet `k`. */
  lemma DeliverMore(received: seq<byte>, k: nat, q: nat, amt: nat, at: nat)
    requires PACKET_BYTES * (k + 1) <= |received| && q < SAMPLES && 0 < amt && q + amt <= SAMPLES
    requires at == PACKET_BYTES * k + HEADER_BYTES + 4 * q
    ensures
      Delivered(received, k, q) + received[at..at + 4 * amt]
        == if q + amt < SAMPLES then Delivered(received, k, q + amt) else Delivered(received, k + 1, 0)
  {
    hide Payloads, Delivered;
    var base, end := PACKET_BYTES * k + HEADER_BYTES, at + 4 * amt;
    DeliveredIs(received, k, q, base, at);
    JoinSlices(Payloads(received, k), received, base, at, end);
    if q + amt < SAMPLES {
      DeliveredIs(received, k, q + amt, base, end);
    } else {
      WholePayload(received, k, base, end);
      DeliveredWhole(received, k + 1);
    }
  }

  lemma DeliveredIs(received: seq<byte>, k: nat, q: nat, base: nat, at: nat)
    requires PACKET_BYTES * (k + 1) <= |received| && q < SAMPLES
    requires base == PACKET_BYTES * k + HEADER_BYTES && at == base + 4 * q
    ensures Delivered(received, k, q) == Payloads(received, k) + received[base..at]
  {
    hide Payloads;
  }

  lemma DeliveredWhole(received: seq<byte>, k: nat)
    requires PACKET_BYTES * k <= |received|
    ensures Delivered(received, k, 0) == Payloads(received, k)
  {
    hide Payloads;
  }

  /** The invariant when samples of the open packet are read, and when it is released. */
  lemma ReadKeeps(r: Ring, received: seq<byte>, delivered: seq<byte>, k: nat, q: nat, amt: nat, at: nat)
    requires RxInv(r, received, delivered, k, q) && r.inBlk.Some? && PACKET_BYTES * (k + 1) <= |received|
    requires 0 < amt && q + amt <= SAMPLES && at == PACKET_BYTES * k + HEADER_BYTES + 4 * q
    ensures at + 4 * amt <= |received|
    ensures q + amt < SAMPLES ==> RxInv(r, received, delivered + received[at..at + 4 * amt], k, q + amt)
    ensures q + amt == SAMPLES ==> delivered + received[at..at + 4 * amt] == Delivered(received, k + 1, 0)
  {
    hide AtPacket, Delivered;
    DeliverMore(received, k, q, amt, at);
  }

  lemma ReleasedKeeps(s: Ring, received: seq<byte>, delivered: seq<byte>, k: nat)
    requires AtPacket(s, received, k) && PACKET_BYTES * k <= |received| && delivered == Delivered(received, k, 0)
    ensures RxInv(s, received, delivered, k, 0)
  {
  }

  lemma AtPacketFits(r: Ring, received: seq<byte>, k: nat)
    requires AtPacket(r, received, k)
    ensures PACKET_BYTES * k <= |received|
  {
  }

  lemma JoinSlices(x: seq<byte>, w: seq<byte>, a: nat, b: nat, c: nat)
    requires a <= b <= c <= |w|
    ensures (x + w[a..b]) + w[b..c] == x + w[a..c]
  {
    assert w[a..b] + w[b..c] == w[a..c];
  }

  lemma WholePayload(received: seq<byte>, k: nat, from: nat, to: nat)
    requires PACKET_BYTES * (k + 1) <= |received|
    requires from == PACKET_BYTES * k + HEADER_BYTES && to == PACKET_BYTES * (k + 1) - 4
    ensures Payloads(received, k + 1) == Payloads(received, k) + received[from..to]
  {
    SliceOfSlice(received, PACKET_BYTES * k, PACKET_BYTES * (k + 1), HEADER_BYTES, PACKET_BYTES - 4, from, to);
  }

  lemma DeliveredIsPrefix(received: seq<byte>, k: nat, q: nat, m: nat)
    requires q < SAMPLES && PACKET_BYTES * m <= |received| && m == if 0 < q then k + 1 else k
    ensures Delivered(received, k, q) <= Payloads(received, m)
  {
    hide Payloads;
    if 0 < q {
      DeliverMore(received, k, q, SAMPLES - q, PACKET_BYTES * k + HEADER_BYTES + 4 * q);
      assert q + (SAMPLES - q) == SAMPLES;
    }
    assert Delivered(received, m, 0) == Payloads(received, m) + [] == Payloads(received, m);
  }

  /** Packet `i` of the received stream passes validation. */
  predicate GoodPacket(received: seq<byte>, i: nat)
    requires PACKET_BYTES * (i + 1) <= |received|
  {
    var f := received[PACKET_BYTES * i..PACKET_BYTES * (i + 1)];
    Acceptable(FrameHeader(f), FrameTrailer(f))
  }

  // ----- time tags -----

  datatype TimeTag = TimeTag(valid: bool, offset: nat, timeInt: word, timeFrac: nat)

  /** Packets opened by the time `p` samples are delivered. */
  function Opened(p: nat): nat {
    (p + SAMPLES - 1) / SAMPLES
  }

  /** The tag of packet `i`, seen by a caller who has `p` samples already. */
  function TagOf(received: seq<byte>, i: nat, p: nat): TimeTag
    requires PACKET_BYTES * (i + 1) <= |received| && p <= SAMPLES * i
  {
    var h := FrameHeader(received[PACKET_BYTES * i..PACKET_BYTES * (i + 1)]);
    TimeTag(true, SAMPLES * i - p, h.timeInt, h.TimeFraction())
  }

  /** The tags of the packets whose first sample is among the `n` samples from sample `p` on. */
  function Tags(received: seq<byte>, p: nat, n: nat): (ts: seq<TimeTag>)
    requires PACKET_BYTES * Opened(p + n) <= |received|
    ensures |ts| == Opened(p + n) - Opened(p)
  {
    seq(Opened(p + n) - Opened(p), j requires 0 <= j < Opened(p + n) - Opened(p) =>
      TagOf(received, Opened(p) + j, p))
  }

  /** The time of a tag is in bytes 16 to 28 of its packet: the seconds, then the fraction, its more
      significant word first. */
  lemma TagTime(received: seq<byte>, i: nat, p: nat)
    requires PACKET_BYTES * (i + 1) <= |received| && p <= SAMPLES * i
    ensures var t, at := TagOf(received, i, p), 0x2000 * i;
      && t.timeInt == ToWord(received[at + 16..at + 20])
      && t.timeFrac == ToWord(received[at + 20..at + 24]) * 0x1_0000_0000 + ToWord(received[at + 24..at + 28])
      && t.valid && p + t.offset == SAMPLES * i
  {
    hide ParseHeader, ToWord;
    var at := PACKET_BYTES * i;
    var b := received[at..at + HEADER_BYTES];
    SliceOfSlice(received, at, PACKET_BYTES * (i + 1), 0, HEADER_BYTES, at, at + HEADER_BYTES);
    TimeInBytes(b);
    SliceOfSlice(received, at, at + HEADER_BYTES, 16, 20, at + 16, at + 20);
    SliceOfSlice(received, at, at + HEADER_BYTES, 20, 24, at + 20, at + 24);
    SliceOfSlice(received, at, at + HEADER_BYTES, 24, 28, at + 24, at + 28);
  }

  lemma TagAt(received: seq<byte>, p: nat, n: nat, j: nat, i: nat)
    requires PACKET_BYTES * Opened(p + n) <= |received| && i == Opened(p) + j < Opened(p + n)
    ensures Tags(received, p, n)[j] == TagOf(received, i, p)
  {
  }

  /** `ts` are the tags of a call for `n` samples at position `p`. */
  ghost predicate Tagged(received: seq<byte>, p: nat, n: nat, ts: seq<TimeTag>) {
    PACKET_BYTES * Opened(p + n) <= |received| && ts == Tags(received, p, n)
  }

  /** Going on inside packet `k` opens no other. */
  lemma OpenedAt(p: nat, k: nat, q: nat)
    requires p == SAMPLES * k + q && q <= SAMPLES
    ensures Opened(p) == if q == 0 then k else k + 1
  {
  }

  /** The offsets tagged are exactly those of first samples of packets. */
  lemma TagOffsets(received: seq<byte>, p: nat, n: nat, o: nat)
    requires PACKET_BYTES * Opened(p + n) <= |received|
    ensures (exists j :: 0 <= j < |Tags(received, p, n)| && Tags(received, p, n)[j].offset == o)
      <==> o < n && (p + o) % SAMPLES == 0
  {
    hide Opened, TagOf;
    var ts := Tags(received, p, n);
    if o < n && (p + o) % SAMPLES == 0 {
      var j := TaggedPacket(p, n, o);
      TagOffsetAt(received, p, n, j);
      assert ts[j].offset == o;
    }
    forall j | 0 <= j < |ts| && ts[j].offset == o
      ensures o < n && (p + o) % SAMPLES == 0
    {
      TagOffsetAt(received, p, n, j);
      TaggedOffset(p, n, j, o);
    }
  }

  lemma TagOffsetAt(received: seq<byte>, p: nat, n: nat, j: nat)
    requires PACKET_BYTES * Opened(p + n) <= |received| && Opened(p) + j < Opened(p + n)
    ensures Tags(received, p, n)[j].offset == SAMPLES * (Opened(p) + j) - p
  {
    TagAt(received, p, n, j, Opened(p) + j);
  }

  lemma TaggedPacket(p: nat, n: nat, o: nat) returns (j: nat)
    requires o < n && (p + o) % SAMPLES == 0
    ensures Opened(p) + j < Opened(p + n) && SAMPLES * (Opened(p) + j) - p == o
  {
    j := (p + o) / SAMPLES - Opened(p);
  }

  lemma TaggedOffset(p: nat, n: nat, j: nat, o: int)
    requires Opened(p) + j < Opened(p + n) && o == SAMPLES * (Opened(p) + j) - p
    ensures o < n && (p + o) % SAMPLES == 0
  {
    assert p + o == SAMPLES * (Opened(p) + j);
  }

  /** Tags do not depend on what is received later. */
  lemma TagsOfPrefix(v: seq<byte>, w: seq<byte>, p: nat, n: nat)
    requires PACKET_BYTES * Opened(p + n) <= |v| && v <= w
    ensures Tags(v, p, n) == Tags(w, p, n)
  {
    forall j | 0 <= j < Opened(p + n) - Opened(p)
      ensures Tags(v, p, n)[j] == Tags(w, p, n)[j]
    {
      var i := Opened(p) + j;
      TagAt(v, p, n, j, i);
      TagAt(w, p, n, j, i);
      assert v[PACKET_BYTES * i..PACKET_BYTES * (i + 1)] == w[PACKET_BYTES * i..PACKET_BYTES * (i + 1)];
    }
  }

  lemma TagOfPrefix(v: seq<byte>, w: seq<byte>, i: nat, p: nat)
    requires PACKET_BYTES * (i + 1) <= |v| && v <= w && p <= SAMPLES * i
    ensures TagOf(v, i, p) == TagOf(w, i, p)
  {
    assert v[PACKET_BYTES * i..PACKET_BYTES * (i + 1)] == w[PACKET_BYTES * i..PACKET_BYTES * (i + 1)];
  }

  lemma TaggedOfPrefix(v: seq<byte>, w: seq<byte>, p: nat, n: nat, ts: seq<TimeTag>)
    requires Tagged(v, p, n, ts) && v <= w
    ensures Tagged(w, p, n, ts)
  {
    TagsOfPrefix(v, w, p, n);
  }

  lemma TaggedNothing(received: seq<byte>, p: nat)
    requires PACKET_BYTES * Opened(p) <= |received|
    ensures Tagged(received, p, 0, [])
  {
  }

  lemma TaggedMore(received: seq<byte>, p: nat, n: nat, k: nat, q: nat, amt: nat, m: nat, ts: seq<TimeTag>)
    requires p + n == SAMPLES * k + q && 0 < amt <= SAMPLES - q && m == n + amt
    requires PACKET_BYTES * (k + 1) <= |received| && Tagged(received, p, n, ts)
    ensures Tagged(received, p, m, ts + TagHere(received, k, q, n))
  {
    TagsStep(received, p, n, k, q, amt, m);
  }

  /** One turn: `amt` samples of packet `k`, from its sample `q` on, bring its tag if and only
      if they start with its first. `m` is the position after the turn. */
  lemma TagsStep(received: seq<byte>, p: nat, n: nat, k: nat, q: nat, amt: nat, m: nat)
    requires p + n == SAMPLES * k + q && 0 < amt <= SAMPLES - q && m == n + amt
    requires PACKET_BYTES * (k + 1) <= |received|
    ensures Opened(p + n) == (if q == 0 then k else k + 1) && Opened(p + m) == k + 1
    ensures Tags(received, p, m) == Tags(received, p, n) + TagHere(received, k, q, n)
  {
    OpenedAt(p + n, k, q);
    OpenedAt(p + m, k, q + amt);
    TagsKept(received, p, n, m);
    hide Opened, TagOf, Tags;
    var a, h, c := Tags(received, p, n), TagHere(received, k, q, n), Tags(received, p, m);
    if q == 0 {
      TagAt(received, p, m, |a|, k);
      TagShifted(received, k, p, n);
    }
    OneMore(c, a, h);
  }

  lemma TagsKept(received: seq<byte>, p: nat, n: nat, m: nat)
    requires PACKET_BYTES * Opened(p + m) <= |received| && n <= m
    ensures Opened(p + n) <= Opened(p + m) && Tags(received, p, n) <= Tags(received, p, m)
  {
    assert Opened(p + n) <= Opened(p + m);
    hide Opened, TagOf, Tags;
    var a, c := Tags(received, p, n), Tags(received, p, m);
    forall j | 0 <= j < |a|
      ensures c[j] == a[j]
    {
      var i := Opened(p) + j;
      TagAt(received, p, m, j, i);
      TagAt(received, p, n, j, i);
    }
  }

  lemma OneMore(c: seq<TimeTag>, a: seq<TimeTag>, h: seq<TimeTag>)
    requires a <= c && |h| <= 1 && |c| == |a| + |h| && (h != [] ==> c[|a|] == h[0])
    ensures c == a + h
  {
  }

  lemma TagShifted(received: seq<byte>, k: nat, p: nat, n: nat)
    requires PACKET_BYTES * (k + 1) <= |received| && p + n == SAMPLES * k
    ensures TagOf(received, k, p) == TagOf(received, k, SAMPLES * k).(offset := n)
  {
  }

  function TagHere(received: seq<byte>, k: nat, q: nat, offset: nat): seq<TimeTag>
    requires PACKET_BYTES * (k + 1) <= |received|
  {
    if q == 0 then [TagOf(received, k, SAMPLES * k).(offset := offset)] else []
  }

  function Shifted(ts: seq<TimeTag>, m: nat): (r: seq<TimeTag>)
    ensures |r| == |ts|
  {
    seq(|ts|, j requires 0 <= j < |ts| => ts[j].(offset := ts[j].offset + m))
  }

  /** Chunking independence: two calls, `m` samples up to `q` and then `n`, give the tags of
      one call for all `t`, the second call's shifted by the samples of the first. */
  lemma TagsSplit(received: seq<byte>, p: nat, m: nat, q: nat, n: nat, t: nat)
    requires q == p + m && t == m + n && PACKET_BYTES * Opened(p + t) <= |received|
    ensures Opened(q) <= Opened(q + n) == Opened(p + t)
    ensures Tags(received, p, t) == Tags(received, p, m) + Shifted(Tags(received, q, n), m)
  {
    assert Opened(q + n) == Opened(p + t);
    var a, b, whole := Tags(received, p, m), Tags(received, q, n), Tags(received, p, t);
    var c := a + Shifted(b, m);
    forall j | 0 <= j < |whole|
      ensures whole[j] == c[j]
    {
      var i := Opened(p) + j;
      TagAt(received, p, t, j, i);
      if j < |a| {
        TagAt(received, p, m, j, i);
      } else {
        TagAt(received, q, n, j - |a|, i);
      }
    }
  }

  /** The next packet's tag, shifted or added to tags that are. */
  lemma ShiftedMore(raw: seq<TimeTag>, received: seq<byte>, k: nat, q: nat, n: nat, s: nat, offset: nat)
    requires PACKET_BYTES * (k + 1) <= |received| && offset == n + s
    ensures Shifted(raw, s) + TagHere(received, k, q, offset) == Shifted(raw + TagHere(received, k, q, n), s)
  {
    hide TagOf;
  }

  lemma ShiftedNothing(raw: seq<TimeTag>)
    ensures Shifted(raw, 0) == raw
    ensures Shifted([], |raw|) == []
  {
  }

  // ----- which packets the samples and tags of a call are from -----

  /** Packet `i` has been received and passes validation. */
  predicate GoodAt(received: seq<byte>, i: nat) {
    PACKET_BYTES * (i + 1) <= |received| && GoodPacket(received, i)
  }

  /** Every sample of a call for `n` samples at position `p`, and every tag, is of a packet that
      passes validation. */
  ghost predicate AllGood(received: seq<byte>, p: nat, n: nat, ts: seq<TimeTag>) {
    && (forall s | p <= s < p + n :: GoodAt(received, s / SAMPLES))
    && (forall j | 0 <= j < |ts| :: GoodAt(received, (p + ts[j].offset) / SAMPLES))
  }

  /** Nothing is held back: that is so if and only if every packet the call reads is valid. */
  lemma AllGoodIff(received: seq<byte>, p: nat, n: nat)
    requires PACKET_BYTES * Opened(p + n) <= |received| && 0 < n
    ensures AllGood(received, p, n, Tags(received, p, n))
      <==> forall i | p / SAMPLES <= i < Opened(p + n) :: GoodAt(received, i)
  {
    hide GoodAt, TagOf;
    var ts := Tags(received, p, n);
    if AllGood(received, p, n, ts) {
      forall i | p / SAMPLES <= i < Opened(p + n)
        ensures GoodAt(received, i)
      {
        var s := SampleOf(p, n, i);
        assert GoodAt(received, s / SAMPLES);
      }
    }
    if forall i | p / SAMPLES <= i < Opened(p + n) :: GoodAt(received, i) {
      forall s | p <= s < p + n
        ensures GoodAt(received, s / SAMPLES)
      {
        PacketOfSample(p, n, s);
      }
      forall j | 0 <= j < |ts|
        ensures GoodAt(received, (p + ts[j].offset) / SAMPLES)
      {
        TagOffsetAt(received, p, n, j);
        TaggedOffset(p, n, j, ts[j].offset);
        PacketOfSample(p, n, p + ts[j].offset);
      }
    }
  }

  lemma SampleOf(p: nat, n: nat, i: nat) returns (s: nat)
    requires 0 < n && p / SAMPLES <= i < Opened(p + n)
    ensures p <= s < p + n && s / SAMPLES == i
  {
    s := if SAMPLES * i < p then p else SAMPLES * i;
  }

  lemma PacketOfSample(p: nat, n: nat, s: nat)
    requires p <= s < p + n
    ensures p / SAMPLES <= s / SAMPLES < Opened(p + n)
  {
  }

  /** For example a packet without its trailer: its payload is delivered, with a valid tag. */
  lemma BadPacketDelivered(h: Header, data: seq<byte>)
    requires |data| == CHUNK
    ensures var f := Frame(h, data, 0);
      && |f| == PACKET_BYTES && !GoodAt(f, 0) && Delivered(f, 1, 0) == data
      && Opened(SAMPLES) == 1 && Tags(f, 0, SAMPLES) == [TimeTag(true, 0, h.timeInt, h.TimeFraction())]
  {
    hide FrameHeader, FrameTrailer, Payload, Frame;
    var f := Frame(h, data, 0);
    FrameRoundTrip(h, data, 0);
    assert f[PACKET_BYTES * 0..PACKET_BYTES * (0 + 1)] == f;
    assert Payloads(f, 0) == [] && Payloads(f, 1) == Payload(f);
    TagAt(f, 0, SAMPLES, 0, 0);
  }
}

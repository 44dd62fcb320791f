/** The two ends joined by a connection that delivers what was sent, in order. */
module Pipeline {
  import opened Bytes
  import opened Rings
  import opened RingMoves
  import opened Fifos
  import opened SocketTx
  import opened SocketRx
  import opened V49
  import opened Framing
  import opened TxStream
  import opened RxStream
  import opened TcpTx
  import opened TcpRx
  import Resync

  // ----- end to end, on states -----

  /** Bytes that have come out of the connection, received or not. */
  ghost function Through(rx: TcpRxSignalClient): seq<byte>
    reads rx.buffer
  {
    rx.buffer.before + rx.buffer.received + rx.buffer.socket
  }

  /** The two ends share no memory, and what has come out of the connection, received or not,
      is a prefix of what has gone in. */
  ghost predicate Connected(tx: TcpTxSignalClient, rx: TcpRxSignalClient)
    reads tx.Repr(), rx.Repr()
  {
    && tx.Repr() !! rx.Repr()
    && tx.Valid() && rx.Valid()
    && Through(rx) <= tx.buffer.wire
  }

  /** No end has been flushed. */
  ghost predicate Unflushed(tx: TcpTxSignalClient, rx: TcpRxSignalClient)
    reads tx.buffer, rx, rx.buffer
  {
    tx.buffer.before == [] && rx.buffer.before == [] && !rx.stale
  }

  /** Each end was flushed at a packet boundary, if ever. */
  ghost predicate Aligned(tx: TcpTxSignalClient, rx: TcpRxSignalClient)
    reads tx.buffer, rx, rx.buffer
  {
    |tx.buffer.before| % PACKET_BYTES == 0 && |rx.buffer.before| % PACKET_BYTES == 0 && !rx.stale
  }

  /** All the payload that packets sent may carry: that of the whole packets that had gone out
      before the last Flush, and what was accepted since. */
  ghost function Promised(tx: TcpTxSignalClient): seq<byte>
    reads tx, tx.buffer
  {
    Payloads(tx.buffer.before, |tx.buffer.before| / PACKET_BYTES) + tx.accepted
  }

  /** On values: a receiver that dropped `j` packets gets the payload from there on. */
  lemma DeliveredIsPromised(before: seq<byte>, received: seq<byte>, wire: seq<byte>, promised: seq<byte>,
      j: nat, m: nat, n: nat)
    requires before + received <= wire && |before| == PACKET_BYTES * j && PACKET_BYTES * m <= |received|
    requires n == |wire| / PACKET_BYTES && Payloads(wire, n) <= promised
    ensures CHUNK * (j + m) <= |promised| && Payloads(received, m) == promised[CHUNK * j..CHUNK * (j + m)]
  {
    hide Payloads;
    Resync.PayloadsJoin(before, received, j, m);
    PayloadsOfPrefix(before + received, wire, j + m);
    PayloadsGrow(wire, j + m, n);
    assert Payloads(wire, n)[..CHUNK * (j + m)] == promised[..CHUNK * (j + m)];
    assert promised[..CHUNK * (j + m)][CHUNK * j..] == promised[CHUNK * j..CHUNK * (j + m)];
  }

  /** End to end: the samples delivered are those of the payload from the packet on at which the
      receiver was last flushed, in order, with no header or trailer byte among them and none
      lost or repeated; for two ends that were flushed, if ever, at packet boundaries. */
  lemma EndToEnd(tx: TcpTxSignalClient, rx: TcpRxSignalClient)
    requires Connected(tx, rx)
    requires |tx.buffer.before| % PACKET_BYTES == 0 && |rx.buffer.before| % PACKET_BYTES == 0
    ensures var j := |rx.buffer.before| / PACKET_BYTES;
      CHUNK * j <= |Promised(tx)| && rx.delivered <= Promised(tx)[CHUNK * j..]
    ensures Unflushed(tx, rx) ==> rx.delivered <= tx.accepted
  {
    hide TcpTxSignalClient.Valid, Payloads;
    tx.StaysFramed();
    rx.DeliversPayload();
    var j, m := |rx.buffer.before| / PACKET_BYTES, Opened(rx.Position());
    var n, promised := |tx.buffer.wire| / PACKET_BYTES, Promised(tx);
    DeliveredIsPromised(rx.buffer.before, rx.buffer.received, tx.buffer.wire, promised, j, m, n);
    assert promised[CHUNK * j..][..CHUNK * m] == promised[CHUNK * j..CHUNK * (j + m)];
    if Unflushed(tx, rx) { NothingBefore(tx.accepted); }
  }

  lemma NothingBefore(x: seq<byte>)
    ensures Payloads([], 0) + x == x && x[0..] == x
  {
  }

  /** And every packet received whole is valid, so that no packet is ever opened that is not. */
  lemma ReceivesGoodPackets(tx: TcpTxSignalClient, rx: TcpRxSignalClient, i: nat)
    requires Connected(tx, rx) && Unflushed(tx, rx) && PACKET_BYTES * (i + 1) <= |rx.buffer.received|
    ensures GoodAt(rx.buffer.received, i)
  {
    hide TcpTxSignalClient.Valid, TcpRxSignalClient.Valid, Wire, InBytes, Payload;
    tx.WireIsFramed();
    var w, r := Wire(tx.dn, tx.first, tx.accepted, tx.packets), rx.buffer.received;
    assert tx.buffer.Out() == tx.buffer.wire;
    assert r <= rx.buffer.before + r + rx.buffer.socket;
    PacketAccepted(tx.dn, tx.first, tx.accepted, tx.packets, i);
    SliceOfSum(r, w[|r|..], w, PACKET_BYTES * i, PACKET_BYTES * (i + 1));
  }

  /** Nothing is lost: whatever was accepted and not delivered is still in the sender's queue,
      on the connection or in the receiver's queue, in whole packets, or in the open frame. */
  lemma NothingLost(tx: TcpTxSignalClient, rx: TcpRxSignalClient)
    requires Connected(tx, rx) && Unflushed(tx, rx)
    ensures |rx.buffer.received| <= |tx.buffer.wire|
    ensures var onWay := |Queue(tx.buffer.fifo.Abs())| + (|tx.buffer.wire| - |rx.buffer.received|)
        + |Queue(rx.buffer.fifo.Abs())|;
      && onWay % PACKET_BYTES == 0
      && |tx.accepted| - |rx.delivered| == CHUNK * (onWay / PACKET_BYTES) + tx.plen - 4 * rx.partial
  {
    hide BlockFifo.Tied, Ring.Valid, FullBlocks, WholePackets, Queue, Wire, Open, Delivered;
    tx.WireIsFramed();
    tx.buffer.Conservation();
    RxFacts(rx.buffer.fifo.Abs(), rx.buffer.received, rx.delivered, rx.packets, rx.partial);
    var onWay := PACKET_BYTES * (tx.packets - rx.packets);
    assert onWay / PACKET_BYTES == tx.packets - rx.packets;
  }

  /** Once the connection and both rings are drained, all but the tail still in the blocks being
      filled is delivered: less than a block of payload at each end. */
  lemma AllButTheTail(tx: TcpTxSignalClient, rx: TcpRxSignalClient)
    requires Connected(tx, rx) && Unflushed(tx, rx) && tx.buffer.fifo.blkSize % PACKET_BYTES == 0
    requires tx.buffer.fifo.count == 0 && rx.buffer.fifo.count == 0 && rx.partial == 0
    requires rx.buffer.received == tx.buffer.wire
    ensures |tx.accepted| - |rx.delivered| < Tail(tx, rx)
  {
    NothingLost(tx, rx);
    tx.Lag();
    NoBlocksNoBytes(tx.buffer.fifo.Abs());
    NoBlocksNoBytes(rx.buffer.fifo.Abs());
  }

  /** A block of payload at each end. */
  ghost function Tail(tx: TcpTxSignalClient, rx: TcpRxSignalClient): nat {
    CHUNK * (tx.buffer.fifo.blkSize / PACKET_BYTES) + CHUNK * (rx.buffer.fifo.blkSize / PACKET_BYTES)
  }

  // ----- runs -----

  /** A step of the whole; without data, or for no samples, only the end's pump runs. A Flush is
      made if that end is at a packet boundary. */
  datatype Op = Send(data: seq<byte>) | Carry(n: nat) | Receive(count: nat) | FlushTx | FlushRx

  /** What a step returned. */
  datatype Rec =
    | Sent(n: nat)
    | Carried(n: nat)
    | Received(out: seq<byte>, tags: seq<TimeTag>)
    | TxFlushed(done: bool)
    | RxFlushed(done: bool)
  {
    predicate Flush() {
      (TxFlushed? || RxFlushed?) && done
    }
  }

  predicate Fits(op: Op, rec: Rec) {
    match op
    case Send(data) => rec.Sent? && rec.n <= |data|
    case Carry(n) => rec.Carried? && rec.n <= n
    case Receive(count) => rec.Received? && |rec.out| % 4 == 0 && |rec.out| <= 4 * count
    case FlushTx => rec.TxFlushed?
    case FlushRx => rec.RxFlushed?
  }

  ghost predicate AllFit(ops: seq<Op>, recs: seq<Rec>) {
    |ops| == |recs| && forall i | 0 <= i < |ops| :: Fits(ops[i], recs[i])
  }

  /** The bytes a step accepted. */
  function AcceptedBy(op: Op, rec: Rec): seq<byte>
    requires Fits(op, rec)
  {
    if op.Send? then op.data[..rec.n] else []
  }

  function OutputOf(rec: Rec): seq<byte> {
    if rec.Received? then rec.out else []
  }

  /** The bytes the calls of Send accepted since the last Flush of that end, in order. */
  ghost function Accepted(ops: seq<Op>, recs: seq<Rec>): seq<byte>
    requires AllFit(ops, recs)
  {
    if ops == [] then []
    else
      var n := |ops| - 1;
      if recs[n].TxFlushed? && recs[n].done then []
      else Accepted(ops[..n], recs[..n]) + AcceptedBy(ops[n], recs[n])
  }

  /** The bytes the calls of ReceiveSamples gave out since the last Flush of that end, in order. */
  ghost function Output(recs: seq<Rec>): seq<byte> {
    if recs == [] then []
    else
      var n := |recs| - 1;
      if recs[n].RxFlushed? && recs[n].done then [] else Output(recs[..n]) + OutputOf(recs[n])
  }

  /** The tags each call returned are those of the packets that begin among its samples. */
  ghost predicate TagsFit(received: seq<byte>, recs: seq<Rec>) {
    recs == [] ||
    (var n := |recs| - 1;
     recs[n] == RxFlushed(true) ||
     (&& TagsFit(received, recs[..n])
      && (recs[n].Received? ==>
            Tagged(received, |Output(recs[..n])| / 4, |recs[n].out| / 4, recs[n].tags))))
  }

  /** Send stopped short only when more than `cap` bytes had been accepted. */
  ghost predicate ShortSendsLate(cap: int, ops: seq<Op>, recs: seq<Rec>)
    requires AllFit(ops, recs)
  {
    ops == [] ||
    (var n := |ops| - 1;
     && ShortSendsLate(cap, ops[..n], recs[..n])
     && (ops[n].Send? && recs[n].n < |ops[n].data| ==> cap < |Accepted(ops, recs)|))
  }

  lemma {:induction false} TagsFitStill(v: seq<byte>, w: seq<byte>, recs: seq<Rec>)
    requires TagsFit(v, recs) && v <= w
    ensures TagsFit(w, recs)
  {
    hide Tagged;
    if recs != [] && recs[|recs| - 1] != RxFlushed(true) {
      var n := |recs| - 1;
      TagsFitStill(v, w, recs[..n]);
      if recs[n].Received? {
        TaggedOfPrefix(v, w, |Output(recs[..n])| / 4, |recs[n].out| / 4, recs[n].tags);
      }
    }
  }

  /** What can be accepted for certain: all blocks but two of payload. */
  ghost function Capacity(tx: TcpTxSignalClient): int {
    CHUNK * ((tx.buffer.fifo.blkCount - 2) * (tx.buffer.fifo.blkSize / PACKET_BYTES))
  }

  /** The records of a run that has accepted `accepted` and given out `delivered`. */
  ghost predicate Records(accepted: seq<byte>, delivered: seq<byte>, received: seq<byte>, cap: int, whole: bool,
      ops: seq<Op>, recs: seq<Rec>)
  {
    && AllFit(ops, recs)
    && accepted == Accepted(ops, recs)
    && delivered == Output(recs)
    && TagsFit(received, recs)
    && (whole ==> ShortSendsLate(cap, ops, recs))
  }

  /** How far a run has come: the records are what it did. */
  ghost predicate Recorded(tx: TcpTxSignalClient, rx: TcpRxSignalClient, ops: seq<Op>, recs: seq<Rec>)
    reads tx, rx, rx.buffer
  {
    Records(tx.accepted, rx.delivered, rx.buffer.received, Capacity(tx),
      tx.buffer.fifo.blkSize % PACKET_BYTES == 0, ops, recs)
  }

  /** What a run has come to, at both ends: `full` says that the sender's ring is full between two
      frames, `through` counts the bytes carried across, and `reach` the bytes of full blocks. */
  datatype Snap = Snap(
    accepted: seq<byte>, wire: seq<byte>, txBefore: seq<byte>, full: bool, through: nat,
    delivered: seq<byte>, received: seq<byte>, rxBefore: seq<byte>, reach: nat, partial: nat)

  ghost function SnapOf(tx: TcpTxSignalClient, rx: TcpRxSignalClient): Snap
    requires Connected(tx, rx)
    reads tx.Repr(), rx.Repr()
  {
    Snap(tx.accepted, tx.buffer.wire, tx.buffer.before, tx.plen == 0 && tx.Stuck(), |Through(rx)|,
      rx.delivered, rx.buffer.received, rx.buffer.before, rx.InReach(), rx.partial)
  }

  ghost predicate SameTx(a: Snap, b: Snap) {
    b.accepted == a.accepted && b.wire == a.wire && b.txBefore == a.txBefore && b.full == a.full
  }

  ghost predicate SameRx(a: Snap, b: Snap) {
    && b.through == a.through && b.delivered == a.delivered && b.received == a.received
    && b.rxBefore == a.rxBefore && b.reach == a.reach && b.partial == a.partial
  }

  /** `count` samples from position `p` on are more than full blocks of `reach` bytes hold. */
  ghost predicate Beyond(reach: nat, p: nat, count: nat) {
    SAMPLES * (reach / PACKET_BYTES) < p + count
  }

  /** What was delivered is the payload of every packet in full blocks of `reach` bytes. */
  ghost predicate AllGiven(reach: nat, received: seq<byte>, delivered: seq<byte>) {
    && PACKET_BYTES * (reach / PACKET_BYTES) <= |received|
    && delivered == Payloads(received, reach / PACKET_BYTES)
  }

  /** What one step does, and why it did no more. Send stops short only when the ring is full
      between two frames. Carry carries all that was asked for or all there was. Receive stops short
      exactly if more was asked for than is in reach after it, which is never less than before, and
      then all that is in reach has been given out. A Flush is made exactly at a packet boundary. */
  ghost predicate Moved(a: Snap, op: Op, rec: Rec, b: Snap) {
    && Fits(op, rec)
    && match op
       case Send(data) =>
         && SameRx(a, b) && b.accepted == a.accepted + data[..rec.n]
         && a.wire <= b.wire && b.txBefore == a.txBefore && (rec.n < |data| ==> b.full)
       case Carry(n) =>
         && b == a.(through := a.through + rec.n)
         && a.through <= |a.wire| && rec.n == Min(n, |a.wire| - a.through)
       case Receive(count) =>
         && SameTx(a, b) && b.through == a.through && b.rxBefore == a.rxBefore
         && a.received <= b.received && a.reach <= b.reach && b.delivered == a.delivered + rec.out
         && Tagged(b.received, |a.delivered| / 4, |rec.out| / 4, rec.tags)
         && (|rec.out| < 4 * count <==> Beyond(b.reach, |a.delivered| / 4, count))
         && (|rec.out| < 4 * count ==>
               b.partial == 0 && AllGiven(b.reach, b.received, b.delivered))
       case FlushTx =>
         && SameRx(a, b) && b.wire == a.wire && (rec.done <==> |a.wire| % PACKET_BYTES == 0)
         && (if rec.done then b.accepted == [] && b.txBefore == a.wire
             else b.accepted == a.accepted && b.txBefore == a.txBefore)
       case FlushRx =>
         && SameTx(a, b) && b.through == a.through && b.partial == a.partial
         && (rec.done <==> a.partial == 0 && |a.rxBefore + a.received| % PACKET_BYTES == 0)
         && (if rec.done then b.delivered == [] == b.received && b.rxBefore == a.rxBefore + a.received
             else SameRx(a, b))
  }

  /** The sending end acts: Send, or only its pump. */
  method TxStep(tx: TcpTxSignalClient, rx: TcpRxSignalClient, data: seq<byte>) returns (sent: nat)
    requires Connected(tx, rx)
    modifies tx.Repr()
    ensures Connected(tx, rx) && old(tx.buffer.wire) <= tx.buffer.wire && tx.buffer.before == old(tx.buffer.before)
    ensures sent <= |data| && tx.accepted == old(tx.accepted) + data[..sent]
    ensures sent < |data| ==> tx.plen == 0 && tx.Stuck()
    ensures Moved(old(SnapOf(tx, rx)), Send(data), Sent(sent), SnapOf(tx, rx))
  {
    hide TcpTxSignalClient.Valid, TcpRxSignalClient.Valid, TcpRxSignalClient.InReach;
    if data == [] {
      tx.Idle();
      sent := 0;
    } else {
      sent := tx.Send(data);
    }
  }

  /** ReceiveSamples into a buffer of the right size. */
  method ReceiveInto(rx: TcpRxSignalClient, count: nat) returns (out: seq<byte>, tags: seq<TimeTag>)
    requires rx.Valid() && !rx.stale
    modifies rx.Repr()
    ensures rx.Valid() && !rx.stale && rx.buffer.before == old(rx.buffer.before)
    ensures old(rx.buffer.received) <= rx.buffer.received
    ensures rx.buffer.received + rx.buffer.socket == old(rx.buffer.received + rx.buffer.socket)
    ensures |out| % 4 == 0 && |out| <= 4 * count && rx.delivered == old(rx.delivered) + out
    ensures Tagged(rx.buffer.received, |old(rx.delivered)| / 4, |out| / 4, tags)
    ensures |out| < 4 * count ==> rx.partial == 0 && rx.buffer.fifo.Abs().count == 0
    ensures rx.Valid() && old(rx.InReach()) <= rx.InReach()
    ensures |out| < 4 * count <==> Beyond(rx.InReach(), |old(rx.delivered)| / 4, count)
    ensures |out| < 4 * count ==> AllGiven(rx.InReach(), rx.buffer.received, rx.delivered)
  {
    hide TcpRxSignalClient.Valid, TcpRxSignalClient.InReach, Tagged, Splice, Shifted, Opened, Payloads;
    rx.PositionIs();
    var a := new byte[4 * count];
    ghost var was := a[..];
    var recv;
    ghost var junk, raw;
    recv, tags, junk, raw := rx.ReceiveSamples(a, count);
    out := a[..4 * recv];
    if recv < count { rx.AllInReach(); }
    WrittenAtStart(a[..], was, rx.delivered[|old(rx.delivered)|..], out, old(rx.delivered), rx.delivered);
  }

  lemma WrittenAtStart(a: seq<byte>, was: seq<byte>, data: seq<byte>, out: seq<byte>, x: seq<byte>, y: seq<byte>)
    requires x <= y && data == y[|x|..] && |data| <= |was| && a == Splice(was, 0, [] + data) && out == a[..|data|]
    ensures y == x + out
  {
  }

  /** The receiving end acts: ReceiveSamples, or only its pump. */
  method RxStep(tx: TcpTxSignalClient, rx: TcpRxSignalClient, count: nat) returns (out: seq<byte>, tags: seq<TimeTag>)
    requires Connected(tx, rx) && !rx.stale
    modifies rx.Repr()
    ensures Connected(tx, rx) && !rx.stale && rx.buffer.before == old(rx.buffer.before)
    ensures Through(rx) == old(Through(rx)) && old(rx.buffer.received) <= rx.buffer.received
    ensures tx.buffer.wire == old(tx.buffer.wire)
    ensures |out| % 4 == 0 && |out| <= 4 * count && rx.delivered == old(rx.delivered) + out
    ensures Tagged(rx.buffer.received, |old(rx.delivered)| / 4, |out| / 4, tags)
    ensures |out| < 4 * count ==> rx.partial == 0 && rx.buffer.fifo.Abs().count == 0
    ensures rx.Valid() && old(rx.InReach()) <= rx.InReach()
    ensures |out| < 4 * count <==> Beyond(rx.InReach(), |old(rx.delivered)| / 4, count)
    ensures |out| < 4 * count ==> AllGiven(rx.InReach(), rx.buffer.received, rx.delivered)
    ensures Moved(old(SnapOf(tx, rx)), Receive(count), Received(out, tags), SnapOf(tx, rx))
  {
    hide TcpTxSignalClient.Valid, TcpRxSignalClient.Valid, TcpRxSignalClient.InReach, Tagged, Payloads;
    if count == 0 {
      rx.PositionIs();
      rx.Idle();
      rx.PositionIs();
      rx.WithinReach();
      out, tags := [], [];
      TaggedNothing(rx.buffer.received, rx.Position());
    } else {
      out, tags := ReceiveInto(rx, count);
    }
    SameSum(old(rx.buffer.before), old(rx.buffer.received), old(rx.buffer.socket),
      rx.buffer.received, rx.buffer.socket);
  }

  lemma SameSum(a: seq<byte>, b: seq<byte>, c: seq<byte>, b': seq<byte>, c': seq<byte>)
    requires b + c == b' + c'
    ensures a + b + c == a + b' + c'
  {
    assert a + b + c == a + (b + c) && a + b' + c' == a + (b' + c');
  }

  /** The connection carries up to `n` bytes across; `carried` were carried before. */
  method CarryStep(tx: TcpTxSignalClient, rx: TcpRxSignalClient, carried: nat, n: nat) returns (m: nat)
    requires Connected(tx, rx) && carried == |Through(rx)|
    modifies rx.buffer`socket
    ensures Connected(tx, rx) && carried + m == |Through(rx)| && m == Min(n, |tx.buffer.wire| - carried)
    ensures Moved(old(SnapOf(tx, rx)), Carry(n), Carried(m), SnapOf(tx, rx))
  {
    hide TcpTxSignalClient.Valid, TcpRxSignalClient.Valid, TcpRxSignalClient.InReach;
    m := Min(n, |tx.buffer.wire| - carried);
    ghost var w, a, s := tx.buffer.wire, rx.buffer.before + rx.buffer.received, rx.buffer.socket;
    rx.Arrive(tx.buffer.wire[carried..carried + m]);
    assert a + (s + w[carried..carried + m]) == w[..carried + m];
  }

  /** The sending end is flushed, if whole packets have gone out. */
  method FlushTxStep(tx: TcpTxSignalClient, rx: TcpRxSignalClient) returns (done: bool)
    requires Connected(tx, rx)
    modifies tx.Repr()
    ensures Connected(tx, rx) && tx.buffer.wire == old(tx.buffer.wire)
    ensures done <==> |tx.buffer.wire| % PACKET_BYTES == 0
    ensures tx.accepted == if done then [] else old(tx.accepted)
    ensures tx.buffer.before == if done then tx.buffer.wire else old(tx.buffer.before)
    ensures Moved(old(SnapOf(tx, rx)), FlushTx, TxFlushed(done), SnapOf(tx, rx))
  {
    hide TcpTxSignalClient.Valid, TcpRxSignalClient.Valid, TcpRxSignalClient.InReach, Resync.Rejoins;
    done := |tx.buffer.wire| % PACKET_BYTES == 0;
    if done {
      tx.buffer.fifo.Owns();
      tx.Flush();
    }
  }

  /** The receiving end is flushed, if whole packets have been received and none is half read;
      `carried` were carried across. */
  method FlushRxStep(tx: TcpTxSignalClient, rx: TcpRxSignalClient, carried: nat) returns (done: bool)
    requires Connected(tx, rx) && !rx.stale && carried == |Through(rx)|
    modifies rx.Repr()
    ensures Connected(tx, rx) && !rx.stale && Through(rx) == old(Through(rx))
    ensures done <==> old(rx.partial) == 0 && |old(rx.buffer.before + rx.buffer.received)| % PACKET_BYTES == 0
    ensures rx.partial == old(rx.partial)
    ensures rx.delivered == if done then [] else old(rx.delivered)
    ensures rx.buffer.received == if done then [] else old(rx.buffer.received)
    ensures rx.buffer.before == if done then old(rx.buffer.before + rx.buffer.received) else old(rx.buffer.before)
    ensures Moved(old(SnapOf(tx, rx)), FlushRx, RxFlushed(done), SnapOf(tx, rx))
  {
    hide TcpTxSignalClient.Valid, TcpRxSignalClient.Valid, TcpRxSignalClient.InReach;
    done := rx.partial == 0 && (carried - |rx.buffer.socket|) % PACKET_BYTES == 0;
    if done {
      rx.buffer.fifo.Owns();
      rx.Flush();
      assert rx.buffer.before + [] == rx.buffer.before;
    }
  }

  /** A step of the run, recorded. */
  method Step(tx: TcpTxSignalClient, rx: TcpRxSignalClient, carried: nat, op: Op,
      ghost ops: seq<Op>, ghost recs: seq<Rec>) returns (rec: Rec)
    requires Connected(tx, rx) && Aligned(tx, rx) && carried == |Through(rx)|
    requires Recorded(tx, rx, ops, recs)
    modifies tx.Repr(), rx.Repr()
    ensures Connected(tx, rx) && Aligned(tx, rx) && (old(Unflushed(tx, rx)) && !rec.Flush() ==> Unflushed(tx, rx))
    ensures |Through(rx)| == carried + if rec.Carried? then rec.n else 0
    ensures Recorded(tx, rx, ops + [op], recs + [rec])
    ensures LastShort(tx, rx, op, rec) && Moved(old(SnapOf(tx, rx)), op, rec, SnapOf(tx, rx))
  {
    hide TcpTxSignalClient.Valid, TcpRxSignalClient.Valid, TcpRxSignalClient.InReach, SnapOf, Moved;
    hide Tagged, Records, Payloads;
    ghost var w, x, d := rx.buffer.received, tx.accepted, rx.delivered;
    match op {
      case Send(data) =>
        var sent := TxStep(tx, rx, data);
        rec := Sent(sent);
        if sent < |data| && tx.buffer.fifo.blkSize % PACKET_BYTES == 0 { tx.ShortSendIsLate(); }
      case Carry(n) =>
        var m := CarryStep(tx, rx, carried, n);
        rec := Carried(m);
      case Receive(count) =>
        var out, tags := RxStep(tx, rx, count);
        rec := Received(out, tags);
      case FlushTx =>
        var done := FlushTxStep(tx, rx);
        rec := TxFlushed(done);
      case FlushRx =>
        var done := FlushRxStep(tx, rx, carried);
        rec := RxFlushed(done);
    }
    RecordOne(ops, recs, op, rec, w, rx.buffer.received, Capacity(tx),
      tx.buffer.fifo.blkSize % PACKET_BYTES == 0, x, d, tx.accepted, rx.delivered);
  }

  /** What is known when a step came short: the sender's ring is full between two frames, all that
      was sent has come through, or the receiver's ring is empty between two packets; and when a
      Flush was not made: that end is not at a packet boundary. */
  ghost predicate LastShort(tx: TcpTxSignalClient, rx: TcpRxSignalClient, op: Op, rec: Rec)
    reads tx, tx.buffer, tx.buffer.fifo, rx, rx.buffer, rx.buffer.fifo
  {
    && Fits(op, rec)
    && (op.Send? && rec.n < |op.data| ==> tx.plen == 0 && tx.Stuck())
    && (op.Carry? && rec.n < op.n ==> |Through(rx)| == |tx.buffer.wire|)
    && (op.Receive? && |rec.out| < 4 * op.count ==> rx.partial == 0 && rx.buffer.fifo.Abs().count == 0)
    && (op.FlushTx? && !rec.done ==> |tx.buffer.wire| % PACKET_BYTES != 0)
    && (op.FlushRx? && !rec.done ==>
          rx.partial != 0 || |rx.buffer.before + rx.buffer.received| % PACKET_BYTES != 0)
  }

  lemma RecordOne(ops: seq<Op>, recs: seq<Rec>, op: Op, rec: Rec, v: seq<byte>, w: seq<byte>, cap: int, whole: bool,
      x: seq<byte>, d: seq<byte>, x': seq<byte>, d': seq<byte>)
    requires Records(x, d, v, cap, whole, ops, recs) && Fits(op, rec) && (v <= w || rec == RxFlushed(true))
    requires x' == if op.Send? then x + op.data[..rec.n] else if rec == TxFlushed(true) then [] else x
    requires d' == if rec.Received? then d + rec.out else if rec == RxFlushed(true) then [] else d
    requires rec.Received? ==> Tagged(w, |d| / 4, |rec.out| / 4, rec.tags)
    requires whole && op.Send? && rec.n < |op.data| ==> cap < |x'|
    ensures Records(x', d', w, cap, whole, ops + [op], recs + [rec])
  {
    hide AllFit, Accepted, Output, TagsFit, ShortSendsLate, Tagged;
    if v <= w { TagsFitStill(v, w, recs); }
    AcceptedSnoc(ops, recs, op, rec);
    OutputSnoc(recs, rec, w);
    if whole { ShortSendsSnoc(cap, ops, recs, op, rec); }
  }

  lemma AcceptedSnoc(ops: seq<Op>, recs: seq<Rec>, op: Op, rec: Rec)
    requires AllFit(ops, recs) && Fits(op, rec)
    ensures AllFit(ops + [op], recs + [rec])
    ensures Accepted(ops + [op], recs + [rec])
      == if op.Send? then Accepted(ops, recs) + op.data[..rec.n]
         else if rec == TxFlushed(true) then []
         else Accepted(ops, recs)
  {
    assert (ops + [op])[..|ops|] == ops && (recs + [rec])[..|recs|] == recs;
    assert Accepted(ops, recs) + [] == Accepted(ops, recs);
  }

  lemma OutputSnoc(recs: seq<Rec>, rec: Rec, received: seq<byte>)
    requires TagsFit(received, recs) || rec == RxFlushed(true)
    requires rec.Received? ==> Tagged(received, |Output(recs)| / 4, |rec.out| / 4, rec.tags)
    ensures Output(recs + [rec])
      == if rec.Received? then Output(recs) + rec.out
         else if rec == RxFlushed(true) then []
         else Output(recs)
    ensures TagsFit(received, recs + [rec])
  {
    hide Tagged;
    assert (recs + [rec])[..|recs|] == recs;
    assert Output(recs) + [] == Output(recs);
  }

  lemma ShortSendsSnoc(cap: int, ops: seq<Op>, recs: seq<Rec>, op: Op, rec: Rec)
    requires AllFit(ops, recs) && AllFit(ops + [op], recs + [rec]) && ShortSendsLate(cap, ops, recs)
    requires Fits(op, rec) && (op.Send? && rec.n < |op.data| ==> cap < |Accepted(ops + [op], recs + [rec])|)
    ensures ShortSendsLate(cap, ops + [op], recs + [rec])
  {
    hide Accepted;
    assert (ops + [op])[..|ops|] == ops && (recs + [rec])[..|recs|] == recs;
  }

  /** End to end over any run from two new ends: any calls of Send and ReceiveSamples, in any
      order, with both pumps running and the connection cutting the stream as it likes. What the
      calls gave out is the first of what the calls accepted, each with the tags of the packets
      that begin in it. After a Flush it is the payload from the packet on at which the receiver
      was flushed. */
  method Run(tx: TcpTxSignalClient, rx: TcpRxSignalClient, ops: seq<Op>)
    returns (recs: seq<Rec>, ghost trace: seq<Snap>)
    requires Connected(tx, rx) && Unflushed(tx, rx) && Through(rx) == []
    requires tx.accepted == [] && rx.delivered == []
    modifies tx.Repr(), rx.Repr()
    ensures Connected(tx, rx) && Aligned(tx, rx) && Recorded(tx, rx, ops, recs)
    ensures AllFit(ops, recs) && InOrder(tx, rx, ops, recs)
    ensures ops != [] ==> LastShort(tx, rx, ops[|ops| - 1], recs[|ops| - 1])
    ensures Traced(ops, recs, trace) && trace[0] == old(SnapOf(tx, rx)) && trace[|ops|] == SnapOf(tx, rx)
  {
    hide Connected, Recorded, LastShort, Moved, SnapOf, NoFlush, Traced, Through, Promised;
    recs, trace := [], [SnapOf(tx, rx)];
    var carried := 0;
    NothingRecorded(tx, rx);
    NothingTraced(trace[0]);
    for i := 0 to |ops|
      invariant Connected(tx, rx) && Aligned(tx, rx) && carried == |Through(rx)|
      invariant NoFlush(recs) ==> Unflushed(tx, rx)
      invariant |recs| == i && Recorded(tx, rx, ops[..i], recs)
      invariant 0 < i ==> LastShort(tx, rx, ops[i - 1], recs[i - 1])
      invariant |trace| == i + 1 && Traced(ops[..i], recs, trace)
      invariant trace[0] == old(SnapOf(tx, rx)) && trace[i] == SnapOf(tx, rx)
    {
      var rec := Step(tx, rx, carried, ops[i], ops[..i], recs);
      assert ops[..i + 1] == ops[..i] + [ops[i]];
      NoFlushMore(recs, rec);
      TracedMore(ops[..i], recs, trace, ops[i], rec, SnapOf(tx, rx));
      trace := trace + [SnapOf(tx, rx)];
      recs := recs + [rec];
      if rec.Carried? { carried := carried + rec.n; }
    }
    assert ops[..|ops|] == ops;
    EndToEnd(tx, rx);
    RecordsAre(tx, rx, ops, recs);
  }

  /** Every step of a run is explained, from what the run had come to before it to what it came to
      after it. */
  ghost predicate Traced(ops: seq<Op>, recs: seq<Rec>, trace: seq<Snap>) {
    && |recs| == |ops| && |trace| == |ops| + 1
    && forall i | 0 <= i < |ops| :: Moved(trace[i], ops[i], recs[i], trace[i + 1])
  }

  lemma NothingTraced(a: Snap)
    ensures Traced([], [], [a]) && NoFlush([])
  {
  }

  lemma TracedMore(ops: seq<Op>, recs: seq<Rec>, trace: seq<Snap>, op: Op, rec: Rec, b: Snap)
    requires Traced(ops, recs, trace) && Moved(trace[|ops|], op, rec, b)
    ensures Traced(ops + [op], recs + [rec], trace + [b])
  {
    hide Moved;
    var os, rs, t := ops + [op], recs + [rec], trace + [b];
    forall i | 0 <= i < |os|
      ensures Moved(t[i], os[i], rs[i], t[i + 1])
    {
      if i < |ops| { assert Moved(trace[i], ops[i], recs[i], trace[i + 1]); }
    }
  }

  ghost predicate NoFlush(recs: seq<Rec>) {
    forall i | 0 <= i < |recs| :: !recs[i].Flush()
  }

  lemma NoFlushMore(recs: seq<Rec>, rec: Rec)
    ensures NoFlush(recs + [rec]) ==> NoFlush(recs) && !rec.Flush()
  {
    if NoFlush(recs + [rec]) {
      assert forall i | 0 <= i < |recs| :: recs[i] == (recs + [rec])[i];
      assert (recs + [rec])[|recs|] == rec;
    }
  }

  /** What the calls gave out since the last Flush is in order. */
  ghost predicate InOrder(tx: TcpTxSignalClient, rx: TcpRxSignalClient, ops: seq<Op>, recs: seq<Rec>)
    requires AllFit(ops, recs)
    reads tx, tx.buffer, rx, rx.buffer
  {
    var at := CHUNK * (|rx.buffer.before| / PACKET_BYTES);
    && at <= |Promised(tx)| && Output(recs) <= Promised(tx)[at..]
    && (NoFlush(recs) ==> Unflushed(tx, rx) && Output(recs) <= Accepted(ops, recs))
  }

  lemma NothingRecorded(tx: TcpTxSignalClient, rx: TcpRxSignalClient)
    requires tx.accepted == [] && rx.delivered == []
    ensures Recorded(tx, rx, [], [])
  {
  }

  lemma RecordsAre(tx: TcpTxSignalClient, rx: TcpRxSignalClient, ops: seq<Op>, recs: seq<Rec>)
    requires Recorded(tx, rx, ops, recs)
    ensures AllFit(ops, recs) && tx.accepted == Accepted(ops, recs) && rx.delivered == Output(recs)
  {
  }

  /** Two ends on which nothing has happened. A ring of one block is full from the start. */
  ghost function NewEnds(full: bool): Snap {
    Snap([], [], [], full, 0, [], [], [], 0, 0)
  }

  /** Two new ends, as the source builds them or with any other sizes that packets fit, and
      any run. */
  method Session(dn: nat, txSize: nat, txCount: nat, rxSize: nat, rxCount: nat, ops: seq<Op>)
    returns (tx: TcpTxSignalClient, rx: TcpRxSignalClient, recs: seq<Rec>, ghost trace: seq<Snap>)
    requires dn < 0x100 && PACKET_BYTES <= txSize && 0 < txCount
    requires 0 < rxSize && rxSize % PACKET_BYTES == 0 && 0 < rxCount
    ensures Connected(tx, rx) && Aligned(tx, rx) && Recorded(tx, rx, ops, recs)
    ensures AllFit(ops, recs) && InOrder(tx, rx, ops, recs)
    ensures ops != [] ==> LastShort(tx, rx, ops[|ops| - 1], recs[|ops| - 1])
    ensures Traced(ops, recs, trace) && trace[0] == NewEnds(txCount == 1) && trace[|ops|] == SnapOf(tx, rx)
  {
    hide TcpTxSignalClient.Valid, TcpRxSignalClient.Valid, Recorded, LastShort;
    tx := new TcpTxSignalClient(dn, txSize, txCount);
    ghost var a := tx.Repr();
    rx := new TcpRxSignalClient(rxSize, rxCount);
    assert a !! rx.Repr();
    recs, trace := Run(tx, rx, ops);
  }

  // ----- everything gets through -----

  /** Answers to the sends of one turn after another: the connection is healthy, and each turn
      meets room for something, now or later. */
  ghost predicate Sendable(answers: nat -> seq<SendResult>) {
    forall i :: Healthy(answers(i)) && exists j :: 0 <= j < |answers(i)| && answers(i)[j].Room?
  }

  /** Answers to the recvs: each turn finds something ready first. What follows is arbitrary. */
  ghost predicate Receivable(answers: nat -> seq<RecvResult>) {
    forall i :: GetsSome(answers(i))
  }

  ghost predicate GetsSome(os: seq<RecvResult>) {
    os != [] && os[0].Ready? && 0 < os[0].n
  }

  /** The sending pump runs until no block is committed. */
  method DrainTx(tx: TcpTxSignalClient, rx: TcpRxSignalClient, answers: nat -> seq<SendResult>)
    requires Connected(tx, rx) && Sendable(answers)
    modifies tx.Repr()
    ensures Connected(tx, rx) && tx.accepted == old(tx.accepted) && tx.buffer.before == old(tx.buffer.before)
    ensures tx.buffer.done == old(tx.buffer.done) && (tx.buffer.done || tx.buffer.fifo.count == 0)
  {
    hide Connected;
    WireFits(tx, rx);
    var turn := 0;
    while tx.buffer.fifo.count != 0 && !tx.buffer.done
      invariant Connected(tx, rx) && tx.accepted == old(tx.accepted) && tx.buffer.before == old(tx.buffer.before)
      invariant tx.buffer.done == old(tx.buffer.done)
      decreases |tx.buffer.handed| + |tx.buffer.before| - |tx.buffer.wire|
    {
      PumpTxStep(tx, rx, answers(turn));
      turn := turn + 1;
      WireFits(tx, rx);
    }
  }

  /** One turn that meets room sends something. */
  method PumpTxStep(tx: TcpTxSignalClient, rx: TcpRxSignalClient, os: seq<SendResult>)
    requires Connected(tx, rx) && Healthy(os) && (exists j :: 0 <= j < |os| && os[j].Room?)
    requires tx.buffer.fifo.count != 0 && !tx.buffer.done
    modifies tx.Repr()
    ensures Connected(tx, rx) && tx.accepted == old(tx.accepted) && tx.buffer.before == old(tx.buffer.before)
    ensures !tx.buffer.done && tx.buffer.handed == old(tx.buffer.handed)
    ensures |old(tx.buffer.wire)| < |tx.buffer.wire|
  {
    hide TcpTxSignalClient.Valid, TcpRxSignalClient.Valid, Turn;
    tx.PumpTurn(os);
  }

  lemma WireFits(tx: TcpTxSignalClient, rx: TcpRxSignalClient)
    requires Connected(tx, rx)
    ensures |tx.buffer.wire| <= |tx.buffer.handed| + |tx.buffer.before|
  {
    hide TcpTxSignalClient.Valid;
    tx.WireIsFramed();
  }

  /** One call asks for more samples than can come. */
  method TakeAll(tx: TcpTxSignalClient, rx: TcpRxSignalClient) returns (out: seq<byte>)
    requires Connected(tx, rx) && !rx.stale
    modifies rx.Repr()
    ensures Connected(tx, rx) && !rx.stale && rx.buffer.before == old(rx.buffer.before)
    ensures Through(rx) == old(Through(rx)) && rx.delivered == old(rx.delivered) + out
    ensures rx.partial == 0 && rx.buffer.fifo.count == 0
    ensures old(rx.buffer.received) <= rx.buffer.received
    ensures |rx.buffer.socket| <= |old(rx.buffer.socket)|
  {
    hide Connected, Through, Tagged, Payloads, TcpRxSignalClient.InReach, SnapOf, Moved, Beyond, AllGiven;
    var tags;
    ThroughCounts(rx);
    var count := |tx.buffer.wire| + 1;
    ghost var was := rx.delivered;
    out, tags := RxStep(tx, rx, count);
    DeliveredFits(tx, rx, was, out, count);
    ThroughCounts(rx);
  }

  lemma ThroughCounts(rx: TcpRxSignalClient)
    ensures |Through(rx)| == |rx.buffer.before| + |rx.buffer.received| + |rx.buffer.socket|
  {
  }

  /** The receiving side takes all that is ready, until nothing is left to receive. */
  method DrainRx(tx: TcpTxSignalClient, rx: TcpRxSignalClient, answers: nat -> seq<RecvResult>)
    returns (out: seq<byte>)
    requires Connected(tx, rx) && !rx.stale && 2 <= rx.buffer.fifo.blkCount && Receivable(answers)
    modifies rx.Repr()
    ensures Connected(tx, rx) && !rx.stale && rx.buffer.before == old(rx.buffer.before)
    ensures Through(rx) == old(Through(rx)) && rx.delivered == old(rx.delivered) + out
    ensures rx.partial == 0 && rx.buffer.fifo.count == 0 && (rx.buffer.done || rx.buffer.socket == [])
  {
    hide Connected, Through;
    out := TakeAll(tx, rx);
    var turn := 0;
    while rx.buffer.socket != [] && !rx.buffer.done
      invariant Connected(tx, rx) && !rx.stale && rx.buffer.before == old(rx.buffer.before)
      invariant Through(rx) == old(Through(rx)) && rx.delivered == old(rx.delivered) + out
      invariant rx.partial == 0 && rx.buffer.fifo.count == 0
      decreases |rx.buffer.socket|
    {
      PumpStep(tx, rx, answers(turn));
      turn := turn + 1;
      var next := TakeAll(tx, rx);
      assert old(rx.delivered) + (out + next) == old(rx.delivered) + out + next;
      out := out + next;
    }
  }

  method PumpStep(tx: TcpTxSignalClient, rx: TcpRxSignalClient, os: seq<RecvResult>)
    requires Connected(tx, rx) && GetsSome(os) && rx.buffer.socket != [] && !rx.buffer.done
    requires rx.buffer.fifo.count == 0 && 2 <= rx.buffer.fifo.blkCount
    modifies rx.Repr()
    ensures Connected(tx, rx) && rx.delivered == old(rx.delivered) && rx.stale == old(rx.stale)
    ensures rx.buffer.before == old(rx.buffer.before) && Through(rx) == old(Through(rx))
    ensures |rx.buffer.socket| < |old(rx.buffer.socket)|
  {
    hide TcpTxSignalClient.Valid, TcpRxSignalClient.Valid;
    ghost var w, s := rx.buffer.received, rx.buffer.socket;
    PumpOnce(rx, os);
    SameSum(rx.buffer.before, w, s, rx.buffer.received, rx.buffer.socket);
  }

  /** One turn, when the ring has room, gets something. */
  method PumpOnce(rx: TcpRxSignalClient, os: seq<RecvResult>)
    requires rx.Valid() && GetsSome(os) && rx.buffer.socket != [] && !rx.buffer.done
    requires rx.buffer.fifo.count == 0 && 2 <= rx.buffer.fifo.blkCount
    modifies rx.Repr()
    ensures rx.Valid() && rx.delivered == old(rx.delivered) && rx.stale == old(rx.stale)
    ensures rx.buffer.before == old(rx.buffer.before) && old(rx.buffer.received) <= rx.buffer.received
    ensures rx.buffer.received + rx.buffer.socket == old(rx.buffer.received + rx.buffer.socket)
    ensures |rx.buffer.socket| < |old(rx.buffer.socket)|
  {
    hide RxInv, Receives, FullBlocks;
    RecvGetsSome(rx.buffer.fifo.Abs(), |rx.buffer.socket|, os);
    rx.PumpTurn(os);
  }

  lemma RecvGetsSome(r: Ring, arrived: nat, os: seq<RecvResult>)
    requires GetsSome(os) && r.Valid() && r.count == 0 && 2 <= |r.blk| && 0 < arrived
    ensures r.head < |r.blk| && Fill(r) <= r.blkSize
    ensures 0 < Receives(r.blkSize, LevelOf(r, arrived), os).got
  {
  }

  /** No more samples come out than bytes went in. */
  lemma DeliveredFits(tx: TcpTxSignalClient, rx: TcpRxSignalClient, was: seq<byte>, out: seq<byte>, count: nat)
    requires Connected(tx, rx) && rx.delivered == was + out && count == |tx.buffer.wire| + 1
    ensures |out| < 4 * count
  {
    hide TcpTxSignalClient.Valid;
    rx.DeliversPayload();
  }

  /** Everything gets through: whatever the answers, as long as each turn of a pump can move
      something, pumping what was accepted, carrying it across and receiving until nothing more
      comes leaves undelivered only the tail in the blocks being filled; unless a connection ends. */
  method Drain(tx: TcpTxSignalClient, rx: TcpRxSignalClient, carried: nat,
      sends: nat -> seq<SendResult>, recvs: nat -> seq<RecvResult>) returns (out: seq<byte>)
    requires Sendable(sends) && Receivable(recvs)
    requires Connected(tx, rx) && Unflushed(tx, rx) && carried == |Through(rx)|
    requires tx.buffer.fifo.blkSize % PACKET_BYTES == 0 && 2 <= rx.buffer.fifo.blkCount
    modifies tx.Repr(), rx.Repr()
    ensures Connected(tx, rx) && Unflushed(tx, rx)
    ensures tx.accepted == old(tx.accepted) && rx.delivered == old(rx.delivered) + out <= tx.accepted
    ensures tx.buffer.done || rx.buffer.done || |tx.accepted| - |rx.delivered| < Tail(tx, rx)
  {
    hide TcpTxSignalClient.Valid, TcpRxSignalClient.Valid;
    DrainTx(tx, rx, sends);
    var m := CarryStep(tx, rx, carried, |tx.buffer.wire|);
    out := DrainRx(tx, rx, recvs);
    EndToEnd(tx, rx);
    if !tx.buffer.done && !rx.buffer.done {
      assert Through(rx) == [] + rx.buffer.received + [] == rx.buffer.received;
      AllButTheTail(tx, rx);
    }
  }
}

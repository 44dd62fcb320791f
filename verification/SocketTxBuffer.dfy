/** lib/SocketTxBuffer: a FIFO filled by the application and drained into a socket by a pump
    thread. `wire` stands for the connection: every byte the socket has ever taken, the first
    `before` of them before the last Reset. `handed` is every byte completed into the FIFO since
    then. The two byte counters of the source count since then too. */
module SocketTx {
  import opened Bytes
  import opened Rings
  import opened RingMoves
  import opened Accounts
  import opened Fifos

  /** What the operating system answers to one send: it has room for `n` more bytes, it would
      block, or the connection failed. */
  datatype SendResult = Room(n: nat) | Again | Error

  /** The connection neither fails nor takes zero bytes. */
  ghost predicate Healthy(os: seq<SendResult>) {
    forall i | 0 <= i < |os| :: os[i].Again? || (os[i].Room? && 0 < os[i].n)
  }

  /** Unread bytes of the first committed block. */
  function Front(r: Ring): nat
    requires r.tail < |r.blk| && r.blk[r.tail].read <= r.blk[r.tail].len
  {
    if r.count == 0 then 0 else r.blk[r.tail].len - r.blk[r.tail].read
  }

  /** How many bytes a turn of the pump sends, and whether it ends the thread, when `front` bytes
      of a committed block are unread. Without a committed block it only goes on looking. */
  function Turn(committed: bool, front: nat, os: seq<SendResult>): (r: (nat, bool)) {
    if os == [] || !committed then (0, false)
    else
      match os[0]
      case Again => Turn(committed, front, os[1..])
      case Error => (0, true)
      case Room(n) => (Min(n, front), Min(n, front) == 0)
  }

  /** What is left of them when `n` bytes have been sent. */
  function Behind(fs: seq<nat>, n: nat): seq<nat> {
    if n == 0 || fs == [] then fs
    else if n < fs[0] then [fs[0] - n] + fs[1..]
    else fs[1..]
  }

  /** How many bytes several turns send, and whether one ends the thread: a turn sends from one
      block only, so what a turn leaves of it is for the next. */
  function PumpSends(fs: seq<nat>, turns: seq<seq<SendResult>>): (nat, bool)
    decreases |turns|
  {
    if turns == [] then (0, false)
    else
      var (n, stop) := Turn(fs != [], if fs == [] then 0 else fs[0], turns[0]);
      if stop then (n, true)
      else
        var (m, end) := PumpSends(Behind(fs, n), turns[1..]);
        (n + m, end)
  }

  function Sum(fs: seq<nat>): nat {
    if fs == [] then 0 else fs[0] + Sum(fs[1..])
  }

  /** When every turn meets room for any block, each sends one block, in order. */
  lemma {:induction false} TurnsSendBlocks(fs: seq<nat>, turns: seq<seq<SendResult>>)
    requires forall j | 0 <= j < |fs| :: 0 < fs[j]
    requires forall i, j | 0 <= i < |turns| && 0 <= j < |fs| ::
      turns[i] != [] && turns[i][0].Room? && fs[j] <= turns[i][0].n
    ensures PumpSends(fs, turns) == (Sum(fs[..Min(|turns|, |fs|)]), false)
    decreases |turns|
  {
    if turns != [] && fs != [] {
      assert Turn(true, fs[0], turns[0]) == (fs[0], false);
      TurnsSendBlocks(fs[1..], turns[1..]);
      var n := Min(|turns|, |fs|);
      assert fs[..n][1..] == fs[1..][..n - 1];
    } else if turns != [] {
      NothingToSend(turns);
    }
  }

  lemma {:induction false} NothingToSend(turns: seq<seq<SendResult>>)
    ensures PumpSends([], turns) == (0, false)
    decreases |turns|
  {
    if turns != [] { NothingToSend(turns[1..]); }
  }

  /** Releasing `n` bytes of the first block. */
  lemma FrontsFinish(r: Ring, n: nat)
    requires r.Valid() && r.inBlk.Some? && 0 < n <= r.blk[r.tail].len - r.blk[r.tail].read
    requires r.Finish(n).Valid()
    ensures Fronts(r.Finish(n)) == Behind(Fronts(r), n)
  {
    hide FrontsFrom;
    FrontsDrop(r.blk, r.Finish(n).blk, r.tail, r.count, n);
  }

  /** The first committed block, and the one checked out, do not change what is unread. */
  lemma FrontsFirst(r: Ring, s: Ring)
    requires r.Valid() && s.Valid() && s.(inBlk := r.inBlk) == r
    ensures Fronts(s) == Fronts(r)
    ensures r.count != 0 <==> Fronts(r) != []
    ensures r.count != 0 ==> Fronts(r)[0] == Front(r)
  {
  }

  /** Answers that say to try again change nothing; the first other one decides the turn. */
  lemma {:induction false} FirstAnswerDecides(front: nat, os: seq<SendResult>, k: nat)
    requires k <= |os| && (forall i | 0 <= i < k :: os[i].Again?) && (k < |os| ==> !os[k].Again?)
    ensures Turn(true, front, os) ==
      if k == |os| then (0, false)
      else if os[k].Error? then (0, true)
      else (Min(os[k].n, front), os[k].n == 0 || front == 0)
  {
    if 0 < k { FirstAnswerDecides(front, os[1..], k - 1); }
  }

  class SocketTxBuffer {
    const fifo: BlockFifo
    var transferred: nat
    var sent: nat
    var done: bool
    var wire: seq<byte>
    ghost var before: seq<byte>
    ghost var handed: seq<byte>

    ghost predicate Valid()
      reads this, fifo.Repr()
    {
      && this !in fifo.Repr() && fifo.Valid() && before <= wire
      && Balanced(handed, Out(), fifo.Abs()) && sent == Wrap64(|Out()|)
    }

    /** What the socket has taken since the last Reset. */
    ghost function Out(): seq<byte>
      requires before <= wire
      reads this`before, this`wire
    {
      wire[|before|..]
    }

    /** `transferred` agrees with what was handed over. */
    ghost predicate Accounted()
      reads this
    {
      transferred == Wrap64(|handed|)
    }

    constructor (blkSize: nat, blkCount: nat)
      requires 0 < blkSize && 0 < blkCount
      ensures Valid() && Accounted() && !done && fresh(fifo.Repr())
      ensures fifo.Abs() == Init(blkSize, blkCount) && handed == [] == wire == before
    {
      fifo := new BlockFifo(blkSize, blkCount);
      transferred, sent, done := 0, 0, false;
      handed, before, wire := [], [], [];
    }

    /** Quiescent: drops everything queued and restarts both counters. What the socket has
        taken it keeps. */
    method Reset()
      requires Valid()
      modifies this`transferred, this`sent, this`handed, this`before, fifo, fifo.blk
      ensures Valid() && Accounted() && handed == [] && before == wire
      ensures fifo.Abs() == ResetAll(old(fifo.Abs()))
    {
      hide BlockFifo.Tied, Ring.Valid, ResetAll, Queue;
      transferred, sent := 0, 0;
      ResetBalanced(fifo.Abs());
      fifo.Reset();
      handed, before := [], wire;
    }

    method SendStart(maxIn: nat) returns (p: array?<byte>, at: nat, max: nat)
      requires Valid()
      modifies fifo, fifo.blk
      ensures Valid()
      ensures var r := old(fifo.Abs());
        fifo.Abs() == if r.outBlk.Some? || r.Full() then r else r.TakeOut()
      ensures if fifo.Abs().outBlk.Some?
        then p == fifo.blk[fifo.head].buf && at == fifo.blk[fifo.head].len && max == fifo.blkSize - at
        else p == null && max == maxIn
    {
      hide BlockFifo.Tied, Ring.Valid, Queue, WriterMoved, FullCommits, Space, Balanced;
      ghost var r := fifo.Abs();
      WroteByWriteStart(r);
      p, at, max := fifo.WriteStart(maxIn);
      WroteNothingBalanced(handed, Out(), r, fifo.Abs());
    }

    /** The counter goes up even when no block is checked out and nothing was completed, so the
        account stays right if and only if one was, or nothing was claimed. */
    method SendComplete(amt: nat)
      requires Valid() && Accounted()
      requires fifo.outBlk != null ==> amt <= fifo.outBlk.size - fifo.outBlk.len
      modifies this`transferred, this`handed, fifo, fifo.blk
      ensures Valid()
      ensures var r := old(fifo.Abs());
        if r.outBlk.Some?
        then && fifo.Abs() == r.Commit(amt)
             && handed == old(handed) + r.blk[r.head].buf[r.blk[r.head].len..r.blk[r.head].len + amt]
        else fifo.Abs() == r && handed == old(handed)
      ensures Accounted() <==> old(fifo.outBlk) != null || Wrap64(amt) == 0
    {
      hide BlockFifo.Tied, Ring.Valid, ReaderMoved, WriterMoved, Readable, Queue;
      ghost var r := fifo.Abs();
      fifo.OutPointer();
      Wrap64Add(|handed|, amt, |handed| + amt);
      if fifo.outBlk != null {
        CommitKeeps(r, amt);
        ghost var data := r.blk[r.head].buf[r.blk[r.head].len..r.blk[r.head].len + amt];
        WroteBalanced(handed, Out(), r, r.Commit(amt), data);
        handed := handed + data;
      }
      fifo.WriteComplete(amt);
      transferred := Wrap64(transferred + amt);
    }

    /** Takes the bytes the socket accepted off the queue. The send and the ReadComplete after
        it are one step: nobody else sees the state between. */
    method Drain(rval: nat)
      requires Valid() && fifo.inBlk != null && 0 < rval && fifo.inBlk.read + rval <= fifo.inBlk.len
      modifies this`wire, this`sent, fifo, fifo.blk
      ensures Valid() && |wire| == |old(wire)| + rval && old(wire) <= wire
      ensures ReaderMoved(old(fifo.Abs()), fifo.Abs()) && Fronts(fifo.Abs()) == Behind(Fronts(old(fifo.Abs())), rval)
    {
      hide BlockFifo.Tied, Ring.Valid, WriterMoved, ReaderMoved, Queue, Readable, Balanced, Fronts;
      ghost var r := fifo.Abs();
      fifo.InPointer();
      TookByFinish(r, rval);
      FrontsFinish(r, rval);
      var data := fifo.inBlk.buf[fifo.inBlk.read..fifo.inBlk.read + rval];
      fifo.ReadComplete(rval);
      TookBalanced(handed, Out(), r, fifo.Abs(), data);
      Wrap64Add(|Out()|, rval, |Out() + data|);
      assert (wire + data)[|before|..] == Out() + data;
      wire := wire + data;
      sent := Wrap64(sent + rval);
    }

    /** ReadStart, as the pump uses it. */
    method Poll() returns (p: array?<byte>, max: nat)
      requires Valid()
      modifies fifo
      ensures Valid() && Took(old(fifo.Abs()), fifo.Abs(), [])
      ensures fifo.Abs().(inBlk := old(fifo.Abs()).inBlk) == old(fifo.Abs())
      ensures p != null <==> old(fifo.Abs()).count != 0
      ensures fifo.tail < |fifo.vals| && fifo.vals[fifo.tail].read <= fifo.vals[fifo.tail].len
      ensures p != null ==>
        && fifo.inBlk != null && p == fifo.inBlk.buf
        && fifo.inBlk.read + max == fifo.inBlk.len && max == Front(fifo.Abs())
    {
      hide Ring.Valid, Took, Balanced;
      ghost var r := fifo.Abs();
      fifo.InPointer();
      RingBounds(r);
      TookByReadStart(r);
      var at;
      p, at, max := fifo.ReadStart(0);
      TookNothingBalanced(handed, Out(), r, fifo.Abs());
      fifo.InPointer();
    }

    /** The pump's turn: the first iterations of its loop, one per answer in `os`, up to the
        first successful send. What the socket took goes from the queue to the wire, in order;
        a send of no bytes reads as end of file. */
    method WriteData(os: seq<SendResult>)
      requires Valid()
      modifies this`wire, this`sent, this`done, fifo, fifo.blk
      ensures Valid() && old(wire) <= wire && ReaderMoved(old(fifo.Abs()), fifo.Abs())
      ensures fifo.tail < |fifo.vals| && old(fifo.tail) < |old(fifo.vals)|
        && old(fifo.vals)[old(fifo.tail)].read <= old(fifo.vals)[old(fifo.tail)].len
      ensures var r := old(fifo.Abs());
        var (n, stop) := if old(done) then (0, false) else Turn(r.count != 0, Front(r), os);
        |wire| == |old(wire)| + n && done == (old(done) || stop)
        && Fronts(fifo.Abs()) == Behind(Fronts(r), n)
    {
      hide BlockFifo.Tied, Ring.Valid, ReaderMoved, NoneEmpty, Balanced, Queue, Readable, Fronts;
      var i := 0;
      ghost var r := fifo.Abs();
      fifo.InPointer();
      RingBounds(r);
      TookNothing(r);
      while i < |os| && !done
        invariant Valid() && i <= |os| && wire == old(wire) && Took(r, fifo.Abs(), [])
        invariant done == old(done) && fifo.Abs().(inBlk := r.inBlk) == r && Fronts(fifo.Abs()) == Fronts(r)
        invariant Turn(r.count != 0, Front(r), os) == Turn(r.count != 0, Front(r), os[i..])
      {
        ghost var s := fifo.Abs();
        var p, max := Poll();
        TookMore(r, s, fifo.Abs(), [], []);
        FrontsFirst(r, fifo.Abs());
        i := i + 1;
        if p == null { continue; }
        assert os[i - 1..][1..] == os[i..];
        match os[i - 1]
        case Again =>
        case Error =>
          done := true;
          break;
        case Room(n) =>
          var rval := Min(n, max);
          if rval == 0 {
            done := true;
            break;
          }
          s := fifo.Abs();
          Drain(rval);
          ReaderMovedTransitive(r, s, fifo.Abs());
          break;
      }
      fifo.InPointer();
    }

    /** On a healthy connection the thread ends only if somebody committed an empty block. */
    lemma HealthyTurn(os: seq<SendResult>)
      requires Valid() && Healthy(os) && NoneEmpty(fifo.Abs())
      ensures fifo.tail < |fifo.vals| && fifo.vals[fifo.tail].read <= fifo.vals[fifo.tail].len
      ensures !Turn(fifo.count != 0, Front(fifo.Abs()), os).1
    {
      if fifo.count != 0 { FrontNotEmpty(fifo.Abs()); }
      HealthyGoesOn(fifo.count != 0, Front(fifo.Abs()), os);
    }

    /** And then a turn that meets room sends something. */
    lemma HealthyTurnSends(os: seq<SendResult>)
      requires Valid() && Healthy(os) && NoneEmpty(fifo.Abs()) && exists i :: 0 <= i < |os| && os[i].Room?
      ensures fifo.tail < |fifo.vals| && fifo.vals[fifo.tail].read <= fifo.vals[fifo.tail].len
      ensures fifo.count != 0 ==> 0 < Turn(true, Front(fifo.Abs()), os).0
    {
      if fifo.count != 0 {
        FrontNotEmpty(fifo.Abs());
        RoomSends(Front(fifo.Abs()), os);
      }
    }

    /** The pump thread: any number of turns until `done`. */
    method Pump(turns: seq<seq<SendResult>>)
      requires Valid()
      modifies this`wire, this`sent, this`done, fifo, fifo.blk
      ensures Valid() && old(wire) <= wire && ReaderMoved(old(fifo.Abs()), fifo.Abs())
      ensures var (n, stop) := if old(done) then (0, false) else PumpSends(Fronts(old(fifo.Abs())), turns);
        |wire| == |old(wire)| + n && done == (old(done) || stop)
    {
      hide SocketTxBuffer.Valid, ReaderMoved, Fronts, Turn;
      RingIsValid();
      ghost var r, k := fifo.Abs(), |wire|;
      ReaderMovedNothing(r);
      if done { return; }
      ghost var whole, rest := PumpSends(Fronts(r), turns), PumpSends(Fronts(r), turns);
      var i := 0;
      assert turns[0..] == turns;
      while i < |turns| && !done
        invariant Valid() && i <= |turns| && old(wire) <= wire && ReaderMoved(r, fifo.Abs())
        invariant fifo.Abs().Valid() && whole == (|wire| - k + rest.0, rest.1)
        invariant rest == if done then (0, true) else PumpSends(Fronts(fifo.Abs()), turns[i..])
      {
        ghost var s := fifo.Abs();
        RingIsValid();
        FrontsFirst(s, s);
        WriteData(turns[i]);
        ReaderMovedTransitive(r, s, fifo.Abs());
        RingIsValid();
        ghost var (n, stop) := Turn(s.count != 0, Front(s), turns[i]);
        rest := if stop then (0, true) else PumpSends(Fronts(fifo.Abs()), turns[i + 1..]);
        i := i + 1;
        assert turns[i - 1..][1..] == turns[i..];
      }
    }

    lemma RingIsValid()
      requires Valid()
      ensures fifo.Abs().Valid() && fifo.tail < |fifo.vals| && fifo.vals[fifo.tail].read <= fifo.vals[fifo.tail].len
    {
    }

    /** Whatever the pump thread does while the application thread is not in a lock section. */
    method Interfere()
      requires Valid()
      modifies this`wire, this`sent, this`done, fifo, fifo.blk
      ensures Valid() && old(wire) <= wire && ReaderMoved(old(fifo.Abs()), fifo.Abs())
    {
      var turns: seq<seq<SendResult>> := *;
      Pump(turns);
    }

    /** One write of Send, after the pump has run for a while. */
    method SendSome(data: seq<byte>) returns (rval: nat)
      requires Valid() && 0 < |data|
      modifies this`wire, this`sent, this`done, this`handed, fifo, fifo.blk, fifo.Bufs()
      ensures Valid() && old(wire) <= wire && rval <= |data| && handed == old(handed) + data[..rval]
      ensures rval == 0 ==> fifo.Valid() && !fifo.WaitNotFull()
    {
      hide SocketTxBuffer.Valid, ReaderMoved;
      Interfere();
      rval := Enqueue(data);
    }

    /** BlockFifo::Write, into the buffer's own FIFO. */
    method Enqueue(data: seq<byte>) returns (rval: nat)
      requires Valid() && 0 < |data|
      modifies this`handed, fifo, fifo.blk, fifo.Bufs()
      ensures Valid() && rval <= |data| && handed == old(handed) + data[..rval]
      ensures rval == 0 ==> fifo.Valid() && !fifo.WaitNotFull()
    {
      hide BlockFifo.Valid, SocketTxBuffer.Out, Ring.Full, Wrote, Balanced, Space, Wrap64;
      ghost var r := fifo.Abs();
      rval := fifo.Write(data);
      WrittenBalanced(handed, Out(), r, fifo.Abs(), data[..rval]);
      handed := handed + data[..rval];
      if rval == 0 { WroteUntilFull(r, fifo.Abs(), data[..rval]); }
    }

    /** Bytes queued by copying, with the pump running between the writes. It stops early only
        when the connection is done or the ring is full. */
    method Send(data: seq<byte>) returns (queued: nat)
      requires Valid() && Accounted()
      modifies this`wire, this`sent, this`done, this`handed, this`transferred, fifo, fifo.blk, fifo.Bufs()
      ensures Valid() && Accounted() && old(wire) <= wire
      ensures queued <= |data| && handed == old(handed) + data[..queued]
      ensures queued < |data| ==> done || !fifo.WaitNotFull()
    {
      hide BlockFifo.Valid, Balanced;
      queued := 0;
      ghost var h, w := handed, wire;
      while !done && queued < |data|
        invariant Valid() && w <= wire && transferred == Wrap64(|h|)
        invariant queued <= |data| && handed == h + data[..queued]
        decreases |data| - queued
      {
        ghost var n := queued;
        var rval := SendSome(data[queued..]);
        queued := queued + rval;
        TakeMore(data, n, rval, queued);
        if rval == 0 { break; }
      }
      Wrap64Add(|h|, queued, |handed|);
      transferred := Wrap64(transferred + queued);
    }

    /** The account: what was handed over but not sent is what is queued, unread in committed
        blocks or pending in the block being filled. */
    lemma Conservation()
      requires Valid() && Accounted()
      ensures (transferred - sent) % 0x1_0000_0000_0000_0000 ==
        Wrap64(|Readable(fifo.Abs())| + if fifo.outBlk == null then 0 else fifo.outBlk.len)
      ensures |handed| == |Out()| + |Queue(fifo.Abs())| && Out() <= handed
    {
      ModDifference(|handed|, |Out()|);
    }
  }

  lemma ModDifference(a: nat, b: nat)
    ensures (Wrap64(a) - Wrap64(b)) % 0x1_0000_0000_0000_0000 == (a - b) % 0x1_0000_0000_0000_0000
  {
  }

  lemma RingBounds(r: Ring)
    requires r.Valid()
    ensures r.tail < |r.blk| && r.blk[r.tail].read <= r.blk[r.tail].len
  {
  }

  lemma FrontNotEmpty(r: Ring)
    requires r.Valid() && NoneEmpty(r) && r.count != 0
    ensures 0 < Front(r)
  {
    assert r.Committed(r.tail);
  }

  lemma {:induction false} HealthyGoesOn(committed: bool, front: nat, os: seq<SendResult>)
    requires Healthy(os) && (committed ==> 0 < front)
    ensures !Turn(committed, front, os).1
  {
    if os != [] && committed && os[0].Again? {
      HealthyGoesOn(committed, front, os[1..]);
    }
  }

  lemma {:induction false} RoomSends(front: nat, os: seq<SendResult>)
    requires Healthy(os) && 0 < front && exists i :: 0 <= i < |os| && os[i].Room?
    ensures 0 < Turn(true, front, os).0
  {
    if os[0].Again? {
      var i :| 0 <= i < |os| && os[i].Room?;
      assert os[1..][i - 1].Room?;
      RoomSends(front, os[1..]);
    }
  }

  // ----- inputs on which two promises fail -----

  /** Completing a byte with no block checked out spoils the account. */
  method CompletesWithoutBlock() returns (b: SocketTxBuffer)
    ensures b.Valid() && !b.Accounted()
  {
    b := new SocketTxBuffer(32 * 1024, 64);
    b.fifo.Owns();
    b.SendComplete(1);
  }

  /** Completing nothing commits an empty block, and the pump takes its own send of no bytes for
      the end of the connection, healthy as it is. */
  method EmptyBlockEndsThread() returns (b: SocketTxBuffer, os: seq<SendResult>)
    ensures b.Valid() && b.done && Healthy(os)
  {
    hide BlockFifo.Tied, Ring.Valid, Ring.TakeOut, Ring.Commit, Ring.Full, Balanced, Init, Front, Turn, ReaderMoved;
    b := new SocketTxBuffer(32 * 1024, 64);
    b.fifo.Owns();
    EmptyBlockCommitted(32 * 1024, 64);
    var p, at, max := b.SendStart(0);
    b.fifo.OutPointer();
    b.SendComplete(0);
    os := [Room(1)];
    b.WriteData(os);
  }

  lemma EmptyBlockCommitted(size: nat, n: nat)
    requires 0 < size && 2 <= n
    ensures var r := Init(size, n);
      && r.outBlk.None? && r.head < |r.blk| && !r.Full()
      && var s := r.TakeOut();
      && s.outBlk == Some(0) && s.head < |s.blk| && s.blkSize == size && s.blk[0].len == 0
      && var t := s.Commit(0);
      && t.count == 1 && t.tail < |t.blk| && t.blk[t.tail].read <= t.blk[t.tail].len
      && Turn(t.count != 0, Front(t), [Room(1)]) == (0, true)
  {
  }
}

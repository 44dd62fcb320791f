/** lib/SocketRxBuffer: a FIFO filled from a socket by a pump thread and read by the
    application. `socket` holds the bytes sent to this end and not yet received, however many
    of them have arrived; `before` is every byte received before the last Reset, `received` every
    byte received since, and `taken` every byte released by the application since. */
module SocketRx {
  import opened Bytes
  import opened Rings
  import opened RingMoves
  import opened Accounts
  import opened Fifos

  /** What the operating system answers to one recv: `n` bytes have arrived, it would block,
      the connection failed, or the peer closed it. */
  datatype RecvResult = Ready(n: nat) | Again | Error | Eof

  /** Every committed block is full. */
  ghost predicate FullBlocks(r: Ring)
    requires r.Valid()
  {
    forall i | 0 <= i < |r.blk| && r.Committed(i) :: r.blk[i].len == r.blkSize
  }

  lemma WroteFullBlocks(r: Ring, s: Ring, data: seq<byte>)
    requires Wrote(r, s, data) && FullBlocks(r)
    ensures FullBlocks(s)
  {
  }

  lemma TookFullBlocks(r: Ring, s: Ring, data: seq<byte>)
    requires Took(r, s, data) && FullBlocks(r)
    ensures FullBlocks(s)
  {
  }

  /** `s` is `r` with `k` more bytes in its blocks, at most to the end of the first. */
  ghost predicate Filled(r: Ring, s: Ring, k: int) {
    && r.head < |r.blk| && s.head < |s.blk| && s.blkSize == r.blkSize
    && if Fill(r) + k == r.blkSize && 0 < k then Free(s) == Free(r) - 1 && Fill(s) == 0
       else Free(s) == Free(r) && Fill(s) == Fill(r) + k
  }

  lemma FilledNothing(r: Ring, s: Ring)
    requires Filled(r, s, 0)
    ensures r.head < |r.blk| && s.head < |s.blk| && Fill(s) == Fill(r) && Free(s) == Free(r) && s.blkSize == r.blkSize
  {
  }

  lemma SameFill(r: Ring)
    requires r.Valid()
    ensures Filled(r, r, 0)
  {
  }

  lemma FilledMore(r: Ring, s: Ring, t: Ring, a: int, b: int)
    requires Filled(r, s, a) && Filled(s, t, b) && a == 0
    ensures Filled(r, t, b)
  {
  }

  lemma PushFills(r: Ring, at: nat, data: seq<byte>)
    requires r.Valid() && r.outBlk.Some? && at == r.blk[r.head].len && 0 < |data| <= r.blkSize - at
    ensures Filled(r, r.Poke(r.head, at, data).Commit(|data|), |data|)
  {
  }

  lemma StartFills(r: Ring)
    requires r.Valid()
    ensures Filled(r, if r.outBlk.Some? || r.Full() then r else r.TakeOut(), 0)
    ensures Free(r) <= 0 <==> r.Full()
    ensures r.outBlk.Some? ==> !r.Full()
  {
    CountIsDistance(r);
  }

  lemma ResetFullBlocks(r: Ring)
    requires r.Valid()
    ensures ResetAll(r).Valid() && FullBlocks(ResetAll(r))
  {
  }

  /** Blocks that can still be filled, the one being filled included. */
  function Free(r: Ring): int {
    |r.blk| - 1 - r.count
  }

  /** Bytes already in the block being filled. */
  function Fill(r: Ring): nat
    requires r.head < |r.blk|
  {
    if r.outBlk.Some? then r.blk[r.head].len else 0
  }

  /** What decides what the pump receives: blocks that can still be filled, bytes in the first of
      them, and bytes sent to this end and not yet received. */
  datatype Level = Level(free: int, fill: nat, arrived: nat)

  /** What it did: bytes received, the level after, and whether it ended the thread. */
  datatype Turned = Turned(got: nat, level: Level, stop: bool)

  function LevelOf(r: Ring, arrived: nat): Level
    requires r.head < |r.blk|
  {
    Level(Free(r), Fill(r), arrived)
  }

  /** One iteration of the pump's loop, with blocks of `size` bytes: what has arrived and fits into
      the block. A failure or the end of file ends the thread, but only if there is a block to
      receive into. */
  function OneRecv(size: nat, v: Level, o: RecvResult): (t: Turned)
    requires v.fill <= size
    ensures t.level.fill <= size && t.got <= v.arrived && t.level.arrived == v.arrived - t.got
    ensures t.stop ==> t.got == 0
  {
    if v.free <= 0 then Turned(0, v, false)
    else
      match o
      case Again => Turned(0, v, false)
      case Error => Turned(0, v, true)
      case Eof => Turned(0, v, true)
      case Ready(n) =>
        var k := Min(Min(n, size - v.fill), v.arrived);
        var next := if 0 < k && v.fill + k == size then Level(v.free - 1, 0, v.arrived - k)
                    else Level(v.free, v.fill + k, v.arrived - k);
        Turned(k, next, false)
  }

  /** What one iteration does when `k` bytes go into the ring. */
  lemma OneRecvIs(r: Ring, s: Ring, arrived: nat, k: nat, o: RecvResult)
    requires Filled(r, s, k) && Fill(r) <= r.blkSize && k <= arrived
    requires k == if 0 < Free(r) && o.Ready? then Min(Min(o.n, r.blkSize - Fill(r)), arrived) else 0
    ensures r.head < |r.blk| && s.head < |s.blk|
    ensures OneRecv(r.blkSize, LevelOf(r, arrived), o)
      == Turned(k, LevelOf(s, arrived - k), 0 < Free(r) && (o.Error? || o.Eof?))
  {
  }

  /** A turn: the loop ends with the first iteration that gets nothing. */
  function Receives(size: nat, v: Level, os: seq<RecvResult>): (t: Turned)
    requires v.fill <= size
    ensures t.level.fill <= size && t.got <= v.arrived && t.level.arrived == v.arrived - t.got
    decreases |os|
  {
    if os == [] then Turned(0, v, false)
    else
      var a := OneRecv(size, v, os[0]);
      if a.got == 0 then a
      else
        var t := Receives(size, a.level, os[1..]);
        t.(got := a.got + t.got)
  }

  /** Several turns, with nothing more sent to this end in between. */
  function PumpReceives(size: nat, v: Level, turns: seq<seq<RecvResult>>): (t: Turned)
    requires v.fill <= size
    ensures t.level.fill <= size && t.got <= v.arrived && t.level.arrived == v.arrived - t.got
    decreases |turns|
  {
    if turns == [] then Turned(0, v, false)
    else
      var a := Receives(size, v, turns[0]);
      if a.stop then a
      else
        var t := PumpReceives(size, a.level, turns[1..]);
        t.(got := a.got + t.got)
  }

  /** One recv of `n` bytes into a new ring. */
  lemma FirstRecv(size: nat, blkCount: nat, arrived: nat, n: nat)
    requires 2 <= blkCount && n <= size && n <= arrived
    ensures var r := Init(size, blkCount);
      && r.head < |r.blk| && Fill(r) == 0 && r.blkSize == size
      && var t := Receives(size, LevelOf(r, arrived), [Ready(n)]);
      && t.got == n && (0 < n == size ==> t.level.free == blkCount - 2)
  {
    assert [Ready(n)][1..] == [];
  }

  /** When every answer has enough bytes ready, and there are answers enough, the loop goes on
      until all that has arrived is received or the ring is full. */
  lemma {:induction false} ReceivesAllThatFits(size: nat, v: Level, os: seq<RecvResult>)
    requires v.fill < size && v.free <= |os|
    requires forall i | 0 <= i < |os| :: os[i].Ready? && size <= os[i].n
    ensures Receives(size, v, os).got == if v.free <= 0 then 0 else Min(v.arrived, v.free * size - v.fill)
    decreases |os|
  {
    if 0 < v.free {
      OneLess(v.free, v.free - 1, size);
      NotNegative(v.free - 1, size);
      var a := OneRecv(size, v, os[0]);
      if 0 < a.got && v.fill + a.got == size {
        ReceivesAllThatFits(size, a.level, os[1..]);
      }
    }
  }

  /** Nothing after an answer that is not ready matters: the turn ends there at the latest. */
  lemma {:induction false} TurnEndsAt(size: nat, v: Level, os: seq<RecvResult>, k: nat)
    requires v.fill <= size && k < |os| && !os[k].Ready?
    ensures Receives(size, v, os) == Receives(size, v, os[..k + 1])
    ensures Receives(size, v, os).got == Receives(size, v, os[..k]).got
    decreases k
  {
    var a := OneRecv(size, v, os[0]);
    if 0 < k && a.got != 0 {
      TurnEndsAt(size, a.level, os[1..], k - 1);
      assert os[..k + 1][1..] == os[1..][..k] && os[..k][1..] == os[1..][..k - 1];
    }
  }

  /** And when it is reached with a block to receive into it ends the thread exactly if it is a
      failure or the end of file. */
  lemma {:induction false} ThreadEndsAt(size: nat, v: Level, os: seq<RecvResult>, k: nat)
    requires v.fill < size && k < |os| && !os[k].Ready?
    requires forall i | 0 <= i < k :: os[i].Ready? && 0 < os[i].n
    requires var u := Receives(size, v, os[..k]).level; 0 < u.free && 0 < u.arrived
    ensures Receives(size, v, os).stop <==> os[k].Error? || os[k].Eof?
    decreases k
  {
    if 0 < k {
      var a := OneRecv(size, v, os[0]);
      assert os[..k][0] == os[0] && os[..k][1..] == os[1..][..k - 1];
      if a.got != 0 { ThreadEndsAt(size, a.level, os[1..], k - 1); }
    }
  }

  /** What is received is out of the free space. */
  lemma {:induction false} ReceivesIntoSpace(size: nat, v: Level, os: seq<RecvResult>)
    requires v.fill <= size
    ensures var t := Receives(size, v, os);
      t.level.free * size - t.level.fill == v.free * size - v.fill - t.got
    decreases |os|
  {
    if os != [] {
      var a := OneRecv(size, v, os[0]);
      OneLess(v.free, a.level.free, size);
      if a.got != 0 { ReceivesIntoSpace(size, a.level, os[1..]); }
    }
  }

  /** One turn of the pump is a turn, and more turns go on where the first ones ended. */
  lemma {:induction false} PumpGoesOn(size: nat, v: Level, os: seq<RecvResult>,
      a: seq<seq<RecvResult>>, b: seq<seq<RecvResult>>)
    requires v.fill <= size
    ensures PumpReceives(size, v, [os]) == Receives(size, v, os)
    ensures var t := PumpReceives(size, v, a);
      PumpReceives(size, v, a + b) ==
        if t.stop then t
        else
          var u := PumpReceives(size, t.level, b);
          u.(got := t.got + u.got)
    decreases |a|
  {
    assert [os][1..] == [];
    if a == [] {
      assert a + b == b;
    } else {
      var t := Receives(size, v, a[0]);
      assert (a + b)[1..] == a[1..] + b;
      if !t.stop { PumpGoesOn(size, t.level, os, a[1..], b); }
    }
  }

  lemma NotNegative(n: nat, size: nat)
    ensures 0 <= n * size
  {
  }

  class SocketRxBuffer {
    const fifo: BlockFifo
    var transferred: nat
    var done: bool
    var socket: seq<byte>
    ghost var before: seq<byte>
    ghost var received: seq<byte>
    ghost var taken: seq<byte>
    ghost var phantom: nat   // bytes claimed released with no block checked out

    ghost predicate Valid()
      reads this, fifo.Repr()
    {
      && this !in fifo.Repr() && fifo.Valid()
      && Balanced(received, taken, fifo.Abs()) && FullBlocks(fifo.Abs())
      && transferred == Wrap64(|received| + |taken| + phantom)
    }

    /** `transferred` counts a byte when it is received and again when it is released. */
    ghost predicate CountedTwice()
      reads this
    {
      transferred == Wrap64(|received| + |taken|)
    }

    constructor (blkSize: nat, blkCount: nat)
      requires 0 < blkSize && 0 < blkCount
      ensures Valid() && CountedTwice() && phantom == 0 && !done && fresh(fifo.Repr())
      ensures fifo.Abs() == Init(blkSize, blkCount) && received == [] == taken && before == [] == socket
    {
      fifo := new BlockFifo(blkSize, blkCount);
      transferred, done, socket := 0, false, [];
      before, received, taken, phantom := [], [], [], 0;
    }

    /** Quiescent: drops everything queued. What has not been received yet will be. */
    method Reset()
      requires Valid()
      modifies this`transferred, this`before, this`received, this`taken, this`phantom, fifo, fifo.blk
      ensures Valid() && CountedTwice() && received == [] == taken && before == old(before + received)
      ensures fifo.Abs() == ResetAll(old(fifo.Abs()))
    {
      hide BlockFifo.Tied, Ring.Valid, ResetAll, Queue, FullBlocks;
      transferred := 0;
      ResetBalanced(fifo.Abs());
      ResetFullBlocks(fifo.Abs());
      fifo.Reset();
      before := before + received;
      received, taken, phantom := [], [], 0;
    }

    method ReceiveStart(maxIn: nat) returns (p: array?<byte>, at: nat, max: nat)
      requires Valid()
      modifies fifo
      ensures Valid()
      ensures var r := old(fifo.Abs());
        fifo.Abs() == if r.inBlk.Some? || r.count == 0 then r else r.TakeIn()
      ensures if fifo.Abs().inBlk.Some?
        then p == fifo.blk[fifo.tail].buf && at == fifo.blk[fifo.tail].read && max == fifo.blk[fifo.tail].len - at
        else p == null && max == maxIn
    {
      hide BlockFifo.Tied, Ring.Valid, Balanced, FullBlocks, Took;
      ghost var r := fifo.Abs();
      TookByReadStart(r);
      p, at, max := fifo.ReadStart(maxIn);
      TookNothingBalanced(received, taken, r, fifo.Abs());
      TookFullBlocks(r, fifo.Abs(), []);
    }

    /** The counter goes up even when no block is checked out and nothing was released. */
    method ReceiveComplete(amt: nat)
      requires Valid()
      requires fifo.inBlk != null ==> fifo.inBlk.read + amt <= fifo.inBlk.len
      modifies this`transferred, this`taken, this`phantom, fifo, fifo.blk
      ensures Valid() && |taken| == |old(taken)| + if old(fifo.inBlk) != null then amt else 0
      ensures phantom == old(phantom) + if old(fifo.inBlk) != null then 0 else amt
      ensures fifo.Abs() == if old(fifo.Abs()).inBlk.Some? then old(fifo.Abs()).Finish(amt) else old(fifo.Abs())
      ensures old(CountedTwice()) ==> (CountedTwice() <==> old(fifo.inBlk) != null || Wrap64(amt) == 0)
    {
      hide BlockFifo.Tied, Ring.Valid, Balanced, FullBlocks, Took, Wrap64;
      ghost var r, n, m := fifo.Abs(), |received| + |taken| + phantom, |received| + |taken|;
      fifo.InPointer();
      Wrap64Add(n, amt, n + amt);
      Wrap64Add(m, amt, m + amt);
      Wrap64Same(m, amt);
      if fifo.inBlk != null {
        TookByFinish(r, amt);
        ghost var data := fifo.inBlk.buf[fifo.inBlk.read..fifo.inBlk.read + amt];
        TookBalanced(received, taken, r, r.Finish(amt), data);
        TookFullBlocks(r, r.Finish(amt), data);
        taken := taken + data;
      } else {
        phantom := phantom + amt;
      }
      fifo.ReadComplete(amt);
      transferred := Wrap64(transferred + amt);
    }

    /** So the counter is the number of bytes received if and only if none has been released,
        modulo its width. */
    lemma CountsReceivedIff()
      requires CountedTwice()
      ensures transferred == Wrap64(|received|) <==> Wrap64(|taken|) == 0
    {
      Wrap64Same(|received|, |taken|);
    }

    /** The peer sends more. */
    method Arrive(data: seq<byte>)
      requires Valid()
      modifies this`socket
      ensures Valid() && socket == old(socket) + data
    {
      socket := socket + data;
    }

    /** Puts the next `rval` bytes of the socket behind the bytes already in the block. */
    method Take(p: array<byte>, at: nat, rval: nat)
      requires Valid() && fifo.outBlk != null && p == fifo.outBlk.buf && at == fifo.outBlk.len
      requires 0 < rval <= |socket| && rval <= fifo.outBlk.size - fifo.outBlk.len
      modifies this`transferred, this`socket, this`received, fifo, fifo.blk, fifo.Bufs()
      ensures Valid()
      ensures received == old(received) + old(socket)[..rval] && socket == old(socket)[rval..]
      ensures WriterMoved(old(fifo.Abs()), fifo.Abs()) && Filled(old(fifo.Abs()), fifo.Abs(), rval)
    {
      hide BlockFifo.Tied, Ring.Valid, Queue, WriterMoved, Balanced, FullBlocks, Space, FullCommits, Filled;
      ghost var r := fifo.Abs();
      fifo.OutPointer();
      var data := socket[..rval];
      PushFills(r, at, data);
      fifo.Push(p, at, data);
      WrittenBalanced(received, taken, r, fifo.Abs(), data);
      WroteFullBlocks(r, fifo.Abs(), data);
      Wrap64Add(|received| + |taken| + phantom, rval, |received + data| + |taken| + phantom);
      received := received + data;
      socket := socket[rval..];
      transferred := Wrap64(transferred + rval);
    }

    /** WriteStart, as the pump uses it: a pointer with room behind it, unless the ring is full. */
    method Poll() returns (p: array?<byte>, at: nat, max: nat)
      requires Valid()
      modifies fifo, fifo.blk
      ensures Valid() && WriterMoved(old(fifo.Abs()), fifo.Abs())
      ensures Filled(old(fifo.Abs()), fifo.Abs(), 0)
      ensures p == null <==> Free(old(fifo.Abs())) <= 0
      ensures p != null ==>
        && fifo.outBlk != null && p == fifo.outBlk.buf && at == fifo.outBlk.len == Fill(fifo.Abs())
        && 0 < max == fifo.outBlk.size - fifo.outBlk.len == fifo.blkSize - Fill(fifo.Abs())
    {
      hide BlockFifo.Tied, Ring.Valid, Queue, WriterMoved, Balanced, FullBlocks, FullCommits, Space;
      ghost var r := fifo.Abs();
      fifo.OutPointer();
      StartFills(r);
      WroteByWriteStart(r);
      p, at, max := fifo.WriteStart(0);
      WroteNothingBalanced(received, taken, r, fifo.Abs());
      WroteFullBlocks(r, fifo.Abs(), []);
      fifo.OutPointer();
    }

    method Close()
      requires Valid()
      modifies this`done
      ensures Valid() && done
    {
      done := true;
    }

    lemma RingIsValid()
      requires Valid()
      ensures fifo.Abs().Valid() && fifo.head < |fifo.vals| && Fill(fifo.Abs()) <= fifo.blkSize
    {
    }

    lemma BlocksCounted()
      requires Valid()
      ensures |fifo.vals| == fifo.blkCount
    {
    }

    lemma BlockBeingRead()
      requires Valid()
      ensures fifo.tail < |fifo.vals|
      ensures fifo.Abs().inBlk.Some? <==> fifo.inBlk != null
      ensures fifo.inBlk != null ==>
        fifo.inBlk.read == fifo.vals[fifo.tail].read && fifo.inBlk.len == fifo.vals[fifo.tail].len
    {
      fifo.InPointer();
    }

    lemma Counted()
      requires Valid()
      ensures transferred == Wrap64(|received| + |taken| + phantom)
    {
    }

    ghost function LevelNow(): Level
      requires fifo.head < |fifo.vals|
      reads this, fifo
    {
      LevelOf(fifo.Abs(), |socket|)
    }

    /** The recv of an iteration, and what follows from its answer; when nothing has arrived it
        would block. */
    method Recv(p: array<byte>, at: nat, max: nat, os: RecvResult) returns (rval: nat)
      requires Valid() && fifo.outBlk != null && p == fifo.outBlk.buf && at == fifo.outBlk.len
      requires max == fifo.outBlk.size - fifo.outBlk.len
      modifies this`transferred, this`done, this`socket, this`received, fifo, fifo.blk, fifo.Bufs()
      ensures Valid() && WriterMoved(old(fifo.Abs()), fifo.Abs()) && Filled(old(fifo.Abs()), fifo.Abs(), rval)
      ensures rval == if os.Ready? then Min(Min(os.n, max), |old(socket)|) else 0
      ensures |received| == |old(received)| + rval && |socket| == |old(socket)| - rval
      ensures old(received) <= received && received + socket == old(received + socket)
      ensures done == (old(done) || os.Error? || os.Eof?)
    {
      hide SocketRxBuffer.Valid, WriterMoved, Filled;
      RingIsValid();
      WriterMovedNothing(fifo.Abs());
      SameFill(fifo.Abs());
      rval := 0;
      match os
      case Again =>
      case Error => Close();
      case Eof => Close();
      case Ready(n) =>
        rval := Min(Min(n, max), |socket|);
        if 0 < rval {
          Take(p, at, rval);
          assert old(socket)[..rval] + old(socket)[rval..] == old(socket);
        }
    }

    /** One iteration of the pump's loop: what has arrived and fits into the block. */
    method ReadOnce(os: RecvResult) returns (more: bool)
      requires Valid()
      modifies this`transferred, this`done, this`socket, this`received, fifo, fifo.blk, fifo.Bufs()
      ensures Valid() && WriterMoved(old(fifo.Abs()), fifo.Abs())
      ensures old(received) <= received && received + socket == old(received + socket)
      ensures fifo.head < |fifo.vals| && old(fifo.head) < |old(fifo.vals)| && old(LevelNow()).fill <= fifo.blkSize
      ensures var t := OneRecv(fifo.blkSize, old(LevelNow()), os);
        && |received| == |old(received)| + t.got && LevelNow() == t.level
        && done == (old(done) || t.stop) && more == (0 < t.got)
    {
      hide SocketRxBuffer.Valid, WriterMoved, Filled, Free, Fill, LevelOf, OneRecv;
      more := false;
      RingIsValid();
      LevelFits();
      ghost var r, n := fifo.Abs(), |socket|;
      var p, at, max := Poll();
      RingIsValid();
      FilledNothing(r, fifo.Abs());
      if p == null {
        OneRecvIs(r, fifo.Abs(), n, 0, os);
        return;
      }
      ghost var s := fifo.Abs();
      var rval := Recv(p, at, max, os);
      WriterMovedTransitive(r, s, fifo.Abs());
      FilledMore(r, s, fifo.Abs(), 0, rval);
      RingIsValid();
      OneRecvIs(r, fifo.Abs(), n, rval, os);
      more := 0 < rval;
    }

    /** The pump's turn: its loop, one iteration per answer in `os`. It never commits a block
        before it is full, whatever sizes recv returns. */
    method ReadData(os: seq<RecvResult>)
      requires Valid()
      modifies this`transferred, this`done, this`socket, this`received, fifo, fifo.blk, fifo.Bufs()
      ensures Valid() && WriterMoved(old(fifo.Abs()), fifo.Abs())
      ensures old(received) <= received && received + socket == old(received + socket)
      ensures fifo.head < |fifo.vals| && old(fifo.head) < |old(fifo.vals)| && old(LevelNow()).fill <= fifo.blkSize
      ensures var v := old(LevelNow());
        var t := if old(done) then Turned(0, v, false) else Receives(fifo.blkSize, v, os);
        |received| == |old(received)| + t.got && LevelNow() == t.level && done == (old(done) || t.stop)
    {
      hide SocketRxBuffer.Valid, SocketRxBuffer.LevelNow, WriterMoved, OneRecv;
      RingIsValid();
      ghost var r := fifo.Abs();
      WriterMovedNothing(r);
      LevelFits();
      ghost var size, k, v := fifo.blkSize, |received|, LevelNow();
      if done { return; }
      ghost var whole, rest := Receives(size, v, os), Receives(size, v, os);
      var i, more := 0, true;
      assert os[0..] == os;
      while i < |os| && !done && more
        invariant Valid() && WriterMoved(r, fifo.Abs()) && i <= |os|
        invariant old(received) <= received && received + socket == old(received + socket)
        invariant fifo.head < |fifo.vals| && LevelNow().fill <= size
        invariant whole == rest.(got := |received| - k + rest.got)
        invariant rest == if more && !done then Receives(size, LevelNow(), os[i..]) else Turned(0, LevelNow(), done)
      {
        ghost var s, u, was := fifo.Abs(), LevelNow(), |received|;
        more := ReadOnce(os[i]);
        WriterMovedTransitive(r, s, fifo.Abs());
        LevelFits();
        ghost var a := OneRecv(size, u, os[i]);
        rest := if a.got == 0 then a else Receives(size, a.level, os[i + 1..]);
        i := i + 1;
        assert os[i - 1..][1..] == os[i..];
      }
    }

    lemma LevelFits()
      requires Valid()
      ensures fifo.head < |fifo.vals| && LevelNow().fill <= fifo.blkSize
    {
    }

    /** The pump thread: any number of turns until `done`. */
    method Pump(turns: seq<seq<RecvResult>>)
      requires Valid()
      modifies this`transferred, this`done, this`socket, this`received, fifo, fifo.blk, fifo.Bufs()
      ensures Valid() && WriterMoved(old(fifo.Abs()), fifo.Abs())
      ensures old(received) <= received && received + socket == old(received + socket)
      ensures fifo.head < |fifo.vals| && old(fifo.head) < |old(fifo.vals)| && old(LevelNow()).fill <= fifo.blkSize
      ensures var v := old(LevelNow());
        var t := if old(done) then Turned(0, v, false) else PumpReceives(fifo.blkSize, v, turns);
        |received| == |old(received)| + t.got && LevelNow() == t.level && done == (old(done) || t.stop)
    {
      hide SocketRxBuffer.Valid, SocketRxBuffer.LevelNow, WriterMoved, Receives;
      RingIsValid();
      ghost var r := fifo.Abs();
      WriterMovedNothing(r);
      LevelFits();
      ghost var size, k, v := fifo.blkSize, |received|, LevelNow();
      if done { return; }
      ghost var whole, rest := PumpReceives(size, v, turns), PumpReceives(size, v, turns);
      var i := 0;
      assert turns[0..] == turns;
      while i < |turns| && !done
        invariant Valid() && WriterMoved(r, fifo.Abs()) && i <= |turns|
        invariant old(received) <= received && received + socket == old(received + socket)
        invariant fifo.head < |fifo.vals| && LevelNow().fill <= size
        invariant whole == rest.(got := |received| - k + rest.got)
        invariant rest == if !done then PumpReceives(size, LevelNow(), turns[i..]) else Turned(0, LevelNow(), true)
      {
        ghost var s, u := fifo.Abs(), LevelNow();
        ReadData(turns[i]);
        WriterMovedTransitive(r, s, fifo.Abs());
        LevelFits();
        ghost var a := Receives(size, u, turns[i]);
        rest := if a.stop then Turned(0, a.level, true) else PumpReceives(size, a.level, turns[i + 1..]);
        i := i + 1;
        assert turns[i - 1..][1..] == turns[i..];
      }
    }

    /** Whatever the pump thread does while the application thread is not in a lock section. */
    method Interfere()
      requires Valid()
      modifies this`transferred, this`done, this`socket, this`received, fifo, fifo.blk, fifo.Bufs()
      ensures Valid() && WriterMoved(old(fifo.Abs()), fifo.Abs())
      ensures old(received) <= received && received + socket == old(received + socket)
    {
      var turns: seq<seq<RecvResult>> := *;
      Pump(turns);
    }
  }

  /** Counting on by `amt` shows unless that is nothing, modulo the counter's width. */
  lemma Wrap64Same(n: nat, amt: nat)
    ensures Wrap64(n + amt) == Wrap64(n) <==> Wrap64(amt) == 0
  {
  }

  /** A new buffer, with a byte received into its first block, which that fills. */
  method ByteReceived(b: byte) returns (s: SocketRxBuffer)
    ensures s.Valid() && fresh(s) && fresh(s.fifo.Repr()) && s.phantom == 0 && s.taken == []
    ensures s.received == [b] && s.fifo.Abs().inBlk.None? && 0 < s.fifo.count && s.fifo.blkSize == 1
  {
    hide SocketRxBuffer.Valid, BlockFifo.Tied, Receives;
    s := new SocketRxBuffer(1, 64);
    s.fifo.Owns();
    FirstRecv(1, 64, 1, 1);
    s.Arrive([b]);
    s.BlocksCounted();
    s.ReadData([Ready(1)]);
    assert s.received + s.socket == [b];
    s.BlocksCounted();
  }

  /** An input on which the counter is not what was received: a byte received and released. */
  method CountsByteTwice(b: byte) returns (s: SocketRxBuffer)
    ensures s.Valid() && s.received == [b] && s.transferred == 2
  {
    hide SocketRxBuffer.Valid, BlockFifo.Tied;
    s := ByteReceived(b);
    s.fifo.Owns();
    ByteCommitted(s);
    var p, at, max := s.ReceiveStart(0);
    s.BlockBeingRead();
    s.ReceiveComplete(1);
    s.Counted();
  }

  lemma ByteCommitted(s: SocketRxBuffer)
    requires s.Valid() && s.fifo.Abs().inBlk.None? && 0 < s.fifo.count && s.fifo.blkSize == 1
    ensures s.fifo.tail < |s.fifo.vals| && s.fifo.vals[s.fifo.tail].read == 0 && s.fifo.vals[s.fifo.tail].len == 1
  {
    var r := s.fifo.Abs();
    assert r.Committed(r.tail);
  }

  /** An input on which the account fails: a byte released with no block checked out. */
  method CompletesWithoutBlock() returns (b: SocketRxBuffer)
    ensures b.Valid() && !b.CountedTwice()
  {
    b := new SocketRxBuffer(32 * 1024, 64);
    b.fifo.Owns();
    b.ReceiveComplete(1);
  }
}

/** The block FIFO of lib/BlockFifo.h and lib/BlockFifo.cpp as an object. Every method states
    its effect on the ring value; RingMoves says what that does to the byte queue, and that the
    lock sections of the other thread may be moved out of the middle of a call. */
module Fifos {
  import opened Bytes
  import opened Rings
  import opened RingMoves
  import opened Ramps
  import SelfTest

  class Block {
    var len: nat
    var read: nat
    const size: nat
    const buf: array<byte>
    const id: nat

    constructor (size: nat, id: nat)
      ensures this.size == size == buf.Length && this.id == id && fresh(buf)
      ensures Val() == Blk(0, 0, seq(size, _ => 0))
    {
      this.size, this.id := size, id;
      buf := new byte[size](_ => 0);
      len, read := 0, 0;
      new;
      assert buf[..] == seq(size, _ => 0);
    }

    ghost function Val(): Blk
      reads this, buf
    {
      Blk(len, read, buf[..])
    }
  }

  class BlockFifo {
    const blkSize: nat
    const blkCount: nat
    const blk: seq<Block>
    var head: nat
    var tail: nat
    var count: nat
    var inBlk: Block?
    var outBlk: Block?
    ghost var vals: seq<Blk>   // what the blocks hold

    /** The blocks never change: their identities, sizes and distinct buffers. */
    ghost predicate Layout() {
      && |blk| == blkCount
      && (forall i {:trigger blk[i]} | 0 <= i < |blk| :: blk[i].id == i && blk[i].size == blkSize == blk[i].buf.Length)
      && (forall i, j {:trigger blk[i].buf, blk[j].buf} | 0 <= i < j < |blk| :: blk[i].buf != blk[j].buf)
    }

    ghost function Bufs(): set<array<byte>> {
      set b | b in blk :: b.buf
    }

    ghost function Repr(): set<object> {
      {this} + (set b | b in blk :: b as object) + (set b | b in blk :: b.buf as object)
    }

    lemma Owns()
      ensures this in Repr() && (forall b | b in blk :: b in Repr()) && (forall a | a in Bufs() :: a in Repr())
      ensures forall i | 0 <= i < |blk| :: blk[i] in Repr()
    {
    }

    lemma BufLengths()
      requires Valid()
      ensures forall a | a in Bufs() :: a.Length == blkSize
    {
    }

    ghost predicate Valid()
      reads Repr()
    {
      && Tied() && Abs().Valid()
    }

    ghost predicate Tied()
      reads Repr()
    {
      && Layout()
      && |vals| == |blk|
      && (forall i {:trigger blk[i]} | 0 <= i < |blk| :: vals[i] == blk[i].Val())
      && head < blkCount && tail < blkCount
      && (inBlk != null ==> inBlk == blk[tail])
      && (outBlk != null ==> outBlk == blk[head])
    }

    ghost function Abs(): Ring
      reads this
    {
      Ring(blkSize, head, tail, count, vals,
        if inBlk == null then None else Some(inBlk.id),
        if outBlk == null then None else Some(outBlk.id))
    }

    /** The pointer to the block being filled, seen through the ring value. */
    lemma OutPointer()
      requires Valid()
      ensures head < |vals| == |blk|
      ensures Abs().outBlk.Some? <==> outBlk != null
      ensures outBlk != null ==>
        && outBlk in blk && outBlk == blk[head] && Abs().outBlk == Some(head)
        && outBlk.size == blkSize && outBlk.buf.Length == blkSize && outBlk.buf in Bufs()
        && vals[head] == Blk(outBlk.len, 0, outBlk.buf[..]) && outBlk.len < blkSize
    {
    }

    /** The same for the block being read. */
    lemma InPointer()
      requires Valid()
      ensures tail < |vals| == |blk|
      ensures Abs().inBlk.Some? <==> inBlk != null
      ensures inBlk != null ==>
        && inBlk in blk && inBlk == blk[tail] && Abs().inBlk == Some(tail)
        && inBlk.buf.Length == blkSize && inBlk.buf in Bufs() && 0 < count
        && vals[tail] == Blk(inBlk.len, inBlk.read, inBlk.buf[..]) && inBlk.read <= inBlk.len <= blkSize
    {
    }

    constructor (blkSize: nat, blkCount: nat)
      requires 0 < blkSize && 0 < blkCount
      ensures Valid() && fresh(Repr())
      ensures Abs() == Init(blkSize, blkCount)
    {
      this.blkSize, this.blkCount := blkSize, blkCount;
      head, tail, count := 0, 0, 0;
      inBlk, outBlk := null, null;
      var bs: seq<Block> := [];
      for i := 0 to blkCount
        invariant |bs| == i
        invariant forall k | 0 <= k < i :: fresh(bs[k]) && fresh(bs[k].buf)
        invariant forall k | 0 <= k < i ::
          bs[k].id == k && bs[k].size == blkSize == bs[k].buf.Length
          && bs[k].Val() == Blk(0, 0, seq(blkSize, _ => 0))
        invariant forall k, l | 0 <= k < l < i :: bs[k].buf != bs[l].buf
      {
        var b := new Block(blkSize, i);
        bs := bs + [b];
      }
      blk := bs;
      vals := Init(blkSize, blkCount).blk;
    }

    predicate Empty()
      reads this
    {
      head == tail
    }

    predicate Full()
      requires head < blkCount
      reads this
    {
      Next(head, blkCount) == tail
    }

    /** A timed wait returns what it sees at its last look under the lock. */
    predicate WaitNotFull()
      requires Valid()
      reads Repr()
      ensures WaitNotFull() <==> !Abs().Full()
    {
      CountIsDistance(Abs());
      !Full()
    }

    predicate WaitNotEmpty()
      requires Valid()
      reads Repr()
      ensures WaitNotEmpty() <==> 0 < Abs().count
    {
      CountIsDistance(Abs());
      !Empty()
    }

    lemma TestStarts(q: seq<byte>)
      requires Valid() && 2 <= blkCount && blkSize % 4 == 0 && NoneEmpty(Abs())
      requires |Queue(Abs())| % 4 == 0 && |Pending(Abs())| % 4 == 0 && q == Queue(Abs())
      ensures SelfTest.Holds(Abs(), q, 0, 0) && SelfTest.Right(q, 0, 0, 0)
    {
    }

    // ----- the lock sections -----

    method TakeOut()
      requires Tied()
      modifies this, blk
      ensures Tied() && Abs() == old(Abs()).TakeOut()
    {
      vals := Abs().TakeOut().blk;
      outBlk := blk[head];
      outBlk.len, outBlk.read := 0, 0;
    }

    method Commit(amt: nat)
      requires Tied() && outBlk != null
      modifies this, blk
      ensures Tied() && Abs() == old(Abs()).Commit(amt)
    {
      vals := Abs().Commit(amt).blk;
      outBlk.len := outBlk.len + amt;
      if amt == 0 || outBlk.len == outBlk.size {
        count := count + 1;
        head := Next(head, blkCount);
        outBlk := null;
      }
    }

    method TakeIn()
      requires Tied()
      modifies this
      ensures Tied() && Abs() == old(Abs()).TakeIn()
    {
      inBlk := blk[tail];
    }

    method Finish(amt: nat)
      requires Tied() && inBlk != null && 0 < count
      modifies this, blk
      ensures Tied() && Abs() == old(Abs()).Finish(amt)
    {
      vals := Abs().Finish(amt).blk;
      inBlk.read := inBlk.read + amt;
      if inBlk.len == inBlk.read {
        count := count - 1;
        tail := Next(tail, blkCount);
        inBlk := null;
      }
    }

    // ----- the interface -----

    /** `maxAmt` is a reference parameter in the source: a null return leaves it as it was. */
    method WriteStart(maxIn: nat) returns (p: array?<byte>, at: nat, max: nat)
      requires Valid()
      modifies this, blk
      ensures Valid()
      ensures var r := old(Abs());
        Abs() == if r.outBlk.Some? || r.Full() then r else r.TakeOut()
      ensures if Abs().outBlk.Some?
        then p == blk[head].buf && at == blk[head].len && max == blkSize - at
        else p == null && max == maxIn
    {
      if outBlk != null {
        return outBlk.buf, outBlk.len, outBlk.size - outBlk.len;
      }
      if !WaitNotFull() {
        return null, 0, maxIn;
      }
      TakeOutValid(Abs());
      TakeOut();
      return outBlk.buf, 0, outBlk.size;
    }

    /** Without a block checked out the source only logs a warning. */
    method WriteComplete(amt: nat)
      requires Valid()
      requires outBlk != null ==> amt <= outBlk.size - outBlk.len
      modifies this, blk
      ensures Valid()
      ensures Abs() == if old(Abs()).outBlk.Some? then old(Abs()).Commit(amt) else old(Abs())
    {
      if outBlk != null {
        CommitValid(Abs(), amt);
        Commit(amt);
      }
    }

    method ReadStart(maxIn: nat) returns (p: array?<byte>, at: nat, max: nat)
      requires Valid()
      modifies this
      ensures Valid()
      ensures var r := old(Abs());
        Abs() == if r.inBlk.Some? || r.count == 0 then r else r.TakeIn()
      ensures if Abs().inBlk.Some?
        then p == blk[tail].buf && at == blk[tail].read && max == blk[tail].len - at
        else p == null && max == maxIn
    {
      if inBlk != null {
        return inBlk.buf, inBlk.read, inBlk.len - inBlk.read;
      }
      if !WaitNotEmpty() {
        return null, 0, maxIn;
      }
      TakeInValid(Abs());
      TakeIn();
      return inBlk.buf, 0, inBlk.len;
    }

    /** Without a block checked out the source only logs a warning. */
    method ReadComplete(amt: nat)
      requires Valid()
      requires inBlk != null ==> inBlk.read + amt <= inBlk.len
      modifies this, blk
      ensures Valid()
      ensures Abs() == if old(Abs()).inBlk.Some? then old(Abs()).Finish(amt) else old(Abs())
    {
      if inBlk != null {
        FinishValid(Abs(), amt);
        Finish(amt);
      }
    }

    /** Quiescent reset: both sides lose their block and all data. */
    method Reset()
      requires Tied()
      modifies this, blk
      ensures Tied() && Abs() == ResetAll(old(Abs()))
    {
      head, tail, count := 0, 0, 0;
      inBlk, outBlk := null, null;
      for i := 0 to blkCount
        invariant Layout() && head == tail == count == 0 && inBlk == null == outBlk
        invariant vals == old(vals)
        invariant forall k | 0 <= k < blkCount ::
          blk[k].Val() == if k < i then Cleared(vals[k]) else vals[k]
      {
        blk[i].len, blk[i].read := 0, 0;
      }
      vals := ResetAll(Abs()).blk;
    }

    /** memcpy to the memory behind the pointer WriteStart returned. */
    method CopyIn(p: array<byte>, at: nat, data: seq<byte>)
      requires Tied() && outBlk != null && p == outBlk.buf && at + |data| <= blkSize
      modifies this`vals, p
      ensures Tied() && Abs() == old(Abs()).Poke(head, at, data)
    {
      CopyTo(p, at, data);
      vals := Abs().Poke(head, at, data).blk;
    }

    /** memcpy through the pointer WriteStart returned, then WriteComplete. */
    method Push(p: array<byte>, at: nat, data: seq<byte>)
      requires Valid() && outBlk != null && p == outBlk.buf && at == outBlk.len
      requires 0 < |data| <= outBlk.size - outBlk.len
      modifies this, blk, Bufs()
      ensures Valid() && Wrote(old(Abs()), Abs(), data)
      ensures Abs() == old(Abs()).Poke(old(head), at, data).Commit(|data|)
    {
      ghost var r := Abs();
      WroteByPoke(r, data);
      CopyIn(p, at, data);
      ghost var s := Abs();
      WroteByCommit(s, data);
      WriteComplete(|data|);
      WroteMore(r, s, Abs(), [], data);
      assert [] + data == data;
    }

    /** One turn of the loop in Write: as much as fits into the block being filled. */
    method WriteSome(data: seq<byte>) returns (amt: nat)
      requires Valid() && 0 < |data|
      modifies this, blk, Bufs()
      ensures Valid() && amt <= |data| && Wrote(old(Abs()), Abs(), data[..amt])
      ensures amt == 0 <==> Space(old(Abs())) == 0
    {
      ghost var r := Abs();
      WroteByWriteStart(r);
      var p, at, max := WriteStart(0);
      if p == null { return 0; }
      ghost var s := Abs();
      amt := if |data| > max then max else |data|;
      Push(p, at, data[..amt]);
      WroteMore(r, s, Abs(), [], data[..amt]);
      assert [] + data[..amt] == data[..amt];
    }

    /** After the holder of the write pointer has stored bytes without telling the FIFO. */
    ghost method Stored(b: Blk)
      requires Layout() && |vals| == |blk| && head < blkCount && tail < blkCount
      requires (inBlk != null ==> inBlk == blk[tail]) && (outBlk != null ==> outBlk == blk[head])
      requires forall i | 0 <= i < |blk| && i != head :: vals[i] == blk[i].Val()
      requires b == blk[head].Val()
      modifies this`vals
      ensures Tied() && vals == old(vals)[head := b]
    {
      vals := vals[head := b];
    }

    /** With a zero timeout and nobody reading, all that fits is written, and nothing more. */
    method Write(data: seq<byte>) returns (written: nat)
      requires Valid() && 0 < |data|
      modifies this, blk, Bufs()
      ensures Valid()
      ensures written == if |data| <= Space(old(Abs())) then |data| else Space(old(Abs()))
      ensures written <= |data| && Wrote(old(Abs()), Abs(), data[..written])
    {
      hide BlockFifo.Tied, Ring.Valid, Queue, Readable, Pending, WriterMoved, ReaderMoved, FullCommits, Space;
      written := 0;
      ghost var r := Abs();
      SpaceOfFull(r);
      WroteNothing(r);
      while written < |data|
        invariant Valid() && written <= |data| && Wrote(r, Abs(), data[..written])
      {
        ghost var s := Abs();
        var amt := WriteSome(data[written..]);
        WroteMore(r, s, Abs(), data[..written], data[written..][..amt]);
        ghost var n := written;
        written := written + amt;
        TakeMore(data, n, amt, written);
        if amt == 0 { break; }
      }
      SpaceOfFull(Abs());
    }

    /** memcpy through the pointer ReadStart returned, then ReadComplete. */
    method Pull(p: array<byte>, at: nat, dst: array<byte>, pos: nat, amt: nat)
      requires Valid() && inBlk != null && p == inBlk.buf && at == inBlk.read
      requires at + amt <= inBlk.len && dst !in Bufs() && pos + amt <= dst.Length
      modifies this, blk, dst
      ensures Valid() && dst[..] == Splice(old(dst[..]), pos, old(p[at..at + amt]))
      ensures Took(old(Abs()), Abs(), old(p[at..at + amt]))
      ensures at + amt == old(inBlk.len) ==> Abs().count < old(Abs()).count
    {
      TookByFinish(Abs(), amt);
      CopyTo(dst, pos, p[at..at + amt]);
      ReadComplete(amt);
    }

    /** One turn of the loop in Read: what the first committed block has, up to `want` bytes.
        An empty block gives none and is released. */
    method ReadSome(dst: array<byte>, pos: nat, want: nat) returns (data: bool, amt: nat, ghost got: seq<byte>)
      requires Valid() && dst !in Bufs() && pos + want <= dst.Length && 0 < want
      modifies this, blk, dst
      ensures Valid() && |got| == amt <= want && Took(old(Abs()), Abs(), got)
      ensures dst[..] == Splice(old(dst[..]), pos, got)
      ensures data <==> old(Abs()).count != 0
      ensures if data then 0 < amt || Abs().count < old(Abs()).count else amt == 0
    {
      hide ReaderMoved, Queue, Readable;
      ghost var r := Abs();
      TookByReadStart(r);
      var p, at, max := ReadStart(0);
      data, amt, got := p != null, 0, [];
      if p == null { return; }
      ghost var s := Abs();
      amt := if want > max then max else want;
      got := p[at..at + amt];
      Pull(p, at, dst, pos, amt);
      TookMore(r, s, Abs(), [], got);
      assert [] + got == got;
    }

    /** With a zero timeout and nobody writing, all that is readable is read, up to `len` bytes.
        Each turn lowers the bytes wanted or else the committed blocks. */
    method Read(dst: array<byte>, len: nat) returns (read: nat)
      requires Valid() && dst !in Bufs() && len <= dst.Length
      modifies this, blk, dst
      ensures Valid()
      ensures read == Min(len, |Readable(old(Abs()))|)
      ensures Took(old(Abs()), Abs(), Readable(old(Abs()))[..read])
      ensures dst[..] == Splice(old(dst[..]), 0, Readable(old(Abs()))[..read])
    {
      hide BlockFifo.Tied, Ring.Valid, Queue, Readable, Pending, WriterMoved, ReaderMoved, FullCommits, Space;
      read := 0;
      ghost var r, got := Abs(), [];
      TookNothing(r);
      while read < len
        invariant Valid() && |got| == read <= len && Took(r, Abs(), got)
        invariant dst[..] == Splice(old(dst[..]), 0, got)
        decreases len - read, count
      {
        ghost var s := Abs();
        var data, amt, more := ReadSome(dst, read, len - read);
        TookMore(r, s, Abs(), got, more);
        SpliceMore(old(dst[..]), 0, got, read, more);
        got := got + more;
        if !data {
          NoBlocksNoBytes(s);
          break;
        }
        read := read + amt;
      }
      assert got == Readable(r)[..read];
    }

    /** The self-test writes a counter in chunks of random size, reads it back in chunks of
        random size and counts mismatches; `rand` is the sequence of random numbers. With two or
        more blocks of whole words it ends, and finds none if and only if what was in the FIFO
        before and then the counter begin as the counter does; so it does from an empty FIFO. */
    method Test(size: nat, rand: nat -> nat) returns (errors: nat)
      requires Valid() && 2 <= blkCount && blkSize % 4 == 0 && NoneEmpty(Abs())
      requires |Queue(Abs())| % 4 == 0 && |Pending(Abs())| % 4 == 0
      modifies this, blk, Bufs()
      ensures Valid()
      ensures var words := Wrap(size / 4);
        errors == 0 <==> (Queue(old(Abs())) + Ramp(0, words))[..4 * words] == Ramp(0, words)
      ensures Queue(old(Abs())) == [] ==> errors == 0
    {
      hide Ring.Valid, Pending, SelfTest.Holds, SelfTest.Right, Queue, NoneEmpty, Ramp, Wrap, ChunkSize;
      hide Readable, SelfTest.Found;
      ZeroWords();
      var words := Wrap(size / 4);
      var read: nat, wrSeed: word, rdSeed: word, draw: nat := 0, 0, 0, 0;
      errors := 0;
      var wrBuf := new word[TEST_WORDS];
      var rdBuf := new byte[4 * TEST_WORDS];
      ghost var q, n := Queue(Abs()), 0;
      TestStarts(q);
      while read < words
        invariant read <= words && wrSeed == Wrap(n) && SelfTest.Right(q, read, errors, rdSeed)
        invariant Valid() && SelfTest.Holds(Abs(), q, read, n) && rdBuf !in Bufs()
        decreases words - read, blkSize - |Pending(Abs())|
      {
        var wrLen, rdLen := ChunkSize(rand(draw)), ChunkSize(rand(draw + 1));
        draw := draw + 2;
        if rdLen > words - read { rdLen := words - read; }
        PendingFits(Abs());
        wrSeed, read, errors, rdSeed, n := TestTurn(wrBuf, rdBuf, wrLen, rdLen, wrSeed, read, errors, rdSeed, q, n);
      }
      TestEnds(q, words, errors, rdSeed);
    }

    lemma ZeroWords()
      ensures Wrap(0) == 0
    {
    }

    lemma TestEnds(q: seq<byte>, words: nat, errors: nat, seed: word)
      requires SelfTest.Right(q, words, errors, seed)
      ensures errors == 0 <==> (q + Ramp(0, words))[..4 * words] == Ramp(0, words)
      ensures q == [] ==> errors == 0
    {
    }

    /** A turn of the self-test: it reads some words, or else leaves less space in the block
        being filled. `rd` counts the words read before, `rd'` those read after. */
    method TestTurn(wrBuf: array<word>, rdBuf: array<byte>, wrLen: nat, rdLen: nat,
        wrSeed: word, rd: nat, errors: nat, rdSeed: word, ghost q: seq<byte>, ghost n: nat)
      returns (wrNext: word, rd': nat, errors': nat, rdNext: word, ghost n': nat)
      requires Valid() && SelfTest.Holds(Abs(), q, rd, n) && wrSeed == Wrap(n)
      requires SelfTest.Right(q, rd, errors, rdSeed)
      requires 0 < wrLen <= wrBuf.Length && 0 < rdLen && 4 * rdLen <= rdBuf.Length && rdBuf !in Bufs()
      modifies this, blk, Bufs(), wrBuf, rdBuf
      ensures Valid() && SelfTest.Holds(Abs(), q, rd', n') && wrNext == Wrap(n')
      ensures SelfTest.Right(q, rd', errors', rdNext) && rd <= rd' <= rd + rdLen
      ensures rd' == rd ==> |Pending(old(Abs()))| < |Pending(Abs())|
    {
      hide SelfTest.Right;
      wrNext, n' := TestWrite(wrBuf, wrLen, wrSeed, rd, q, n);
      rd', errors', rdNext := TestRead(rdBuf, rdLen, rd, errors, rdSeed, q, n');
    }

    /** The writing half of a turn of the self-test; `n` counts the words written before. */
    method TestWrite(wrBuf: array<word>, wrLen: nat, wrSeed: word, ghost rd: nat, ghost q: seq<byte>, ghost n: nat)
      returns (next: word, ghost n': nat)
      requires Valid() && SelfTest.Holds(Abs(), q, rd, n) && wrSeed == Wrap(n)
      requires 0 < wrLen <= wrBuf.Length
      modifies this, blk, Bufs(), wrBuf
      ensures Valid() && SelfTest.Holds(Abs(), q, rd, n') && next == Wrap(n')
      ensures Readable(Abs()) == [] ==> |Pending(old(Abs()))| < |Pending(Abs())|
    {
      hide Ring.Valid, Queue, Pending, SelfTest.Holds, Wrote, Readable, Space;
      FillRamp(wrBuf, wrLen, wrSeed);
      ghost var r := Abs();
      RampMemory(wrSeed, wrBuf[..wrLen]);
      var wrAmt := Write(Memory(wrBuf[..wrLen]));
      SelfTest.AfterWrite(r, Abs(), q, rd, n, wrLen, wrAmt);
      next, n' := Wrap(wrSeed + wrAmt / 4), n + wrAmt / 4;
      ModAdd(n, wrAmt / 4);
    }

    /** The reading half of a turn. */
    method TestRead(rdBuf: array<byte>, rdLen: nat, rd: nat, errors: nat, rdSeed: word,
        ghost q: seq<byte>, ghost n: nat)
      returns (rd': nat, errors': nat, next: word)
      requires Valid() && SelfTest.Holds(Abs(), q, rd, n) && SelfTest.Right(q, rd, errors, rdSeed)
      requires 0 < rdLen && 4 * rdLen <= rdBuf.Length && rdBuf !in Bufs()
      modifies this, blk, rdBuf
      ensures Valid() && SelfTest.Holds(Abs(), q, rd', n) && SelfTest.Right(q, rd', errors', next)
      ensures rd <= rd' <= rd + rdLen
      ensures rd' == rd <==> Readable(old(Abs())) == []
      ensures |Pending(Abs())| == |Pending(old(Abs()))|
    {
      hide Ring.Valid, Queue, Pending, SelfTest.Holds, SelfTest.Right, SelfTest.Found, ReaderMoved, Took;
      ghost var r := Abs();
      var rdAmt := Read(rdBuf, 4 * rdLen);
      ghost var s := Abs();
      rd' := rd + rdAmt / 4;
      SelfTest.AfterRead(r, s, q, rd, n, rdLen, rdAmt, rd');
      var data := rdBuf[..rdAmt];
      assert data == Readable(r)[..rdAmt];
      var bad;
      bad, next := CheckRamp(data, rdSeed);
      assert Abs() == s;
      errors' := errors + bad;
      SelfTest.HoldsFound(s, q, rd', n);
      SelfTest.StillRight(q, rd, n, rdAmt / 4, data, errors, bad, rdSeed, next);
    }
  }

  const TEST_WORDS := 128 * 1024

  function ChunkSize(r: nat): (n: nat)
    ensures 0 < n <= TEST_WORDS
  {
    r % TEST_WORDS + 1
  }

  /** The filling loop of the self-test. */
  method FillRamp(buf: array<word>, n: nat, seed: word)
    requires n <= buf.Length
    modifies buf
    ensures forall i | 0 <= i < n :: buf[i] == Wrap(seed + i)
  {
    for i := 0 to n
      invariant forall k | 0 <= k < i :: buf[k] == Wrap(seed + k)
    {
      buf[i] := Wrap(seed + i);
    }
  }

  /** The checking loop of the self-test: the words of `data` against a counter. After a
      mismatch it goes on from the word found. */
  method CheckRamp(data: seq<byte>, seed: word) returns (errors: nat, next: word)
    requires |data| % 4 == 0
    ensures errors == 0 <==> data == Ramp(seed, |data| / 4)
    ensures errors == 0 ==> next == Wrap(seed + |data| / 4)
  {
    errors, next := 0, seed;
    for i := 0 to |data| / 4
      invariant errors == 0 <==> data[..4 * i] == Ramp(seed, i)
      invariant errors == 0 ==> next == Wrap(seed + i)
    {
      var w := ToWord(data[4 * i..4 * i + 4]);
      CheckNext(data, seed, i);
      ModAdd(seed + i, 1);
      if next != w {
        errors := errors + 1;
        next := w;
      }
      next := Wrap(next + 1);
    }
    assert data[..4 * (|data| / 4)] == data;
  }

  lemma CheckNext(data: seq<byte>, seed: word, i: nat)
    requires 4 * i + 4 <= |data|
    ensures data[..4 * (i + 1)] == Ramp(seed, i + 1) <==>
      data[..4 * i] == Ramp(seed, i) && ToWord(data[4 * i..4 * i + 4]) == Wrap(seed + i)
  {
    var b := data[..4 * i + 4];
    RampNext(seed, i, b);
    assert b[..4 * i] == data[..4 * i] && b[4 * i..] == data[4 * i..4 * i + 4];
  }
}

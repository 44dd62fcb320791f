/** The block ring as a value: what the fields of a FIFO and of its blocks hold between two
    lock sections. Each lock section of lib/BlockFifo.cpp is a function on this value. */
module Rings {
  import opened Bytes

  /** One block: `buf[..len]` has been written, `buf[..read]` of that has been read. */
  datatype Blk = Blk(len: nat, read: nat, buf: seq<byte>)

  function Cleared(b: Blk): Blk {
    b.(len := 0, read := 0)
  }

  function Avail(b: Blk): seq<byte>
    requires b.read <= b.len <= |b.buf|
  {
    b.buf[b.read..b.len]
  }

  /** PINC: the block after `p`. */
  function Next(p: nat, n: nat): (q: nat)
    requires p < n
    ensures q == if p + 1 == n then 0 else p + 1
  {
    (p + 1) % n
  }

  /** The `k`-th block from `p` on. */
  function Slot(p: nat, k: nat, n: nat): (q: nat)
    requires p < n && k < n
    ensures q < n
  {
    if p + k < n then p + k else p + k - n
  }

  datatype Ring = Ring(
    blkSize: nat, head: nat, tail: nat, count: nat,
    blk: seq<Blk>, inBlk: Option<nat>, outBlk: Option<nat>)
  {
    predicate Empty() {
      head == tail
    }

    predicate Full()
      requires head < |blk|
    {
      Next(head, |blk|) == tail
    }

    /** Block `i` has been handed to the reading side and not given back. */
    predicate Committed(i: nat) {
      if tail <= head then tail <= i < head else i >= tail || i < head
    }

    ghost predicate Valid() {
      && 0 < |blk| && 0 < blkSize && head < |blk| && tail < |blk|
      && count == (if tail <= head then head - tail else head + |blk| - tail)
      && (forall i | 0 <= i < |blk| :: blk[i].read <= blk[i].len <= blkSize == |blk[i].buf|)
      && (forall i | 0 <= i < |blk| && Committed(i) && inBlk != Some(i) :: blk[i].read == 0)
      && (inBlk.Some? ==>
            && inBlk.value == tail && 0 < count
            && (blk[tail].read < blk[tail].len || blk[tail].len == 0))
      && (outBlk.Some? ==>
            && outBlk.value == head && !Full()
            && blk[head].read == 0 && blk[head].len < blkSize)
    }

    // ----- lock sections of the writing side -----

    /** Second half of WriteStart: check out the block at `head`. */
    function TakeOut(): Ring
      requires head < |blk|
    {
      this.(blk := blk[head := Cleared(blk[head])], outBlk := Some(head))
    }

    /** WriteComplete with a block checked out. */
    function Commit(amt: nat): Ring
      requires outBlk.Some? && outBlk.value < |blk| && head < |blk|
    {
      var b := blk[outBlk.value].(len := blk[outBlk.value].len + amt);
      var r := this.(blk := blk[outBlk.value := b]);
      if amt == 0 || b.len == blkSize
      then r.(count := count + 1, head := Next(head, |blk|), outBlk := None)
      else r
    }

    /** Bytes stored into block `i` with no lock held. */
    function Poke(i: nat, at: nat, t: seq<byte>): Ring
      requires i < |blk| && at + |t| <= |blk[i].buf|
    {
      this.(blk := blk[i := blk[i].(buf := Splice(blk[i].buf, at, t))])
    }

    // ----- lock sections of the reading side -----

    /** Second half of ReadStart: check out the block at `tail`. */
    function TakeIn(): Ring {
      this.(inBlk := Some(tail))
    }

    /** ReadComplete with a block checked out. */
    function Finish(amt: nat): Ring
      requires inBlk.Some? && inBlk.value < |blk| && tail < |blk| && 0 < count
    {
      var b := blk[inBlk.value].(read := blk[inBlk.value].read + amt);
      var r := this.(blk := blk[inBlk.value := b]);
      if b.len == b.read
      then r.(count := count - 1, tail := Next(tail, |blk|), inBlk := None)
      else r
    }
  }

  /** A new ring: `n` zeroed blocks of `size` bytes. */
  function Init(size: nat, n: nat): Ring {
    Ring(size, 0, 0, 0, seq(n, _ => Blk(0, 0, seq(size, _ => 0))), None, None)
  }

  /** BlockFifo::Reset. */
  function ResetAll(r: Ring): Ring {
    Ring(r.blkSize, 0, 0, 0, seq(|r.blk|, i requires 0 <= i < |r.blk| => Cleared(r.blk[i])), None, None)
  }

  // ----- the byte queue a ring stands for -----

  ghost predicate Sound(blk: seq<Blk>) {
    forall i | 0 <= i < |blk| :: blk[i].read <= blk[i].len <= |blk[i].buf|
  }

  /** The unread bytes of the `c` blocks from `t` on. */
  ghost function Unread(blk: seq<Blk>, t: nat, c: nat): seq<byte>
    requires Sound(blk) && t < |blk| && c < |blk|
    decreases c
  {
    if c == 0 then [] else Avail(blk[t]) + Unread(blk, Next(t, |blk|), c - 1)
  }

  /** Bytes the reading side may still take. */
  ghost function Readable(r: Ring): seq<byte>
    requires r.Valid()
  {
    Unread(r.blk, r.tail, r.count)
  }

  /** Bytes of the block being filled, not yet readable. */
  ghost function Pending(r: Ring): seq<byte>
    requires r.Valid()
  {
    if r.outBlk.Some? then r.blk[r.head].buf[..r.blk[r.head].len] else []
  }

  ghost function Queue(r: Ring): seq<byte>
    requires r.Valid()
  {
    Readable(r) + Pending(r)
  }

  /** `Unread` sees only the `c` blocks it walks over. */
  lemma {:induction false} UnreadFrame(a: seq<Blk>, b: seq<Blk>, t: nat, c: nat)
    requires Sound(a) && Sound(b) && |a| == |b| && t < |a| && c < |a|
    requires forall k | 0 <= k < c :: Avail(a[Slot(t, k, |a|)]) == Avail(b[Slot(t, k, |a|)])
    ensures Unread(a, t, c) == Unread(b, t, c)
    decreases c
  {
    if c > 0 {
      var u := Next(t, |a|);
      assert Slot(t, 0, |a|) == t;
      forall k | 0 <= k < c - 1
        ensures Avail(a[Slot(u, k, |a|)]) == Avail(b[Slot(u, k, |a|)])
      {
        assert Slot(u, k, |a|) == Slot(t, k + 1, |a|);
      }
      UnreadFrame(a, b, u, c - 1);
    }
  }

  /** One more block at the far end adds its bytes at the back. */
  lemma {:induction false} UnreadSnoc(a: seq<Blk>, t: nat, c: nat)
    requires Sound(a) && t < |a| && c + 1 < |a|
    ensures Unread(a, t, c + 1) == Unread(a, t, c) + Avail(a[Slot(t, c, |a|)])
    decreases c
  {
    var u := Next(t, |a|);
    if c == 0 {
      assert Unread(a, u, 0) == [];
    } else {
      UnreadSnoc(a, u, c - 1);
      assert Slot(u, c - 1, |a|) == Slot(t, c, |a|);
      assert Avail(a[t]) + (Unread(a, u, c - 1) + Avail(a[Slot(t, c, |a|)]))
          == Unread(a, t, c) + Avail(a[Slot(t, c, |a|)]);
    }
  }

  lemma WrapOnce(m: nat, n: nat)
    requires m < n
    ensures m % n == m && (m + n) % n == m
  {
  }

  /** `count` is the distance from `tail` to `head`, and tells empty and full apart. */
  lemma CountIsDistance(r: Ring)
    requires r.Valid()
    ensures r.count < |r.blk| && (r.tail + r.count) % |r.blk| == r.head
    ensures r.Empty() <==> r.count == 0
    ensures r.Full() <==> r.count == |r.blk| - 1
  {
    WrapOnce(r.head, |r.blk|);
  }

  /** The committed blocks are the `count` blocks from `tail` on. */
  lemma CommittedIsSlot(r: Ring, i: nat)
    requires r.Valid() && i < |r.blk|
    ensures r.Committed(i) <==> exists k :: 0 <= k < r.count && Slot(r.tail, k, |r.blk|) == i
  {
    if r.Committed(i) {
      var k := if i >= r.tail then i - r.tail else i + |r.blk| - r.tail;
      assert Slot(r.tail, k, |r.blk|) == i;
    }
  }
}

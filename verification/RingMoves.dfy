/** What each lock section does to the byte queue, what each side may rely on while the other
    side runs, and that lock sections of the two sides commute. */
module RingMoves {
  import opened Bytes
  import opened Rings

  // ----- each lock section against the byte queue -----

  lemma TakeOutValid(r: Ring)
    requires r.Valid() && r.outBlk.None? && !r.Full()
    ensures r.TakeOut().Valid()
  {
  }

  lemma TakeInValid(r: Ring)
    requires r.Valid() && r.inBlk.None? && 0 < r.count
    ensures r.TakeIn().Valid()
  {
    assert r.Committed(r.tail);
  }

  lemma TakeOutKeeps(r: Ring)
    requires r.Valid() && r.outBlk.None? && !r.Full()
    ensures var s := r.TakeOut();
      s.Valid() && Queue(s) == Queue(r) && WriterMoved(r, s)
  {
    var s := r.TakeOut();
    UnreadFrameHead(r, s);
  }

  /** Storing bytes past the written part of the block being filled changes no queue byte. */
  lemma PokeKeeps(r: Ring, at: nat, t: seq<byte>)
    requires r.Valid() && r.outBlk.Some?
    requires r.blk[r.head].len <= at && at + |t| <= r.blkSize
    ensures var s := r.Poke(r.head, at, t);
      s.Valid() && Queue(s) == Queue(r) && WriterMoved(r, s)
  {
    var s := r.Poke(r.head, at, t);
    UnreadFrameHead(r, s);
    assert Pending(s) == Pending(r);
  }

  /** WriteComplete puts the bytes between `len` and `len + amt` at the back of the queue. */
  lemma CommitKeeps(r: Ring, amt: nat)
    requires r.Valid() && r.outBlk.Some? && r.blk[r.head].len + amt <= r.blkSize
    ensures var s, b := r.Commit(amt), r.blk[r.head];
      s.Valid() && Queue(s) == Queue(r) + b.buf[b.len..b.len + amt] && WriterMoved(r, s)
  {
    CommitValid(r, amt);
    CommitQueue(r, amt);
    CommitMoved(r, amt);
  }

  lemma CommitQueue(r: Ring, amt: nat)
    requires r.Valid() && r.outBlk.Some? && r.blk[r.head].len + amt <= r.blkSize
    requires r.Commit(amt).Valid()
    ensures var s, b := r.Commit(amt), r.blk[r.head];
      Readable(r) <= Readable(s) && Queue(s) == Queue(r) + b.buf[b.len..b.len + amt]
  {
    hide Unread, Queue;
    var s, b := r.Commit(amt), r.blk[r.head];
    var written, added := b.buf[..b.len], b.buf[b.len..b.len + amt];
    assert b.buf[..b.len + amt] == written + added;
    if s.outBlk.None? {
      CommittedGoesLast(r, s);
      QueueIs(r, Readable(r), written);
      QueueIs(s, Readable(r) + (written + added), []);
    } else {
      UnreadFrameHead(r, s);
      QueueIs(r, Readable(r), written);
      QueueIs(s, Readable(r), written + added);
    }
    assert Readable(r) + (written + added) == (Readable(r) + written) + added;
  }

  lemma QueueIs(r: Ring, readable: seq<byte>, pending: seq<byte>)
    requires r.Valid() && Readable(r) == readable && Pending(r) == pending
    ensures Queue(r) == readable + pending
  {
  }

  lemma CommitMoved(r: Ring, amt: nat)
    requires r.Valid() && r.outBlk.Some? && r.blk[r.head].len + amt <= r.blkSize
    requires var s := r.Commit(amt);
      s.Valid() && Readable(r) <= Readable(s) && Queue(r) <= Queue(s)
    ensures WriterMoved(r, r.Commit(amt))
  {
    hide Readable, Queue;
  }

  lemma CommitValid(r: Ring, amt: nat)
    requires r.Valid() && r.outBlk.Some? && r.blk[r.head].len + amt <= r.blkSize
    ensures r.Commit(amt).Valid()
  {
  }

  lemma CommittedGoesLast(r: Ring, s: Ring)
    requires r.Valid() && s.Valid() && |s.blk| == |r.blk| && s.tail == r.tail && s.count == r.count + 1
    requires s.blk[r.head].read == 0
    requires forall i | 0 <= i < |r.blk| && i != r.head :: s.blk[i] == r.blk[i]
    ensures Readable(s) == Readable(r) + s.blk[r.head].buf[..s.blk[r.head].len]
  {
    UnreadFrameHead(r, s);
    UnreadSnoc(s.blk, r.tail, r.count);
    assert Slot(r.tail, r.count, |r.blk|) == r.head;
  }

  lemma TakeInKeeps(r: Ring)
    requires r.Valid() && r.inBlk.None? && 0 < r.count
    ensures var s := r.TakeIn();
      s.Valid() && Queue(s) == Queue(r) && ReaderMoved(r, s)
  {
    var s := r.TakeIn();
    assert Queue(r)[0..] == Queue(r);
  }

  /** ReadComplete takes the `amt` bytes from `read` on off the front of the queue. */
  lemma FinishKeeps(r: Ring, amt: nat)
    requires r.Valid() && r.inBlk.Some? && r.blk[r.tail].read + amt <= r.blk[r.tail].len
    ensures var s, b := r.Finish(amt), r.blk[r.tail];
      s.Valid() && ReaderMoved(r, s) && Queue(r) == b.buf[b.read..b.read + amt] + Queue(s)
  {
    var s, b := r.Finish(amt), r.blk[r.tail];
    FinishValid(r, amt);
    FinishFrame(r, amt);
    FinishTakesFront(r, amt);
    DropsFront(b.buf[b.read..b.read + amt], Readable(s), Pending(s));
    hide Ring.Valid, Readable, Pending, ReaderFrame, WriterMoved;
  }

  lemma DropsFront(x: seq<byte>, a: seq<byte>, p: seq<byte>)
    ensures (x + a) + p == x + (a + p)
    ensures ((x + a) + p)[|(x + a) + p| - |a + p|..] == a + p
  {
  }

  lemma FinishValid(r: Ring, amt: nat)
    requires r.Valid() && r.inBlk.Some? && r.blk[r.tail].read + amt <= r.blk[r.tail].len
    ensures r.Finish(amt).Valid()
  {
    assert r.Committed(r.tail);
    var s := r.Finish(amt);
    assert forall i | 0 <= i < |r.blk| && i != r.tail :: s.blk[i] == r.blk[i];
    assert forall i | 0 <= i < |r.blk| && s.Committed(i) :: r.Committed(i);
  }

  lemma FinishFrame(r: Ring, amt: nat)
    requires r.Valid() && r.inBlk.Some? && r.blk[r.tail].read + amt <= r.blk[r.tail].len
    ensures ReaderFrame(r, r.Finish(amt))
  {
  }

  lemma FinishTakesFront(r: Ring, amt: nat)
    requires r.Valid() && r.inBlk.Some? && r.blk[r.tail].read + amt <= r.blk[r.tail].len
    requires r.Finish(amt).Valid()
    ensures var s, b := r.Finish(amt), r.blk[r.tail];
      Readable(r) == b.buf[b.read..b.read + amt] + Readable(s) && Pending(s) == Pending(r)
  {
    hide Unread, Avail;
    UnreadDrop(r.blk, r.Finish(amt).blk, r.tail, r.count, amt);
  }

  /** Reading `amt` more bytes of the first block drops them from the front. */
  lemma UnreadDrop(a: seq<Blk>, b: seq<Blk>, t: nat, c: nat, amt: nat)
    requires Sound(a) && Sound(b) && t < |a| && 0 < c < |a|
    requires a[t].read + amt <= a[t].len && b == a[t := a[t].(read := a[t].read + amt)]
    ensures var x, u := a[t], Next(t, |a|);
      && Unread(a, t, c) == x.buf[x.read..x.read + amt] + Unread(b, t, c)
      && (x.read + amt == x.len ==> Unread(b, t, c) == Unread(b, u, c - 1))
  {
    var x, u := a[t], Next(t, |a|);
    forall k | 0 <= k < c - 1
      ensures Avail(a[Slot(u, k, |a|)]) == Avail(b[Slot(u, k, |a|)])
    {
      assert Slot(u, k, |a|) != t;
    }
    UnreadFrame(a, b, u, c - 1);
    assert Avail(x) == x.buf[x.read..x.read + amt] + Avail(b[t]);
  }

  /** Changing only the block at `head` leaves the readable bytes alone. */
  lemma UnreadFrameHead(r: Ring, s: Ring)
    requires r.Valid() && Sound(s.blk) && |s.blk| == |r.blk|
    requires forall i | 0 <= i < |r.blk| && i != r.head :: s.blk[i] == r.blk[i]
    ensures Unread(s.blk, r.tail, r.count) == Readable(r)
  {
    forall k | 0 <= k < r.count
      ensures Avail(r.blk[Slot(r.tail, k, |r.blk|)]) == Avail(s.blk[Slot(r.tail, k, |r.blk|)])
    {
      assert Slot(r.tail, k, |r.blk|) != r.head;
    }
    UnreadFrame(r.blk, s.blk, r.tail, r.count);
  }

  // ----- what each side may rely on -----

  /** `b` is `a` after any activity of the reading side: nothing the writing side uses has
      changed, space only grew, and the queue lost bytes at its front only. */
  ghost predicate ReaderMoved(a: Ring, b: Ring)
    requires a.Valid()
  {
    && b.Valid()
    && ReaderFrame(a, b)
    && |Queue(b)| <= |Queue(a)| && Queue(b) == Queue(a)[|Queue(a)| - |Queue(b)|..]
  }

  ghost predicate ReaderFrame(a: Ring, b: Ring) {
    && b.blkSize == a.blkSize && |b.blk| == |a.blk|
    && b.head == a.head && b.outBlk == a.outBlk && b.count <= a.count
    && (forall i | 0 <= i < |a.blk| :: b.blk[i].buf == a.blk[i].buf && b.blk[i].len == a.blk[i].len)
    && (forall i | 0 <= i < |a.blk| && b.Committed(i) :: a.Committed(i))
  }

  /** `b` is `a` after any activity of the writing side: every committed block is as it was,
      and the queue grew at its back only. */
  ghost predicate WriterMoved(a: Ring, b: Ring)
    requires a.Valid()
  {
    && b.Valid()
    && b.blkSize == a.blkSize && |b.blk| == |a.blk|
    && b.tail == a.tail && b.inBlk == a.inBlk && a.count <= b.count
    && (forall i | 0 <= i < |a.blk| && a.Committed(i) :: b.Committed(i) && b.blk[i] == a.blk[i])
    && Readable(a) <= Readable(b) && Queue(a) <= Queue(b)
  }

  /** What the writing side sees of it. */
  lemma WriteSideStays(a: Ring, b: Ring)
    requires a.Valid() && ReaderMoved(a, b)
    ensures b.head == a.head < |a.blk| == |b.blk| && b.outBlk == a.outBlk && b.blkSize == a.blkSize
    ensures b.blk[b.head].len == a.blk[a.head].len && b.blk[b.head].buf == a.blk[a.head].buf
    ensures !a.Full() ==> !b.Full()
  {
    CountIsDistance(a);
    CountIsDistance(b);
  }

  lemma ReaderMovedTransitive(a: Ring, b: Ring, c: Ring)
    requires a.Valid() && ReaderMoved(a, b) && ReaderMoved(b, c)
    ensures ReaderMoved(a, c)
  {
  }

  lemma ReaderMovedNothing(a: Ring)
    requires a.Valid()
    ensures ReaderMoved(a, a)
  {
    assert Queue(a)[0..] == Queue(a);
  }

  lemma WriterMovedNothing(a: Ring)
    requires a.Valid()
    ensures WriterMoved(a, a)
  {
  }

  lemma WriterMovedTransitive(a: Ring, b: Ring, c: Ring)
    requires a.Valid() && WriterMoved(a, b) && WriterMoved(b, c)
    ensures WriterMoved(a, c)
  {
  }

  // ----- one turn of BlockFifo::Write and of BlockFifo::Read -----

  /** Bytes that can be written before the ring is full. */
  ghost function Space(r: Ring): int
    requires r.Valid()
  {
    (|r.blk| - 1 - r.count) * r.blkSize - |Pending(r)|
  }

  lemma PendingFits(r: Ring)
    requires r.Valid()
    ensures |Pending(r)| <= r.blkSize
  {
  }

  lemma SpaceOfFull(r: Ring)
    requires r.Valid()
    ensures 0 <= Space(r)
    ensures Space(r) == 0 <==> r.Full()
    ensures r.outBlk.Some? ==> r.blkSize - r.blk[r.head].len <= Space(r)
  {
    CountIsDistance(r);
    var free := |r.blk| - 1 - r.count;
    if free > 0 {
      assert free * r.blkSize == (free - 1) * r.blkSize + r.blkSize;
      assert 0 <= (free - 1) * r.blkSize;
    }
  }

  /** `s` is `r` with `data` written: at the back of the queue, out of the free space, with
      nothing changed that the reading side uses, and only full blocks committed. */
  ghost predicate Wrote(r: Ring, s: Ring, data: seq<byte>) {
    && r.Valid() && s.Valid() && WriterMoved(r, s) && FullCommits(r, s)
    && Queue(s) == Queue(r) + data && Space(s) == Space(r) - |data|
  }

  ghost predicate FullCommits(r: Ring, s: Ring) {
    forall i | 0 <= i < |s.blk| && s.Committed(i) && !r.Committed(i) :: s.blk[i].len == s.blkSize
  }

  lemma WroteNothing(r: Ring)
    requires r.Valid()
    ensures Wrote(r, r, [])
  {
  }

  lemma WroteMore(r: Ring, s: Ring, t: Ring, x: seq<byte>, y: seq<byte>)
    requires Wrote(r, s, x) && Wrote(s, t, y)
    ensures Wrote(r, t, x + y)
  {
    WriterMovedTransitive(r, s, t);
    assert Queue(r) + (x + y) == Queue(r) + x + y;
  }

  /** What could not take a byte is full. */
  lemma WroteUntilFull(r: Ring, s: Ring, data: seq<byte>)
    requires Wrote(r, s, data) && data == [] && Space(r) == 0
    ensures s.Full()
  {
    hide Ring.Valid, WriterMoved, FullCommits, Space, Queue;
    SpaceOfFull(s);
  }

  lemma WroteByTakeOut(r: Ring)
    requires r.Valid() && r.outBlk.None? && !r.Full()
    ensures Wrote(r, r.TakeOut(), [])
  {
    TakeOutKeeps(r);
  }

  /** WriteStart gives a pointer exactly when there is space. */
  lemma WroteByWriteStart(r: Ring)
    requires r.Valid()
    ensures var s := if r.outBlk.Some? || r.Full() then r else r.TakeOut();
      Wrote(r, s, []) && (s.outBlk.Some? <==> Space(r) != 0)
  {
    SpaceOfFull(r);
    WroteNothing(r);
    if r.outBlk.None? && !r.Full() { WroteByTakeOut(r); }
  }

  lemma WroteByPoke(r: Ring, data: seq<byte>)
    requires r.Valid() && r.outBlk.Some? && r.blk[r.head].len + |data| <= r.blkSize
    ensures Wrote(r, r.Poke(r.head, r.blk[r.head].len, data), [])
  {
    PokeKeeps(r, r.blk[r.head].len, data);
    assert |Pending(r.Poke(r.head, r.blk[r.head].len, data))| == |Pending(r)|;
  }

  lemma WroteByCommit(r: Ring, data: seq<byte>)
    requires r.Valid() && r.outBlk.Some? && 0 < |data| <= r.blkSize - r.blk[r.head].len
    requires data == r.blk[r.head].buf[r.blk[r.head].len..][..|data|]
    ensures Wrote(r, r.Commit(|data|), data)
  {
    CommitKeeps(r, |data|);
    CommitSpace(r, |data|);
  }

  lemma CommitSpace(r: Ring, amt: nat)
    requires r.Valid() && r.outBlk.Some? && 0 < amt <= r.blkSize - r.blk[r.head].len
    requires r.Commit(amt).Valid()
    ensures Space(r.Commit(amt)) == Space(r) - amt
  {
    var s := r.Commit(amt);
    PendingAfter(r, amt);
    OneLess(|r.blk| - 1 - r.count, |s.blk| - 1 - s.count, r.blkSize);
  }

  lemma PendingAfter(r: Ring, amt: nat)
    requires r.Valid() && r.outBlk.Some? && 0 < amt <= r.blkSize - r.blk[r.head].len
    requires r.Commit(amt).Valid()
    ensures var s, n := r.Commit(amt), |Pending(r)| + amt;
      && s.blkSize == r.blkSize && |s.blk| == |r.blk|
      && if n == r.blkSize then s.count == r.count + 1 && Pending(s) == [] else s.count == r.count && |Pending(s)| == n
  {
  }

  lemma OneLess(n: int, m: int, size: nat)
    ensures m == n - 1 ==> m * size == n * size - size
  {
  }

  /** `s` is `r` with `data` read: off the front of the readable bytes, with nothing changed
      that the writing side uses. */
  ghost predicate Took(r: Ring, s: Ring, data: seq<byte>) {
    && r.Valid() && s.Valid() && ReaderMoved(r, s)
    && Queue(r) == data + Queue(s) && Readable(r) == data + Readable(s)
  }

  lemma TookNothing(r: Ring)
    requires r.Valid()
    ensures Took(r, r, [])
  {
    assert Queue(r)[0..] == Queue(r);
  }

  lemma TookMore(r: Ring, s: Ring, t: Ring, x: seq<byte>, y: seq<byte>)
    requires Took(r, s, x) && Took(s, t, y)
    ensures Took(r, t, x + y)
  {
    ReaderMovedTransitive(r, s, t);
    assert x + (y + Queue(t)) == x + y + Queue(t);
    assert x + (y + Readable(t)) == x + y + Readable(t);
  }

  /** ReadStart gives a pointer exactly when a block is committed. */
  lemma TookByReadStart(r: Ring)
    requires r.Valid()
    ensures var s := if r.inBlk.Some? || r.count == 0 then r else r.TakeIn();
      Took(r, s, []) && (s.inBlk.Some? <==> r.count != 0)
  {
    TookNothing(r);
    if r.inBlk.None? && r.count != 0 { TakeInKeeps(r); }
  }

  lemma TookByFinish(r: Ring, amt: nat)
    requires r.Valid() && r.inBlk.Some? && r.blk[r.tail].read + amt <= r.blk[r.tail].len
    ensures var s, b := r.Finish(amt), r.blk[r.tail];
      Took(r, s, b.buf[b.read..b.read + amt]) && (b.read + amt == b.len ==> s.count < r.count)
  {
    FinishKeeps(r, amt);
    FinishTakesFront(r, amt);
  }

  /** No committed block is empty. */
  ghost predicate NoneEmpty(r: Ring)
    requires r.Valid()
  {
    forall i | 0 <= i < |r.blk| && r.Committed(i) :: 0 < r.blk[i].len
  }

  lemma NoBlocksNoBytes(r: Ring)
    requires r.Valid() && r.count == 0
    ensures Readable(r) == []
  {
  }

  lemma NothingReadable(r: Ring)
    requires r.Valid() && NoneEmpty(r)
    ensures Readable(r) == [] <==> r.count == 0
  {
    if r.count != 0 {
      assert r.Committed(r.tail);
      assert 0 < |Avail(r.blk[r.tail])|;
    }
  }

  // ----- the committed blocks, one by one -----

  /** The unread bytes of each of the `c` blocks from `t` on. */
  ghost function FrontsFrom(blk: seq<Blk>, t: nat, c: nat): (fs: seq<nat>)
    requires Sound(blk) && t < |blk| && c < |blk|
    ensures |fs| == c
    decreases c
  {
    if c == 0 then [] else [blk[t].len - blk[t].read] + FrontsFrom(blk, Next(t, |blk|), c - 1)
  }

  /** The unread bytes of each committed block, in order. */
  ghost function Fronts(r: Ring): seq<nat>
    requires r.Valid()
  {
    FrontsFrom(r.blk, r.tail, r.count)
  }

  lemma {:induction false} FrontsFrame(a: seq<Blk>, b: seq<Blk>, t: nat, c: nat)
    requires Sound(a) && Sound(b) && |a| == |b| && t < |a| && c < |a|
    requires forall k | 0 <= k < c :: var i := Slot(t, k, |a|); b[i].len == a[i].len && b[i].read == a[i].read
    ensures FrontsFrom(a, t, c) == FrontsFrom(b, t, c)
    decreases c
  {
    if c > 0 {
      var u := Next(t, |a|);
      assert Slot(t, 0, |a|) == t;
      forall k | 0 <= k < c - 1
        ensures var i := Slot(u, k, |a|); b[i].len == a[i].len && b[i].read == a[i].read
      {
        assert Slot(u, k, |a|) == Slot(t, k + 1, |a|);
      }
      FrontsFrame(a, b, u, c - 1);
    }
  }

  lemma FrontsDrop(a: seq<Blk>, b: seq<Blk>, t: nat, c: nat, n: nat)
    requires Sound(a) && Sound(b) && t < |a| && 0 < c < |a| && a[t].read + n <= a[t].len
    requires b == a[t := a[t].(read := a[t].read + n)]
    ensures var u, rest := Next(t, |a|), a[t].len - a[t].read;
      var more := FrontsFrom(a, u, c - 1);
      && FrontsFrom(a, t, c) == [rest] + more
      && FrontsFrom(b, t, c) == [rest - n] + more
      && FrontsFrom(b, u, c - 1) == more
  {
    var u := Next(t, |a|);
    forall k | 0 <= k < c - 1
      ensures var i := Slot(u, k, |a|); b[i].len == a[i].len && b[i].read == a[i].read
    {
      assert Slot(u, k, |a|) != t;
    }
    FrontsFrame(a, b, u, c - 1);
  }

  /** One more block at the far end. */
  lemma {:induction false} FrontsSnoc(a: seq<Blk>, t: nat, c: nat)
    requires Sound(a) && t < |a| && c + 1 < |a|
    ensures var i := Slot(t, c, |a|);
      FrontsFrom(a, t, c + 1) == FrontsFrom(a, t, c) + [a[i].len - a[i].read]
    decreases c
  {
    var u := Next(t, |a|);
    if c == 0 {
      assert FrontsFrom(a, u, 0) == [];
    } else {
      FrontsSnoc(a, u, c - 1);
      assert Slot(u, c - 1, |a|) == Slot(t, c, |a|);
    }
  }

  /** Changing only the block at `head` leaves the committed ones alone. */
  lemma FrontsFrameHead(r: Ring, s: Ring)
    requires r.Valid() && Sound(s.blk) && |s.blk| == |r.blk|
    requires forall i | 0 <= i < |r.blk| && i != r.head :: s.blk[i] == r.blk[i]
    ensures FrontsFrom(s.blk, r.tail, r.count) == Fronts(r)
  {
    forall k | 0 <= k < r.count
      ensures var i := Slot(r.tail, k, |r.blk|); s.blk[i].len == r.blk[i].len && s.blk[i].read == r.blk[i].read
    {
      assert Slot(r.tail, k, |r.blk|) != r.head;
    }
    FrontsFrame(r.blk, s.blk, r.tail, r.count);
  }

  /** Completing bytes: a block committed comes last. */
  lemma FrontsCommit(r: Ring, amt: nat)
    requires r.Valid() && r.outBlk.Some? && r.blk[r.head].len + amt <= r.blkSize && r.Commit(amt).Valid()
    ensures Fronts(r.Commit(amt)) ==
      if amt == 0 || r.blk[r.head].len + amt == r.blkSize then Fronts(r) + [r.blk[r.head].len + amt] else Fronts(r)
  {
    hide FrontsFrom;
    var s := r.Commit(amt);
    FrontsFrameHead(r, s);
    if s.outBlk.None? {
      FrontsSnoc(s.blk, r.tail, r.count);
      assert Slot(r.tail, r.count, |r.blk|) == r.head;
    }
  }

  // ----- the two sides commute -----

  /** The lock sections, and the unlocked stores, of the writing side. */
  datatype Write = TakeOut | Store(at: nat, b: byte) | Commit(amt: nat)

  /** The lock sections of the reading side. */
  datatype Read = TakeIn | Finish(amt: nat)

  ghost predicate CanWrite(r: Ring, w: Write)
    requires r.Valid()
  {
    match w
    case TakeOut => r.outBlk.None? && !r.Full()
    case Store(at, _) => r.outBlk.Some? && r.blk[r.head].len <= at < r.blkSize
    case Commit(amt) => r.outBlk.Some? && r.blk[r.head].len + amt <= r.blkSize
  }

  ghost predicate CanRead(r: Ring, d: Read)
    requires r.Valid()
  {
    match d
    case TakeIn => r.inBlk.None? && 0 < r.count
    case Finish(amt) => r.inBlk.Some? && r.blk[r.tail].read + amt <= r.blk[r.tail].len
  }

  function DoWrite(r: Ring, w: Write): Ring
    requires r.Valid() && CanWrite(r, w)
  {
    match w
    case TakeOut => r.TakeOut()
    case Store(at, b) => r.Poke(r.head, at, [b])
    case Commit(amt) => r.Commit(amt)
  }

  function DoRead(r: Ring, d: Read): Ring
    requires r.Valid() && CanRead(r, d)
  {
    match d
    case TakeIn => r.TakeIn()
    case Finish(amt) => r.Finish(amt)
  }

  /** Whatever the writing side does, the reading side may rely on `WriterMoved`. */
  lemma WriteMoves(r: Ring, w: Write)
    requires r.Valid() && CanWrite(r, w)
    ensures WriterMoved(r, DoWrite(r, w))
  {
    match w
    case TakeOut => TakeOutKeeps(r);
    case Store(at, b) => PokeKeeps(r, at, [b]);
    case Commit(amt) => CommitKeeps(r, amt);
  }

  /** Whatever the reading side does, the writing side may rely on `ReaderMoved`. */
  lemma ReadMoves(r: Ring, d: Read)
    requires r.Valid() && CanRead(r, d)
    ensures ReaderMoved(r, DoRead(r, d))
  {
    match d
    case TakeIn => TakeInKeeps(r);
    case Finish(amt) => FinishKeeps(r, amt);
  }

  /** A step of one side neither disables a step of the other nor changes what it does:
      the two orders end in the same ring. */
  lemma StepsCommute(r: Ring, w: Write, d: Read)
    requires r.Valid() && CanWrite(r, w) && CanRead(r, d)
    ensures DoWrite(r, w).Valid() && CanRead(DoWrite(r, w), d)
    ensures DoRead(r, d).Valid() && CanWrite(DoRead(r, d), w)
    ensures DoRead(DoWrite(r, w), d) == DoWrite(DoRead(r, d), w)
  {
    StillCanRead(r, w, d);
    StillCanWrite(r, w, d);
    SameEnd(r, w, d);
  }

  lemma StillCanRead(r: Ring, w: Write, d: Read)
    requires r.Valid() && CanWrite(r, w) && CanRead(r, d)
    ensures DoWrite(r, w).Valid() && CanRead(DoWrite(r, w), d)
  {
    WriteMoves(r, w);
    assert r.Committed(r.tail);
  }

  lemma StillCanWrite(r: Ring, w: Write, d: Read)
    requires r.Valid() && CanWrite(r, w) && CanRead(r, d)
    ensures DoRead(r, d).Valid() && CanWrite(DoRead(r, d), w)
  {
    ReadMoves(r, d);
    assert DoRead(r, d).blk[r.head].len == r.blk[r.head].len;
  }

  lemma SameEnd(r: Ring, w: Write, d: Read)
    requires r.Valid() && CanWrite(r, w) && CanRead(r, d)
    requires DoWrite(r, w).Valid() && CanRead(DoWrite(r, w), d)
    requires DoRead(r, d).Valid() && CanWrite(DoRead(r, d), w)
    ensures DoRead(DoWrite(r, w), d) == DoWrite(DoRead(r, d), w)
  {
    assert r.head != r.tail;
    match (w, d)
    case (_, TakeIn) =>
    case (TakeOut, Finish(m)) => TakeOutFinishCommute(r, m);
    case (Store(at, b), Finish(m)) => StoreFinishCommute(r, at, b, m);
    case (Commit(amt), Finish(m)) => CommitFinishCommute(r, amt, m);
  }

  lemma TakeOutFinishCommute(r: Ring, m: nat)
    requires r.head < |r.blk| && r.tail < |r.blk| && r.head != r.tail && 0 < r.count
    requires r.inBlk == Some(r.tail)
    ensures r.TakeOut().Finish(m) == r.Finish(m).TakeOut()
  {
    assert r.TakeOut().Finish(m).blk == r.Finish(m).TakeOut().blk;
  }

  lemma StoreFinishCommute(r: Ring, at: nat, b: byte, m: nat)
    requires r.head < |r.blk| && r.tail < |r.blk| && r.head != r.tail && 0 < r.count
    requires r.inBlk == Some(r.tail) && at < |r.blk[r.head].buf|
    ensures r.Poke(r.head, at, [b]).Finish(m) == r.Finish(m).Poke(r.head, at, [b])
  {
    assert r.Poke(r.head, at, [b]).Finish(m).blk == r.Finish(m).Poke(r.head, at, [b]).blk;
  }

  lemma CommitFinishCommute(r: Ring, amt: nat, m: nat)
    requires r.head < |r.blk| && r.tail < |r.blk| && r.head != r.tail && 0 < r.count
    requires r.outBlk == Some(r.head) && r.inBlk == Some(r.tail)
    ensures r.Commit(amt).Finish(m) == r.Finish(m).Commit(amt)
  {
    assert r.Commit(amt).Finish(m).blk == r.Finish(m).Commit(amt).blk;
  }

  // ----- runs of one side -----

  ghost predicate CanWriteAll(r: Ring, ws: seq<Write>)
    requires r.Valid()
    decreases |ws|
  {
    ws == [] ||
    (CanWrite(r, ws[0]) && (WriteMoves(r, ws[0]); CanWriteAll(DoWrite(r, ws[0]), ws[1..])))
  }

  ghost function WriteAll(r: Ring, ws: seq<Write>): (s: Ring)
    requires r.Valid() && CanWriteAll(r, ws)
    ensures WriterMoved(r, s)
    decreases |ws|
  {
    if ws == [] then r else WriteMoves(r, ws[0]); WriteAll(DoWrite(r, ws[0]), ws[1..])
  }

  ghost predicate CanReadAll(r: Ring, ds: seq<Read>)
    requires r.Valid()
    decreases |ds|
  {
    ds == [] ||
    (CanRead(r, ds[0]) && (ReadMoves(r, ds[0]); CanReadAll(DoRead(r, ds[0]), ds[1..])))
  }

  ghost function ReadAll(r: Ring, ds: seq<Read>): (s: Ring)
    requires r.Valid() && CanReadAll(r, ds)
    ensures ReaderMoved(r, s)
    decreases |ds|
  {
    if ds == [] then assert Queue(r)[0..] == Queue(r); r
    else ReadMoves(r, ds[0]); ReadAll(DoRead(r, ds[0]), ds[1..])
  }

  /** Anything the reading side does between the check and the act of a writing step might as
      well have happened after the act: check and act are one atomic step. */
  lemma {:induction false} WriteActsAtItsCheck(r: Ring, w: Write, ds: seq<Read>)
    requires r.Valid() && CanWrite(r, w) && CanReadAll(r, ds)
    ensures DoWrite(r, w).Valid() && CanReadAll(DoWrite(r, w), ds)
    ensures CanWrite(ReadAll(r, ds), w)
    ensures DoWrite(ReadAll(r, ds), w) == ReadAll(DoWrite(r, w), ds)
    decreases |ds|
  {
    WriteMoves(r, w);
    if ds != [] {
      StepsCommute(r, w, ds[0]);
      WriteActsAtItsCheck(DoRead(r, ds[0]), w, ds[1..]);
    }
  }

  /** A run of the writing side and a run of the reading side that are both possible commute. */
  lemma {:induction false} RunsCommute(r: Ring, ws: seq<Write>, ds: seq<Read>)
    requires r.Valid() && CanWriteAll(r, ws) && CanReadAll(r, ds)
    ensures CanReadAll(WriteAll(r, ws), ds) && CanWriteAll(ReadAll(r, ds), ws)
    ensures ReadAll(WriteAll(r, ws), ds) == WriteAll(ReadAll(r, ds), ws)
    decreases |ws|
  {
    if ws != [] {
      WriteActsAtItsCheck(r, ws[0], ds);
      RunsCommute(DoWrite(r, ws[0]), ws[1..], ds);
    }
  }

  // ----- interleavings -----

  datatype Move = W(w: Write) | R(d: Read)

  ghost predicate CanMove(r: Ring, m: Move)
    requires r.Valid()
  {
    match m
    case W(w) => CanWrite(r, w)
    case R(d) => CanRead(r, d)
  }

  ghost function DoMove(r: Ring, m: Move): (s: Ring)
    requires r.Valid() && CanMove(r, m)
    ensures s.Valid()
  {
    match m
    case W(w) => WriteMoves(r, w); DoWrite(r, w)
    case R(d) => ReadMoves(r, d); DoRead(r, d)
  }

  ghost predicate CanMoveAll(r: Ring, ms: seq<Move>)
    requires r.Valid()
    decreases |ms|
  {
    ms == [] || (CanMove(r, ms[0]) && CanMoveAll(DoMove(r, ms[0]), ms[1..]))
  }

  ghost function MoveAll(r: Ring, ms: seq<Move>): (s: Ring)
    requires r.Valid() && CanMoveAll(r, ms)
    ensures s.Valid()
    decreases |ms|
  {
    if ms == [] then r else MoveAll(DoMove(r, ms[0]), ms[1..])
  }

  /** What the writing side does in an interleaving. */
  function Writes(ms: seq<Move>): seq<Write> {
    if ms == [] then [] else (if ms[0].W? then [ms[0].w] else []) + Writes(ms[1..])
  }

  function Reads(ms: seq<Move>): seq<Read> {
    if ms == [] then [] else (if ms[0].R? then [ms[0].d] else []) + Reads(ms[1..])
  }

  /** The two sides' moves commute. */
  lemma MovesCommute(r: Ring, a: Move, b: Move)
    requires r.Valid() && CanMove(r, a) && CanMove(r, b) && a.W? != b.W?
    ensures CanMove(DoMove(r, a), b) && CanMove(DoMove(r, b), a)
    ensures DoMove(DoMove(r, a), b) == DoMove(DoMove(r, b), a)
  {
    hide DoWrite, DoRead, CanWrite, CanRead, Ring.Valid;
    if a.W? { StepsCommute(r, a.w, b.d); } else { StepsCommute(r, b.w, a.d); }
  }

  /** `m` is the first move its side makes in `ms`; `ns` is `ms` without it. */
  ghost predicate FirstOfItsSide(m: Move, ms: seq<Move>, ns: seq<Move>) {
    if m.W? then Writes(ms) == [m.w] + Writes(ns) && Reads(ms) == Reads(ns)
    else Reads(ms) == [m.d] + Reads(ns) && Writes(ms) == Writes(ns)
  }

  /** A side's first move can be made before the moves of the other side ahead of it. */
  lemma {:induction false} BringForward(r: Ring, m: Move, ms: seq<Move>) returns (ns: seq<Move>)
    requires r.Valid() && CanMove(r, m) && CanMoveAll(r, ms)
    requires NextOfItsSide(m, ms)
    ensures CanMoveAll(DoMove(r, m), ns) && MoveAll(DoMove(r, m), ns) == MoveAll(r, ms)
    ensures FirstOfItsSide(m, ms, ns) && |ns| < |ms|
    decreases |ms|
  {
    FirstMove(m, ms);
    hide DoMove, CanMove, Ring.Valid, FirstOfItsSide, Writes, Reads;
    if ms[0].W? == m.W? {
      ns := ms[1..];
    } else {
      MovesCommute(r, m, ms[0]);
      var rest := BringForward(DoMove(r, ms[0]), m, ms[1..]);
      BehindTheOther(m, ms, rest);
      ns := [ms[0]] + rest;
      assert ns[1..] == rest;
    }
  }

  /** `m` is the next move of its side. */
  ghost predicate NextOfItsSide(m: Move, ms: seq<Move>) {
    if m.W? then Writes(ms) != [] && Writes(ms)[0] == m.w else Reads(ms) != [] && Reads(ms)[0] == m.d
  }

  lemma FirstMove(m: Move, ms: seq<Move>)
    requires NextOfItsSide(m, ms)
    ensures ms != []
    ensures ms[0].W? == m.W? ==> ms[0] == m && FirstOfItsSide(m, ms, ms[1..])
    ensures ms[0].W? != m.W? ==> NextOfItsSide(m, ms[1..])
  {
  }

  lemma BehindTheOther(m: Move, ms: seq<Move>, rest: seq<Move>)
    requires ms != [] && ms[0].W? != m.W? && FirstOfItsSide(m, ms[1..], rest)
    ensures FirstOfItsSide(m, ms, [ms[0]] + rest)
  {
    assert ([ms[0]] + rest)[1..] == rest;
  }

  /** What an interleaving leaves behind depends only on what each side did: two interleavings of
      the same moves of each side, both possible, end in the same ring. */
  lemma {:induction false} InterleavingsAgree(r: Ring, ms: seq<Move>, ns: seq<Move>)
    requires r.Valid() && CanMoveAll(r, ms) && CanMoveAll(r, ns)
    requires Writes(ms) == Writes(ns) && Reads(ms) == Reads(ns)
    ensures MoveAll(r, ms) == MoveAll(r, ns)
    decreases |ms|
  {
    hide DoMove, CanMove, Ring.Valid;
    if ms == [] {
      NoMoves(ns);
    } else {
      var rest := BringForward(r, ms[0], ns);
      if ms[0].W? {
        SameTail(ms[0].w, Writes(ms[1..]), Writes(rest));
      } else {
        SameTail(ms[0].d, Reads(ms[1..]), Reads(rest));
      }
      InterleavingsAgree(DoMove(r, ms[0]), ms[1..], rest);
    }
  }

  lemma SameTail<T>(x: T, a: seq<T>, b: seq<T>)
    requires [x] + a == [x] + b
    ensures a == b
  {
    assert a == ([x] + a)[1..] && b == ([x] + b)[1..];
  }

  lemma NoMoves(ms: seq<Move>)
    requires Writes(ms) == [] && Reads(ms) == []
    ensures ms == []
  {
  }
}

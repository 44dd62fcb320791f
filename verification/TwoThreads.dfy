/** One writing and one reading thread over a ring, at the finest grain: every lock section
    is one step, and every byte stored or loaded through a block pointer, which happens with
    no lock held, is a step of its own. */
module TwoThreads {
  import opened Bytes
  import opened Rings
  import opened RingMoves

  /** Where the writing thread is. `Holds` keeps the pointer WriteStart returned, as block and
      offset, and what this thread believes the memory behind it to be. */
  datatype Writer =
    | Idle
    | SawRoom                                   // WaitNotFull was true, no block taken yet
    | Holds(blk: nat, off: nat, view: seq<byte>)

  /** Where the reading thread is. `Holds` keeps the pointer ReadStart returned, the amount it
      reported and what this thread has loaded through it so far. */
  datatype Reader =
    | Idle
    | SawData                                   // WaitNotEmpty was true, no block taken yet
    | Holds(blk: nat, off: nat, max: nat, got: seq<byte>)

  datatype Action =
    | WriteCheck                     // WriteStart, no block checked out: WaitNotFull
    | WriteTake                      // WriteStart: second lock section
    | WriteResume                    // WriteStart with a block checked out
    | Store(i: nat, b: byte)         // unlocked store at the pointer plus i
    | WriteDone(amt: nat)            // WriteComplete
    | ReadCheck
    | ReadTake
    | ReadResume
    | Load                           // unlocked load of the next byte
    | ReadDone(amt: nat)             // ReadComplete

  datatype State = State(ring: Ring, w: Writer, r: Reader, produced: seq<byte>, consumed: seq<byte>)

  /** `Failed` is a failed Q_ASSERT or an access outside a block. */
  datatype Outcome = Next(s: State) | Failed

  function Start(blkSize: nat, blkCount: nat): State {
    State(Init(blkSize, blkCount), Writer.Idle, Reader.Idle, [], [])
  }

  /** One step. An action its thread is not ready for leaves the state as it is. A pointer may
      be dropped by calling WriteStart or ReadStart again, as the socket pumps do after EAGAIN. */
  function Step(s: State, a: Action): Outcome {
    match a
    case WriteCheck =>
      if s.w.SawRoom? || s.ring.outBlk.Some? then Next(s)
      else if s.ring.head >= |s.ring.blk| then Failed
      else Next(s.(w := if s.ring.Full() then Writer.Idle else SawRoom))
    case WriteTake =>
      if !s.w.SawRoom? then Next(s)
      else if s.ring.head >= |s.ring.blk| then Failed
      else
        var h := s.ring.head;
        Next(s.(ring := s.ring.TakeOut(), w := Writer.Holds(h, 0, s.ring.blk[h].buf)))
    case WriteResume =>
      if s.w.SawRoom? || s.ring.outBlk.None? then Next(s)
      else
        var o := s.ring.outBlk.value;
        if o >= |s.ring.blk| || s.ring.blk[o].len > |s.ring.blk[o].buf| then Failed
        else Next(s.(w := Writer.Holds(o, s.ring.blk[o].len, s.ring.blk[o].buf[s.ring.blk[o].len..])))
    case Store(i, b) =>
      if !s.w.Holds? || i >= |s.w.view| then Next(s)
      else if s.w.blk >= |s.ring.blk| || s.w.off + i >= |s.ring.blk[s.w.blk].buf| then Failed
      else Next(s.(ring := s.ring.Poke(s.w.blk, s.w.off + i, [b]),
                   w := s.w.(view := s.w.view[i := b])))
    case WriteDone(amt) =>
      if !s.w.Holds? || amt > |s.w.view| then Next(s)
      else if s.ring.outBlk.None? || s.ring.outBlk.value >= |s.ring.blk| || s.ring.head >= |s.ring.blk|
        || amt + s.ring.blk[s.ring.outBlk.value].len > s.ring.blkSize then Failed
      else Next(s.(ring := s.ring.Commit(amt), w := Writer.Idle,
                   produced := s.produced + s.w.view[..amt]))
    case ReadCheck =>
      if s.r.SawData? || s.ring.inBlk.Some? then Next(s)
      else Next(s.(r := if s.ring.Empty() then Reader.Idle else SawData))
    case ReadTake =>
      if !s.r.SawData? then Next(s)
      else if s.ring.count == 0 || s.ring.tail >= |s.ring.blk| then Failed
      else Next(s.(ring := s.ring.TakeIn(),
                   r := Reader.Holds(s.ring.tail, 0, s.ring.blk[s.ring.tail].len, [])))
    case ReadResume =>
      if s.r.SawData? || s.ring.inBlk.None? then Next(s)
      else
        var i := s.ring.inBlk.value;
        if s.ring.count == 0 || i >= |s.ring.blk| || s.ring.blk[i].read > s.ring.blk[i].len then Failed
        else Next(s.(r := Reader.Holds(i, s.ring.blk[i].read, s.ring.blk[i].len - s.ring.blk[i].read, [])))
    case Load =>
      if !s.r.Holds? || |s.r.got| >= s.r.max then Next(s)
      else
        var at := s.r.off + |s.r.got|;
        if s.r.blk >= |s.ring.blk| || at >= |s.ring.blk[s.r.blk].buf| then Failed
        else Next(s.(r := s.r.(got := s.r.got + [s.ring.blk[s.r.blk].buf[at]])))
    case ReadDone(amt) =>
      if !s.r.Holds? || amt > |s.r.got| then Next(s)
      else if s.ring.inBlk.None? || s.ring.inBlk.value >= |s.ring.blk| || s.ring.count == 0
        || s.ring.tail >= |s.ring.blk|
        || s.ring.blk[s.ring.inBlk.value].read + amt > s.ring.blk[s.ring.inBlk.value].len then Failed
      else Next(s.(ring := s.ring.Finish(amt), r := Reader.Idle,
                   consumed := s.consumed + s.r.got[..amt]))
  }

  function Run(s: State, actions: seq<Action>): Outcome
    decreases |actions|
  {
    if actions == [] then Next(s)
    else
      match Step(s, actions[0])
      case Failed => Failed
      case Next(t) => Run(t, actions[1..])
  }

  // ----- the invariant -----

  /** What the writing thread may count on between its own steps. */
  ghost predicate WriterKnows(ring: Ring, w: Writer)
    requires ring.Valid()
  {
    match w
    case Idle => true
    case SawRoom => ring.outBlk.None? && !ring.Full()
    case Holds(b, off, view) =>
      ring.outBlk == Some(b) && off == ring.blk[b].len && view == ring.blk[b].buf[off..]
  }

  /** What the reading thread may count on between its own steps. */
  ghost predicate ReaderKnows(ring: Ring, r: Reader)
    requires ring.Valid()
  {
    match r
    case Idle => true
    case SawData => ring.inBlk.None? && 0 < ring.count
    case Holds(b, off, max, got) =>
      && ring.inBlk == Some(b) && off == ring.blk[b].read && off + max == ring.blk[b].len
      && |got| <= max && got == ring.blk[b].buf[off..off + |got|]
  }

  ghost predicate Inv(s: State) {
    && s.ring.Valid()
    && WriterKnows(s.ring, s.w)
    && ReaderKnows(s.ring, s.r)
    && s.produced == s.consumed + Queue(s.ring)
  }

  /** No step of the writing side takes away what the reading thread knows. */
  lemma ReaderStillKnows(a: Ring, b: Ring, r: Reader)
    requires a.Valid() && WriterMoved(a, b) && ReaderKnows(a, r)
    ensures ReaderKnows(b, r)
  {
    if r.Holds? {
      assert a.Committed(a.tail);
    }
  }

  /** No step of the reading side takes away what the writing thread knows. */
  lemma WriterStillKnows(a: Ring, b: Ring, w: Writer)
    requires a.Valid() && ReaderMoved(a, b) && WriterKnows(a, w)
    ensures WriterKnows(b, w)
  {
    if w == SawRoom {
      CountIsDistance(a);
      CountIsDistance(b);
    }
  }

  lemma StoreKeeps(s: State, i: nat, b: byte)
    requires Inv(s) && s.w.Holds? && i < |s.w.view|
    ensures Step(s, Action.Store(i, b)).Next? && Inv(Step(s, Action.Store(i, b)).s)
  {
    hide WriterMoved, Queue, Readable;
    var at := s.w.off + i;
    var t := s.ring.Poke(s.ring.head, at, [b]);
    PokeKeeps(s.ring, at, [b]);
    ReaderStillKnows(s.ring, t, s.r);
    assert t.blk[t.head].buf[s.w.off..] == s.w.view[i := b];
  }

  lemma WriteDoneKeeps(s: State, amt: nat)
    requires Inv(s) && s.w.Holds? && amt <= |s.w.view|
    ensures Step(s, WriteDone(amt)).Next? && Inv(Step(s, WriteDone(amt)).s)
  {
    hide WriterMoved, Queue, Readable;
    var b, t := s.ring.blk[s.ring.head], s.ring.Commit(amt);
    assert s.w.view[..amt] == b.buf[b.len..b.len + amt];
    CommitKeeps(s.ring, amt);
    ReaderStillKnows(s.ring, t, s.r);
    Associate(s.consumed, Queue(s.ring), s.w.view[..amt]);
  }

  lemma Associate<T>(a: seq<T>, b: seq<T>, c: seq<T>)
    ensures (a + b) + c == a + (b + c)
  {
  }

  lemma ReadDoneKeeps(s: State, amt: nat)
    requires Inv(s) && s.r.Holds? && amt <= |s.r.got|
    ensures Step(s, ReadDone(amt)).Next? && Inv(Step(s, ReadDone(amt)).s)
  {
    hide ReaderMoved, Queue, Readable;
    var b, t := s.ring.blk[s.ring.tail], s.ring.Finish(amt);
    assert s.r.got[..amt] == b.buf[b.read..b.read + amt];
    FinishKeeps(s.ring, amt);
    WriterStillKnows(s.ring, t, s.w);
    Associate(s.consumed, s.r.got[..amt], Queue(t));
  }

  /** Every step of either thread succeeds and keeps the invariant. */
  lemma StepKeeps(s: State, a: Action)
    requires Inv(s)
    ensures Step(s, a).Next? && Inv(Step(s, a).s)
  {
    hide Inv, Step;
    if OfReader(a) { ReaderStepKeeps(s, a); } else { WriterStepKeeps(s, a); }
  }

  lemma WriterStepKeeps(s: State, a: Action)
    requires Inv(s) && !OfReader(a)
    ensures Step(s, a).Next? && Inv(Step(s, a).s)
  {
    match a
    case WriteCheck =>
    case WriteTake =>
      if s.w.SawRoom? {
        TakeOutKeeps(s.ring);
        ReaderStillKnows(s.ring, s.ring.TakeOut(), s.r);
      }
    case WriteResume =>
    case Store(i, b) => if s.w.Holds? && i < |s.w.view| { StoreKeeps(s, i, b); }
    case WriteDone(amt) => if s.w.Holds? && amt <= |s.w.view| { WriteDoneKeeps(s, amt); }
  }

  lemma ReaderStepKeeps(s: State, a: Action)
    requires Inv(s) && OfReader(a)
    ensures Step(s, a).Next? && Inv(Step(s, a).s)
  {
    match a
    case ReadCheck =>
    case ReadTake =>
      if s.r.SawData? {
        TakeInKeeps(s.ring);
        assert s.ring.Committed(s.ring.tail);
        WriterStillKnows(s.ring, s.ring.TakeIn(), s.w);
      }
    case ReadResume =>
    case Load =>
    case ReadDone(amt) => if s.r.Holds? && amt <= |s.r.got| { ReadDoneKeeps(s, amt); }
  }

  lemma {:induction false} RunKeeps(s: State, actions: seq<Action>)
    requires Inv(s)
    ensures Run(s, actions).Next? && Inv(Run(s, actions).s)
    decreases |actions|
  {
    if actions != [] {
      StepKeeps(s, actions[0]);
      RunKeeps(Step(s, actions[0]).s, actions[1..]);
    }
  }

  lemma StartInv(blkSize: nat, blkCount: nat)
    requires 0 < blkSize && 0 < blkCount
    ensures Inv(Start(blkSize, blkCount))
  {
  }

  // ----- main results, for every interleaving -----

  /** The ring refines a byte queue: what the reading thread loaded and released, then what is
      committed and unread, then what is pending in the block being filled, is exactly what
      the writing thread stored and completed. No assert fails on the way. */
  lemma RefinesByteQueue(blkSize: nat, blkCount: nat, actions: seq<Action>)
    requires 0 < blkSize && 0 < blkCount
    ensures var o := Run(Start(blkSize, blkCount), actions);
      && o.Next? && o.s.ring.Valid()
      && o.s.produced == o.s.consumed + Readable(o.s.ring) + Pending(o.s.ring)
  {
    StartInv(blkSize, blkCount);
    RunKeeps(Start(blkSize, blkCount), actions);
    var s := Run(Start(blkSize, blkCount), actions).s;
    assert s.consumed + Queue(s.ring) == s.consumed + Readable(s.ring) + Pending(s.ring);
  }

  /** The unlocked accesses never meet: the block the writing thread stores into is `blk[head]`
      and not committed, the one the reading thread loads from is `blk[tail]` and committed. */
  lemma UnlockedAccessIsRaceFree(blkSize: nat, blkCount: nat, actions: seq<Action>)
    requires 0 < blkSize && 0 < blkCount
    ensures var o := Run(Start(blkSize, blkCount), actions);
      && o.Next?
      && (o.s.w.Holds? ==>
            o.s.w.blk == o.s.ring.head && !o.s.ring.Committed(o.s.w.blk) && o.s.ring.outBlk == Some(o.s.w.blk))
      && (o.s.r.Holds? ==>
            o.s.r.blk == o.s.ring.tail && o.s.ring.Committed(o.s.r.blk) && o.s.ring.inBlk == Some(o.s.r.blk))
      && (o.s.w.Holds? && o.s.r.Holds? ==> o.s.w.blk != o.s.r.blk)
  {
    StartInv(blkSize, blkCount);
    RunKeeps(Start(blkSize, blkCount), actions);
  }

  predicate OfReader(a: Action) {
    a.ReadCheck? || a.ReadTake? || a.ReadResume? || a.Load? || a.ReadDone?
  }

  /** A check stays good until its thread acts: after any run, and then any steps of the other
      thread, the second lock section still finds room, or data. */
  lemma CheckStaysGood(blkSize: nat, blkCount: nat, before: seq<Action>, other: seq<Action>)
    requires 0 < blkSize && 0 < blkCount
    requires Run(Start(blkSize, blkCount), before).Next?
    ensures var s := Run(Start(blkSize, blkCount), before).s;
      && Run(s, other).Next?
      && (s.w.SawRoom? && (forall a | a in other :: OfReader(a)) ==>
            Run(s, other).s.w.SawRoom? && Run(s, other).s.ring.head < |s.ring.blk| == |Run(s, other).s.ring.blk|
            && !Run(s, other).s.ring.Full())
      && (s.r.SawData? && (forall a | a in other :: !OfReader(a)) ==>
            Run(s, other).s.r.SawData? && 0 < Run(s, other).s.ring.count)
  {
    StartInv(blkSize, blkCount);
    RunKeeps(Start(blkSize, blkCount), before);
    var s := Run(Start(blkSize, blkCount), before).s;
    RunKeeps(s, other);
    OthersLeavePcAlone(s, other);
  }

  lemma StepLeavesOtherPcAlone(s: State, a: Action)
    requires Step(s, a).Next?
    ensures |Step(s, a).s.ring.blk| == |s.ring.blk|
    ensures if OfReader(a) then Step(s, a).s.w == s.w else Step(s, a).s.r == s.r
  {
  }

  lemma {:induction false} OthersLeavePcAlone(s: State, other: seq<Action>)
    requires Inv(s)
    ensures Run(s, other).Next? && |Run(s, other).s.ring.blk| == |s.ring.blk|
    ensures (forall a | a in other :: OfReader(a)) ==> Run(s, other).s.w == s.w
    ensures (forall a | a in other :: !OfReader(a)) ==> Run(s, other).s.r == s.r
    decreases |other|
  {
    if other != [] {
      StepKeeps(s, other[0]);
      StepLeavesOtherPcAlone(s, other[0]);
      OthersLeavePcAlone(Step(s, other[0]).s, other[1..]);
    }
  }

  // ----- what each step does -----

  /** WriteComplete: the first bytes of what was stored are produced. The block is committed exactly
      if nothing was completed or it is full. */
  lemma WriteDoneDoes(s: State, amt: nat)
    requires Inv(s) && s.w.Holds? && amt <= |s.w.view|
    ensures Step(s, WriteDone(amt)).Next? && Inv(Step(s, WriteDone(amt)).s)
    ensures var t := Step(s, WriteDone(amt)).s;
      && t.w == Writer.Idle && t.produced == s.produced + s.w.view[..amt]
      && t.r == s.r && t.consumed == s.consumed && t.ring.inBlk == s.ring.inBlk && SameSize(s, t)
      && if amt == 0 || amt == |s.w.view|
         then && t.ring.outBlk.None? && Readable(t.ring) == Queue(s.ring) + s.w.view[..amt]
              && Fronts(t.ring) == Fronts(s.ring) + [s.w.off + amt]
         else && t.ring.outBlk == s.ring.outBlk && Readable(t.ring) == Readable(s.ring)
              && Fronts(t.ring) == Fronts(s.ring) && Pending(t.ring) == Pending(s.ring) + s.w.view[..amt]
  {
    hide Queue, Readable, Pending, Fronts;
    WriteDoneKeeps(s, amt);
    CommitDoes(s.ring, amt, s.w.off, s.w.view);
  }

  ghost predicate SameSize(s: State, t: State) {
    t.ring.blkSize == s.ring.blkSize && |t.ring.blk| == |s.ring.blk|
  }

  lemma CommitDoes(r: Ring, amt: nat, off: nat, view: seq<byte>)
    requires r.Valid() && r.outBlk.Some? && off == r.blk[r.head].len
    requires view == r.blk[r.head].buf[off..] && amt <= |view|
    ensures var s := r.Commit(amt);
      && s.Valid() && s.inBlk == r.inBlk
      && if amt == 0 || amt == |view|
         then && s.outBlk.None? && Readable(s) == Queue(r) + view[..amt]
              && Fronts(s) == Fronts(r) + [off + amt]
         else && s.outBlk == r.outBlk && Readable(s) == Readable(r) && Pending(s) == Pending(r) + view[..amt]
              && Fronts(s) == Fronts(r)
  {
    hide Unread, Fronts;
    var s, b := r.Commit(amt), r.blk[r.head];
    assert view[..amt] == b.buf[b.len..b.len + amt];
    assert b.buf[..b.len + amt] == b.buf[..b.len] + view[..amt];
    CommitValid(r, amt);
    FrontsCommit(r, amt);
    if s.outBlk.None? {
      CommittedGoesLast(r, s);
      assert Readable(r) + (b.buf[..b.len] + view[..amt]) == (Readable(r) + b.buf[..b.len]) + view[..amt];
    } else {
      UnreadFrameHead(r, s);
    }
  }

  /** ReadComplete: the first bytes of what was loaded are consumed, and gone from the ring. The block
      is given back exactly if nothing of it is left. */
  lemma ReadDoneDoes(s: State, amt: nat)
    requires Inv(s) && s.r.Holds? && amt <= |s.r.got|
    ensures Step(s, ReadDone(amt)).Next? && Inv(Step(s, ReadDone(amt)).s)
    ensures var t := Step(s, ReadDone(amt)).s;
      && t.r == Reader.Idle && t.consumed == s.consumed + s.r.got[..amt]
      && Readable(s.ring) == s.r.got[..amt] + Readable(t.ring) && Pending(t.ring) == Pending(s.ring)
      && t.w == s.w && t.produced == s.produced && t.ring.outBlk == s.ring.outBlk && SameSize(s, t)
      && (if amt == s.r.max then t.ring.inBlk.None? && t.ring.count + 1 == s.ring.count
          else t.ring.inBlk == s.ring.inBlk && t.ring.count == s.ring.count)
      && (amt == s.r.max ==> Fronts(s.ring) == [amt] + Fronts(t.ring))
  {
    ReadDoneKeeps(s, amt);
    FinishDoes(s.ring, amt, s.r.off, s.r.max, s.r.got);
  }

  lemma FinishDoes(r: Ring, amt: nat, off: nat, max: nat, got: seq<byte>)
    requires r.Valid() && r.inBlk.Some? && off == r.blk[r.tail].read && off + max == r.blk[r.tail].len
    requires amt <= |got| <= max && got == r.blk[r.tail].buf[off..off + |got|]
    ensures var s := r.Finish(amt);
      && s.Valid() && s.outBlk == r.outBlk
      && Readable(r) == got[..amt] + Readable(s) && Pending(s) == Pending(r)
      && (if amt == max then s.inBlk.None? && s.count + 1 == r.count else s.inBlk == r.inBlk && s.count == r.count)
      && (amt == max ==> Fronts(r) == [amt] + Fronts(s))
  {
    hide FrontsFrom, Unread;
    var b := r.blk[r.tail];
    assert got[..amt] == b.buf[b.read..b.read + amt];
    FinishValid(r, amt);
    FinishTakesFront(r, amt);
    FrontsDrop(r.blk, r.Finish(amt).blk, r.tail, r.count, amt);
  }

  /** A store changes the memory behind the writing thread's pointer, and nothing that is queued. */
  lemma StoreDoes(s: State, i: nat, b: byte)
    requires Inv(s) && s.w.Holds? && i < |s.w.view|
    ensures Step(s, Action.Store(i, b)).Next? && Inv(Step(s, Action.Store(i, b)).s)
    ensures var t := Step(s, Action.Store(i, b)).s;
      && t.w == s.w.(view := s.w.view[i := b]) && SameRest(s, t)
  {
    StoreKeeps(s, i, b);
    var t := Step(s, Action.Store(i, b)).s;
    UnreadFrameHead(s.ring, t.ring);
    FrontsFrameHead(s.ring, t.ring);
    assert Pending(t.ring) == Pending(s.ring);
  }

  /** Everything but the writing thread and the memory of its block is as it was. */
  ghost predicate SameRest(s: State, t: State)
    requires s.ring.Valid() && t.ring.Valid()
  {
    && t.r == s.r && t.produced == s.produced && t.consumed == s.consumed
    && t.ring.inBlk == s.ring.inBlk && t.ring.outBlk == s.ring.outBlk && SameSize(s, t)
    && Readable(t.ring) == Readable(s.ring) && Pending(t.ring) == Pending(s.ring) && Fronts(t.ring) == Fronts(s.ring)
  }

  /** A load appends the next readable byte. */
  lemma LoadDoes(s: State)
    requires Inv(s) && s.r.Holds? && |s.r.got| < s.r.max
    ensures |s.r.got| < |Readable(s.ring)|
    ensures Step(s, Load) == Next(s.(r := s.r.(got := s.r.got + [Readable(s.ring)[|s.r.got|]])))
    ensures Inv(Step(s, Load).s)
  {
    hide Unread;
    ReaderStepKeeps(s, Load);
    FirstReadable(s.ring, |s.r.got|);
  }

  lemma FirstReadable(r: Ring, i: nat)
    requires r.Valid() && 0 < r.count && i < r.blk[r.tail].len - r.blk[r.tail].read
    ensures i < |Readable(r)| && Readable(r)[i] == r.blk[r.tail].buf[r.blk[r.tail].read + i]
  {
  }

  /** WriteStart with no block checked out: a pointer to a whole block if there is room, and none
      if there is not. */
  lemma WriteStarts(s: State)
    requires Inv(s) && !s.w.SawRoom? && s.ring.outBlk.None?
    ensures s.ring.Full() ==> Step(s, WriteCheck) == Next(s.(w := Writer.Idle))
    ensures !s.ring.Full() ==> Run(s, [WriteCheck, WriteTake]).Next? && Inv(Run(s, [WriteCheck, WriteTake]).s)
    ensures !s.ring.Full() ==>
      var t := Run(s, [WriteCheck, WriteTake]).s;
      && t.w.Holds? && t.w.off == 0 && |t.w.view| == s.ring.blkSize
      && t.r == s.r && t.produced == s.produced && t.consumed == s.consumed
      && t.ring.inBlk == s.ring.inBlk && t.ring.outBlk == Some(t.w.blk) && SameSize(s, t)
      && Readable(t.ring) == Readable(s.ring) && Pending(t.ring) == [] && Fronts(t.ring) == Fronts(s.ring)
  {
    if !s.ring.Full() {
      var u := s.(w := SawRoom);
      var t := Step(u, WriteTake).s;
      assert [WriteCheck, WriteTake][1..] == [WriteTake] && [WriteTake][1..] == [];
      assert Step(s, WriteCheck) == Next(u) && Run(u, [WriteTake]) == Next(t);
      WriterStepKeeps(u, WriteTake);
      UnreadFrameHead(s.ring, t.ring);
      FrontsFrameHead(s.ring, t.ring);
    }
  }

  /** WriteStart with a block checked out: a pointer behind its written part. */
  lemma WriteResumes(s: State)
    requires Inv(s) && !s.w.SawRoom? && s.ring.outBlk.Some?
    ensures Step(s, WriteResume).Next? && Inv(Step(s, WriteResume).s)
    ensures var t := Step(s, WriteResume).s;
      && t == s.(w := t.w) && t.w.Holds?
      && t.w.off == |Pending(s.ring)| && |t.w.view| == s.ring.blkSize - t.w.off
  {
    WriterStepKeeps(s, WriteResume);
  }

  /** ReadStart with no block checked out: a pointer to the first committed block, or none if there
      is not one. */
  lemma ReadStarts(s: State)
    requires Inv(s) && !s.r.SawData? && s.ring.inBlk.None?
    ensures s.ring.count == 0 ==> Step(s, ReadCheck) == Next(s.(r := Reader.Idle))
    ensures s.ring.count != 0 ==> Run(s, [ReadCheck, ReadTake]).Next? && Inv(Run(s, [ReadCheck, ReadTake]).s)
    ensures s.ring.count != 0 ==>
      var t := Run(s, [ReadCheck, ReadTake]).s;
      && t.r.Holds? && t.r.off == 0 && t.r.got == [] && Fronts(s.ring) != [] && t.r.max == Fronts(s.ring)[0]
      && t.w == s.w && t.produced == s.produced && t.consumed == s.consumed
      && t.ring == s.ring.(inBlk := Some(t.r.blk))
      && Readable(t.ring) == Readable(s.ring) && Pending(t.ring) == Pending(s.ring) && Fronts(t.ring) == Fronts(s.ring)
  {
    CountIsDistance(s.ring);
    if s.ring.count != 0 {
      var u := s.(r := SawData);
      ReadTakes(u);
      assert [ReadCheck, ReadTake][1..] == [ReadTake];
      RunOne(u, ReadTake);
      hide Ring.Valid, Fronts, Readable, Pending, WriterKnows, ReaderKnows, Queue;
      assert Step(s, ReadCheck) == Next(u);
    }
  }

  lemma ReadTakes(s: State)
    requires Inv(s) && s.r.SawData?
    ensures Step(s, ReadTake).Next? && Inv(Step(s, ReadTake).s)
    ensures var t := Step(s, ReadTake).s;
      && t.r.Holds? && t.r.off == 0 && t.r.got == [] && Fronts(s.ring) != [] && t.r.max == Fronts(s.ring)[0]
      && t.w == s.w && t.produced == s.produced && t.consumed == s.consumed
      && t.ring == s.ring.(inBlk := Some(t.r.blk))
      && Readable(t.ring) == Readable(s.ring) && Pending(t.ring) == Pending(s.ring) && Fronts(t.ring) == Fronts(s.ring)
  {
    hide Unread, Queue;
    ReaderStepKeeps(s, ReadTake);
    assert s.ring.Committed(s.ring.tail);
  }

  /** ReadStart with a block checked out: a pointer to what is left of it. */
  lemma ReadResumes(s: State)
    requires Inv(s) && !s.r.SawData? && s.ring.inBlk.Some?
    ensures Step(s, ReadResume).Next? && Inv(Step(s, ReadResume).s)
    ensures var t := Step(s, ReadResume).s;
      && t == s.(r := t.r) && t.r.Holds? && t.r.got == []
      && Fronts(s.ring) != [] && t.r.max == Fronts(s.ring)[0]
  {
    ReaderStepKeeps(s, ReadResume);
  }

  // ----- a whole transfer -----

  lemma {:induction false} RunAppend(s: State, a: seq<Action>, b: seq<Action>)
    requires Run(s, a).Next?
    ensures Run(s, a + b) == Run(Run(s, a).s, b)
    decreases |a|
  {
    if a == [] {
      assert a + b == b;
    } else {
      assert (a + b)[1..] == a[1..] + b;
      RunAppend(Step(s, a[0]).s, a[1..], b);
    }
  }

  lemma RunOne(s: State, a: Action)
    ensures Run(s, [a]) == Step(s, a)
  {
    assert [a][1..] == [];
  }

  /** Stores of `data` from its byte `i` on. */
  function Stores(data: seq<byte>, i: nat): seq<Action>
    requires i <= |data|
    decreases |data| - i
  {
    if i == |data| then [] else [Action.Store(i, data[i])] + Stores(data, i + 1)
  }

  lemma {:induction false} StoresDo(s: State, data: seq<byte>, i: nat)
    requires Inv(s) && s.w.Holds? && i <= |data| <= |s.w.view| && s.w.view[..i] == data[..i]
    ensures Run(s, Stores(data, i)).Next? && Inv(Run(s, Stores(data, i)).s)
    ensures var t := Run(s, Stores(data, i)).s;
      && t.w.Holds? && t.w == s.w.(view := t.w.view) && |t.w.view| == |s.w.view|
      && t.w.view[..|data|] == data && SameRest(s, t)
    decreases |data| - i
  {
    hide WriterKnows, ReaderKnows, Ring.Valid, Queue, Step, SameSize;
    if i < |data| {
      var a := Stores(data, i);
      StoreDoes(s, i, data[i]);
      var u := Step(s, a[0]).s;
      assert u.w.view[..i + 1] == data[..i + 1];
      assert a[1..] == Stores(data, i + 1);
      StoresDo(u, data, i + 1);
      SameRestTwice(s, u, Run(s, a).s);
    } else {
      NothingStored(s);
    }
  }

  lemma NothingStored(s: State)
    requires Inv(s)
    ensures SameRest(s, s)
  {
  }

  lemma SameRestTwice(s: State, t: State, u: State)
    requires Inv(s) && Inv(t) && Inv(u) && SameRest(s, t) && SameRest(t, u)
    ensures SameRest(s, u)
  {
  }

  function Loads(n: nat): seq<Action> {
    if n == 0 then [] else [Load] + Loads(n - 1)
  }

  lemma {:induction false} LoadsDo(s: State, n: nat)
    requires Inv(s) && s.r.Holds? && |s.r.got| + n <= s.r.max && s.r.got == Readable(s.ring)[..|s.r.got|]
    requires s.r.max <= |Readable(s.ring)|
    ensures Run(s, Loads(n)) == Next(s.(r := s.r.(got := Readable(s.ring)[..|s.r.got| + n])))
    ensures Inv(Run(s, Loads(n)).s)
    decreases n
  {
    hide WriterKnows, ReaderKnows, Ring.Valid, Queue, Step;
    if 0 < n {
      LoadDoes(s);
      var t := Step(s, Load).s;
      assert t.r.got == Readable(s.ring)[..|s.r.got| + 1];
      assert Loads(n)[1..] == Loads(n - 1);
      LoadsDo(t, n - 1);
    }
  }

  /** Neither thread is in the middle of anything. */
  ghost predicate Between(s: State) {
    Inv(s) && s.w.Idle? && s.r.Idle? && s.ring.outBlk.None? && s.ring.inBlk.None?
  }

  /** One block written: with fewer bytes than it holds it is completed by a second WriteComplete. */
  function WriteBlock(size: nat, data: seq<byte>): seq<Action> {
    [WriteCheck, WriteTake] + Stores(data, 0) + [WriteDone(|data|)] +
      if |data| < size then [WriteResume, WriteDone(0)] else []
  }

  lemma WriteBlockDoes(s: State, data: seq<byte>)
    requires Between(s) && !s.ring.Full() && 0 < |data| <= s.ring.blkSize
    ensures var o := Run(s, WriteBlock(s.ring.blkSize, data));
      && o.Next? && Between(o.s) && SameSize(s, o.s)
      && o.s.produced == s.produced + data && o.s.consumed == s.consumed
      && Readable(o.s.ring) == Readable(s.ring) + data && Fronts(o.s.ring) == Fronts(s.ring) + [|data|]
  {
    hide WriterKnows, ReaderKnows, Ring.Valid, Step, Stores, Run, Queue, Readable, Pending, Fronts;
    var size, a := s.ring.blkSize, [WriteCheck, WriteTake] + Stores(data, 0);
    var t2 := FillBlock(s, data);
    WriteDoneDoes(t2, |data|);
    RunOne(t2, WriteDone(|data|));
    RunAppend(s, a, [WriteDone(|data|)]);
    var t3 := Step(t2, WriteDone(|data|)).s;
    NothingPending(s.ring, t2.ring, t3.ring, data);
    if |data| < size {
      CommitPartial(t3);
      RunAppend(s, a + [WriteDone(|data|)], [WriteResume, WriteDone(0)]);
    } else {
      assert a + [WriteDone(|data|)] + [] == a + [WriteDone(|data|)];
    }
  }

  lemma NothingPending(r: Ring, s: Ring, t: Ring, data: seq<byte>)
    requires r.Valid() && s.Valid() && t.Valid() && Readable(s) == Readable(r) && Pending(s) == []
    ensures Queue(s) + data == Readable(r) + data && Pending(s) + data == data
    ensures Pending(t) == data && Readable(t) == Readable(r) ==> Queue(t) == Readable(r) + data
  {
  }

  /** A block is taken and `data` stored in it. */
  lemma FillBlock(s: State, data: seq<byte>) returns (t: State)
    requires Between(s) && !s.ring.Full() && |data| <= s.ring.blkSize
    ensures Run(s, [WriteCheck, WriteTake] + Stores(data, 0)) == Next(t)
    ensures t.ring.outBlk.Some?
    ensures Inv(t) && t.w.Holds? && t.w.off == 0 && |t.w.view| == s.ring.blkSize && t.w.view[..|data|] == data
    ensures t.r == s.r && t.produced == s.produced && t.consumed == s.consumed && t.ring.inBlk.None? && SameSize(s, t)
    ensures Readable(t.ring) == Readable(s.ring) && Pending(t.ring) == [] && Fronts(t.ring) == Fronts(s.ring)
  {
    hide WriterKnows, ReaderKnows, Ring.Valid, Queue, Step, Stores, Run, Readable, Pending, Fronts;
    WriteStarts(s);
    var u := Run(s, [WriteCheck, WriteTake]).s;
    assert u.w.view[..0] == data[..0];
    StoresDo(u, data, 0);
    RunAppend(s, [WriteCheck, WriteTake], Stores(data, 0));
    t := Run(u, Stores(data, 0)).s;
  }

  /** A block with some bytes in it is committed by completing nothing. */
  lemma CommitPartial(s: State)
    requires Inv(s) && s.w.Idle? && s.ring.outBlk.Some?
    ensures var o := Run(s, [WriteResume, WriteDone(0)]);
      && o.Next? && Inv(o.s) && o.s.w.Idle? && o.s.r == s.r && SameSize(s, o.s)
      && o.s.ring.outBlk.None? && o.s.ring.inBlk == s.ring.inBlk
      && o.s.produced == s.produced && o.s.consumed == s.consumed
      && Readable(o.s.ring) == Queue(s.ring) && Fronts(o.s.ring) == Fronts(s.ring) + [|Pending(s.ring)|]
  {
    hide WriterKnows, ReaderKnows, Ring.Valid, Queue, Step, Readable, Pending, Fronts;
    WriteResumes(s);
    var t := Step(s, WriteResume).s;
    WriteDoneDoes(t, 0);
    assert [WriteResume, WriteDone(0)][1..] == [WriteDone(0)];
    RunOne(t, WriteDone(0));
    assert t.w.view[..0] == [] && Queue(s.ring) + [] == Queue(s.ring) && s.produced + [] == s.produced;
  }

  /** One block read whole. */
  function ReadBlock(n: nat): seq<Action> {
    [ReadCheck, ReadTake] + Loads(n) + [ReadDone(n)]
  }

  lemma ReadBlockDoes(s: State)
    requires Between(s) && s.ring.count != 0
    ensures Fronts(s.ring) != [] && Fronts(s.ring)[0] <= |Readable(s.ring)|
    ensures var n := Fronts(s.ring)[0];
      var o := Run(s, ReadBlock(n));
      && o.Next? && Between(o.s) && SameSize(s, o.s)
      && o.s.produced == s.produced && o.s.consumed == s.consumed + Readable(s.ring)[..n]
      && Readable(o.s.ring) == Readable(s.ring)[n..] && Fronts(o.s.ring) == Fronts(s.ring)[1..]
      && o.s.ring.count + 1 == s.ring.count
  {
    hide Step, Loads, Run, Readable, Pending, Fronts;
    ReadStarts(s);
    var n, u := Fronts(s.ring)[0], Run(s, [ReadCheck, ReadTake]).s;
    HeldIsReadable(u);
    assert u.r.got == Readable(u.ring)[..0];
    LoadsDo(u, n);
    RunAppend(s, [ReadCheck, ReadTake], Loads(n));
    var t := Run(u, Loads(n)).s;
    ReadDoneDoes(t, n);
    RunOne(t, ReadDone(n));
    RunAppend(s, [ReadCheck, ReadTake] + Loads(n), [ReadDone(n)]);
    var v := Step(t, ReadDone(n)).s;
    assert t.r.got[..n] == Readable(s.ring)[..n];
    assert Readable(s.ring)[n..] == Readable(v.ring);
    assert Fronts(s.ring)[1..] == Fronts(v.ring);
  }

  lemma HeldIsReadable(s: State)
    requires Inv(s) && s.r.Holds?
    ensures s.r.max <= |Readable(s.ring)|
  {
    if 0 < s.r.max { FirstReadable(s.ring, s.r.max - 1); }
  }

  /** The blocks `n` bytes are written in. */
  function Blocks(size: nat, n: nat): seq<nat>
    requires 0 < size
  {
    if n == 0 then [] else if n <= size then [n] else [size] + Blocks(size, n - size)
  }

  function WriteAllOf(size: nat, data: seq<byte>): seq<Action>
    requires 0 < size
    decreases |data|
  {
    if data == [] then []
    else if |data| <= size then WriteBlock(size, data)
    else WriteBlock(size, data[..size]) + WriteAllOf(size, data[size..])
  }

  function ReadAllOf(blocks: seq<nat>): seq<Action> {
    if blocks == [] then [] else ReadBlock(blocks[0]) + ReadAllOf(blocks[1..])
  }

  lemma {:induction false} WriteAllDoes(s: State, data: seq<byte>)
    requires Between(s) && |data| <= (|s.ring.blk| - 1 - s.ring.count) * s.ring.blkSize
    ensures var o := Run(s, WriteAllOf(s.ring.blkSize, data));
      && o.Next? && Between(o.s) && SameSize(s, o.s)
      && o.s.produced == s.produced + data && o.s.consumed == s.consumed
      && Readable(o.s.ring) == Readable(s.ring) + data
      && Fronts(o.s.ring) == Fronts(s.ring) + Blocks(s.ring.blkSize, |data|)
    decreases |data|
  {
    hide WriterKnows, ReaderKnows, Ring.Valid, Queue, WriteBlock, Readable, Fronts;
    var size := s.ring.blkSize;
    RoomForBlock(s, |data|);
    if data == [] {
      assert s.produced + data == s.produced && Readable(s.ring) + data == Readable(s.ring);
      assert Fronts(s.ring) + Blocks(size, 0) == Fronts(s.ring);
    } else if |data| <= size {
      WriteBlockDoes(s, data);
    } else {
      var a, b := data[..size], data[size..];
      WriteBlockDoes(s, a);
      var t := Run(s, WriteBlock(size, a)).s;
      RoomBehind(s, t, |data|);
      WriteAllDoes(t, b);
      RunAppend(s, WriteBlock(size, a), WriteAllOf(size, b));
      assert a + b == data;
      Associate(s.produced, a, b);
      Associate(Readable(s.ring), a, b);
      Associate(Fronts(s.ring), [size], Blocks(size, |b|));
    }
  }

  lemma RoomForBlock(s: State, n: nat)
    requires Inv(s) && n <= (|s.ring.blk| - 1 - s.ring.count) * s.ring.blkSize
    ensures 0 < s.ring.blkSize && (0 < n ==> !s.ring.Full())
  {
    CountIsDistance(s.ring);
  }

  lemma RoomBehind(s: State, t: State, n: nat)
    requires Inv(s) && Inv(t) && SameSize(s, t) && |Fronts(t.ring)| == |Fronts(s.ring)| + 1
    requires s.ring.blkSize <= n <= (|s.ring.blk| - 1 - s.ring.count) * s.ring.blkSize
    ensures n - s.ring.blkSize <= (|t.ring.blk| - 1 - t.ring.count) * t.ring.blkSize
  {
    OneLess(|s.ring.blk| - 1 - s.ring.count, |t.ring.blk| - 1 - t.ring.count, s.ring.blkSize);
  }

  lemma {:induction false} ReadAllDoes(s: State)
    requires Between(s)
    ensures var o := Run(s, ReadAllOf(Fronts(s.ring)));
      && o.Next? && Between(o.s) && o.s.produced == s.produced
      && o.s.consumed == s.consumed + Readable(s.ring) && Readable(o.s.ring) == [] && o.s.ring.count == 0
    decreases s.ring.count
  {
    hide WriterKnows, ReaderKnows, Ring.Valid, Queue, ReadBlock, Readable, Fronts;
    BlockCount(s);
    if s.ring.count != 0 {
      ReadBlockDoes(s);
      var n, x := Fronts(s.ring)[0], Readable(s.ring);
      var t := Run(s, ReadBlock(n)).s;
      ReadAllDoes(t);
      RunAppend(s, ReadBlock(n), ReadAllOf(Fronts(t.ring)));
      assert (s.consumed + x[..n]) + x[n..] == s.consumed + x;
    } else {
      assert s.consumed + [] == s.consumed;
    }
  }

  lemma BlockCount(s: State)
    requires Inv(s)
    ensures |Fronts(s.ring)| == s.ring.count && (s.ring.count == 0 ==> Readable(s.ring) == [])
  {
  }

  /** The machine moves: whatever data fits, written block by block and then read block by block,
      comes out as it went in, and leaves the ring empty. */
  lemma TransferDoes(blkSize: nat, blkCount: nat, data: seq<byte>)
    requires 0 < blkSize && 0 < blkCount && |data| <= (blkCount - 1) * blkSize
    ensures var o := Run(Start(blkSize, blkCount), WriteAllOf(blkSize, data) + ReadAllOf(Blocks(blkSize, |data|)));
      && o.Next? && Inv(o.s) && o.s.produced == data == o.s.consumed
      && Queue(o.s.ring) == [] && o.s.ring.count == 0
  {
    hide Readable, Fronts, WriteAllOf, ReadAllOf, Step;
    var s := Start(blkSize, blkCount);
    StartInv(blkSize, blkCount);
    BlockCount(s);
    WriteAllDoes(s, data);
    var t := Run(s, WriteAllOf(blkSize, data)).s;
    assert Fronts(s.ring) + Blocks(blkSize, |data|) == Blocks(blkSize, |data|);
    ReadAllDoes(t);
    RunAppend(s, WriteAllOf(blkSize, data), ReadAllOf(Blocks(blkSize, |data|)));
    assert [] + data == data;
  }
}

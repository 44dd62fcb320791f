/** The account of a buffer: every byte that went into its ring is out again or queued. */
module Accounts {
  import opened Bytes
  import opened Rings
  import opened RingMoves

  /** `came` is every byte put into the ring, `gone` every byte taken out of it. */
  ghost predicate Balanced(came: seq<byte>, gone: seq<byte>, r: Ring) {
    r.Valid() && came == gone + Queue(r)
  }

  lemma TookBalanced(came: seq<byte>, gone: seq<byte>, r: Ring, s: Ring, data: seq<byte>)
    requires Balanced(came, gone, r) && Took(r, s, data)
    ensures Balanced(came, gone + data, s)
  {
    hide Queue, Readable, ReaderMoved;
    assert gone + (data + Queue(s)) == (gone + data) + Queue(s);
  }

  lemma WroteBalanced(came: seq<byte>, gone: seq<byte>, r: Ring, s: Ring, data: seq<byte>)
    requires Balanced(came, gone, r) && s.Valid() && Queue(s) == Queue(r) + data
    ensures Balanced(came + data, gone, s)
  {
    hide Queue;
    assert gone + (Queue(r) + data) == (gone + Queue(r)) + data;
  }

  lemma WrittenBalanced(came: seq<byte>, gone: seq<byte>, r: Ring, s: Ring, data: seq<byte>)
    requires Balanced(came, gone, r) && Wrote(r, s, data)
    ensures Balanced(came + data, gone, s)
  {
    hide Balanced, Queue, WriterMoved, FullCommits, Space;
    WroteBalanced(came, gone, r, s, data);
  }

  lemma TookNothingBalanced(came: seq<byte>, gone: seq<byte>, r: Ring, s: Ring)
    requires Balanced(came, gone, r) && Took(r, s, [])
    ensures Balanced(came, gone, s)
  {
    hide Queue, Readable, ReaderMoved;
    assert [] + Queue(s) == Queue(s);
  }

  lemma WroteNothingBalanced(came: seq<byte>, gone: seq<byte>, r: Ring, s: Ring)
    requires Balanced(came, gone, r) && Wrote(r, s, [])
    ensures Balanced(came, gone, s)
  {
    hide Queue, WriterMoved, FullCommits, Space;
    assert Queue(r) + [] == Queue(r);
  }

  lemma StillBalanced(came: seq<byte>, gone: seq<byte>, r: Ring, s: Ring)
    requires Balanced(came, gone, r) && s.Valid() && Queue(s) == Queue(r)
    ensures Balanced(came, gone, s)
  {
  }

  /** An empty account, after everything queued was dropped. */
  lemma ResetBalanced(r: Ring)
    requires r.Valid()
    ensures Balanced([], [], ResetAll(r)) && ResetAll(r).outBlk.None? && ResetAll(r).inBlk.None?
  {
  }
}

/** One turn of the FIFO self-test, on ring values. */
module SelfTest {
  import opened Bytes
  import opened Rings
  import opened RingMoves
  import opened Ramps

  /** What the self-test finds in the FIFO in all: the bytes `q` it held before, and then the words
      0, 1, ... up to `n`, not including `n`. */
  function Found(q: seq<byte>, n: nat): (d: seq<byte>)
    ensures |d| == |q| + 4 * n
  {
    q + Ramp(0, n)
  }

  /** Between turns, when `n` words have been written and `rd` read: the rest is queued, in whole
      words, and a block is committed only with data in it. */
  ghost predicate Holds(r: Ring, q: seq<byte>, rd: nat, n: nat) {
    && r.Valid() && NoneEmpty(r) && 2 <= |r.blk| && r.blkSize % 4 == 0
    && |Pending(r)| % 4 == 0 && |q| % 4 == 0
    && 4 * rd <= |q| + 4 * n && Queue(r) == Found(q, n)[4 * rd..]
  }

  /** No error has been counted exactly if what was read is the counter, and then `seed` is the
      number expected next. */
  ghost predicate Right(q: seq<byte>, rd: nat, errors: nat, seed: word) {
    && (errors == 0 <==> Found(q, rd)[..4 * rd] == Ramp(0, rd))
    && (errors == 0 ==> seed == Wrap(rd))
  }

  lemma FoundMore(q: seq<byte>, n: nat, k: nat, data: seq<byte>, rd: nat)
    requires data == Ramp(Wrap(n), k) && 4 * rd <= |q| + 4 * n
    ensures Found(q, n)[4 * rd..] + data == Found(q, n + k)[4 * rd..]
  {
    hide Ramp, Wrap;
    RampJoin(0, n, k);
    assert 0 + n == n;
    assert Found(q, n) + data == Found(q, n + k);
    assert Found(q, n)[4 * rd..] + data == (Found(q, n) + data)[4 * rd..];
  }

  /** How much has been written does not matter to what was read before. */
  lemma FoundStays(q: seq<byte>, n: nat, m: nat, end: nat)
    requires end % 4 == 0 && |q| % 4 == 0 && end <= |q| + 4 * n && end <= |q| + 4 * m
    ensures Found(q, n)[..end] == Found(q, m)[..end]
  {
    hide Ramp;
    if |q| < end {
      var j := (end - |q|) / 4;
      RampSplit(0, n, j);
      RampSplit(0, m, j);
      assert Found(q, n)[..end] == q + Ramp(0, n)[..4 * j];
      assert Found(q, m)[..end] == q + Ramp(0, m)[..4 * j];
    } else {
      assert Found(q, n)[..end] == q[..end] == Found(q, m)[..end];
    }
  }

  /** The next `m` words are read, and `bad` of them counted as errors. */
  lemma StillRight(q: seq<byte>, rd: nat, n: nat, m: nat, data: seq<byte>,
      errors: nat, bad: nat, seed: word, next: word)
    requires Right(q, rd, errors, seed) && |q| % 4 == 0 && 4 * (rd + m) <= |q| + 4 * n
    requires |data| == 4 * m && data == Found(q, n)[4 * rd..][..4 * m]
    requires bad == 0 <==> data == Ramp(seed, m)
    requires bad == 0 ==> next == Wrap(seed + m)
    ensures Right(q, rd + m, errors + bad, next)
  {
    hide Ramp, Found, Wrap;
    var a, b := Found(q, n)[..4 * rd], Found(q, n)[..4 * (rd + m)];
    FoundStays(q, n, rd, 4 * rd);
    FoundStays(q, n, rd + m, 4 * (rd + m));
    assert b == a + data;
    RampJoin(0, rd, m);
    assert 0 + rd == rd;
    SameHalves(a, data, Ramp(0, rd), Ramp(Wrap(rd), m));
    ModAdd(rd, m);
  }

  lemma SameHalves(a: seq<byte>, b: seq<byte>, c: seq<byte>, d: seq<byte>)
    requires |a| == |c|
    ensures a + b == c + d <==> a == c && b == d
  {
    if a + b == c + d {
      assert a == (a + b)[..|a|] && b == (a + b)[|a|..];
      assert c == (c + d)[..|c|] && d == (c + d)[|c|..];
    }
  }

  /** For example a word left in the FIFO that is not zero is found. */
  lemma StaleWordFound(q: seq<byte>, n: nat)
    requires 4 <= |q| && 0 < n && ToWord(q[..4]) != 0
    ensures Found(q, n)[..4 * n] != Ramp(0, n)
  {
    RampWord(0, n, 0);
    assert Found(q, n)[..4 * n][4 * 0..4 * 0 + 4] == q[..4];
  }

  lemma Multiple(a: nat, b: nat)
    requires b % 4 == 0
    ensures (a * b) % 4 == 0
  {
    var q := b / 4;
    assert a * b == 4 * (a * q);
  }

  lemma SpaceInWords(r: Ring)
    requires r.Valid() && r.blkSize % 4 == 0
    ensures (Space(r) + |Pending(r)|) % 4 == 0
  {
    Multiple(|r.blk| - 1 - r.count, r.blkSize);
  }

  /** Writing the next `k` words of the counter, as many bytes as fit. */
  lemma AfterWrite(r: Ring, s: Ring, q: seq<byte>, rd: nat, n: nat, k: nat, written: nat)
    requires Holds(r, q, rd, n) && 0 < k && written <= 4 * k
    requires written == if 4 * k <= Space(r) then 4 * k else Space(r)
    requires Wrote(r, s, Ramp(Wrap(n), k)[..written])
    ensures written % 4 == 0 && Holds(s, q, rd, n + written / 4)
    ensures Readable(s) == [] ==> |Pending(r)| < |Pending(s)|
  {
    var data := Ramp(Wrap(n), k)[..written];
    WholeWordsWritten(r, s, data, k);
    assert written == 4 * (written / 4);
    RampSplit(Wrap(n), k, written / 4);
    FoundMore(q, n, written / 4, data, rd);
    WroteNoneEmpty(r, s, data);
    if Readable(s) == [] {
      PendingGrows(r, s, data);
    }
  }

  lemma WholeWordsWritten(r: Ring, s: Ring, data: seq<byte>, n: nat)
    requires Wrote(r, s, data) && r.blkSize % 4 == 0 && |Pending(r)| % 4 == 0
    requires |data| == if 4 * n <= Space(r) then 4 * n else Space(r)
    ensures |data| % 4 == 0 && |Pending(s)| % 4 == 0
  {
    SpaceInWords(r);
    SpaceInWords(s);
    WholeWords(Space(r), |Pending(r)|, Space(s), |Pending(s)|, |data|, n);
  }

  lemma WholeWords(space: int, pending: nat, space': int, pending': nat, d: nat, n: nat)
    requires (space + pending) % 4 == 0 && (space' + pending') % 4 == 0 && pending % 4 == 0
    requires space' == space - d && (d == 4 * n || d == space)
    ensures d % 4 == 0 && pending' % 4 == 0
  {
  }

  lemma PendingGrows(r: Ring, s: Ring, data: seq<byte>)
    requires Wrote(r, s, data) && NoneEmpty(r) && 2 <= |r.blk| && Readable(s) == []
    requires Space(r) != 0 ==> 0 < |data|
    ensures |Pending(r)| < |Pending(s)|
  {
    NothingReadable(r);
    SpaceOfFull(r);
    CountIsDistance(r);
  }

  lemma WroteNoneEmpty(r: Ring, s: Ring, data: seq<byte>)
    requires Wrote(r, s, data) && NoneEmpty(r)
    ensures NoneEmpty(s)
  {
  }

  /** Reading up to `k` words. */
  lemma AfterRead(r: Ring, s: Ring, q: seq<byte>, rd: nat, n: nat, k: nat, read: nat, rd': nat)
    requires rd' == rd + read / 4
    requires Holds(r, q, rd, n) && read == Min(4 * k, |Readable(r)|)
    requires Took(r, s, Readable(r)[..read])
    ensures read % 4 == 0 && Holds(s, q, rd', n)
    ensures Readable(r)[..read] == Found(q, n)[4 * rd..][..read]
    ensures |Pending(s)| == |Pending(r)|
  {
    hide Ring.Valid, NoneEmpty, Took, Pending, Readable, Found, Queue;
    QueueInWords(r, q, rd, n);
    WholeWordsRead(|Queue(r)|, |Pending(r)|, |Readable(r)|, read, k);
    AfterReadWords(r, s, q, rd, n, read / 4, read, rd');
  }

  lemma QueueInWords(r: Ring, q: seq<byte>, rd: nat, n: nat)
    requires Holds(r, q, rd, n)
    ensures |Queue(r)| == |Readable(r)| + |Pending(r)| && |Queue(r)| % 4 == 0 && |Pending(r)| % 4 == 0
  {
  }

  lemma AfterReadWords(r: Ring, s: Ring, q: seq<byte>, rd: nat, n: nat, m: nat, read: nat, rd': nat)
    requires Holds(r, q, rd, n) && read == 4 * m <= |Readable(r)| && rd' == rd + m
    requires Took(r, s, Readable(r)[..read])
    ensures Holds(s, q, rd', n)
    ensures Readable(r)[..read] == Found(q, n)[4 * rd..][..read]
    ensures |Pending(s)| == |Pending(r)|
  {
    TookFromQueue(r, s, Readable(r)[..read]);
    hide Ring.Valid, NoneEmpty, Took, Pending, Readable, Found;
    FrontOfQueue(r, read);
    DropMore(Found(q, n), 4 * rd, read, 4 * rd');
  }

  lemma DropMore(d: seq<byte>, a: nat, b: nat, c: nat)
    requires c == a + b <= |d|
    ensures d[a..][b..] == d[c..] && |d[a..]| == |d| - a
  {
  }

  lemma HoldsFound(r: Ring, q: seq<byte>, rd: nat, n: nat)
    requires Holds(r, q, rd, n)
    ensures |q| % 4 == 0 && 4 * rd <= |q| + 4 * n
  {
  }

  lemma FrontOfQueue(r: Ring, n: nat)
    requires r.Valid() && n <= |Readable(r)|
    ensures Queue(r)[..n] == Readable(r)[..n]
  {
  }

  lemma WholeWordsRead(queue: nat, pending: nat, readable: nat, read: nat, n: nat)
    requires queue == readable + pending && queue % 4 == 0 && pending % 4 == 0
    requires read == 4 * n || read == readable
    ensures read % 4 == 0 && read == 4 * (read / 4)
  {
  }

  lemma TookFromQueue(r: Ring, s: Ring, data: seq<byte>)
    requires Took(r, s, data)
    ensures data == Queue(r)[..|data|] && Queue(s) == Queue(r)[|data|..]
    ensures |Pending(s)| == |Pending(r)|
    ensures NoneEmpty(r) ==> NoneEmpty(s)
  {
  }
}

/** Memory as the pipeline sees it: bytes, 32-bit words in little-endian order, and
    writing a run of bytes into the middle of a buffer. */
module Bytes {

  datatype Option<+T> = None | Some(value: T)

  type byte = b: int | 0 <= b < 0x100
  type word = w: int | 0 <= w < 0x1_0000_0000

  /** Unsigned 32-bit arithmetic. */
  function Wrap(n: nat): word {
    n % 0x1_0000_0000
  }

  /** Unsigned 64-bit arithmetic. */
  function Wrap64(n: nat): nat {
    n % 0x1_0000_0000_0000_0000
  }

  lemma Wrap64Add(a: nat, b: nat, c: nat)
    requires c == a + b
    ensures Wrap64(Wrap64(a) + b) == Wrap64(c)
  {
  }

  function Min(a: nat, b: nat): (m: nat)
    ensures m <= a && m <= b && (m == a || m == b)
  {
    if a <= b then a else b
  }

  /** The four bytes of a word, least significant first. */
  function ToBytes(w: word): (b: seq<byte>)
    ensures |b| == 4
  {
    [w % 0x100, w / 0x100 % 0x100, w / 0x1_0000 % 0x100, w / 0x100_0000]
  }

  function ToWord(b: seq<byte>): word
    requires |b| == 4
  {
    var b0: int, b1: int, b2: int, b3: int := b[0], b[1], b[2], b[3];
    b0 + 0x100 * b1 + 0x1_0000 * b2 + 0x100_0000 * b3
  }

  /** Storing a word and loading it back gives the word. */
  lemma WordRoundTrip(w: word)
    ensures ToWord(ToBytes(w)) == w
  {
    assert w / 0x1_0000 == w / 0x100 / 0x100;
    assert w / 0x100_0000 == w / 0x1_0000 / 0x100;
  }

  /** Loading four bytes as a word and storing it gives the bytes. */
  lemma BytesRoundTrip(b: seq<byte>)
    requires |b| == 4
    ensures ToBytes(ToWord(b)) == b
  {
    var w := ToWord(b);
    var b1: int, b2: int, b3: int := b[1], b[2], b[3];
    assert w / 0x100 == b1 + 0x100 * b2 + 0x1_0000 * b3;
    assert w / 0x1_0000 == b2 + 0x100 * b3;
  }

  /** The memory of an array of words. */
  function Memory(ws: seq<word>): (r: seq<byte>)
    ensures |r| == 4 * |ws|
  {
    seq(4 * |ws|, j requires 0 <= j < 4 * |ws| => ToBytes(ws[j / 4])[j % 4])
  }

  /** Memory read as an array of words. */
  function Words(b: seq<byte>): (ws: seq<word>)
    requires |b| % 4 == 0
    ensures |ws| == |b| / 4
  {
    seq(|b| / 4, i requires 0 <= i < |b| / 4 => ToWord(b[4 * i..4 * i + 4]))
  }

  lemma WordsOfMemory(ws: seq<word>)
    ensures Words(Memory(ws)) == ws
  {
    forall i | 0 <= i < |ws|
      ensures Words(Memory(ws))[i] == ws[i]
    {
      WordInMemory(ws, i);
      WordRoundTrip(ws[i]);
    }
  }

  lemma WordInMemory(ws: seq<word>, i: nat)
    requires i < |ws|
    ensures Memory(ws)[4 * i..4 * i + 4] == ToBytes(ws[i])
  {
    var m := Memory(ws);
    forall j | 0 <= j < 4
      ensures m[4 * i..4 * i + 4][j] == ToBytes(ws[i])[j]
    {
      assert (4 * i + j) / 4 == i && (4 * i + j) % 4 == j;
      assert m[4 * i..4 * i + 4][j] == m[4 * i + j];
    }
  }

  /** A slice of a slice; `x` and `y` are its ends in the whole. */
  lemma SliceOfSlice(s: seq<byte>, at: nat, end: nat, i: nat, j: nat, x: nat, y: nat)
    requires at <= end <= |s| && i <= j <= end - at && x == at + i && y == at + j
    ensures s[at..end][i..j] == s[x..y]
  {
    var u, v := s[at..end][i..j], s[x..y];
    forall k | 0 <= k < |v|
      ensures u[k] == v[k]
    {
      assert s[at..end][i + k] == s[x + k];
    }
  }

  /** The first `i` bytes and the next `n` are the first `j`. */
  lemma TakeMore(s: seq<byte>, i: nat, n: nat, j: nat)
    requires j == i + n <= |s|
    ensures s[..i] + s[i..][..n] == s[..j]
  {
  }

  lemma MemoryOfWords(b: seq<byte>)
    requires |b| % 4 == 0
    ensures Memory(Words(b)) == b
  {
    forall j | 0 <= j < |b|
      ensures Memory(Words(b))[j] == b[j]
    {
      BytesRoundTrip(b[4 * (j / 4)..4 * (j / 4) + 4]);
    }
  }

  /** `s` with the bytes from `at` on overwritten by `t`. */
  function Splice(s: seq<byte>, at: nat, t: seq<byte>): (r: seq<byte>)
    requires at + |t| <= |s|
    ensures |r| == |s|
    ensures r[at..at + |t|] == t
    ensures forall i | 0 <= i < |s| && !(at <= i < at + |t|) :: r[i] == s[i]
  {
    s[..at] + t + s[at + |t|..]
  }

  /** Writing `t` and then `u` right behind it is writing both at once. */
  lemma SpliceMore(s: seq<byte>, at: nat, t: seq<byte>, end: nat, u: seq<byte>)
    requires end == at + |t| && end + |u| <= |s|
    ensures Splice(Splice(s, at, t), end, u) == Splice(s, at, t + u)
  {
  }

  /** memcpy: `src` lands at `dst[at..]`, everything else in `dst` stays. */
  method CopyTo(dst: array<byte>, at: nat, src: seq<byte>)
    requires at + |src| <= dst.Length
    modifies dst
    ensures dst[..] == Splice(old(dst[..]), at, src)
  {
    for i := 0 to |src|
      invariant forall k | 0 <= k < dst.Length ::
          dst[k] == if at <= k < at + i then src[k - at] else old(dst[k])
    {
      dst[at + i] := src[i];
    }
  }
}

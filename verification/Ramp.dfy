/** The byte stream of a 32-bit counter, which the FIFO self-test writes and expects back. */
module Ramps {
  import opened Bytes

  /** The `n` words `seed`, `seed + 1`, ... modulo 2^32, as bytes. */
  function Ramp(seed: word, n: nat): (r: seq<byte>)
    ensures |r| == 4 * n
  {
    seq(4 * n, j requires 0 <= j < 4 * n => ToBytes(Wrap(seed + j / 4))[j % 4])
  }

  lemma RampMemory(seed: word, ws: seq<word>)
    requires forall i | 0 <= i < |ws| :: ws[i] == Wrap(seed + i)
    ensures Memory(ws) == Ramp(seed, |ws|)
  {
  }

  lemma RampSplit(seed: word, n: nat, k: nat)
    requires k <= n
    ensures Ramp(seed, n)[..4 * k] == Ramp(seed, k)
    ensures Ramp(seed, n)[4 * k..] == Ramp(Wrap(seed + k), n - k)
  {
    forall j | 0 <= j < 4 * (n - k)
      ensures Ramp(seed, n)[4 * k..][j] == Ramp(Wrap(seed + k), n - k)[j]
    {
      assert (4 * k + j) / 4 == k + j / 4 && (4 * k + j) % 4 == j % 4;
      ModAdd(seed + k, j / 4);
    }
  }

  lemma RampJoin(seed: word, n: nat, m: nat)
    ensures Ramp(seed, n) + Ramp(Wrap(seed + n), m) == Ramp(seed, n + m)
  {
    RampSplit(seed, n + m, n);
  }

  lemma ModAdd(a: nat, b: nat)
    ensures Wrap(Wrap(a) + b) == Wrap(a + b)
  {
  }

  /** The `i`-th word of a ramp, loaded back. */
  lemma RampWord(seed: word, n: nat, i: nat)
    requires i < n
    ensures ToWord(Ramp(seed, n)[4 * i..4 * i + 4]) == Wrap(seed + i)
  {
    var w := Wrap(seed + i);
    assert Ramp(seed, n)[4 * i..4 * i + 4] == ToBytes(w);
    WordRoundTrip(w);
  }

  /** A ramp goes on if and only if the next word is the next number. */
  lemma RampNext(seed: word, n: nat, b: seq<byte>)
    requires |b| == 4 * n + 4
    ensures b == Ramp(seed, n + 1) <==>
      b[..4 * n] == Ramp(seed, n) && ToWord(b[4 * n..]) == Wrap(seed + n)
  {
    var r := Ramp(seed, n + 1);
    RampSplit(seed, n + 1, n);
    RampWord(seed, n + 1, n);
    BytesRoundTrip(b[4 * n..]);
    BytesRoundTrip(r[4 * n..]);
    assert b == b[..4 * n] + b[4 * n..] && r == r[..4 * n] + r[4 * n..];
    assert r[4 * n..4 * n + 4] == r[4 * n..];
  }
}

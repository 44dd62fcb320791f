/** The framed stream: what a payload stream looks like on the wire, and what payload a wire
    stream carries. */
module Framing {
  import opened Bytes
  import opened V49

  const SAMPLES := 2040   // samples of a packet
  const CHUNK := 8160     // payload bytes of a packet: 2040 samples of 4 bytes

  /** Packet number `n` of device `dn`, carrying `data`. */
  function Packet(dn: nat, n: nat, data: seq<byte>): (f: seq<byte>)
    requires dn < 0x100 && |data| == CHUNK
    ensures |f| == PACKET_BYTES
  {
    Frame(NewHeader(dn, 0, n, n), data, VEND)
  }

  /** The first `k` chunks of `x`, framed; the first packet has number `first`. */
  function Wire(dn: nat, first: nat, x: seq<byte>, k: nat): (w: seq<byte>)
    requires dn < 0x100 && CHUNK * k <= |x|
    ensures |w| == PACKET_BYTES * k
  {
    if k == 0 then []
    else Wire(dn, first, x, k - 1) + Packet(dn, first + k - 1, x[CHUNK * (k - 1)..CHUNK * k])
  }

  /** The payload of the first `k` packets of a wire stream. */
  function Payloads(w: seq<byte>, k: nat): (x: seq<byte>)
    requires PACKET_BYTES * k <= |w|
    ensures |x| == CHUNK * k
  {
    if k == 0 then []
    else Payloads(w, k - 1) + Payload(w[PACKET_BYTES * (k - 1)..PACKET_BYTES * k])
  }

  /** Framing looks only at the chunks it frames. */
  lemma {:induction false} WireOfPrefix(dn: nat, first: nat, x: seq<byte>, y: seq<byte>, k: nat)
    requires dn < 0x100 && CHUNK * k <= |x| && x <= y
    ensures Wire(dn, first, x, k) == Wire(dn, first, y, k)
  {
    if k > 0 {
      WireOfPrefix(dn, first, x, y, k - 1);
      assert x[CHUNK * (k - 1)..CHUNK * k] == y[CHUNK * (k - 1)..CHUNK * k];
    }
  }

  /** Framing more of a longer payload extends the wire stream. */
  lemma {:induction false} WireGrows(dn: nat, first: nat, x: seq<byte>, j: nat, y: seq<byte>, k: nat)
    requires dn < 0x100 && x <= y && j <= k && CHUNK * j <= |x| && CHUNK * k <= |y|
    ensures Wire(dn, first, x, j) <= Wire(dn, first, y, k)
    decreases k
  {
    if j == k {
      WireOfPrefix(dn, first, x, y, k);
    } else {
      WireGrows(dn, first, x, j, y, k - 1);
    }
  }

  /** The payload of the packets that have arrived does not depend on what follows them. */
  lemma {:induction false} PayloadsOfPrefix(v: seq<byte>, w: seq<byte>, k: nat)
    requires PACKET_BYTES * k <= |v| && v <= w
    ensures Payloads(v, k) == Payloads(w, k)
  {
    if k > 0 {
      PayloadsOfPrefix(v, w, k - 1);
      assert v[PACKET_BYTES * (k - 1)..PACKET_BYTES * k] == w[PACKET_BYTES * (k - 1)..PACKET_BYTES * k];
    }
  }

  /** Packets in the middle of a stream add only at the end of its payload. */
  lemma {:induction false} PayloadsGrow(w: seq<byte>, j: nat, k: nat)
    requires j <= k && PACKET_BYTES * k <= |w|
    ensures Payloads(w, j) == Payloads(w, k)[..CHUNK * j]
    decreases k - j
  {
    if j < k {
      PayloadsGrow(w, j + 1, k);
      assert Payloads(w, k)[..CHUNK * (j + 1)][..CHUNK * j] == Payloads(w, k)[..CHUNK * j];
    }
  }

  /** The packets of a wire stream are the chunks, framed and numbered in order. */
  lemma {:induction false} PacketOnWire(dn: nat, first: nat, x: seq<byte>, k: nat, i: nat)
    requires dn < 0x100 && i < k && CHUNK * k <= |x|
    ensures Wire(dn, first, x, k)[PACKET_BYTES * i..PACKET_BYTES * (i + 1)]
         == Packet(dn, first + i, x[CHUNK * i..CHUNK * (i + 1)])
  {
    hide Packet;
    var v, p := Wire(dn, first, x, k - 1), Packet(dn, first + k - 1, x[CHUNK * (k - 1)..CHUNK * k]);
    SliceOfSum(v, p, Wire(dn, first, x, k), PACKET_BYTES * i, PACKET_BYTES * (i + 1));
    if i < k - 1 {
      PacketOnWire(dn, first, x, k - 1, i);
    }
  }

  lemma SliceOfSum(v: seq<byte>, p: seq<byte>, w: seq<byte>, a: nat, b: nat)
    requires w == v + p && a <= b <= |w|
    ensures b <= |v| ==> w[a..b] == v[a..b]
    ensures a == |v| && b == |w| ==> w[a..b] == p
  {
  }

  /** Framing and unframing give the payload back, wherever the wire stream is cut. */
  lemma {:induction false} Unframe(dn: nat, first: nat, x: seq<byte>, n: nat, w: seq<byte>, k: nat)
    requires dn < 0x100 && CHUNK * n <= |x| && w <= Wire(dn, first, x, n) && PACKET_BYTES * k <= |w|
    ensures k <= n && Payloads(w, k) == x[..CHUNK * k]
  {
    hide Frame, NewHeader, FrameHeader, FrameTrailer;
    if k > 0 {
      Unframe(dn, first, x, n, w, k - 1);
      var data := x[CHUNK * (k - 1)..CHUNK * k];
      PacketOnWire(dn, first, x, n, k - 1);
      FrameRoundTrip(NewHeader(dn, 0, first + k - 1, first + k - 1), data, VEND);
      var full := Wire(dn, first, x, n);
      assert w[PACKET_BYTES * (k - 1)..PACKET_BYTES * k] == full[PACKET_BYTES * (k - 1)..PACKET_BYTES * k];
      assert x[..CHUNK * k] == x[..CHUNK * (k - 1)] + data;
    }
  }

  /** Packet number `n` of device `dn` as bytes: an IF data packet with the time formats of the
      source and no time, 0x800 words long with 0x7FD words of packet inside, `data` from byte 28
      on, and the trailer in its last four. */
  ghost predicate InBytes(f: seq<byte>, dn: nat, n: nat, data: seq<byte>) {
    && |f| == 0x2000
    && f[0] == 0x50 && f[1] == 0x4C && f[2] == 0x52 && f[3] == 0x56
    && ToWord(f[4..8]) == 0x800 + 0x10_0000 * (n % 0x1000)
    && f[8] == 0xFD && f[9] == 0x07 && f[10] == 0x50 + n % 0x10 && f[11] == 0x10
    && f[12] == 0 && f[13] == 0 && f[14] == dn && f[15] == 0
    && (forall i | 16 <= i < 28 :: f[i] == 0)
    && f[28..8188] == data
    && f[8188] == 0x44 && f[8189] == 0x4E && f[8190] == 0x45 && f[8191] == 0x56
  }

  lemma PacketInBytes(dn: nat, n: nat, data: seq<byte>)
    requires dn < 0x100 && |data| == CHUNK
    ensures InBytes(Packet(dn, n, data), dn, n, data)
  {
    hide HeaderBytes, ToBytes, ToWord;
    var h := NewHeader(dn, 0, n, n);
    var b, f := HeaderBytes(h), Packet(dn, n, data);
    NewHeaderInBytes(dn, 0, n, n);
    ConstantWords(0, 0, 0);
    assert f[4..8] == b[4..8];
    assert forall i | 0 <= i < 28 :: f[i] == b[i];
    assert f[8188] == ToBytes(VEND)[0] && f[8189] == ToBytes(VEND)[1];
    assert f[8190] == ToBytes(VEND)[2] && f[8191] == ToBytes(VEND)[3];
  }

  /** A packet on the wire is one a receiver accepts, numbered modulo 4096 and modulo 16, and
      carries its chunk; byte by byte. */
  lemma PacketAccepted(dn: nat, first: nat, x: seq<byte>, k: nat, i: nat)
    requires dn < 0x100 && i < k && CHUNK * k <= |x|
    ensures var f := Wire(dn, first, x, k)[PACKET_BYTES * i..PACKET_BYTES * (i + 1)];
      var h := FrameHeader(f);
      && Acceptable(h, FrameTrailer(f)) && h.streamId == dn * 0x1_0000
      && h.frameCount == (first + i) % 0x1000 && h.pktCount == (first + i) % 0x10
      && h.pktType == 1 && h.tsi == 1 && h.tsf == 1 && h.frameSize == 0x800 && h.pktSize == 0x7FD
      && Payload(f) == x[CHUNK * i..CHUNK * (i + 1)]
      && InBytes(f, dn, first + i, x[CHUNK * i..CHUNK * (i + 1)])
  {
    hide Wire, Unpack, Words, HeaderBytes, InBytes;
    PacketInBytes(dn, first + i, x[CHUNK * i..CHUNK * (i + 1)]);
    PacketOnWire(dn, first, x, k, i);
    FrameRoundTrip(NewHeader(dn, 0, first + i, first + i), x[CHUNK * i..CHUNK * (i + 1)], VEND);
  }
}

/** What becomes of a framed stream when bytes go missing in it, as they do when a side is
    flushed: whether packet boundaries still fall where the receiver looks for them. */
module Resync {
  import opened Bytes
  import opened V49
  import opened Framing

  function Ones(n: nat): (x: seq<byte>)
    ensures |x| == n && forall i | 0 <= i < n :: x[i] == 1
  {
    seq(n, _ => 1)
  }

  /** The last byte of a header is zero, and the first of a trailer is not one either. */
  lemma MarksInPacket(dn: nat, n: nat, data: seq<byte>)
    requires dn < 0x100 && |data| == CHUNK
    ensures Packet(dn, n, data)[HEADER_BYTES - 1] == 0 && Packet(dn, n, data)[PACKET_BYTES - 4] == 0x44
  {
    var f, h := Packet(dn, n, data), NewHeader(dn, 0, n, n);
    assert f[HEADER_BYTES - 1] == HeaderBytes(h)[HEADER_BYTES - 1] == ToBytes(Pack(h)[6])[3];
    assert f[PACKET_BYTES - 4] == ToBytes(VEND)[0];
  }

  lemma MarksOnWire(dn: nat, first: nat, x: seq<byte>, k: nat, i: nat)
    requires dn < 0x100 && i < k && CHUNK * k <= |x|
    ensures var w := Wire(dn, first, x, k);
      w[PACKET_BYTES * i + HEADER_BYTES - 1] == 0 && w[PACKET_BYTES * i + PACKET_BYTES - 4] == 0x44
  {
    hide Packet, Wire;
    var w, data := Wire(dn, first, x, k), x[CHUNK * i..CHUNK * (i + 1)];
    PacketOnWire(dn, first, x, k, i);
    MarksInPacket(dn, first + i, data);
    var f := w[PACKET_BYTES * i..PACKET_BYTES * (i + 1)];
    assert f[HEADER_BYTES - 1] == w[PACKET_BYTES * i + HEADER_BYTES - 1];
    assert f[PACKET_BYTES - 4] == w[PACKET_BYTES * i + PACKET_BYTES - 4];
  }

  /** Read at any place that is not a packet boundary, a stream of ones gives a payload with a
      byte of a header or of a trailer in it. */
  lemma Misaligned(dn: nat, first: nat, k: nat, c: nat, d: nat, at: nat) returns (i: nat)
    requires dn < 0x100 && 0 < d < PACKET_BYTES && c + 2 <= k && at == PACKET_BYTES * c + d
    ensures i < CHUNK && Payload(Wire(dn, first, Ones(CHUNK * k), k)[at..at + PACKET_BYTES])[i] != 1
  {
    hide Wire;
    var w := Wire(dn, first, Ones(CHUNK * k), k);
    var p := Payload(w[at..at + PACKET_BYTES]);
    MarksOnWire(dn, first, Ones(CHUNK * k), k, c);
    MarksOnWire(dn, first, Ones(CHUNK * k), k, c + 1);
    i := if d <= CHUNK then CHUNK - d else PACKET_BYTES - 1 - d;
    assert p[i] == w[at + HEADER_BYTES + i] != 1;
  }

  /** The payload of a stream that follows on whole packets. */
  lemma {:induction false} PayloadsJoin(v: seq<byte>, w: seq<byte>, j: nat, m: nat)
    requires |v| == PACKET_BYTES * j && PACKET_BYTES * m <= |w|
    ensures Payloads(v + w, j + m) == Payloads(v, j) + Payloads(w, m)
  {
    hide Payload;
    if m == 0 {
      PayloadsOfPrefix(v, v + w, j);
    } else {
      PayloadsJoin(v, w, j, m - 1);
      WindowBehind(v, w, PACKET_BYTES * (j + m - 1), PACKET_BYTES * (j + m), PACKET_BYTES * (m - 1));
      LastPacket(v + w, j + m);
      LastPacket(w, m);
      hide Payloads;
      var p := Payload(w[PACKET_BYTES * (m - 1)..PACKET_BYTES * m]);
      assert (Payloads(v, j) + Payloads(w, m - 1)) + p == Payloads(v, j) + (Payloads(w, m - 1) + p);
    }
  }

  lemma LastPacket(w: seq<byte>, k: nat)
    requires 0 < k && PACKET_BYTES * k <= |w|
    ensures Payloads(w, k) == Payloads(w, k - 1) + Payload(w[PACKET_BYTES * (k - 1)..PACKET_BYTES * k])
  {
  }

  // ----- a sender that starts afresh -----

  /** After `v` has gone out, framing starts afresh with `m` chunks of `y`: the whole packets of
      the connection carry what those of `v` carry, and then `y`. */
  ghost predicate Rejoins(dn: nat, v: seq<byte>, next: nat, y: seq<byte>, m: nat)
    requires dn < 0x100 && CHUNK * m <= |y|
  {
    Payloads(v + Wire(dn, next, y, m), |v| / PACKET_BYTES + m) == Payloads(v, |v| / PACKET_BYTES) + y[..CHUNK * m]
  }

  /** A sender that starts afresh stays framed, whatever it sends next, if and only if whole
      packets have gone out. */
  lemma RejoinsIff(dn: nat, v: seq<byte>)
    requires dn < 0x100
    ensures (forall next, y, m | CHUNK * m <= |y| :: Rejoins(dn, v, next, y, m)) <==> |v| % PACKET_BYTES == 0
  {
    if |v| % PACKET_BYTES == 0 {
      forall next, y, m | CHUNK * m <= |y|
        ensures Rejoins(dn, v, next, y, m)
      {
        WholePacketsRejoin(dn, v, next, y, m);
      }
    } else {
      FragmentBreaks(dn, v, 0);
      assert CHUNK * 2 <= |Ones(CHUNK * 2)|;
    }
  }

  lemma WholePacketsRejoin(dn: nat, v: seq<byte>, next: nat, y: seq<byte>, m: nat)
    requires dn < 0x100 && |v| % PACKET_BYTES == 0 && CHUNK * m <= |y|
    ensures Rejoins(dn, v, next, y, m)
  {
    hide Payloads, Wire;
    PayloadsJoin(v, Wire(dn, next, y, m), |v| / PACKET_BYTES, m);
    Unframe(dn, next, y, m, Wire(dn, next, y, m), m);
  }

  /** After a fragment of a packet, the second packet sent is not received as sent. */
  lemma FragmentBreaks(dn: nat, v: seq<byte>, next: nat)
    requires dn < 0x100 && |v| % PACKET_BYTES != 0
    ensures !Rejoins(dn, v, next, Ones(CHUNK * 2), 2)
  {
    hide Wire, Payload;
    var j, d, y := |v| / PACKET_BYTES, |v| % PACKET_BYTES, Ones(CHUNK * 2);
    var w := Wire(dn, next, y, 2);
    var u, a := v + w, PACKET_BYTES - d;
    var i := Misaligned(dn, next, 2, 0, a, a);
    WindowBehind(v, w, PACKET_BYTES * (j + 1), PACKET_BYTES * (j + 2), a);
    var p := Payload(w[a..a + PACKET_BYTES]);
    assert Payloads(u, j + 2) == Payloads(u, j + 1) + p;
    assert Payloads(u, j + 2)[CHUNK * (j + 1) + i] == p[i] != 1;
    assert (Payloads(v, j) + y[..CHUNK * 2])[CHUNK * (j + 1) + i] == y[CHUNK + i] == 1;
  }

  /** For example when 100 bytes of a packet have gone out. */
  lemma FlushAfter100(dn: nat, x: seq<byte>)
    requires dn < 0x100 && CHUNK <= |x|
    ensures !Rejoins(dn, Wire(dn, 0, x, 1)[..100], 1, Ones(CHUNK * 2), 2)
  {
    FragmentBreaks(dn, Wire(dn, 0, x, 1)[..100], 1);
  }

  lemma WindowBehind(v: seq<byte>, w: seq<byte>, from: nat, to: nat, a: nat)
    requires from == |v| + a && to == from + PACKET_BYTES && a + PACKET_BYTES <= |w|
    ensures (v + w)[from..to] == w[a..a + PACKET_BYTES]
  {
  }

  // ----- a receiver that drops what it has received -----

  /** The samples of packet `k` left to read behind the first `p`. */
  function Rest(x: seq<byte>, k: nat, p: nat): (r: seq<byte>)
    requires p < SAMPLES && (0 < p ==> CHUNK * (k + 1) <= |x|)
    ensures |r| == if p == 0 then 0 else 4 * (SAMPLES - p)
  {
    if p == 0 then [] else x[CHUNK * k + 4 * p..CHUNK * (k + 1)]
  }

  /** Where the rest of the first packet is on the wire. */
  lemma RestOnWire(dn: nat, first: nat, x: seq<byte>, m: nat, p: nat, from: nat)
    requires dn < 0x100 && CHUNK * m <= |x| && 0 < m && 0 < p < SAMPLES && from == HEADER_BYTES + 4 * p
    ensures Wire(dn, first, x, m)[from..PACKET_BYTES - 4] == Rest(x, 0, p)
  {
    hide Wire, Frame, NewHeader;
    var w := Wire(dn, first, x, m);
    PacketOnWire(dn, first, x, m, 0);
    FrameRoundTrip(NewHeader(dn, 0, first, first), x[CHUNK * 0..CHUNK * (0 + 1)], VEND);
    var f := w[PACKET_BYTES * 0..PACKET_BYTES * (0 + 1)];
    SliceOfSlice(f, HEADER_BYTES, PACKET_BYTES - 4, 4 * p, CHUNK, from, PACKET_BYTES - 4);
    SliceOfSlice(w, PACKET_BYTES * 0, PACKET_BYTES * (0 + 1), from, PACKET_BYTES - 4, from, PACKET_BYTES - 4);
    SliceOfSlice(x, CHUNK * 0, CHUNK * (0 + 1), 4 * p, CHUNK, 4 * p, CHUNK);
  }

  /** A receiver has received `n` bytes of a framed stream, and read `p` samples of packet `k`.
      It drops the bytes but keeps `p`, and so gives out the rest of that packet from memory
      before the payload of the next `t` packets it receives. It is in step if all that is the
      payload from a packet boundary on. */
  ghost predicate InStepAfter(dn: nat, first: nat, n: nat, k: nat, p: nat, x: seq<byte>, m: nat, t: nat)
    requires dn < 0x100 && p < SAMPLES && CHUNK * m <= |x| && n + PACKET_BYTES * t <= PACKET_BYTES * m
    requires 0 < p ==> PACKET_BYTES * (k + 1) <= n
  {
    Rest(x, k, p) + Payloads(Wire(dn, first, x, m)[n..], t) <= x[CHUNK * (n / PACKET_BYTES)..]
  }

  /** A receiver that drops what it has received is in step, whatever was sent, if and only if
      no packet was half read and whole packets had been received. */
  lemma InStepIff(dn: nat, first: nat, n: nat, k: nat, p: nat)
    requires dn < 0x100 && p < SAMPLES && (0 < p ==> PACKET_BYTES * (k + 1) <= n)
    ensures (forall x, m, t | CHUNK * m <= |x| && n + PACKET_BYTES * t <= PACKET_BYTES * m
              :: InStepAfter(dn, first, n, k, p, x, m, t))
      <==> p == 0 && n % PACKET_BYTES == 0
  {
    if p == 0 && n % PACKET_BYTES == 0 {
      forall x, m, t | CHUNK * m <= |x| && n + PACKET_BYTES * t <= PACKET_BYTES * m
        ensures InStepAfter(dn, first, n, k, p, x, m, t)
      {
        WholePacketsDropped(dn, first, n / PACKET_BYTES, n, k, x, m, t);
      }
    } else {
      var m := n / PACKET_BYTES + 2;
      if 0 < p {
        HalfReadBreaks(dn, first, n, k, p, m);
        assert CHUNK * m <= |Marked(k, p, m)| && n + PACKET_BYTES * 0 <= PACKET_BYTES * m;
      } else {
        FragmentDropped(dn, first, n, k, m);
        assert CHUNK * m <= |Ones(CHUNK * m)| && n + PACKET_BYTES * 1 <= PACKET_BYTES * m;
      }
    }
  }

  lemma WholePacketsDropped(dn: nat, first: nat, c: nat, n: nat, k: nat, x: seq<byte>, m: nat, t: nat)
    requires dn < 0x100 && CHUNK * m <= |x| && n + PACKET_BYTES * t <= PACKET_BYTES * m && n == PACKET_BYTES * c
    ensures InStepAfter(dn, first, n, k, 0, x, m, t)
  {
    hide Payloads, Wire, InStepAfter;
    var w := Wire(dn, first, x, m);
    DroppedPayloads(w, c, t, n);
    Unframe(dn, first, x, m, w, m);
    PayloadsGrow(w, c + t, m);
    FromChunk(x, CHUNK * m, CHUNK * c, CHUNK * (c + t));
    InStepThere(dn, first, c, n, k, x, m, t);
  }

  lemma InStepThere(dn: nat, first: nat, c: nat, n: nat, k: nat, x: seq<byte>, m: nat, t: nat)
    requires dn < 0x100 && CHUNK * m <= |x| && n + PACKET_BYTES * t <= PACKET_BYTES * m && n == PACKET_BYTES * c
    requires Payloads(Wire(dn, first, x, m)[n..], t) <= x[CHUNK * c..]
    ensures InStepAfter(dn, first, n, k, 0, x, m, t)
  {
    hide Payloads, Wire;
    assert n / PACKET_BYTES == c;
    assert Rest(x, k, 0) == [];
  }

  lemma FromChunk(x: seq<byte>, end: nat, from: nat, to: nat)
    requires from <= to <= end <= |x|
    ensures x[..end][..to][from..] <= x[from..]
  {
    assert x[..end][..to][from..] == x[from..][..to - from];
  }

  /** Without its first `c` packets a stream carries the payload without its first `c` chunks. */
  lemma DroppedPayloads(w: seq<byte>, c: nat, t: nat, n: nat)
    requires n == PACKET_BYTES * c && n + PACKET_BYTES * t <= |w|
    ensures Payloads(w[n..], t) == Payloads(w, c + t)[CHUNK * c..]
  {
    hide Payloads;
    PayloadsJoin(w[..n], w[n..], c, t);
    assert w[..n] + w[n..] == w;
  }

  /** One input on which a fragment dropped puts the receiver out of step: a stream of ones. */
  lemma FragmentDropped(dn: nat, first: nat, n: nat, k: nat, m: nat)
    requires dn < 0x100 && n % PACKET_BYTES != 0 && m == n / PACKET_BYTES + 2
    ensures !InStepAfter(dn, first, n, k, 0, Ones(CHUNK * m), m, 1)
  {
    hide Wire, Payload;
    var c, d, x := n / PACKET_BYTES, n % PACKET_BYTES, Ones(CHUNK * m);
    var w := Wire(dn, first, x, m);
    var i := Misaligned(dn, first, m, c, d, n);
    var f := w[n..n + PACKET_BYTES];
    assert w[n..][PACKET_BYTES * (1 - 1)..PACKET_BYTES * 1] == f;
    assert Payloads(w[n..], 0) == [];
    assert Rest(x, k, 0) + Payloads(w[n..], 1) == Payload(f);
    assert x[CHUNK * c..][i] == 1;
  }

  /** A one where sample `p` of packet `k` begins, and zero elsewhere. */
  function Marked(k: nat, p: nat, m: nat): (x: seq<byte>)
    ensures |x| == CHUNK * m
  {
    seq(CHUNK * m, i => if i == CHUNK * k + 4 * p then 1 else 0)
  }

  /** The rest of that packet is not what comes from any packet boundary on. */
  lemma RestIsNowhere(k: nat, p: nat, m: nat, c: nat, more: seq<byte>)
    requires 0 < p < SAMPLES && k < m && c <= m
    ensures !(Rest(Marked(k, p, m), k, p) + more <= Marked(k, p, m)[CHUNK * c..])
  {
    var x := Marked(k, p, m);
    var y := Rest(x, k, p) + more;
    assert y[0] == x[CHUNK * k + 4 * p] == 1;
    if c < m { assert x[CHUNK * c..][0] == x[CHUNK * c] == 0; }
  }

  /** And one on which a packet half read does. */
  lemma HalfReadBreaks(dn: nat, first: nat, n: nat, k: nat, p: nat, m: nat)
    requires dn < 0x100 && 0 < p < SAMPLES && PACKET_BYTES * (k + 1) <= n <= PACKET_BYTES * m
    ensures !InStepAfter(dn, first, n, k, p, Marked(k, p, m), m, 0)
  {
    hide Wire, Payloads, Rest, Marked;
    var x := Marked(k, p, m);
    RestIsNowhere(k, p, m, n / PACKET_BYTES, Payloads(Wire(dn, first, x, m)[n..], 0));
  }

  /** For example: 5000 bytes received, no packet read. */
  lemma DropsFragmentOf5000(dn: nat)
    requires dn < 0x100
    ensures !InStepAfter(dn, 0, 5000, 0, 0, Ones(CHUNK * 2), 2, 1)
  {
    FragmentDropped(dn, 0, 5000, 0, 2);
  }

  /** And one packet received, and one of its samples read. */
  lemma DropsHalfRead(dn: nat)
    requires dn < 0x100
    ensures !InStepAfter(dn, 0, PACKET_BYTES, 0, 1, Marked(0, 1, 3), 3, 0)
  {
    HalfReadBreaks(dn, 0, PACKET_BYTES, 0, 1, 3);
  }
}

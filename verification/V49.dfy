/** The VITA-49 packet of lib/v49packet.h and lib/v49packet.cpp: a VRL frame (ANSI/VITA 49.1)
    around one IF data packet (section 6.1.1 of ANSI/VITA 49.0), as bytes. */
module V49 {
  import opened Bytes

  const VRLP: word := 0x56524C50
  const VEND: word := 0x56454E44
  const HEADER_BYTES := 28
  const PACKET_BYTES := 0x2000

  /** The bit fields of V49Header; a value of type `Header` fits its widths. */
  datatype Fields = Fields(
    vrlp: word, frameSize: nat, frameCount: nat,
    pktSize: nat, pktCount: nat, tsf: nat, tsi: nat, rr: nat, t: nat, c: nat, pktType: nat,
    streamId: word, timeInt: word, mswTimeFrac: word, lswTimeFrac: word)
  {
    predicate Fits() {
      && frameSize < 0x10_0000 && frameCount < 0x1000
      && pktSize < 0x1_0000 && pktCount < 0x10 && tsf < 4 && tsi < 4
      && rr < 4 && t < 2 && c < 2 && pktType < 0x10
    }

    /** The 64-bit time fraction, from its two halves. */
    function TimeFraction(): nat {
      mswTimeFrac * 0x1_0000_0000 + lswTimeFrac
    }
  }

  type Header = h: Fields | h.Fits() witness Fields(0, 0, 0, 0, 0, 0, 0, 0, 0, 0, 0, 0, 0, 0, 0)

  /** The packed structure as seven words: bit fields fill a word from its low end. */
  function Pack(h: Header): (ws: seq<word>)
    ensures |ws| == 7
  {
    [h.vrlp,
     h.frameSize + 0x10_0000 * h.frameCount,
     h.pktSize + 0x1_0000 * h.pktCount + 0x10_0000 * h.tsf + 0x40_0000 * h.tsi
       + 0x100_0000 * h.rr + 0x400_0000 * h.t + 0x800_0000 * h.c + 0x1000_0000 * h.pktType,
     h.streamId, h.timeInt, h.mswTimeFrac, h.lswTimeFrac]
  }

  function Unpack(ws: seq<word>): Header
    requires |ws| == 7
  {
    var f: int, p: int := ws[1], ws[2];
    Fields(ws[0], f % 0x10_0000, f / 0x10_0000,
      p % 0x1_0000, p / 0x1_0000 % 0x10, p / 0x10_0000 % 4, p / 0x40_0000 % 4,
      p / 0x100_0000 % 4, p / 0x400_0000 % 2, p / 0x800_0000 % 2, p / 0x1000_0000,
      ws[3], ws[4], ws[5], ws[6])
  }

  /** Reading back a packed header gives every field back. */
  lemma UnpackPack(h: Header)
    ensures Unpack(Pack(h)) == h
  {
    var p: int := Pack(h)[2];
    PacketWordFields(h.pktSize, h.pktCount, h.tsf, h.tsi, h.rr, h.t, h.c, h.pktType, p);
  }

  lemma PacketWordFields(size: nat, count: nat, tsf: nat, tsi: nat, rr: nat, t: nat, c: nat, ty: nat, p: int)
    requires size < 0x1_0000 && count < 0x10 && tsf < 4 && tsi < 4 && rr < 4 && t < 2 && c < 2 && ty < 0x10
    requires p == size + 0x1_0000 * count + 0x10_0000 * tsf + 0x40_0000 * tsi
      + 0x100_0000 * rr + 0x400_0000 * t + 0x800_0000 * c + 0x1000_0000 * ty
    ensures p % 0x1_0000 == size && p / 0x1_0000 % 0x10 == count && p / 0x10_0000 % 4 == tsf
    ensures p / 0x40_0000 % 4 == tsi && p / 0x100_0000 % 4 == rr && p / 0x400_0000 % 2 == t
    ensures p / 0x800_0000 % 2 == c && p / 0x1000_0000 == ty
  {
    var p1 := count + 0x10 * (tsf + 4 * (tsi + 4 * (rr + 4 * (t + 2 * (c + 2 * ty)))));
    assert p / 0x1_0000 == p1;
    assert p / 0x10_0000 == p1 / 0x10 == tsf + 4 * (tsi + 4 * (rr + 4 * (t + 2 * (c + 2 * ty))));
    assert p / 0x40_0000 == tsi + 4 * (rr + 4 * (t + 2 * (c + 2 * ty)));
    assert p / 0x100_0000 == rr + 4 * (t + 2 * (c + 2 * ty));
    assert p / 0x400_0000 == t + 2 * (c + 2 * ty);
    assert p / 0x800_0000 == c + 2 * ty;
  }

  /** Packing the fields of any seven words gives the words back: no bit is outside a field. */
  lemma PackUnpack(ws: seq<word>)
    requires |ws| == 7
    ensures Pack(Unpack(ws)) == ws
  {
    var p: int := ws[2];
    assert p / 0x10_0000 == p / 0x1_0000 / 0x10 && p / 0x40_0000 == p / 0x10_0000 / 4;
    assert p / 0x100_0000 == p / 0x40_0000 / 4 && p / 0x400_0000 == p / 0x100_0000 / 4;
    assert p / 0x800_0000 == p / 0x400_0000 / 2 && p / 0x1000_0000 == p / 0x800_0000 / 2;
  }

  function HeaderBytes(h: Header): (b: seq<byte>)
    ensures |b| == HEADER_BYTES
  {
    Memory(Pack(h))
  }

  function ParseHeader(b: seq<byte>): Header
    requires |b| == HEADER_BYTES
  {
    Unpack(Words(b))
  }

  lemma HeaderRoundTrip(h: Header)
    ensures ParseHeader(HeaderBytes(h)) == h
  {
    WordsOfMemory(Pack(h));
    UnpackPack(h);
  }

  /** Validate: what makes a received frame acceptable. */
  predicate Acceptable(h: Header, trailer: word) {
    && h.frameSize == 0x800 && h.vrlp == VRLP
    && h.rr == 0 && h.c == 0 && h.t == 0 && (h.pktType == 1 || h.pktType == 3)
    && trailer == VEND
  }

  /** The header InitHeaderTrailer builds from 16-bit and 8-bit running counts. */
  function NewHeader(dn: nat, stream: nat, frameCount: nat, pktCount: nat): Header
    requires dn < 0x100 && stream < 0x1_0000
  {
    Fields(VRLP, 0x800, frameCount % 0x1000, 0x7fd, pktCount % 0x10, 1, 1, 0, 0, 0, 1,
      dn * 0x1_0000 + stream, 0, 0, 0)
  }

  /** A frame: header, payload, trailer. */
  function Frame(h: Header, payload: seq<byte>, trailer: word): (f: seq<byte>)
    ensures |f| == HEADER_BYTES + |payload| + 4
  {
    HeaderBytes(h) + payload + ToBytes(trailer)
  }

  function Payload(f: seq<byte>): seq<byte>
    requires |f| == PACKET_BYTES
  {
    f[HEADER_BYTES..PACKET_BYTES - 4]
  }

  function FrameHeader(f: seq<byte>): Header
    requires |f| == PACKET_BYTES
  {
    ParseHeader(f[..HEADER_BYTES])
  }

  function FrameTrailer(f: seq<byte>): word
    requires |f| == PACKET_BYTES
  {
    ToWord(f[PACKET_BYTES - 4..])
  }

  /** Taking a frame of 2040 samples apart gives its header, its samples and its trailer. */
  lemma FrameRoundTrip(h: Header, payload: seq<byte>, trailer: word)
    requires |payload| == 4 * 2040
    ensures var f := Frame(h, payload, trailer);
      && |f| == PACKET_BYTES
      && FrameHeader(f) == h && Payload(f) == payload && FrameTrailer(f) == trailer
  {
    var f := Frame(h, payload, trailer);
    HeaderRoundTrip(h);
    WordRoundTrip(trailer);
    assert f[..HEADER_BYTES] == HeaderBytes(h);
    assert f[PACKET_BYTES - 4..] == ToBytes(trailer);
  }

  lemma HeaderOfBytes(b: seq<byte>)
    requires |b| == HEADER_BYTES
    ensures HeaderBytes(ParseHeader(b)) == b
  {
    MemoryOfWords(b);
    PackUnpack(Words(b));
  }

  /** And any 8 KiB are the frame of what they are taken apart into. */
  lemma FrameOfParts(f: seq<byte>)
    requires |f| == PACKET_BYTES
    ensures Frame(FrameHeader(f), Payload(f), FrameTrailer(f)) == f
  {
    hide Unpack, Pack, Words, Memory, HeaderBytes, ParseHeader, ToWord, ToBytes;
    HeaderOfBytes(f[..HEADER_BYTES]);
    BytesRoundTrip(f[PACKET_BYTES - 4..]);
    assert f == f[..HEADER_BYTES] + Payload(f) + f[PACKET_BYTES - 4..];
  }

  /** A new header is acceptable, and its sizes are right: 0x800 words are 7 of header, 2040
      samples and the trailer; the packet inside starts after two words and ends before one. */
  lemma NewHeaderAcceptable(dn: nat, stream: nat, frameCount: nat, pktCount: nat)
    requires dn < 0x100 && stream < 0x1_0000
    ensures var h := NewHeader(dn, stream, frameCount, pktCount);
      && Acceptable(h, VEND)
      && 4 * h.frameSize == PACKET_BYTES && h.pktSize == h.frameSize - 3
      && h.streamId / 0x1_0000 == dn && h.streamId % 0x1_0000 == stream
  {
  }

  /** Counters that wrap at 16 and 8 bits, cut to 12 and 4 bits, still count modulo 4096
      and 16: the `n`-th header of an unbounded run. */
  lemma CountsInHeader(dn: nat, stream: nat, n: nat)
    requires dn < 0x100 && stream < 0x1_0000
    ensures var h := NewHeader(dn, stream, n % 0x1_0000, n % 0x100);
      h.frameCount == n % 0x1000 && h.pktCount == n % 0x10
    ensures NewHeader(dn, stream, n % 0x1_0000, n % 0x100) == NewHeader(dn, stream, n, n)
  {
    LowBits(n);
  }

  lemma LowBits(n: nat)
    ensures n % 0x1_0000 % 0x1000 == n % 0x1000 && n % 0x100 % 0x10 == n % 0x10
  {
    LowTwelve(n, n / 0x1_0000, n % 0x1_0000 / 0x1000, n % 0x1_0000 % 0x1000);
    LowFour(n, n / 0x100, n % 0x100 / 0x10, n % 0x100 % 0x10);
  }

  lemma LowTwelve(n: nat, high: nat, mid: nat, low: nat)
    requires low < 0x1000 && n == 0x1_0000 * high + 0x1000 * mid + low
    ensures n % 0x1000 == low
  {
  }

  lemma LowFour(n: nat, high: nat, mid: nat, low: nat)
    requires low < 0x10 && n == 0x100 * high + 0x10 * mid + low
    ensures n % 0x10 == low
  {
  }

  // ----- the layout, byte by byte -----

  /** Where the fields of a header are, among its 28 bytes. */
  lemma FieldsInBytes(b: seq<byte>)
    requires |b| == HEADER_BYTES
    ensures var h := ParseHeader(b);
      var b4: int, b5: int, b6: int, b7: int := b[4], b[5], b[6], b[7];
      var b8: int, b9: int, b10: int, b11: int := b[8], b[9], b[10], b[11];
      && h.vrlp == ToWord(b[0..4]) && h.streamId == ToWord(b[12..16])
      && h.frameSize == b4 + 0x100 * b5 + 0x1_0000 * (b6 % 0x10) && h.frameCount == b6 / 0x10 + 0x10 * b7
      && h.pktSize == b8 + 0x100 * b9
      && h.pktCount == b10 % 0x10 && h.tsf == b10 / 0x10 % 4 && h.tsi == b10 / 0x40
      && h.rr == b11 % 4 && h.t == b11 / 4 % 2 && h.c == b11 / 8 % 2 && h.pktType == b11 / 0x10
  {
    FrameWord(b[4], b[5], b[6], b[7], ToWord(b[4..8]));
    PacketWord(b[8], b[9], b[10], b[11], ToWord(b[8..12]));
    assert Words(b)[1] == ToWord(b[4..8]) && Words(b)[2] == ToWord(b[8..12]);
  }

  lemma FrameWord(b0: int, b1: int, b2: int, b3: int, w: int)
    requires 0 <= b0 < 0x100 && 0 <= b1 < 0x100 && 0 <= b2 < 0x100 && 0 <= b3 < 0x100
    requires w == b0 + 0x100 * b1 + 0x1_0000 * b2 + 0x100_0000 * b3
    ensures w % 0x10_0000 == b0 + 0x100 * b1 + 0x1_0000 * (b2 % 0x10) && w / 0x10_0000 == b2 / 0x10 + 0x10 * b3
  {
    Parts(b0 + 0x100 * b1 + 0x1_0000 * (b2 % 0x10), b2 / 0x10 + 0x10 * b3, w);
  }

  lemma Parts(low: int, high: int, w: int)
    requires 0 <= low < 0x10_0000 && w == low + 0x10_0000 * high
    ensures w % 0x10_0000 == low && w / 0x10_0000 == high
  {
  }

  lemma PacketWord(b0: int, b1: int, b2: int, b3: int, w: int)
    requires 0 <= b0 < 0x100 && 0 <= b1 < 0x100 && 0 <= b2 < 0x100 && 0 <= b3 < 0x100
    requires w == b0 + 0x100 * b1 + 0x1_0000 * b2 + 0x100_0000 * b3
    ensures w % 0x1_0000 == b0 + 0x100 * b1 && w / 0x1_0000 % 0x10 == b2 % 0x10
    ensures w / 0x10_0000 % 4 == b2 / 0x10 % 4 && w / 0x40_0000 % 4 == b2 / 0x40
    ensures w / 0x100_0000 % 4 == b3 % 4 && w / 0x400_0000 % 2 == b3 / 4 % 2
    ensures w / 0x800_0000 % 2 == b3 / 8 % 2 && w / 0x1000_0000 == b3 / 0x10
  {
    BitsOfCounts(b2);
    BitsOfFlags(b3);
    PacketWordFields(b0 + 0x100 * b1, b2 % 0x10, b2 / 0x10 % 4, b2 / 0x40,
      b3 % 4, b3 / 4 % 2, b3 / 8 % 2, b3 / 0x10, w);
  }

  lemma BitsOfCounts(b: int)
    requires 0 <= b < 0x100
    ensures b == b % 0x10 + 0x10 * (b / 0x10 % 4) + 0x40 * (b / 0x40) && b / 0x40 < 4
  {
  }

  lemma BitsOfFlags(b: int)
    requires 0 <= b < 0x100
    ensures b == b % 4 + 4 * (b / 4 % 2) + 8 * (b / 8 % 2) + 0x10 * (b / 0x10) && b / 0x10 < 0x10
  {
    assert b / 8 == b / 4 / 2 && b / 0x10 == b / 8 / 2;
  }

  /** The time of a packet is in bytes 16 to 28 of its header: the seconds, then the fraction, its
      more significant word first. */
  lemma TimeInBytes(b: seq<byte>)
    requires |b| == HEADER_BYTES
    ensures ParseHeader(b).timeInt == ToWord(b[16..20])
    ensures ParseHeader(b).TimeFraction() == ToWord(b[20..24]) * 0x1_0000_0000 + ToWord(b[24..28])
  {
  }

  /** A new header as it is on the wire. */
  lemma NewHeaderInBytes(dn: nat, stream: nat, frameCount: nat, pktCount: nat)
    requires dn < 0x100 && stream < 0x1_0000
    ensures var b := HeaderBytes(NewHeader(dn, stream, frameCount, pktCount));
      && b[0] == 0x50 && b[1] == 0x4C && b[2] == 0x52 && b[3] == 0x56
      && ToWord(b[4..8]) == 0x800 + 0x10_0000 * (frameCount % 0x1000)
      && b[8] == 0xFD && b[9] == 0x07 && b[10] == 0x50 + pktCount % 0x10 && b[11] == 0x10
      && b[12] == stream % 0x100 && b[13] == stream / 0x100 && b[14] == dn && b[15] == 0
      && forall i | 16 <= i < 28 :: b[i] == 0
  {
    hide ToBytes, ToWord, Pack;
    var h := NewHeader(dn, stream, frameCount, pktCount);
    var ws := Pack(h);
    NewHeaderWords(dn, stream, frameCount, pktCount);
    forall i | 0 <= i < 7
      ensures HeaderBytes(h)[4 * i..4 * i + 4] == ToBytes(ws[i])
    {
      WordInMemory(ws, i);
    }
    WordRoundTrip(ws[1]);
    assert HeaderBytes(h)[4 * 1..4 * 1 + 4] == HeaderBytes(h)[4..8];
    forall i | 0 <= i < 28
      ensures HeaderBytes(h)[i] == ToBytes(ws[i / 4])[i % 4]
    {
    }
    ConstantWords(dn, stream, pktCount % 0x10);
  }

  lemma NewHeaderWords(dn: nat, stream: nat, frameCount: nat, pktCount: nat)
    requires dn < 0x100 && stream < 0x1_0000
    ensures Pack(NewHeader(dn, stream, frameCount, pktCount)) ==
      [0x5652_4C50, 0x800 + 0x10_0000 * (frameCount % 0x1000), 0x1050_07FD + 0x1_0000 * (pktCount % 0x10),
       dn * 0x1_0000 + stream, 0, 0, 0]
  {
  }

  lemma ConstantWords(dn: nat, stream: nat, count: nat)
    requires dn < 0x100 && stream < 0x1_0000 && count < 0x10
    ensures ToBytes(0x5652_4C50) == [0x50, 0x4C, 0x52, 0x56] && ToBytes(0) == [0, 0, 0, 0]
    ensures ToBytes(0x1050_07FD + 0x1_0000 * count) == [0xFD, 0x07, 0x50 + count, 0x10]
    ensures ToBytes(dn * 0x1_0000 + stream) == [stream % 0x100, stream / 0x100, dn, 0]
    ensures ToBytes(0x5645_4E44) == [0x44, 0x4E, 0x45, 0x56]
  {
    var w: word := 0x1050_07FD + 0x1_0000 * count;
    assert w / 0x100 == 0x10_5007 + 0x100 * count && w / 0x1_0000 == 0x1050 + count;
    var v: word := dn * 0x1_0000 + stream;
    assert v / 0x1_0000 == dn && v / 0x100 == dn * 0x100 + stream / 0x100;
  }

  /** What makes a frame acceptable, in bytes: the preamble, the frame size, no flag and a packet
      type of 1 or 3 in byte 11, and the trailer. */
  lemma AcceptableInBytes(f: seq<byte>)
    requires |f| == PACKET_BYTES
    ensures Acceptable(FrameHeader(f), FrameTrailer(f)) <==>
      && f[0] == 0x50 && f[1] == 0x4C && f[2] == 0x52 && f[3] == 0x56
      && f[4] == 0x00 && f[5] == 0x08 && f[6] % 0x10 == 0
      && (f[11] == 0x10 || f[11] == 0x30)
      && f[8188] == 0x44 && f[8189] == 0x4E && f[8190] == 0x45 && f[8191] == 0x56
  {
    hide ParseHeader, ToWord, ToBytes;
    var b, t := f[..HEADER_BYTES], f[PACKET_BYTES - 4..];
    FieldsInBytes(b);
    ConstantWords(0, 0, 0);
    WordSpelt(b[0..4], VRLP);
    WordSpelt(t, VEND);
    assert FrameHeader(f).vrlp == VRLP <==> b[0..4] == [0x50, 0x4C, 0x52, 0x56];
    assert FrameTrailer(f) == VEND <==> t == [0x44, 0x4E, 0x45, 0x56];
    FrameSizeBytes(b[4], b[5], b[6]);
    NoFlags(b[11]);
  }

  lemma WordSpelt(b: seq<byte>, w: word)
    requires |b| == 4
    ensures ToWord(b) == w <==> b == ToBytes(w)
  {
    WordRoundTrip(w);
    BytesRoundTrip(b);
  }

  lemma FrameSizeBytes(b4: int, b5: int, b6: int)
    requires 0 <= b4 < 0x100 && 0 <= b5 < 0x100 && 0 <= b6 < 0x100
    ensures b4 + 0x100 * b5 + 0x1_0000 * (b6 % 0x10) == 0x800 <==> b4 == 0 && b5 == 8 && b6 % 0x10 == 0
  {
  }

  lemma NoFlags(b: int)
    requires 0 <= b < 0x100
    ensures b % 4 == 0 && b / 8 % 2 == 0 && b / 4 % 2 == 0 && (b / 0x10 == 1 || b / 0x10 == 3)
      <==> b == 0x10 || b == 0x30
  {
  }
}

/** The packet object of lib/v49packet.cpp: it reads a frame in place, writes one in place
    around a sample buffer, or copies one out. A pointer is an array and an offset. */
module V49Packets {
  import opened Bytes
  import opened V49

  class V49Packet {
    var valid: bool
    var header: Header
    var trailer: word
    var samples: array?<byte>    // samples for reading
    var samplesAt: nat
    var samplesLen: nat          // in words
    var buffer: array?<byte>     // frame being written in place
    var bufferAt: nat
    var bufLen: nat

    constructor ()
      ensures !valid && samples == null && buffer == null
    {
      valid := false;
      header := Fields(0, 0, 0, 0, 0, 0, 0, 0, 0, 0, 0, 0, 0, 0, 0);
      trailer, samples, samplesAt, samplesLen := 0, null, 0, 0;
      buffer, bufferAt, bufLen := null, 0, 0;
    }

    /** Reads the frame at `data[at..at + len]` in place. */
    method Init(data: array<byte>, at: nat, len: nat)
      requires len == PACKET_BYTES && at + len <= data.Length
      modifies this
      ensures var f := data[at..at + len];
        header == FrameHeader(f) && trailer == FrameTrailer(f) && (valid <==> Acceptable(header, trailer))
      ensures samples == data && samplesAt == at + HEADER_BYTES && samplesLen == 2040
      ensures buffer == old(buffer) && bufferAt == old(bufferAt) && bufLen == old(bufLen)
    {
      hide Unpack, Words, ToWord, Acceptable;
      valid := false;
      ghost var f := data[at..at + len];
      CopyHeader(data, at);
      SliceOfSlice(data[..], at, at + len, 0, HEADER_BYTES, at, at + HEADER_BYTES);
      samples, samplesAt := data, at + HEADER_BYTES;
      samplesLen := (len - HEADER_BYTES - 4) / 4;
      var end := samplesAt + 4 * samplesLen;
      SliceOfSlice(data[..], at, at + len, PACKET_BYTES - 4, PACKET_BYTES, end, end + 4);
      trailer := ToWord(data[end..end + 4]);
      var ok := Validate();
    }

    /** Word by word, into the header structure. */
    method CopyHeader(data: array<byte>, at: nat)
      requires at + HEADER_BYTES <= data.Length
      modifies this`header
      ensures header == ParseHeader(data[at..at + HEADER_BYTES])
    {
      var ws: seq<word> := [];
      ghost var b := data[at..at + HEADER_BYTES];
      for i := 0 to HEADER_BYTES / 4
        invariant |ws| == i
        invariant forall k | 0 <= k < i :: ws[k] == ToWord(b[4 * k..4 * k + 4])
      {
        SliceOfSlice(data[..], at, at + HEADER_BYTES, 4 * i, 4 * i + 4, at + 4 * i, at + 4 * i + 4);
        ws := ws + [ToWord(data[at + 4 * i..at + 4 * i + 4])];
      }
      assert ws == Words(b);
      header := Unpack(ws);
    }

    /** The checks in the source's order. */
    method Validate() returns (ok: bool)
      modifies this`valid
      ensures ok == valid == Acceptable(header, trailer)
    {
      valid := false;
      if header.frameSize != 0x800 { return false; }
      if header.vrlp != 0x56524C50 { return false; }
      if header.frameSize == 0 { return false; }
      if header.rr != 0 { return false; }
      if header.c != 0 { return false; }
      if header.t != 0 { return false; }
      if !(header.pktType == 1 || header.pktType == 3) { return false; }
      if trailer != 0x56454E44 { return false; }
      valid := true;
      return true;
    }

    /** Counters are 16 and 8 bits wide and passed by reference. */
    method InitHeaderTrailer(dn: nat, stream: nat, frameCount: nat, pktCount: nat)
      returns (nextFrameCount: nat, nextPktCount: nat)
      requires dn < 0x100 && stream < 0x1_0000
      modifies this`header, this`trailer
      ensures header == NewHeader(dn, stream, frameCount, pktCount) && trailer == VEND
      ensures nextFrameCount == (frameCount + 1) % 0x1_0000 && nextPktCount == (pktCount + 1) % 0x100
    {
      var fc := frameCount % 0x1000;   // a 12-bit field
      nextFrameCount := (frameCount + 1) % 0x1_0000;
      var pc := pktCount % 0x10;
      nextPktCount := (pktCount + 1) % 0x100;
      header := Fields(0x56524C50, 0x800, fc, 0x7fd, pc, 1, 1, 0, 0, 0, 1, dn * 0x1_0000 + stream, 0, 0, 0);
      trailer := 0x56454E44;
    }

    /** Lays header and trailer into `buf[at..at + len]`, leaving the samples between to be
        written through SampleBuffer. */
    method Attach(dn: nat, stream: nat, buf: array<byte>, at: nat, len: nat, frameCount: nat, pktCount: nat)
      returns (nextFrameCount: nat, nextPktCount: nat)
      requires dn < 0x100 && stream < 0x1_0000
      requires HEADER_BYTES + 4 <= len <= PACKET_BYTES && at + len <= buf.Length
      modifies this, buf
      ensures header == NewHeader(dn, stream, frameCount, pktCount) && trailer == VEND && !valid
      ensures buffer == buf && bufferAt == at && bufLen == len && samples == null
      ensures samplesLen == (len - HEADER_BYTES - 4) / 4
      ensures buf[..] == Splice(Splice(old(buf[..]), at, HeaderBytes(header)),
                                at + HEADER_BYTES + 4 * samplesLen, ToBytes(trailer))
      ensures nextFrameCount == (frameCount + 1) % 0x1_0000 && nextPktCount == (pktCount + 1) % 0x100
    {
      hide Splice, HeaderBytes, ToBytes, NewHeader;
      valid := false;
      buffer, bufferAt, bufLen := buf, at, len;
      nextFrameCount, nextPktCount := InitHeaderTrailer(dn, stream, frameCount, pktCount);
      samples := null;
      samplesLen := (bufLen - HEADER_BYTES - 4) / 4;
      CopyTo(buf, at, HeaderBytes(header));
      CopyTo(buf, at + HEADER_BYTES + 4 * samplesLen, ToBytes(trailer));
    }

    /** A packet around samples that stay where they are, to be written out by Copy. */
    method Make(dn: nat, stream: nat, data: array<byte>, at: nat, len: nat, frameCount: nat, pktCount: nat)
      returns (nextFrameCount: nat, nextPktCount: nat)
      requires dn < 0x100 && stream < 0x1_0000
      modifies this
      ensures header == NewHeader(dn, stream, frameCount, pktCount) && trailer == VEND
      ensures samples == data && samplesAt == at && samplesLen == len
      ensures nextFrameCount == (frameCount + 1) % 0x1_0000 && nextPktCount == (pktCount + 1) % 0x100
    {
      nextFrameCount, nextPktCount := InitHeaderTrailer(dn, stream, frameCount, pktCount);
      samples, samplesAt, samplesLen := data, at, len;
    }

    /** Writes out the whole frame; the memory written must not be the samples' own. */
    method Copy(dest: array<byte>, at: nat, len: nat)
      requires len == PACKET_BYTES && at + len <= dest.Length
      requires samples != null && samples != dest && samplesAt + 4 * samplesLen <= samples.Length
      requires HEADER_BYTES + 4 * samplesLen + 4 <= len
      modifies dest
      ensures dest[..] == Splice(old(dest[..]), at,
        Frame(header, samples[samplesAt..samplesAt + 4 * samplesLen], trailer))
    {
      hide Splice, HeaderBytes, ToBytes;
      ghost var was := dest[..];
      var h, data, t := HeaderBytes(header), samples[samplesAt..samplesAt + 4 * samplesLen], ToBytes(trailer);
      var p := at;
      CopyTo(dest, p, h);
      p := p + HEADER_BYTES;
      SpliceMore(was, at, h, p, data);
      CopyTo(dest, p, data);
      p := p + 4 * samplesLen;
      SpliceMore(was, at, h + data, p, t);
      CopyTo(dest, p, t);
    }
  }

  /** Reading a frame in place gives the header and the samples it was built from. */
  method InitFrame(buf: array<byte>, at: nat, h: Header, data: seq<byte>) returns (p: V49Packet)
    requires |data| == 4 * 2040 && at + PACKET_BYTES <= buf.Length
    requires buf[at..at + PACKET_BYTES] == Frame(h, data, VEND)
    ensures p.header == h && (p.valid <==> Acceptable(h, VEND))
    ensures p.samples == buf && p.samplesLen == 2040 && p.samplesAt + 4 * 2040 <= buf.Length
    ensures buf[p.samplesAt..p.samplesAt + 4 * 2040] == data
  {
    FrameRoundTrip(h, data, VEND);
    SliceOfSlice(buf[..], at, at + PACKET_BYTES, HEADER_BYTES, PACKET_BYTES - 4,
      at + HEADER_BYTES, at + PACKET_BYTES - 4);
    p := new V49Packet();
    p.Init(buf, at, PACKET_BYTES);
  }

  /** Making a packet of 2040 samples, copying it out and reading it back in gives the header
      and the samples, and finds it valid. */
  method MakeCopyInit(dn: nat, stream: nat, data: array<byte>, at: nat, dest: array<byte>, to: nat,
      frameCount: nat, pktCount: nat) returns (p: V49Packet)
    requires dn < 0x100 && stream < 0x1_0000 && data != dest
    requires at + 4 * 2040 <= data.Length && to + PACKET_BYTES <= dest.Length
    modifies dest
    ensures p.valid && p.header == NewHeader(dn, stream, frameCount, pktCount)
    ensures p.samples == dest && p.samplesLen == 2040 && p.samplesAt + 4 * 2040 <= dest.Length
    ensures dest[p.samplesAt..p.samplesAt + 4 * 2040] == data[at..at + 4 * 2040]
  {
    var q := new V49Packet();
    var fc, pc := q.Make(dn, stream, data, at, 2040, frameCount, pktCount);
    q.Copy(dest, to, PACKET_BYTES);
    p := InitFrame(dest, to, q.header, data[at..at + 4 * 2040]);
    NewHeaderAcceptable(dn, stream, frameCount, pktCount);
  }

  /** The same for a frame laid out in place by Attach and then filled. */
  method AttachFillInit(dn: nat, stream: nat, buf: array<byte>, at: nat, data: seq<byte>,
      frameCount: nat, pktCount: nat) returns (p: V49Packet)
    requires dn < 0x100 && stream < 0x1_0000
    requires |data| == 4 * 2040 && at + PACKET_BYTES <= buf.Length
    modifies buf
    ensures p.valid && p.header == NewHeader(dn, stream, frameCount, pktCount)
    ensures p.samples == buf && p.samplesLen == 2040 && p.samplesAt + 4 * 2040 <= buf.Length
    ensures buf[p.samplesAt..p.samplesAt + 4 * 2040] == data
  {
    hide Splice, HeaderBytes, ToBytes, Frame, NewHeader, Acceptable;
    var q := new V49Packet();
    var fc, pc := q.Attach(dn, stream, buf, at, PACKET_BYTES, frameCount, pktCount);
    CopyTo(buf, at + HEADER_BYTES, data);
    FilledFrame(old(buf[..]), buf[..], at, at + HEADER_BYTES + 4 * q.samplesLen, q.header, data);
    p := InitFrame(buf, at, q.header, data);
    NewHeaderAcceptable(dn, stream, frameCount, pktCount);
  }

  lemma FilledFrame(was: seq<byte>, now: seq<byte>, at: nat, end: nat, h: Header, data: seq<byte>)
    requires |data| == 4 * 2040 && at + PACKET_BYTES <= |was| && end == at + PACKET_BYTES - 4
    requires now == Splice(Splice(Splice(was, at, HeaderBytes(h)), end, ToBytes(VEND)),
                           at + HEADER_BYTES, data)
    ensures now[at..at + PACKET_BYTES] == Frame(h, data, VEND)
  {
    var hb, tb := HeaderBytes(h), ToBytes(VEND);
    assert now[at..at + HEADER_BYTES] == hb;
    assert now[at + PACKET_BYTES - 4..at + PACKET_BYTES] == tb;
  }
}

/** `work` of lib/avs4000rx_impl.cc: it reads samples into a buffer, swaps the two halves of each
    into a complex number, and turns the tags of the call into tags of the whole stream. */
module RxBlocks {
  import opened Bytes
  import opened V49
  import opened Framing
  import opened RxStream
  import opened TcpRx

  const BUFFER_SAMPLES := 256 * 1024

  datatype Complex = Complex(re: int, im: int)

  /** The time of a tag: raw, or with the fraction scaled to seconds. */
  datatype TagValue = Raw(timeInt: word, timeFrac: nat) | Scaled(timeInt: word, frac: real)

  /** A tag on an item of the output stream. */
  datatype ItemTag = ItemTag(offset: nat, value: TagValue)

  /** Loads a 16-bit two's complement integer. */
  function Int16(lo: byte, hi: byte): (z: int)
    ensures IsInt16(z, lo, hi)
  {
    var h: int := hi;
    var u := lo + 0x100 * h;
    if u < 0x8000 then u else u - 0x1_0000
  }

  /** `z` is the signed 16-bit number with the low byte `lo` and the high byte `hi`. */
  predicate IsInt16(z: int, lo: int, hi: int) {
    -0x8000 <= z < 0x8000 && z % 0x1_0000 == lo + 0x100 * hi
  }

  /** `c` is sample `i` of a buffer: the first half-word is the imaginary part. */
  predicate IsSample(c: Complex, buf: seq<byte>, i: nat)
    requires 4 * i + 4 <= |buf|
  {
    IsInt16(c.im, buf[4 * i], buf[4 * i + 1]) && IsInt16(c.re, buf[4 * i + 2], buf[4 * i + 3])
  }

  /** The four bytes of a sample on the wire: the imaginary part, then the real part, each in two's
      complement with its low byte first. */
  function Encoded(c: Complex): (b: seq<byte>)
    ensures |b| == 4
  {
    [c.im % 0x100, c.im % 0x1_0000 / 0x100, c.re % 0x100, c.re % 0x1_0000 / 0x100]
  }

  /** Every pair of 16-bit integers comes back from its encoding, and nothing else does. */
  lemma SampleRoundTrip(c: Complex, d: Complex)
    requires -0x8000 <= c.im < 0x8000 && -0x8000 <= c.re < 0x8000
    ensures IsSample(d, Encoded(c), 0) <==> d == c
  {
    SameInt16(c.im, d.im);
    SameInt16(c.re, d.re);
  }

  lemma SameInt16(z: int, y: int)
    requires -0x8000 <= z < 0x8000
    ensures IsInt16(y, z % 0x100, z % 0x1_0000 / 0x100) <==> y == z
  {
    LowAndHigh(z, z % 0x1_0000);
  }

  lemma LowAndHigh(z: int, u: int)
    requires u == z % 0x1_0000
    ensures z % 0x100 + 0x100 * (u / 0x100) == u
  {
    LowByte(z, z / 0x1_0000, u / 0x100, u % 0x100);
  }

  lemma LowByte(z: int, top: int, high: int, low: int)
    requires z == 0x1_0000 * top + 0x100 * high + low && 0 <= low < 0x100
    ensures z % 0x100 == low
  {
    Remainder(z, 0x100 * top + high, low);
  }

  lemma Remainder(z: int, k: int, low: int)
    requires z == 0x100 * k + low && 0 <= low < 0x100
    ensures z % 0x100 == low
  {
  }

  function ValueOf(t: TimeTag, useFracSec: bool, rate: real): TagValue {
    if useFracSec && rate > 0.0
    then Scaled(t.timeInt, t.timeFrac as real / (2.0 * rate))
    else Raw(t.timeInt, t.timeFrac)
  }

  /** A scaled time is the fraction in units of half a sample of the master rate. */
  lemma ScaledTime(t: TimeTag, useFracSec: bool, rate: real)
    ensures var v := ValueOf(t, useFracSec, rate);
      && v.timeInt == t.timeInt
      && (v.Scaled? <==> useFracSec && rate > 0.0)
      && (v.Scaled? ==> v.frac * 2.0 * rate == t.timeFrac as real)
      && (v.Raw? ==> v.timeFrac == t.timeFrac)
  {
    if useFracSec && rate > 0.0 {
      var f := t.timeFrac as real;
      assert f / (2.0 * rate) * (2.0 * rate) == f;
    }
  }

  /** The tags of a call that starts at item `p`, as tags of the stream. */
  function Absolute(ts: seq<TimeTag>, p: nat, useFracSec: bool, rate: real): (r: seq<ItemTag>)
    ensures |r| == |ts|
  {
    seq(|ts|, j requires 0 <= j < |ts| => ItemTag(p + ts[j].offset, ValueOf(ts[j], useFracSec, rate)))
  }

  // ----- the master sample rate -----

  /** The rate after `n` tags: while it is zero the device is asked for it at each tag, and
      answers `answers(i)` at tag `i`. */
  function RateAfter(rate: real, answers: nat -> real, n: nat): real {
    if n == 0 then rate
    else
      var r := RateAfter(rate, answers, n - 1);
      if r == 0.0 then answers(n - 1) else r
  }

  /** How many of the first `n` tags find the rate zero even so. */
  function Unrated(rate: real, answers: nat -> real, n: nat): (z: nat)
    ensures z <= n
  {
    if n == 0 then 0
    else Unrated(rate, answers, n - 1) + if RateAfter(rate, answers, n) == 0.0 then 1 else 0
  }

  /** The rate is the first answer that is not zero, if it was not known before. */
  lemma {:induction false} RateIsFirstAnswer(rate: real, answers: nat -> real, n: nat, k: nat)
    requires k <= n && (forall i | 0 <= i < k :: answers(i) == 0.0) && (k < n ==> answers(k) != 0.0)
    ensures rate != 0.0 ==> RateAfter(rate, answers, n) == rate && Unrated(rate, answers, n) == 0
    ensures rate == 0.0 ==>
      RateAfter(rate, answers, n) == (if k < n then answers(k) else 0.0) && Unrated(rate, answers, n) == k
  {
    if 0 < n { RateIsFirstAnswer(rate, answers, n - 1, if k < n then k else n - 1); }
  }

  /** Those are the first ones, and the rate stays as it is once it is not zero. */
  lemma {:induction false} UnratedComeFirst(rate: real, answers: nat -> real, n: nat)
    ensures RateAfter(rate, answers, n) == 0.0 ==> Unrated(rate, answers, n) == n
    ensures forall i | Unrated(rate, answers, n) < i <= n :: RateAfter(rate, answers, i) == RateAfter(rate, answers, n)
    ensures forall i | 1 <= i <= Unrated(rate, answers, n) :: RateAfter(rate, answers, i) == 0.0
  {
    if 0 < n { UnratedComeFirst(rate, answers, n - 1); }
  }

  lemma {:induction false} RateKnown(rate: real, answers: nat -> real, n: nat)
    requires rate != 0.0
    ensures RateAfter(rate, answers, n) == rate && Unrated(rate, answers, n) == 0
  {
    if 0 < n { RateKnown(rate, answers, n - 1); }
  }

  function RateNow(useFracSec: bool, rate: real, answers: nat -> real, n: nat): real {
    if useFracSec then RateAfter(rate, answers, n) else rate
  }

  /** The tags of the stream that the tags of a call at item `p` become: raw, or scaled from where
      the rate is known on, or none if it is not positive. */
  function Added(ts: seq<TimeTag>, p: nat, useFracSec: bool, rate: real, answers: nat -> real): seq<ItemTag> {
    var m := RateNow(useFracSec, rate, answers, |ts|);
    if !useFracSec then Absolute(ts, p, false, m)
    else if m <= 0.0 then []
    else Absolute(ts[Unrated(rate, answers, |ts|)..], p, true, m)
  }

  lemma AddedNothing(p: nat, useFracSec: bool, rate: real, answers: nat -> real)
    ensures Added([], p, useFracSec, rate, answers) == []
  {
  }

  /** Every tag of a call is added with its scaled time if and only if the rate is positive once
      the device has been asked for it at the first. */
  lemma AllRatedIff(ts: seq<TimeTag>, p: nat, rate: real, answers: nat -> real)
    requires ts != []
    ensures |Added(ts, p, true, rate, answers)| == |ts| <==> RateAfter(rate, answers, 1) > 0.0
  {
    UnratedComeFirst(rate, answers, |ts|);
  }

  /** For example none is added for a tag at which the device answers zero. */
  lemma NoRateNoTag(t: TimeTag, p: nat, answers: nat -> real)
    requires answers(0) == 0.0
    ensures Added([t], p, true, 0.0, answers) == []
  {
    assert RateAfter(0.0, answers, 1) == answers(0);
  }

  /** One more tag: raw, scaled if the rate is positive by then, or none. */
  lemma AddedMore(ts: seq<TimeTag>, t: TimeTag, p: nat, useFracSec: bool, rate: real, answers: nat -> real)
    ensures var m := RateNow(useFracSec, rate, answers, |ts| + 1);
      Added(ts + [t], p, useFracSec, rate, answers) == Added(ts, p, useFracSec, rate, answers) +
        if useFracSec && m <= 0.0 then [] else [ItemTag(p + t.offset, ValueOf(t, useFracSec, m))]
  {
    var z, m := Unrated(rate, answers, |ts|), RateNow(useFracSec, rate, answers, |ts| + 1);
    UnratedComeFirst(rate, answers, |ts|);
    AbsoluteMore(ts, t, p, useFracSec, m);
    assert (ts + [t])[z..] == ts[z..] + [t];
    AbsoluteMore(ts[z..], t, p, useFracSec, m);
  }

  lemma AbsoluteMore(ts: seq<TimeTag>, t: TimeTag, p: nat, useFracSec: bool, rate: real)
    ensures Absolute(ts + [t], p, useFracSec, rate)
      == Absolute(ts, p, useFracSec, rate) + [ItemTag(p + t.offset, ValueOf(t, useFracSec, rate))]
  {
  }

  // ----- the tags a stream should carry -----

  /** The tag of packet `k`: its time, at item 2040*k. */
  function StreamTag(received: seq<byte>, k: nat, useFracSec: bool, rate: real): ItemTag
    requires PACKET_BYTES * (k + 1) <= |received|
  {
    ItemTag(SAMPLES * k, ValueOf(TagOf(received, k, SAMPLES * k), useFracSec, rate))
  }

  /** The tags of the packets from number `from` on that begin within `p` items. */
  function StreamTags(received: seq<byte>, from: nat, p: nat, useFracSec: bool, rate: real): (r: seq<ItemTag>)
    requires from <= Opened(p) && PACKET_BYTES * Opened(p) <= |received|
    ensures |r| == Opened(p) - from
  {
    seq(Opened(p) - from, k requires 0 <= k < Opened(p) - from => StreamTag(received, from + k, useFracSec, rate))
  }

  /** Byte by byte: item 2040*k carries the time in bytes 16 to 28 of packet `k`, raw or with the
      fraction in units of half a sample of the master rate. */
  lemma StreamTagInBytes(received: seq<byte>, k: nat, useFracSec: bool, rate: real)
    requires PACKET_BYTES * (k + 1) <= |received|
    ensures var t, at := StreamTag(received, k, useFracSec, rate), 0x2000 * k;
      var seconds := ToWord(received[at + 16..at + 20]);
      var frac := ToWord(received[at + 20..at + 24]) * 0x1_0000_0000 + ToWord(received[at + 24..at + 28]);
      && t.offset == 2040 * k
      && if useFracSec && rate > 0.0
         then t.value.Scaled? && t.value.timeInt == seconds && t.value.frac * 2.0 * rate == frac as real
         else t.value == Raw(seconds, frac)
  {
    hide TagOf, ToWord;
    TagTime(received, k, SAMPLES * k);
    ScaledTime(TagOf(received, k, SAMPLES * k), useFracSec, rate);
  }

  lemma StreamTagAt(received: seq<byte>, from: nat, p: nat, useFracSec: bool, rate: real, j: nat, k: nat)
    requires k == from + j < Opened(p) && PACKET_BYTES * Opened(p) <= |received|
    ensures StreamTags(received, from, p, useFracSec, rate)[j] == StreamTag(received, k, useFracSec, rate)
  {
  }

  /** A call's tags, without the first `z`, extend the tags of the stream; `q` is the position
      after it. If `z` is not nothing the stream has no tags yet. */
  lemma StreamTagsGrow(received: seq<byte>, from: nat, p: nat, n: nat, q: nat, z: nat, useFracSec: bool, rate: real)
    requires q == p + n && PACKET_BYTES * Opened(q) <= |received|
    requires from <= Opened(p) && z <= Opened(q) - Opened(p) && (0 < z ==> from == Opened(p))
    ensures StreamTags(received, from + z, q, useFracSec, rate)
      == StreamTags(received, from, p, useFracSec, rate)
       + Absolute(Tags(received, p, n)[z..], p, useFracSec, rate)
  {
    hide Opened, StreamTags, StreamTag, TagOf, Tags;
    var a, ts, c := StreamTags(received, from, p, useFracSec, rate), Tags(received, p, n)[z..],
      StreamTags(received, from + z, q, useFracSec, rate);
    var d := Absolute(ts, p, useFracSec, rate);
    assert |c| == |a + d|;
    forall j | 0 <= j < |c|
      ensures c[j] == (a + d)[j]
    {
      var k := from + z + j;
      StreamTagAt(received, from + z, q, useFracSec, rate, j, k);
      if j < |a| {
        StreamTagAt(received, from, p, useFracSec, rate, j, k);
      } else {
        TagAt(received, p, n, j - |a| + z, k);
        BeginsBehind(p, k);
        AbsoluteTag(received, p, k, useFracSec, rate);
      }
    }
  }

  lemma BeginsBehind(p: nat, k: nat)
    requires Opened(p) <= k
    ensures p <= SAMPLES * k
  {
  }

  lemma AbsoluteTag(received: seq<byte>, p: nat, k: nat, useFracSec: bool, rate: real)
    requires PACKET_BYTES * (k + 1) <= |received| && p <= SAMPLES * k
    ensures var t := TagOf(received, k, p);
      ItemTag(p + t.offset, ValueOf(t, useFracSec, rate)) == StreamTag(received, k, useFracSec, rate)
  {
  }

  lemma StreamTagsOfPrefix(v: seq<byte>, w: seq<byte>, from: nat, p: nat, useFracSec: bool, rate: real)
    requires from <= Opened(p) && PACKET_BYTES * Opened(p) <= |v| && v <= w
    ensures StreamTags(v, from, p, useFracSec, rate) == StreamTags(w, from, p, useFracSec, rate)
  {
    hide Opened, StreamTags, TagOf;
    var a, c := StreamTags(v, from, p, useFracSec, rate), StreamTags(w, from, p, useFracSec, rate);
    forall j | 0 <= j < |a|
      ensures a[j] == c[j]
    {
      var k := from + j;
      StreamTagAt(v, from, p, useFracSec, rate, j, k);
      StreamTagAt(w, from, p, useFracSec, rate, j, k);
      TagOfPrefix(v, w, k, SAMPLES * k);
    }
  }

  class RxBlock {
    const client: TcpRxSignalClient
    const useFracSec: bool
    const rBuf: array<byte>
    var masterSampleRate: real
    var itemsWritten: nat        // kept by the scheduler
    var itemTags: seq<ItemTag>   // every tag added so far
    ghost var unrated: nat       // packets that began while a scaled time had no rate

    ghost predicate Apart()
      reads this, client.Repr()
    {
      && client.Valid() && rBuf.Length == 4 * BUFFER_SAMPLES
      && rBuf !in client.Repr() && this !in client.Repr()
    }

    /** No call has come up short, so the stream holds every sample delivered, and it is tagged at
        every 2040th item and nowhere else. With scaled times the tags of the first `unrated`
        packets are missing, and all are while the rate is not positive. */
    ghost predicate InStep()
      reads this, client.Repr()
    {
      && Apart() && !client.stale && client.Position() == itemsWritten
      && Agree(client.buffer.received, itemsWritten, useFracSec, masterSampleRate, unrated, itemTags)
    }

    constructor (client: TcpRxSignalClient, useFracSec: bool)
      requires client.Valid() && client.delivered == [] && !client.stale
      ensures InStep() && this.client == client && this.useFracSec == useFracSec && itemTags == [] && fresh(rBuf)
    {
      hide TcpRxSignalClient.Valid;
      this.client, this.useFracSec := client, useFracSec;
      rBuf := new byte[4 * BUFFER_SAMPLES];
      masterSampleRate, itemsWritten, itemTags, unrated := 0.0, 0, [], 0;
      new;
      assert this !in client.Repr() && rBuf !in client.Repr();
      assert client.Valid();
    }

    /** The loop over the tags. */
    method AddTags(tList: seq<TimeTag>, answers: nat -> real)
      requires forall t | t in tList :: t.valid
      modifies this`masterSampleRate, this`itemTags
      ensures masterSampleRate == RateNow(useFracSec, old(masterSampleRate), answers, |tList|)
      ensures itemTags == old(itemTags) + Added(tList, itemsWritten, useFracSec, old(masterSampleRate), answers)
    {
      hide Added;
      ghost var m := masterSampleRate;
      AddedNothing(itemsWritten, useFracSec, m, answers);
      for i := 0 to |tList|
        invariant masterSampleRate == RateNow(useFracSec, m, answers, i)
        invariant itemTags == old(itemTags) + Added(tList[..i], itemsWritten, useFracSec, m, answers)
      {
        var t := tList[i];
        assert tList[..i + 1] == tList[..i] + [t];
        AddedMore(tList[..i], t, itemsWritten, useFracSec, m, answers);
        if t.valid {
          if useFracSec {
            if masterSampleRate == 0.0 { masterSampleRate := answers(i); }
            if masterSampleRate > 0.0 {
              var val := Scaled(t.timeInt, t.timeFrac as real / (2.0 * masterSampleRate));
              itemTags := itemTags + [ItemTag(itemsWritten + t.offset, val)];
            }
          } else {
            itemTags := itemTags + [ItemTag(itemsWritten + t.offset, Raw(t.timeInt, t.timeFrac))];
          }
        }
      }
      assert tList[..|tList|] == tList;
    }

    /** The loop over the tags of a call for `n` samples, `s` of them stale, at position `p`. */
    method TagItems(tList: seq<TimeTag>, answers: nat -> real,
        ghost w: seq<byte>, ghost r: seq<byte>, ghost p: nat, ghost n: nat, ghost s: nat)
      requires s <= n && PACKET_BYTES * Opened(p + (n - s)) <= |r| && w <= r
      requires tList == Shifted(Tags(r, p, n - s), s)
      modifies this`masterSampleRate, this`itemTags, this`unrated
      ensures CallTagged(r, p, n, s, answers, old(itemTags), itemsWritten, old(masterSampleRate), old(unrated))
      ensures s == 0 && p == itemsWritten && Agree(w, p, useFracSec, old(masterSampleRate), old(unrated), old(itemTags))
        ==> Agree(r, p + n, useFracSec, masterSampleRate, unrated, itemTags)
    {
      hide Agree, Tags, Opened, Added, RateNow, Unrated;
      TagsValid(r, p, n - s, s);
      AddTags(tList, answers);
      ghost var z := if useFracSec then Unrated(old(masterSampleRate), answers, |tList|) else 0;
      unrated := unrated + z;
      if s == 0 && p == itemsWritten && Agree(w, p, useFracSec, old(masterSampleRate), old(unrated), old(itemTags)) {
        ShiftedNothing(Tags(r, p, n));
        InStepMore(w, r, p, n, p + n, z, useFracSec, old(masterSampleRate), masterSampleRate, answers,
          old(itemTags), old(unrated), itemTags);
      }
    }

    /** The loop over the samples. */
    method Convert(n: nat) returns (out: seq<Complex>)
      requires 4 * n <= rBuf.Length
      ensures |out| == n
      ensures forall i | 0 <= i < n ::
          && -0x8000 <= out[i].im < 0x8000 && out[i].im % 0x1_0000 == rBuf[4 * i] + 0x100 * rBuf[4 * i + 1] as int
          && -0x8000 <= out[i].re < 0x8000 && out[i].re % 0x1_0000 == rBuf[4 * i + 2] + 0x100 * rBuf[4 * i + 3] as int
    {
      out := [];
      for i := 0 to n
        invariant |out| == i && forall k | 0 <= k < i :: IsSample(out[k], rBuf[..], k)
      {
        var imag := Int16(rBuf[4 * i], rBuf[4 * i + 1]);
        var real_ := Int16(rBuf[4 * i + 2], rBuf[4 * i + 3]);
        out := out + [Complex(real_, imag)];
      }
    }

    /** As many samples as a call asks for are in full blocks already. */
    ghost predicate EnoughInReach(noutput: nat)
      requires Apart()
      reads this, client.Repr()
    {
      client.Position() + Min(noutput, BUFFER_SAMPLES) <= SAMPLES * (client.InReach() / PACKET_BYTES)
    }

    /** What `work` does with `samples` samples, the bytes `data`, and their tags. */
    method PutOut(tList: seq<TimeTag>, answers: nat -> real, samples: nat,
        ghost w: seq<byte>, ghost r: seq<byte>, ghost p: nat, ghost s: nat, ghost data: seq<byte>)
      returns (out: seq<Complex>)
      requires s <= samples && PACKET_BYTES * Opened(p + (samples - s)) <= |r| && w <= r
      requires tList == Shifted(Tags(r, p, samples - s), s)
      requires 4 * samples <= rBuf.Length && rBuf[..4 * samples] == data
      modifies this`masterSampleRate, this`itemTags, this`unrated, this`itemsWritten
      ensures itemsWritten == old(itemsWritten) + samples
      ensures |out| == samples && |data| == 4 * samples
      ensures forall i | 0 <= i < samples :: IsSample(out[i], data, i)
      ensures CallTagged(r, p, samples, s, answers,
        old(itemTags), old(itemsWritten), old(masterSampleRate), old(unrated))
      ensures s == 0 && p == old(itemsWritten)
          && Agree(w, p, useFracSec, old(masterSampleRate), old(unrated), old(itemTags))
        ==> Agree(r, itemsWritten, useFracSec, masterSampleRate, unrated, itemTags)
    {
      hide Agree, Tags, Opened, Shifted, Added, RateNow, Unrated;
      TagItems(tList, answers, w, r, p, samples, s);
      out := Convert(samples);
      itemsWritten := itemsWritten + samples;
    }

    /** One call of `work`. It fails when fewer samples came than were asked for; otherwise the
        items put out are the next samples of the received payload, behind the `junk` that only
        a Flush leaves. The call keeps the stream in step unless samples came and were too few,
        and they are never too few when enough are in reach before the call. */
    method Work(noutput: nat, answers: nat -> real) returns (n: int, out: seq<Complex>, ghost junk: seq<byte>)
      requires Apart()
      modifies this, rBuf, client.Repr()
      ensures Apart() && old(client.delivered) <= client.delivered
      ensures old(client.buffer.received) <= client.buffer.received
      ensures client.buffer.received + client.buffer.socket == old(client.buffer.received + client.buffer.socket)
      ensures var samples := Min(noutput, BUFFER_SAMPLES);
        n == if |junk| + |client.delivered| - |old(client.delivered)| == 4 * samples then samples else -1
      ensures !old(client.stale) ==> junk == [] && !client.stale
      ensures n != -1 ==>
        && itemsWritten == old(itemsWritten) + n && |out| == n
        && |junk| + |client.delivered| - |old(client.delivered)| == 4 * n
        && var data := junk + client.delivered[|old(client.delivered)|..];
        forall i | 0 <= i < n ::
          && -0x8000 <= out[i].im < 0x8000 && out[i].im % 0x1_0000 == data[4 * i] + 0x100 * data[4 * i + 1] as int
          && -0x8000 <= out[i].re < 0x8000 && out[i].re % 0x1_0000 == data[4 * i + 2] + 0x100 * data[4 * i + 3] as int
      ensures n != -1 ==> CallTagged(client.buffer.received, old(client.Position()), n, |junk| / 4, answers,
        old(itemTags), old(itemsWritten), old(masterSampleRate), old(unrated))
      ensures n == -1 ==>
        && itemTags == old(itemTags) && itemsWritten == old(itemsWritten)
        && masterSampleRate == old(masterSampleRate) && unrated == old(unrated)
        && client.partial == 0 && client.buffer.fifo.Abs().count == 0
      ensures old(InStep()) ==> (InStep() <==> n != -1 || client.delivered == old(client.delivered))
      ensures old(client.InReach()) <= client.InReach()
      ensures n == -1 <==>
        SAMPLES * (client.InReach() / PACKET_BYTES)
          < old(client.Position()) + Min(noutput, BUFFER_SAMPLES) - |junk| / 4
      ensures old(InStep()) && old(EnoughInReach(noutput)) ==> n != -1 && InStep()
    {
      hide TcpRxSignalClient.Valid, TcpRxSignalClient.Position, TcpRxSignalClient.InReach, RxBlock.CallTagged;
      hide Agree, Tags, Opened, Splice, Shifted;
      var samples := Min(noutput, BUFFER_SAMPLES);
      ghost var p, w := client.Position(), client.buffer.received;
      client.PositionIs();
      var rval, tList;
      ghost var raw;
      rval, tList, junk, raw := client.ReceiveSamples(rBuf, samples);
      client.PositionIs();
      ghost var r := client.buffer.received;
      ReachMore(old(client.InReach()), client.InReach());
      if rval != samples {
        if old(InStep()) { AgreesStill(w, r, p, useFracSec, masterSampleRate, unrated, itemTags); }
        return -1, [], junk;
      }
      ghost var data := junk + client.delivered[|old(client.delivered)|..];
      assert rBuf[..4 * samples] == data;
      out := PutOut(tList, answers, samples, w, r, p, |junk| / 4, data);
      n := samples;
    }

    /** The tags of a call for `n` samples, `s` of them stale, at position `p` have been added. */
    ghost predicate CallTagged(received: seq<byte>, p: nat, n: nat, s: nat, answers: nat -> real,
        was: seq<ItemTag>, written: nat, rate: real, wasUnrated: nat)
      reads this
    {
      && s <= n && PACKET_BYTES * Opened(p + (n - s)) <= |received|
      && var ts := Shifted(Tags(received, p, n - s), s);
      && masterSampleRate == RateNow(useFracSec, rate, answers, |ts|)
      && unrated == wasUnrated + (if useFracSec then Unrated(rate, answers, |ts|) else 0)
      && itemTags == was + Added(ts, written, useFracSec, rate, answers)
    }
  }

  /** The tags of a stream in step. */
  ghost predicate Agree(received: seq<byte>, p: nat, useFracSec: bool, rate: real, unrated: nat, tags: seq<ItemTag>) {
    && PACKET_BYTES * Opened(p) <= |received|
    && unrated <= Opened(p) && (!useFracSec ==> unrated == 0)
    && (useFracSec && rate == 0.0 ==> unrated == Opened(p))
    && tags == if useFracSec && rate <= 0.0 then [] else StreamTags(received, unrated, p, useFracSec, rate)
  }

  lemma AgreesStill(v: seq<byte>, w: seq<byte>, p: nat, useFracSec: bool, rate: real, unrated: nat, tags: seq<ItemTag>)
    requires Agree(v, p, useFracSec, rate, unrated, tags) && v <= w
    ensures Agree(w, p, useFracSec, rate, unrated, tags)
  {
    hide StreamTags, Opened;
    StreamTagsOfPrefix(v, w, unrated, p, useFracSec, rate);
  }

  /** One call keeps the tags in step. */
  lemma InStepMore(v: seq<byte>, w: seq<byte>, p: nat, n: nat, q: nat, z: nat, useFracSec: bool,
      was: real, rate: real, answers: nat -> real, tags: seq<ItemTag>, unrated: nat, tags': seq<ItemTag>)
    requires Agree(v, p, useFracSec, was, unrated, tags) && v <= w && q == p + n
    requires PACKET_BYTES * Opened(q) <= |w|
    requires var ts := Tags(w, p, n);
      && rate == RateNow(useFracSec, was, answers, |ts|)
      && z == (if useFracSec then Unrated(was, answers, |ts|) else 0)
      && tags' == tags + Added(ts, p, useFracSec, was, answers)
    ensures Agree(w, q, useFracSec, rate, unrated + z, tags')
  {
    var ts := Tags(w, p, n);
    UnratedComeFirst(was, answers, |ts|);
    if was != 0.0 { RateKnown(was, answers, |ts|); }
    hide Opened, StreamTags, Tags, Unrated, RateAfter;
    StreamTagsOfPrefix(v, w, unrated, p, useFracSec, was);
    StreamTagsGrow(w, unrated, p, n, q, z, useFracSec, rate);
  }

  lemma TagsValid(received: seq<byte>, p: nat, n: nat, s: nat)
    requires PACKET_BYTES * Opened(p + n) <= |received|
    ensures forall t | t in Shifted(Tags(received, p, n), s) :: t.valid
  {
    var ts := Tags(received, p, n);
    forall j | 0 <= j < |ts|
      ensures Shifted(ts, s)[j].valid
    {
      TagAt(received, p, n, j, Opened(p) + j);
    }
  }

  /** A call that comes up short takes the stream out of step: after one packet has been received,
      asked for one sample more than it has. */
  method ShortCallLeavesStep(w: seq<byte>, useFracSec: bool, answers: nat -> real) returns (b: RxBlock, n: int)
    requires |w| == PACKET_BYTES
    ensures b.Apart() && n == -1 && !b.InStep()
  {
    hide TcpRxSignalClient.Valid, Agree, RxBlock.CallTagged, Opened;
    var rx := NewWith(w, PACKET_BYTES, PACKET_BYTES);
    b := new RxBlock(rx, useFracSec);
    var out;
    ghost var junk;
    n, out, junk := b.Work(SAMPLES + 1, answers);
    OnePacketRead(rx);
  }

  lemma ReachMore(a: nat, b: nat)
    requires a <= b
    ensures SAMPLES * (a / PACKET_BYTES) <= SAMPLES * (b / PACKET_BYTES)
  {
  }

  lemma OnePacketRead(rx: TcpRxSignalClient)
    requires rx.Valid() && !rx.stale && |rx.buffer.received| == PACKET_BYTES == rx.buffer.fifo.blkSize
    ensures rx.Position() <= SAMPLES && |rx.delivered| == 4 * rx.Position()
    ensures rx.buffer.fifo.Abs().count == 0 ==> SAMPLES <= rx.Position()
  {
    hide RxInv;
    rx.PositionIs();
    if rx.buffer.fifo.Abs().count == 0 { FirstPacketRead(rx); }
  }
}

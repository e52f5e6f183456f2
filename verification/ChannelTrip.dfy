// What comes back from a channel's record, and what an altered record does.
module ChannelTrip {
  import opened Bits
  import opened Fibonacci
  import opened CompUtils
  import opened Encoding
  import opened Records
  import opened CodeScan
  import opened WaveBinary
  import opened WaveFibonacci
  import opened WaveBinFib
  import opened WaveBinFibDecode
  import opened ComboRecovery
  import opened ComboExact
  import opened Pack12Bit
  import opened Checksum
  import opened Channel
  import opened ChannelCodec

  // ----- Sizes

  const LARGEST: nat := 1300

  lemma CodeBound(v: nat)
    requires v < 65536
    ensures |FibCode(v)| <= 24
  {
    FNIsTable();
    FibCodeLength(v, 24);
  }

  lemma ConcatBound(cs: seq<seq<bool>>, n: nat)
    requires forall i :: 0 <= i < |cs| ==> |cs[i]| <= n
    ensures |Concat(cs)| <= n * |cs|
  {
    if cs != [] {
      ConcatBound(cs[1..], n);
      assert n * |cs| == n + n * (|cs| - 1);
    }
  }

  lemma FibSize(w: seq<short>, mean: int)
    requires |w| == SAMPLES
    ensures |Concat(SampleCodes(w, mean))| <= 6240
  {
    var cs := SampleCodes(w, mean);
    hide FibCode;
    forall i | 0 <= i < |cs| ensures |cs[i]| <= 24 {
      CodeBound(Bifurcate(Distance(w[i], mean)));
    }
    ConcatBound(cs, 24);
  }

  lemma TailSize(w: seq<short>, mean: int, b: nat)
    requires b >= 1 && |w| == SAMPLES
    ensures |TailBits(w, mean, b, |w|)| <= 6240
  {
    hide FibCode, Outside;
    var xs := Outside(w, mean, b, |w|);
    var cs := TailCodes(xs, mean, b);
    forall i | 0 <= i < |cs| ensures |cs[i]| <= 24 {
      CodeBound(TailNumber(xs[i], mean, b) % 65536);
    }
    ConcatBound(cs, 24);
  }

  lemma WidthBound(range: nat)
    requires range < 65536
    ensures Width(range) <= 16
  {
    Powers();
    if Width(range) > 16 {
      Pow2Monotone(16, Width(range) - 1);
    }
  }

  /** Every record is small: its size fits the header's 16 bits by far. */
  lemma BodySize(encType: nat, w: seq<short>, st: Stats)
    requires Encodable(encType, st) && |w| == SAMPLES
    ensures |Body(encType, w, st)| <= LARGEST
  {
    hide Record12, NoneRecord, Width, ComboWidth, Concat, SampleCodes, TailBits, MainBits, Span, Pack, WordBits;
    if encType == ENCODE_LOSSLESS_BINARY {
      WidthBound(st.xMax - st.xMin);
      SpanOfWave(Width(st.xMax - st.xMin));
    } else if encType == ENCODE_LOSSLESS_FIBONACCI {
      FibSize(w, ClampMean(st.mean));
    } else if encType == ENCODE_LOSSLESS_BINFIB_COMBO {
      ComboWidthPositive(st.range);
      var b := ComboWidth(st.range);
      SpanOfWave(b);
      TailSize(w, ClampMean(st.mean), b);
    }
  }

  // ----- What the encodings carry

  /** The waves a type gives back. */
  ghost predicate Carried(encType: nat, w: seq<short>, st: Stats)
    requires Encodable(encType, st) && |w| == SAMPLES
  {
    if encType == ENCODE_LOSSLESS_12BIT then
      forall k :: 0 <= k < |w| ==> Twelve(w[k])
    else if encType == ENCODE_LOSSLESS_BINARY then
      var b := Width(st.xMax - st.xMin);
      1 <= b <= 11 && forall k :: 0 <= k < |w| ==> Near(w[k], Middle(st.xMin, st.xMax), b)
    else if encType == ENCODE_LOSSLESS_FIBONACCI then
      forall k :: 0 <= k < |w| ==> Coded(w[k], ClampMean(st.mean))
    else if encType == ENCODE_LOSSLESS_BINFIB_COMBO then
      st.range < 1024 && (ComboWidthPositive(st.range); Fitting(w, ClampMean(st.mean), ComboWidth(st.range)))
    else true
  }

  /** ... and when decoding one stays within the table of 256. */
  predicate Overruns(encType: nat, w: seq<short>, st: Stats, tail: seq<byte>, hi: Bit32)
    requires Encodable(encType, st) && |w| == SAMPLES && |tail| >= BEHIND
  {
    && encType == ENCODE_LOSSLESS_BINFIB_COMBO
    && st.range < 1024
    && (ComboWidthPositive(st.range);
        |RecordTable(w, ClampMean(st.mean), ComboWidth(st.range), tail, hi)| > SLOTS)
  }

  lemma BinaryBack(w: seq<short>, st: Stats, tail: seq<byte>, prior: seq<short>)
    requires |w| == |prior| == SAMPLES && st.xMin <= st.xMax && |tail| >= BEHIND
    requires 1 <= Width(st.xMax - st.xMin) <= 11
    ensures var b := Width(st.xMax - st.xMin);
            var body := BinaryRecord(w, Middle(st.xMin, st.xMax), b);
            var (code, x) := BinaryWave(BinaryEncType(b), |body|, body + tail, prior);
            code == Ok
            && (x == w <==> forall k :: 0 <= k < |w| ==> Near(w[k], Middle(st.xMin, st.xMax), b))
  {
    var b, mean := Width(st.xMax - st.xMin), Middle(st.xMin, st.xMax);
    WidthsAgree(b);
    hide Width, BinaryEncType, BinaryBitSize, DecodedSamples, Middle, Near;
    BinaryRoundTrip(w, mean, b, tail);
    DecodedOfRecord(w, mean, b, tail);
    StoredAll(b, |BinaryRecord(w, mean, b)|, SAMPLES, 0);
    hide BinaryRecord, Flat;
    WholePrefix(DecodedSamples(Flat(BinaryRecord(w, mean, b) + tail)[16..], mean, b, SAMPLES), prior);
  }

  lemma FibBack(w: seq<short>, mean: int, tail: seq<byte>, prior: seq<short>, hi: Bit32)
    requires -127 <= mean <= 127 && |w| == |prior| == SAMPLES && |tail| >= BEHIND
    requires forall k :: 0 <= k < |w| ==> Coded(w[k], mean)
    ensures var body := FibRecord(w, mean);
            FibRun(Flat(body + tail), 8, prior, S8((body + tail)[0]), |body|, hi) == (Ok, w)
  {
    hide FibRun, Coded, Flat, FibRecord;
    FibRoundTrip(w, mean, tail, prior, hi);
  }

  lemma ComboBack(w: seq<short>, mean: int, b: nat, tail: seq<byte>, env: Surroundings)
    requires -127 <= mean <= 127 && 2 <= b <= 10 && |w| == SAMPLES && |tail| >= BEHIND && Roomy(env)
    requires Fitting(w, mean, b)
    ensures ComboWave(BinFibEncType(b), ComboRecord(w, mean, b) + tail, env)
         == (w, |RecordTable(w, mean, b, tail, env.hi)| > SLOTS)
  {
    hide *;
    var input := ComboRecord(w, mean, b) + tail;
    var (x, overran) := ComboWave(BinFibEncType(b), input, env);
    ComboWaveResult(b, input, w, env);
    ComboRoundTrip(w, mean, b, tail, env.stack, w, x, overran, env.hi);
  }

  lemma ComboWaveResult(b: nat, input: seq<byte>, prior: seq<short>, env: Surroundings)
    requires 2 <= b <= 10 && |prior| == SAMPLES && |input| >= BEHIND && Roomy(env)
    ensures var (x, overran) := ComboWave(BinFibEncType(b), input, env);
            |x| == SAMPLES && ComboResult(Flat(input), b, env.stack, prior, x, overran, env.hi)
    ensures forall tail: seq<byte> :: |tail| >= BEHIND ==> |Flat(tail)| >= Reach(0)
  {
    hide Table, ComboSamples, Flags, Overlay, HeadMean, BinFibBitSize, BinFibEncType, Span;
    WidthsAgree(b);
    SpanOfWave(b);
  }

  /** Whatever follows the record, a wave its type carries comes back. */
  lemma WaveBack(encType: nat, w: seq<short>, st: Stats, tail: seq<byte>, prior: seq<short>, env: Surroundings)
    requires Encodable(encType, st) && |w| == |prior| == SAMPLES && |tail| >= BEHIND && Roomy(env)
    requires Carried(encType, w, st)
    ensures DecodedWave(ActualType(encType, st), |Body(encType, w, st)|, Body(encType, w, st) + tail, prior, env)
         == (Ok, w, Overruns(encType, w, st, tail, env.hi))
  {
    hide Record12, NoneRecord, BinaryRecord, FibRecord, ComboRecord, Width, ComboWidth, BinaryWave, FibRun, ComboWave,
         Samples12, NoneSamples, RecordTable, Fitting, Near, Coded, Twelve, Flat, S8, Middle, ClampMean;
    if encType == ENCODE_LOSSLESS_12BIT {
      RoundTrip12(w, tail);
    } else if encType == ENCODE_LOSSLESS_BINARY {
      BinaryBack(w, st, tail, prior);
    } else if encType == ENCODE_LOSSLESS_FIBONACCI {
      FibBack(w, ClampMean(st.mean), tail, prior, env.hi);
    } else if encType == ENCODE_LOSSLESS_BINFIB_COMBO {
      ComboWidthPositive(st.range);
      ComboBack(w, ClampMean(st.mean), ComboWidth(st.range), tail, env);
    } else {
      NoneBack(w, tail);
    }
  }

  /**
   * In terms of the channel's own mean: all within -798..797 of it, and the Fibonacci encoding
   * brings the wave back.
   */
  lemma NearMeanBack(w: seq<short>, st: Stats, tail: seq<byte>, prior: seq<short>, env: Surroundings)
    requires |w| == |prior| == SAMPLES && |tail| >= BEHIND && Roomy(env) && -127 <= st.mean <= 127
    requires forall k :: 0 <= k < |w| ==> -798 <= Distance(w[k], st.mean) <= 797
    ensures var t := ENCODE_LOSSLESS_FIBONACCI;
            DecodedWave(ActualType(t, st), |Body(t, w, st)|, Body(t, w, st) + tail, prior, env) == (Ok, w, false)
  {
    hide DecodedWave, Body, ActualType, Distance;
    MeanKept(st.mean);
    forall k | 0 <= k < |w| ensures Coded(w[k], ClampMean(st.mean)) {}
    WaveBack(ENCODE_LOSSLESS_FIBONACCI, w, st, tail, prior, env);
  }

  lemma MeanKept(mean: int)
    requires -127 <= mean <= 127
    ensures ClampMean(mean) == mean
  {
    ClampNearest(mean);
  }

  /** ... and in terms of its own mean and range, the combined one. */
  lemma NearMeanComboBack(w: seq<short>, st: Stats, b: nat, tail: seq<byte>, prior: seq<short>, env: Surroundings)
    requires |w| == |prior| == SAMPLES && |tail| >= BEHIND && Roomy(env) && -127 <= st.mean <= 127
    requires 1 <= st.range < 1024 && 2 <= b && st.range + 1 <= Pow2(b) && (b > 2 ==> Pow2(b - 1) < st.range + 1)
    requires Fitting(w, st.mean, b)
    ensures var t := ENCODE_LOSSLESS_BINFIB_COMBO;
            var (code, x, _) := DecodedWave(ActualType(t, st), |Body(t, w, st)|, Body(t, w, st) + tail, prior, env);
            code == Ok && x == w
  {
    hide DecodedWave, Body, ActualType, Fitting, Overruns, ComboWidth;
    MeanKept(st.mean);
    ComboWidthLeast(st.range);
    LeastUnique(st.range, b, ComboWidth(st.range));
    WaveBack(ENCODE_LOSSLESS_BINFIB_COMBO, w, st, tail, prior, env);
  }

  lemma LeastUnique(range: nat, a: nat, b: nat)
    requires a >= 2 && range + 1 <= Pow2(a) && (a > 2 ==> Pow2(a - 1) < range + 1)
    requires b >= 2 && range + 1 <= Pow2(b) && (b > 2 ==> Pow2(b - 1) < range + 1)
    ensures a == b
  {
    hide Pow2;
    if a < b {
      Pow2Monotone(a, b - 1);
    } else if b < a {
      Pow2Monotone(b, a - 1);
    }
  }

  /** The checksum of the body is the one the decoder computes. */
  lemma CrcOfBody(body: seq<byte>, tail: seq<byte>)
    ensures Crc(body + tail, |body| / 2) == Crc(body, |body| / 2)
  {
    WordSumOfFront(body, body + tail, |body| / 2);
  }

  lemma HeaderFits(encType: nat, ch: ChannelValue, st: Stats)
    requires Encodable(encType, st) && |ch.data| == SAMPLES
    ensures var h := BodyHeader(encType, ch, st);
            h.encType < 0x1_0000_0000 && h.numBytes <= LARGEST && h.crc < 65536
  {
    hide Body, Width, ComboWidth, Crc;
    BodySize(encType, ch.data, st);
  }

  /**
   * Channel round trip: what the decoder reads where the encoder wrote, with
   * anything behind it, is the header written, and from it the channel itself.
   */
  lemma ChannelRoundTrip(encType: nat, ch: ChannelValue, st: Stats, tail: seq<byte>, prior: ChannelValue,
                         env: Surroundings)
    requires Encodable(encType, st) && |ch.data| == |prior.data| == SAMPLES && |tail| >= BEHIND && Roomy(env)
    requires Carried(encType, ch.data, st)
    ensures var s := ChannelRecord(encType, ch, st) + tail;
            var h := BodyHeader(encType, ch, st);
            && |s| >= 12 && ReadHeader(s) == h && |s| == 12 + h.numBytes + |tail|
            && DecodedChannel(h, s[12..], prior, env) == (Ok, ch, Overruns(encType, ch.data, st, tail, env.hi))
  {
    hide Body, ActualType, DecodedWave, HeaderBytes, ReadHeader, Crc, Overruns, Carried;
    var h, body := BodyHeader(encType, ch, st), Body(encType, ch.data, st);
    var s := ChannelRecord(encType, ch, st) + tail;
    HeaderFits(encType, ch, st);
    HeaderBack(h, body + tail);
    Assoc(HeaderBytes(h), body, tail);
    assert s[12..] == body + tail;
    CrcOfBody(body, tail);
    WaveBack(encType, ch.data, st, tail, prior.data, env);
  }

  // ----- ... and only such waves

  /** The wave comes back whatever follows its record and whatever the surroundings hold. */
  ghost predicate AlwaysBack(encType: nat, w: seq<short>, st: Stats)
    requires Encodable(encType, st) && |w| == SAMPLES
  {
    forall tail: seq<byte>, prior, env | |tail| >= BEHIND && |prior| == SAMPLES && Roomy(env) ::
      DecodedWave(ActualType(encType, st), |Body(encType, w, st)|, Body(encType, w, st) + tail, prior, env)
      == (Ok, w, false)
  }

  lemma WideBinaryRefused(w: seq<short>, st: Stats, tail: seq<byte>, prior: seq<short>, env: Surroundings)
    requires |w| == |prior| == SAMPLES && st.xMin <= st.xMax && |tail| >= BEHIND && Roomy(env)
    requires !(1 <= Width(st.xMax - st.xMin) <= 11)
    ensures var body := Body(ENCODE_LOSSLESS_BINARY, w, st);
            DecodedWave(ActualType(ENCODE_LOSSLESS_BINARY, st), |body|, body + tail, prior, env)
              == (BadSize, prior, false)
  {
    hide Width, Middle, Samples12, WordBits, Pack, Span;
    WidthBound(st.xMax - st.xMin);
    SpanOfWave(Width(st.xMax - st.xMin));
  }

  /** Surroundings to decode in. */
  function SomeSurroundings(hi: Bit32): (env: Surroundings)
    ensures Roomy(env)
  {
    Surroundings(seq(LOOKUPS, i => 0), hi, (input, n, t, prior) => (BadCode, prior))
  }

  lemma NotAlways(encType: nat, w: seq<short>, st: Stats, tail: seq<byte>, prior: seq<short>, env: Surroundings)
    requires Encodable(encType, st) && |w| == |prior| == SAMPLES && |tail| >= BEHIND && Roomy(env)
    requires DecodedWave(ActualType(encType, st), |Body(encType, w, st)|, Body(encType, w, st) + tail, prior, env)
          != (Ok, w, false)
    ensures !AlwaysBack(encType, w, st)
  {
    hide DecodedWave, ActualType, Body;
  }

  /** The record's mean is the one byte before the codes. */
  lemma FibNotBack(w: seq<short>, st: Stats, tail: seq<byte>, prior: seq<short>, hi: Bit32)
    requires |w| == |prior| == SAMPLES && |tail| >= BEHIND
    requires !Recovers(w, ClampMean(st.mean), tail, prior, hi)
    ensures !AlwaysBack(ENCODE_LOSSLESS_FIBONACCI, w, st)
  {
    hide FibRun, Flat, Pack, Concat, SampleCodes, S8, AlwaysBack, ClampMean;
    var mean := ClampMean(st.mean);
    RecordStream(w, mean, tail);
    NotAlways(ENCODE_LOSSLESS_FIBONACCI, w, st, tail, prior, SomeSurroundings(hi));
  }

  /** Exactly which waves come back, for every lossless type but the combined one. */
  lemma CarriedExactly(encType: nat, w: seq<short>, st: Stats)
    requires Encodable(encType, st) && |w| == SAMPLES && encType != ENCODE_LOSSLESS_BINFIB_COMBO
    ensures AlwaysBack(encType, w, st) <==> Carried(encType, w, st)
  {
    hide DecodedWave, ActualType, Body, Overruns, Samples12, Record12, Width, Middle, Near, Twelve, Coded, BinaryWave,
         BinaryEncType, BinaryRecord, Recovers, ClampMean, AlwaysBack;
    if Carried(encType, w, st) {
      CarriedIsBack(encType, w, st);
    } else {
      NotCarried(encType, w, st);
    }
  }

  lemma CarriedIsBack(encType: nat, w: seq<short>, st: Stats)
    requires Encodable(encType, st) && |w| == SAMPLES && encType != ENCODE_LOSSLESS_BINFIB_COMBO
    requires Carried(encType, w, st)
    ensures AlwaysBack(encType, w, st)
  {
    hide DecodedWave, ActualType, Body, Carried;
    forall tail: seq<byte>, prior, env | |tail| >= BEHIND && |prior| == SAMPLES && Roomy(env)
      ensures DecodedWave(ActualType(encType, st), |Body(encType, w, st)|, Body(encType, w, st) + tail, prior, env)
           == (Ok, w, false)
    {
      WaveBack(encType, w, st, tail, prior, env);
    }
  }

  lemma NotCarried(encType: nat, w: seq<short>, st: Stats)
    requires Encodable(encType, st) && |w| == SAMPLES && encType != ENCODE_LOSSLESS_BINFIB_COMBO
    requires !Carried(encType, w, st)
    ensures !AlwaysBack(encType, w, st)
  {
    hide Record12, NoneRecord, BinaryRecord, Width, BinaryWave, Samples12, NoneSamples, Near, Coded, Twelve,
         Flat, Middle, ClampMean, Recovers, AlwaysBack;
    var tail: seq<byte> := seq(BEHIND, i => 0);
    var env := SomeSurroundings(Bit32Clear);
    if encType == ENCODE_LOSSLESS_12BIT {
      RoundTrip12(w, tail);
      NotAlways(encType, w, st, tail, w, env);
    } else if encType == ENCODE_LOSSLESS_BINARY {
      if 1 <= Width(st.xMax - st.xMin) <= 11 {
        BinaryBack(w, st, tail, w);
      } else {
        WideBinaryRefused(w, st, tail, w, env);
      }
      NotAlways(encType, w, st, tail, w, env);
    } else {
      FibExact(w, ClampMean(st.mean), BEHIND);
      var t: seq<byte>, prior: seq<short>, hi: Bit32 :|
        |t| >= BEHIND && |prior| == |w| && !Recovers(w, ClampMean(st.mean), t, prior, hi);
      FibNotBack(w, st, t, prior, hi);
    }
  }

  // ----- Altered records

  /** Altering any single 16-bit word under the checksum makes the decoder refuse, and change nothing. */
  lemma AlteredWord(h: ChannelHeader, input: seq<byte>, altered: seq<byte>, i: nat, prior: ChannelValue,
                    env: Surroundings)
    requires |prior.data| == SAMPLES && |input| == |altered| >= h.numBytes + BEHIND && Roomy(env)
    requires Crc(input, h.numBytes / 2) == h.crc && OneAltered(input, altered, h.numBytes / 2, i)
    ensures DecodedChannel(h, altered, prior, env) == (BadCrc, prior, false)
  {
    hide DecodedWave, OneAltered, Crc;
    CrcDetects(input, altered, h.numBytes / 2, i);
  }

  /** Of a body of odd size the last byte is not under the checksum. */
  lemma LastByteUnseen(h: ChannelHeader, input: seq<byte>, x: byte, prior: ChannelValue, env: Surroundings)
    requires |prior.data| == SAMPLES && |input| >= h.numBytes + BEHIND && Roomy(env)
    requires Crc(input, h.numBytes / 2) == h.crc && h.numBytes % 2 == 1
    ensures var (code, w, overran) := DecodedWave(h.encType, h.numBytes, input[h.numBytes - 1 := x], prior.data, env);
            DecodedChannel(h, input[h.numBytes - 1 := x], prior, env) == (code, ChannelValue(h.rawHdr, w), overran)
  {
    hide DecodedWave;
    WordSumSame(input, input[h.numBytes - 1 := x], h.numBytes / 2);
  }
}

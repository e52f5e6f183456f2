// Encoding a channel into its record and decoding it again, whatever encoding
// type is asked for or found.
module ChannelCodec {
  import opened Bits
  import opened Fibonacci
  import opened CompUtils
  import opened Encoding
  import opened Records
  import opened CodeScan
  import opened WaveBinary
  import opened WaveFibonacci
  import opened WaveBinFib
  import opened WaveBinFibDecode
  import opened ComboRecovery
  import opened Pack12Bit
  import opened Checksum
  import opened Channel

  /** The types that ask for mu-law, and those a mu-law record carries. */
  predicate MulawAsked(encType: nat) { ENCODE_LOSSY_MULAW <= encType <= ENCODE_LOSSY_MULAW_3BIT }

  predicate MulawType(encType: nat) { ENCODE_LOSSY_MULAW_11_8 <= encType <= ENCODE_LOSSY_MULAW_6_3 }

  predicate BinaryType(encType: nat) { ENCODE_LOSSLESS_11BIT <= encType <= ENCODE_LOSSLESS_1BIT }

  predicate ComboType(encType: nat) { ENCODE_LOSSLESS_BINFIB_COMBO <= encType <= ENCODE_LOSSLESS_BINFIB_1BIT }

  // ----- Encoding

  /** What the lossless encoders need of the statistics. */
  predicate Encodable(encType: nat, st: Stats) {
    && !MulawAsked(encType)
    && (encType == ENCODE_LOSSLESS_BINARY ==> st.xMin <= st.xMax)
    && (encType == ENCODE_LOSSLESS_BINFIB_COMBO ==> 1 <= st.range < 32768)
  }

  /** The encoding type the header gets: the width is part of it, and an unknown type is sent unencoded. */
  function ActualType(encType: nat, st: Stats): nat
    requires Encodable(encType, st)
  {
    if encType == ENCODE_LOSSLESS_12BIT || encType == ENCODE_LOSSLESS_FIBONACCI then encType
    else if encType == ENCODE_LOSSLESS_BINARY then BinaryEncType(Width(st.xMax - st.xMin))
    else if encType == ENCODE_LOSSLESS_BINFIB_COMBO then BinFibEncType(ComboWidth(st.range))
    else ENCODE_NONE
  }

  function Body(encType: nat, w: seq<short>, st: Stats): seq<byte>
    requires Encodable(encType, st) && |w| == SAMPLES
  {
    if encType == ENCODE_LOSSLESS_12BIT then Record12(w, SAMPLES / 4)
    else if encType == ENCODE_LOSSLESS_BINARY then
      BinaryRecord(w, Middle(st.xMin, st.xMax), Width(st.xMax - st.xMin))
    else if encType == ENCODE_LOSSLESS_FIBONACCI then FibRecord(w, ClampMean(st.mean))
    else if encType == ENCODE_LOSSLESS_BINFIB_COMBO then
      ComboWidthPositive(st.range);
      ComboRecord(w, ClampMean(st.mean), ComboWidth(st.range))
    else NoneRecord(w)
  }

  lemma ComboWidthPositive(range: nat)
    requires 1 <= range
    ensures ComboWidth(range) >= 2
    ensures range < 32768 ==> ComboWidth(range) <= 15
    ensures ComboWidth(range) <= 10 <==> range < 1024
  {
    var b := Width(range);
    Powers();
    if b >= 16 {
      Pow2Monotone(15, b - 1);
    }
    if b >= 11 {
      Pow2Monotone(10, b - 1);
    } else {
      Pow2Monotone(b, 10);
    }
  }

  lemma Powers()
    ensures Pow2(0) == 1 && Pow2(1) == 2 && Pow2(10) == 1024 && Pow2(15) == 32768 && Pow2(16) == 65536
  {
    assert Pow2(5) == 32;
    assert Pow2(10) == 1024;
  }

  function BodyHeader(encType: nat, ch: ChannelValue, st: Stats): ChannelHeader
    requires Encodable(encType, st) && |ch.data| == SAMPLES
  {
    var body := Body(encType, ch.data, st);
    ChannelHeader(ch.header, ActualType(encType, st), |body|, Crc(body, |body| / 2))
  }

  function ChannelRecord(encType: nat, ch: ChannelValue, st: Stats): (s: seq<byte>)
    requires Encodable(encType, st) && |ch.data| == SAMPLES
  {
    HeaderBytes(BodyHeader(encType, ch, st)) + Body(encType, ch.data, st)
  }

  method EncodeBody(encType: nat, w: seq<short>, st: Stats, buf: array<byte>, off: nat)
    returns (encSize: nat, actual: nat)
    requires Encodable(encType, st) && |w| == SAMPLES
    requires ZeroFrom(buf[..], off, |Body(encType, w, st)|)
    modifies buf
    ensures encSize == |Body(encType, w, st)| && actual == ActualType(encType, st)
    ensures buf[..] == Splice(old(buf[..]), off, Body(encType, w, st))
  {
    hide Record12, BinaryRecord, FibRecord, ComboRecord, NoneRecord, Splice, Width, ComboWidth, ClampMean,
         BinaryEncType, BinFibEncType;
    actual := encType;
    if encType == ENCODE_LOSSLESS_12BIT {
      encSize := Encode12Bit(buf, off, w);
    } else if encType == ENCODE_LOSSLESS_BINARY {
      encSize, actual := EncodeLosslessBinary(buf, off, w, st.xMin, st.xMax);
    } else if encType == ENCODE_LOSSLESS_FIBONACCI {
      encSize := EncodeLosslessFibonacci(buf, off, w, st.mean);
    } else if encType == ENCODE_LOSSLESS_BINFIB_COMBO {
      ComboWidthPositive(st.range);
      encSize, actual := EncodeCombo(buf, off, w, st.mean, st.range);
    } else {
      actual := ENCODE_NONE;
      StoreBytes(buf, off, NoneRecord(w));
      encSize := 2 * SAMPLES;
    }
  }

  /** The record goes into the zeroed bytes from `off` on, header fields before and after the wave. */
  method EncodePSChannel(encType: nat, ch: SurfChannel, st: Stats, buf: array<byte>, off: nat)
    returns (size: nat)
    requires ch.data.Length == SAMPLES && Encodable(encType, st)
    requires ZeroFrom(buf[..], off, |ChannelRecord(encType, ch.Value(), st)|)
    modifies buf
    ensures size == |ChannelRecord(encType, ch.Value(), st)|
    ensures buf[..] == Splice(old(buf[..]), off, ChannelRecord(encType, ch.Value(), st))
  {
    RecordParts(encType, ch.Value(), st);
    hide *;
    ghost var before, body := buf[..], Body(encType, ch.data[..], st);
    var first := RawBytes(ch.header) + LE32(encType);
    StoreBytes(buf, off, first);
    StillZero(before, off, first, 12, |body|);
    var encSize, actual := EncodeBody(encType, ch.data[..], st, buf, off + 12);
    BodyThere(before, off, first, body, buf[..]);
    var crc := SimpleCrcShort(buf[off + 12..off + 12 + encSize], encSize / 2);
    var rest := LE32(actual) + LE16(encSize) + LE16(crc);
    StoreBytes(buf, off + 4, rest);
    HeaderAround(before, off, RawBytes(ch.header), LE32(encType), rest, body, buf[..]);
    size := 12 + encSize;
  }

  lemma RecordParts(encType: nat, ch: ChannelValue, st: Stats)
    requires Encodable(encType, st) && |ch.data| == SAMPLES
    ensures var body := Body(encType, ch.data, st);
            && ChannelRecord(encType, ch, st)
               == RawBytes(ch.header) + (LE32(ActualType(encType, st)) + LE16(|body|) + LE16(Crc(body, |body| / 2)))
                   + body
            && |ChannelRecord(encType, ch, st)| == 12 + |body|
  {
    hide Body, ActualType, Crc, LE16, LE32, RawBytes;
    var body := Body(encType, ch.data, st);
    Assoc(RawBytes(ch.header), LE32(ActualType(encType, st)), LE16(|body|));
    Assoc(RawBytes(ch.header), LE32(ActualType(encType, st)) + LE16(|body|), LE16(Crc(body, |body| / 2)));
  }

  lemma StillZero(s: seq<byte>, off: nat, first: seq<byte>, k: nat, n: nat)
    requires |first| <= k && ZeroFrom(s, off, k + n)
    ensures ZeroFrom(Splice(s, off, first), off + k, n)
  {
  }

  lemma BodyThere(s: seq<byte>, off: nat, first: seq<byte>, body: seq<byte>, t: seq<byte>)
    requires off + 12 + |body| <= |s| && |first| <= 12
    requires t == Splice(Splice(s, off, first), off + 12, body)
    ensures |t| == |s| && t[off + 12..off + 12 + |body|] == body
  {
  }

  lemma HeaderAround(s: seq<byte>, off: nat, raw: seq<byte>, asked: seq<byte>, rest: seq<byte>,
                     body: seq<byte>, t: seq<byte>)
    requires |raw| == 4 && |asked| == 4 && |rest| == 8 && off + 12 + |body| <= |s|
    requires t == Splice(Splice(Splice(s, off, raw + asked), off + 12, body), off + 4, rest)
    ensures t == Splice(s, off, raw + rest + body)
  {
  }

  // ----- Decoding

  /** Bytes a decoder may look at beyond the size in the header. */
  const BEHIND: nat := 1408

  /** The decoder's outcome for the wave: result code, samples, and whether the table was overrun. */
  function DecodedWave(encType: nat, numBytes: nat, input: seq<byte>, prior: seq<short>, env: Surroundings)
    : (r: (CompressErrorCode, seq<short>, bool))
    requires |prior| == SAMPLES && |input| >= numBytes + BEHIND && Roomy(env)
  {
    if encType == ENCODE_NONE then
      if numBytes == 2 * SAMPLES then (Ok, NoneSamples(input, SAMPLES), false) else (BadSize, prior, false)
    else if encType == ENCODE_LOSSLESS_12BIT then
      if numBytes == 6 * (SAMPLES / 4) then (Ok, Samples12(input, SAMPLES / 4), false) else (BadSize, prior, false)
    else if BinaryType(encType) then
      var (code, w) := BinaryWave(encType, numBytes, input, prior);
      (code, w, false)
    else if encType == ENCODE_LOSSLESS_FIBONACCI then
      var (code, w) := FibRun(Flat(input), 8, prior, S8(input[0]), numBytes, env.hi);
      (code, w, false)
    else if ComboType(encType) then
      var (w, overran) := ComboWave(encType, input, env);
      (Ok, w, overran)
    else if MulawType(encType) then
      var (code, w) := env.lossy(input, numBytes, encType, prior);
      (code, w, false)
    else
      (BadCode, if numBytes == 2 * SAMPLES then NoneSamples(input, SAMPLES) else prior, false)
  }

  function BinaryWave(encType: nat, numBytes: nat, input: seq<byte>, prior: seq<short>)
    : (r: (CompressErrorCode, seq<short>))
    requires |prior| == SAMPLES && |input| >= BEHIND
  {
    var b := BinaryBitSize(encType);
    SpanOfWave(b);
    var stored := SamplesStored(b, numBytes, SAMPLES, 0);
    (if 2 + Span(SAMPLES, b) / 8 <= numBytes then Ok else BadSize,
     DecodedSamples(Flat(input)[16..], S16(Word16(input)), b, SAMPLES)[..stored] + prior[stored..])
  }

  lemma SpanOfWave(b: nat)
    requires b <= 16
    ensures Span(SAMPLES, b) == 260 * b <= 4160
  {
    SpanIsProduct(SAMPLES, b);
  }

  function ComboWave(encType: nat, input: seq<byte>, env: Surroundings): (r: (seq<short>, bool))
    requires |input| >= BEHIND && Roomy(env)
  {
    var f, b := Flat(input), BinFibBitSize(encType);
    SpanOfWave(b);
    var xs := Table(f, 8 + Span(SAMPLES, b), 0, HeadMean(f), b, env.hi);
    (ComboSamples(f[8..], HeadMean(f), b, Overlay(env.stack, xs), SAMPLES),
     |xs| > SLOTS || Flags(f[8..], b, SAMPLES) > SLOTS)
  }

  /** The mu-law decoder keeps to the samples it is given. */
  ghost predicate Keeping(env: Surroundings) {
    forall input, n, t, p :: |env.lossy(input, n, t, p).1| == |p|
  }

  lemma DecodedShape(h: ChannelHeader, input: seq<byte>, prior: ChannelValue, env: Surroundings)
    requires |prior.data| == SAMPLES && |input| >= h.numBytes + BEHIND && Roomy(env) && Keeping(env)
    ensures |DecodedChannel(h, input, prior, env).1.data| == SAMPLES
  {
    hide Flat, Crc, DecodedSamples, SamplesStored, S8, FibRun, Table, ComboSamples, Overlay, Flags, HeadMean,
         Samples12, NoneSamples;
  }

  /** The whole decoder: nothing changes unless the checksum is right. */
  function DecodedChannel(h: ChannelHeader, input: seq<byte>, prior: ChannelValue, env: Surroundings)
    : (r: (CompressErrorCode, ChannelValue, bool))
    requires |prior.data| == SAMPLES && |input| >= h.numBytes + BEHIND && Roomy(env)
  {
    if Crc(input, h.numBytes / 2) != h.crc then (BadCrc, prior, false)
    else
      var (code, w, overran) := DecodedWave(h.encType, h.numBytes, input, prior.data, env);
      (code, ChannelValue(h.rawHdr, w), overran)
  }

  method DecodeWave(encType: nat, numBytes: nat, input: seq<byte>, data: array<short>, env: Surroundings)
    returns (code: CompressErrorCode, overran: bool)
    requires data.Length == SAMPLES && |input| >= numBytes + BEHIND && Roomy(env)
    requires Keeping(env)
    modifies data
    ensures (code, data[..], overran) == DecodedWave(encType, numBytes, input, old(data[..]), env)
  {
    hide Flat, Table, ComboSamples, Samples12, NoneSamples, FibRun, Span, DecodedSamples, SamplesStored, Flags,
         BinaryBitSize, BinFibBitSize, S8, HeadMean, Overlay, Reach;
    overran := false;
    if encType == ENCODE_NONE {
      code := DecodeNone(input, numBytes, data);
    } else if encType == ENCODE_LOSSLESS_12BIT {
      code := Decode12Bit(input, numBytes, data);
    } else if BinaryType(encType) {
      SpanOfWave(BinaryBitSize(encType));
      code := DecodeLosslessBinary(input, numBytes, data, encType);
    } else if encType == ENCODE_LOSSLESS_FIBONACCI {
      code := DecodeLosslessFibonacci(input, numBytes, data, env.hi);
    } else if ComboType(encType) {
      ReachOfWave(input, encType);
      overran := DecodeCombo(input, data, encType, env.stack, env.hi);
      code := Ok;
    } else if MulawType(encType) {
      var (c, w) := env.lossy(input, numBytes, encType, data[..]);
      StoreSamples(data, w);
      code := c;
    } else {
      code := DecodeNone(input, numBytes, data);
      code := BadCode;
    }
  }

  lemma ReachOfWave(input: seq<byte>, encType: nat)
    requires |input| >= BEHIND
    ensures 8 + Span(SAMPLES, BinFibBitSize(encType)) + Reach(0) <= 8 * |input|
  {
    SpanOfWave(BinFibBitSize(encType));
  }

  method StoreSamples(data: array<short>, w: seq<short>)
    requires |w| == data.Length
    modifies data
    ensures data[..] == w
  {
    forall i | 0 <= i < |w| {
      data[i] := w[i];
    }
  }

  method DecodePSChannel(h: ChannelHeader, input: seq<byte>, ch: SurfChannel, env: Surroundings)
    returns (code: CompressErrorCode, overran: bool)
    requires ch.data.Length == SAMPLES && |input| >= h.numBytes + BEHIND && Roomy(env)
    requires Keeping(env)
    modifies ch, ch.data
    ensures (code, ch.Value(), overran) == DecodedChannel(h, input, old(ch.Value()), env)
  {
    hide DecodedWave, Crc;
    var newCrc := SimpleCrcShort(input, h.numBytes / 2);
    if h.crc != newCrc {
      return BadCrc, false;
    }
    ch.header := h.rawHdr;
    code, overran := DecodeWave(h.encType, h.numBytes, input, ch.data, env);
  }
}

// One channel's record: a 12-byte header with the encoding type, the size and
// the checksum of the encoded wave, then the wave.
module Channel {
  import opened Bits
  import opened Fibonacci
  import opened CompUtils
  import opened Encoding
  import opened Records
  import opened CodeScan
  import opened WaveBinary
  import opened WaveFibonacci
  import opened WaveBinFib
  import opened WaveBinFibDecode
  import opened Pack12Bit
  import opened Checksum

  const SAMPLES: nat := 260  // MAX_NUMBER_SAMPLES

  datatype RawHeader = RawHeader(chanId: byte, chipIdFlag: byte, firstHitbus: byte, lastHitbus: byte)

  datatype ChannelHeader = ChannelHeader(rawHdr: RawHeader, encType: nat, numBytes: nat, crc: nat)

  /** A channel's header and samples. */
  datatype ChannelValue = ChannelValue(header: RawHeader, data: seq<short>)

  /** What the pedestal code has filled in: extremes, the mean's and three times the rms's integer part. */
  datatype Stats = Stats(xMin: short, xMax: short, mean: int, range: nat)

  /** A channel as the codec sees it in memory. */
  class SurfChannel {
    var header: RawHeader
    const data: array<short>

    constructor (header0: RawHeader)
      ensures data.Length == SAMPLES && fresh(data) && header == header0
    {
      header := header0;
      data := new short[SAMPLES](i => 0);
    }

    ghost function Value(): ChannelValue
      reads this, data
    {
      ChannelValue(header, data[..])
    }
  }

  /** The mu-law decoder, of which nothing is assumed. */
  type LossyDecoder = (seq<byte>, nat, nat, seq<short>) -> (CompressErrorCode, seq<short>)

  /**
   * What the decoders' results may depend on besides their input: the memory of
   * the 256-slot table and behind it, the bit a shift by 32 yields, and the
   * mu-law decoder.
   */
  datatype Surroundings = Surroundings(stack: seq<short>, hi: Bit32, lossy: LossyDecoder)

  predicate Roomy(env: Surroundings) {
    |env.stack| >= LOOKUPS
  }

  // ----- Header bytes

  function RawBytes(h: RawHeader): (s: seq<byte>)
    ensures |s| == 4
  {
    [h.chanId, h.chipIdFlag, h.firstHitbus, h.lastHitbus]
  }

  function HeaderBytes(h: ChannelHeader): (s: seq<byte>)
    ensures |s| == 12
  {
    RawBytes(h.rawHdr) + LE32(h.encType) + LE16(h.numBytes) + LE16(h.crc)
  }

  function ReadHeader(s: seq<byte>): ChannelHeader
    requires |s| >= 12
  {
    ChannelHeader(RawHeader(s[0], s[1], s[2], s[3]), Word32(s[4..]), Word16(s[8..]), Word16(s[10..]))
  }

  lemma HeaderBack(h: ChannelHeader, rest: seq<byte>)
    requires h.encType < 0x1_0000_0000 && h.numBytes < 65536 && h.crc < 65536
    ensures ReadHeader(HeaderBytes(h) + rest) == h
  {
    hide LE16, Word16, LE32, Word32;
    var s := HeaderBytes(h) + rest;
    assert s[10..] == LE16(h.crc) + rest;
    assert s[8..] == LE16(h.numBytes) + s[10..];
    assert s[4..] == LE32(h.encType) + s[8..];
    Word16OfLE16(h.crc, rest);
    Word16OfLE16(h.numBytes, s[10..]);
    Word32OfLE32(h.encType, s[8..]);
  }

  // ----- Unencoded waves

  function NoneRecord(w: seq<short>): (s: seq<byte>)
    ensures |s| == 2 * |w|
  {
    if w == [] then [] else NoneRecord(w[..|w| - 1]) + LE16(w[|w| - 1])
  }

  function NoneSamples(s: seq<byte>, n: nat): (w: seq<short>)
    requires 2 * n <= |s|
    ensures |w| == n
  {
    seq(n, i requires 0 <= i < n => S16(WordAt(s, i)))
  }

  lemma {:induction false} NoneBack(w: seq<short>, tail: seq<byte>)
    ensures NoneSamples(NoneRecord(w) + tail, |w|) == w
  {
    if w != [] {
      var front, x := w[..|w| - 1], w[|w| - 1];
      var s := NoneRecord(w) + tail;
      NoneBack(front, LE16(x) + tail);
      hide S16;
      Assoc(NoneRecord(front), LE16(x), tail);
      assert S16(WordAt(s, |w| - 1)) == x by {
        assert s[2 * (|w| - 1)] == LE16(x)[0] && s[2 * (|w| - 1) + 1] == LE16(x)[1];
        Word16OfLE16(x, []);
      }
      forall i | 0 <= i < |w| - 1 ensures NoneSamples(s, |w|)[i] == w[i] {
        assert NoneSamples(NoneRecord(front) + (LE16(x) + tail), |front|)[i] == front[i];
      }
    }
  }

  method DecodeNone(input: seq<byte>, numBytes: int, data: array<short>) returns (code: CompressErrorCode)
    requires 2 * data.Length <= |input|
    modifies data
    ensures code == if numBytes == 2 * data.Length then Ok else BadSize
    ensures data[..] == if code == Ok then NoneSamples(input, data.Length) else old(data[..])
  {
    if numBytes != 2 * data.Length {
      return BadSize;
    }
    forall i | 0 <= i < data.Length {
      data[i] := S16(WordAt(input, i));
    }
    return Ok;
  }
}

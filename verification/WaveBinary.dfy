// Lossless binary encoding of a waveform: the middle of the range, then every
// sample's distance from it, zig-zag mapped and cut to a fixed width.
module WaveBinary {
  import opened Bits
  import opened BitCursor
  import opened CompUtils
  import opened Encoding
  import opened Records

  /** Smallest width whose codes number at least `range` + 1. */
  function Width(range: nat): (b: nat)
    ensures range + 1 <= Pow2(b)
    ensures b > 0 ==> Pow2(b - 1) < range + 1
  {
    WidthFrom(range, 0)
  }

  function WidthFrom(range: nat, b: nat): (w: nat)
    requires b > 0 ==> Pow2(b - 1) < range + 1
    ensures range + 1 <= Pow2(w)
    ensures w > 0 ==> Pow2(w - 1) < range + 1
    decreases range + 1 - Pow2(b)
  {
    if range + 1 <= Pow2(b) then b else WidthFrom(range, b + 1)
  }

  function Middle(xMin: short, xMax: short): short
    requires xMin <= xMax
  {
    xMin + (xMax - xMin) / 2
  }

  /** The codes of the samples before they are cut to the width. */
  function ZigZag(w: seq<short>, mean: short): (codes: seq<ushort>)
    ensures |codes| == |w|
  {
    seq(|w|, k requires 0 <= k < |w| => Bifurcate(Distance(w[k], mean)))
  }

  /** Mean first, then the packed codes. */
  function BinaryRecord(w: seq<short>, mean: short, b: nat): (s: seq<byte>)
    ensures |s| == 2 + BytesFor(Span(|w|, b))
  {
    LE16(mean) + Pack(WordBits(ZigZag(w, mean), b))
  }

  /** The writing loop: every code's low bits, into zeroed bytes. */
  method WriteCodes(buf: array<byte>, off: nat, w: seq<short>, mean: short, bitSize: nat) returns (end: nat)
    requires ZeroFrom(buf[..], off, BytesFor(Span(|w|, bitSize)))
    modifies buf
    ensures end == off + BytesFor(Span(|w|, bitSize))
    ensures buf[..] == Splice(old(buf[..]), off, Pack(WordBits(ZigZag(w, mean), bitSize)))
  {
    hide Flat, Filling, WordBits, Value, Pack, Field, Zeros;
    ghost var codes := ZigZag(w, mean);
    ghost var total := WordBits(codes, bitSize);
    assert WordBits(codes[..0], bitSize) == [];
    ghost var len := BytesFor(|total|);
    ghost var a, b := buf[..off], buf[off + len..];
    ZerosFilling(buf[..], off, len);
    var cur, bit := off, 0;
    var wordNum := 0;
    ghost var done: seq<bool> := [];
    while wordNum < |w|
      invariant 0 <= wordNum <= |w| && bit < 8 && 0 <= cur && 0 <= bit
      invariant done == WordBits(codes[..wordNum], bitSize) && |done| <= |total|
      invariant 8 * cur + bit == 8 * off + |done|
      invariant Filling(buf[..], Flat(a), done, 8 * len - |done|, Flat(b))
    {
      var newVal := Bifurcate(Distance(w[wordNum], mean));
      WordBitsSnoc(codes, bitSize, wordNum);
      cur, bit := PutNext(buf, cur, bit, newVal, bitSize, Flat(a), done, 8 * len - |done|, Flat(b));
      done := done + Field(newVal, bitSize);
      wordNum := wordNum + 1;
    }
    assert codes[..wordNum] == codes;
    FilledBytes(buf[..], a, total, 8 * len - |total|, b);
    end := if bit != 0 then cur + 1 else cur;
  }

  method EncodeLosslessBinary(buf: array<byte>, off: nat, w: seq<short>, xMin: short, xMax: short)
    returns (size: nat, encType: nat)
    requires xMin <= xMax
    requires ZeroFrom(buf[..], off, 2 + BytesFor(Span(|w|, Width(xMax - xMin))))
    modifies buf
    ensures size == 2 + BytesFor(Span(|w|, Width(xMax - xMin)))
    ensures encType == BinaryEncType(Width(xMax - xMin))
    ensures buf[..] == Splice(old(buf[..]), off, BinaryRecord(w, Middle(xMin, xMax), Width(xMax - xMin)))
  {
    hide Width, WidthFrom, Pack, WordBits, Span;
    var bitSize := Width(xMax - xMin);
    encType := BinaryEncType(bitSize);
    var mean := Middle(xMin, xMax);
    ghost var before, body := buf[..], Pack(WordBits(ZigZag(w, mean), bitSize));
    HeadThenBody(before, off, LE16(mean), body);
    hide Splice, ZeroFrom, LE16, ZigZag;
    StoreWord(buf, off, mean);
    var end := WriteCodes(buf, off + 2, w, mean, bitSize);
    size := end - off;
  }

  // ----- Decoding

  /** The k-th field of `b` bits. */
  function FieldAt(bits: seq<bool>, b: nat, k: nat): (v: nat)
    requires Span(k + 1, b) <= |bits|
    ensures b <= 16 ==> v < 65536
  {
    ValueBound(bits[Span(k, b)..Span(k + 1, b)]);
    if b <= 16 then Pow2Of16(b); Value(bits[Span(k, b)..Span(k + 1, b)])
    else Value(bits[Span(k, b)..Span(k + 1, b)])
  }

  lemma Pow2Of16(b: nat)
    requires b <= 16
    ensures Pow2(b) <= 65536
    ensures b <= 15 ==> Pow2(b) <= 32768
  {
    assert Pow2(8) == 256;
    assert Pow2(15) == 32768 && Pow2(16) == 65536;
    Pow2Monotone(b, if b <= 15 then 15 else 16);
  }

  /** What the decoder stores when it reads samples of `b` bits off the bits after the mean. */
  function DecodedSamples(bits: seq<bool>, mean: short, b: nat, n: nat): (w: seq<short>)
    requires b <= 16 && Span(n, b) <= |bits|
    ensures |w| == n
  {
    if n == 0 then []
    else DecodedSamples(bits, mean, b, n - 1) + [Restore(mean, Unbifurcate(FieldAt(bits, b, n - 1)))]
  }

  lemma DecodedAt(bits: seq<bool>, mean: short, b: nat, n: nat, k: nat)
    requires b <= 16 && Span(n, b) <= |bits| && k < n
    ensures Span(k + 1, b) <= |bits|
    ensures DecodedSamples(bits, mean, b, n)[k] == Restore(mean, Unbifurcate(FieldAt(bits, b, k)))
  {
    SpanMonotone(k + 1, n, b);
    if k < n - 1 {
      DecodedAt(bits, mean, b, n - 1, k);
    }
  }

  /** Samples stored before the size test stops the loop. */
  function SamplesStored(b: nat, numBytes: int, n: nat, k: nat): (stored: nat)
    requires k <= n
    ensures k <= stored <= n
    decreases n - k
  {
    if k == n then n
    else if 2 + Span(k + 1, b) / 8 > numBytes then k + 1
    else SamplesStored(b, numBytes, n, k + 1)
  }

  lemma StoredAll(b: nat, numBytes: int, n: nat, k: nat)
    requires k <= n && 2 + Span(n, b) / 8 <= numBytes
    ensures SamplesStored(b, numBytes, n, k) == n
    decreases n - k
  {
    if k < n {
      SpanMonotone(k + 1, n, b);
      StoredAll(b, numBytes, n, k + 1);
    }
  }

  /** Stores the next of the samples `w`, the ones after it still holding what they did. */
  method StoreSample(data: array<short>, k: nat, x: short, ghost w: seq<short>, ghost before: seq<short>)
    requires k < |w| == |before| && x == w[k] && data[..] == w[..k] + before[k..]
    modifies data
    ensures data[..] == w[..k + 1] + before[k + 1..]
  {
    hide *;
    PrefixStep(w, before, k);
    ghost var now := data[..];
    data[k] := x;
    assert data[..] == now[k := x];
  }

  lemma SpanRoom(n: nat, b: nat, len: nat)
    requires 2 + Span(n, b) / 8 + 4 <= len
    ensures Span(n, b) <= 8 * len - 16
  {
  }

  /** Reads the k-th field at the cursor and makes a sample of it. */
  method ReadSample(input: seq<byte>, cur: nat, bit: nat, mean: short, b: nat, ghost n: nat, ghost k: nat)
    returns (x: short)
    requires k < n && b <= 16 && bit < 8 && 8 * cur + bit == 16 + Span(k, b)
    requires 2 + Span(n, b) / 8 + 4 <= |input| && Span(n, b) <= |Flat(input)[16..]|
    ensures x == DecodedSamples(Flat(input)[16..], mean, b, n)[k]
  {
    hide Flat, Value, DecodedSamples, Restore, Unbifurcate, Bit;
    SpanMonotone(k + 1, n, b);
    SliceShift(Flat(input), 16, Span(k, b), Span(k + 1, b));
    DecodedAt(Flat(input)[16..], mean, b, n, k);
    var tempNum := ReadField(input, cur, bit, b, 16 + Span(k, b));
    assert tempNum == FieldAt(Flat(input)[16..], b, k);
    x := Restore(mean, Unbifurcate(tempNum));
  }

  method DecodeLosslessBinary(input: seq<byte>, numBytes: int, data: array<short>, encType: nat)
    returns (code: CompressErrorCode)
    requires 2 + Span(data.Length, BinaryBitSize(encType)) / 8 + 4 <= |input|
    modifies data
    ensures code == if data.Length == 0 || 2 + Span(data.Length, BinaryBitSize(encType)) / 8 <= numBytes
                    then Ok else BadSize
    ensures var b := BinaryBitSize(encType);
            var stored := SamplesStored(b, numBytes, data.Length, 0);
            data[..] == DecodedSamples(Flat(input)[16..], S16(Word16(input)), b, data.Length)[..stored]
                        + old(data[..])[stored..]
  {
    hide Flat, DecodedSamples, S16, Word16, BinaryBitSize;
    var n, bitSize := data.Length, BinaryBitSize(encType);
    SpanRoom(n, bitSize, |input|);
    var mean := S16(Word16(input));
    ghost var w := DecodedSamples(Flat(input)[16..], mean, bitSize, n);
    ghost var before := data[..];
    var cur: nat, bit: nat := 2, 0;
    var sampNum := 0;
    while sampNum < n
      invariant 0 <= sampNum <= n && bit < 8
      invariant 8 * cur + bit == 16 + Span(sampNum, bitSize)
      invariant sampNum > 0 ==> cur <= numBytes
      invariant data[..] == w[..sampNum] + before[sampNum..]
      invariant SamplesStored(bitSize, numBytes, n, 0) == SamplesStored(bitSize, numBytes, n, sampNum)
    {
      var x := ReadSample(input, cur, bit, mean, bitSize, n, sampNum);
      StoreSample(data, sampNum, x, w, before);
      sampNum := sampNum + 1;
      cur, bit := Skip(cur, bit, bitSize);
      assert cur == 2 + Span(sampNum, bitSize) / 8;
      if cur > numBytes {
        SpanMonotone(sampNum, n, bitSize);
        return BadSize;
      }
    }
    return Ok;
  }

  // ----- What survives

  /** A sample through the code cut to b bits and back. */
  function Through(x: short, mean: short, b: nat): short
    requires b <= 16
  {
    Pow2Of16(b);
    Restore(mean, Unbifurcate(Bifurcate(Distance(x, mean)) % Pow2(b)))
  }

  /** A signed distance survives being cut to m = 2h codes exactly when it is below h in size. */
  lemma CutExact(d: short, h: int, v: ushort)
    requires 1 <= h <= 32768 && v == Bifurcate(d) % (2 * h)
    ensures Unbifurcate(v) == d <==> -h < d < h
  {
    var u := Bifurcate(d);
    if -h < d < h {
      assert u < 2 * h;
      ModSmall(u, 2 * h);
      assert v == u;
      assert Unbifurcate(Bifurcate(d)) == d by {
        UnbifurcateBifurcate(d);
        assert d != -32768;
      }
    } else {
      assert v < 2 * h;
      assert -h < Unbifurcate(v) < h;
    }
  }

  /** A sample survives exactly when its 16-bit distance is below half the number of codes. */
  lemma ThroughExact(x: short, mean: short, b: nat)
    requires 1 <= b <= 15
    ensures Through(x, mean, b) == x <==> Near(x, mean, b)
  {
    var d := Distance(x, mean);
    Pow2Of16(b);
    CutExact(d, Pow2(b - 1), Bifurcate(d) % Pow2(b));
    RestoreDistance(x, mean, Unbifurcate(Bifurcate(d) % Pow2(b)));
  }

  /** The 16-bit distance from the mean is below 2^(b-1). */
  predicate Near(x: short, mean: short, b: nat)
    requires b >= 1
  {
    -(Pow2(b - 1) as int) < Distance(x, mean) < Pow2(b - 1)
  }

  /** Reading back any record: each sample goes through its code, whatever follows. */
  lemma DecodedOfRecord(w: seq<short>, mean: short, b: nat, tail: seq<byte>)
    requires b <= 16
    ensures var s := BinaryRecord(w, mean, b) + tail;
            && S16(Word16(s)) == mean
            && Span(|w|, b) <= |Flat(s)[16..]|
            && forall k :: 0 <= k < |w| ==>
                 DecodedSamples(Flat(s)[16..], mean, b, |w|)[k] == Through(w[k], mean, b)
  {
    var codes := ZigZag(w, mean);
    var bs := WordBits(codes, b);
    var s := BinaryRecord(w, mean, b) + tail;
    Assoc(LE16(mean), Pack(bs), tail);
    Word16OfLE16(mean, Pack(bs) + tail);
    RecordBits(LE16(mean), bs, tail);
    var bits := Flat(s)[16..];
    forall k | 0 <= k < |w|
      ensures DecodedSamples(bits, mean, b, |w|)[k] == Through(w[k], mean, b)
    {
      DecodedAt(bits, mean, b, |w|, k);
      FieldOfStream(codes, b, bits[|bs|..], k);
      assert bits == bs + bits[|bs|..];
    }
  }

  /** The k-th field of a packed stream is the k-th code cut to the width. */
  lemma FieldOfStream(codes: seq<nat>, b: nat, rest: seq<bool>, k: nat)
    requires k < |codes|
    ensures Span(k + 1, b) <= |WordBits(codes, b) + rest|
    ensures FieldAt(WordBits(codes, b) + rest, b, k) == codes[k] % Pow2(b)
  {
    var bs := WordBits(codes, b);
    WordBitsField(codes, b, k);
    assert (bs + rest)[Span(k, b)..Span(k + 1, b)] == bs[Span(k, b)..Span(k, b) + b];
    ValueOfField(codes[k], b);
  }

  /**
   * Round trip, exactly: the record decodes to the waveform, whatever follows
   * it, if and only if every sample is near the stored mean.
   */
  lemma BinaryRoundTrip(w: seq<short>, mean: short, b: nat, tail: seq<byte>)
    requires 1 <= b <= 15
    ensures var s := BinaryRecord(w, mean, b) + tail;
            && Span(|w|, b) <= |Flat(s)[16..]|
            && (DecodedSamples(Flat(s)[16..], mean, b, |w|) == w
                <==> forall k :: 0 <= k < |w| ==> Near(w[k], mean, b))
  {
    DecodedOfRecord(w, mean, b, tail);
    forall k | 0 <= k < |w| ensures Through(w[k], mean, b) == w[k] <==> Near(w[k], mean, b) {
      ThroughExact(w[k], mean, b);
    }
  }

  /**
   * The exact width theorem.  With the width the encoder picks for the range
   * and all samples in the range, only one kind of sample can change: when the
   * range holds exactly 2^b values, the largest comes back as the middle.
   */
  lemma ExactWidth(w: seq<short>, xMin: short, xMax: short, tail: seq<byte>)
    requires xMin <= xMax && 1 <= Width(xMax - xMin) <= 15
    requires forall k :: 0 <= k < |w| ==> xMin <= w[k] <= xMax
    ensures var b := Width(xMax - xMin);
            var mean := Middle(xMin, xMax);
            var bits := Flat(BinaryRecord(w, mean, b) + tail)[16..];
            && Span(|w|, b) <= |bits|
            && forall k :: 0 <= k < |w| ==>
                 DecodedSamples(bits, mean, b, |w|)[k]
                 == if xMax - xMin + 1 == Pow2(b) && w[k] == xMax then mean else w[k]
  {
    var b := Width(xMax - xMin);
    var mean := Middle(xMin, xMax);
    DecodedOfRecord(w, mean, b, tail);
    forall k | 0 <= k < |w|
      ensures Through(w[k], mean, b)
           == if xMax - xMin + 1 == Pow2(b) && w[k] == xMax then mean else w[k]
    {
      InRange(w[k], xMin, xMax);
    }
  }

  /** The sample half the codes above the middle wraps round to the middle. */
  lemma TopSample(x: short, mean: short, b: nat)
    requires 1 <= b <= 15 && x as int - mean as int == Pow2(b - 1)
    ensures Through(x, mean, b) == mean
  {
    var h: int := Pow2(b - 1);
    Pow2Of16(b);
    assert Distance(x, mean) == h;
    ModUnique(2 * h + 1, 2 * h, 1, 1);
    assert Bifurcate(h) % Pow2(b) == 1;
  }

  lemma InRange(x: short, xMin: short, xMax: short)
    requires xMin <= x <= xMax && 1 <= Width(xMax - xMin) <= 15
    ensures var b := Width(xMax - xMin);
            var mean := Middle(xMin, xMax);
            Through(x, mean, b) == if xMax - xMin + 1 == Pow2(b) && x == xMax then mean else x
  {
    var b := Width(xMax - xMin);
    var mean := Middle(xMin, xMax);
    Pow2Of16(b);
    Halves(x, xMin, xMax, Pow2(b - 1));
    hide Through, Pow2, WidthFrom, Middle;
    if x as int - mean as int == Pow2(b - 1) {
      TopSample(x, mean, b);
    } else {
      ThroughExact(x, mean, b);
    }
  }

  /** Where a sample in the range lies, seen from the middle. */
  lemma Halves(x: short, xMin: short, xMax: short, h: int)
    requires xMin <= x <= xMax && h <= 16384
    requires h < xMax as int - xMin as int + 1 <= 2 * h
    ensures var d := x as int - Middle(xMin, xMax) as int;
            && d == Distance(x, Middle(xMin, xMax))
            && -h < d <= h
            && (d == h <==> xMax as int - xMin as int + 1 == 2 * h && x == xMax)
  {
  }
}

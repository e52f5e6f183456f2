// The combined encoding of a wide range: the header cannot name the width, and
// the decoder reads fields of ten bits where wider ones were written.
module ComboWide {
  import opened Bits
  import opened CompUtils
  import opened Encoding
  import opened Records
  import opened WaveBinary
  import opened WaveFibonacci
  import opened WaveBinFib
  import opened WaveBinFibDecode
  import opened ComboRecovery
  import opened Channel
  import opened ChannelCodec

  lemma Ten()
    ensures Pow2(10) == 1024 && Flag(10) == 1023
  {
    assert Pow2(5) == 32;
  }

  /** Bit j of the record's fixed-width part, j within the first two codes. */
  lemma CodeBit(codes: seq<nat>, b: nat, rest: seq<bool>, j: nat)
    requires |codes| >= 2 && j < 2 * b
    ensures j < |WordBits(codes, b) + rest|
    ensures (WordBits(codes, b) + rest)[j] == if j < b then Bit(codes[0], j) else Bit(codes[1], j - b)
  {
    var bs := WordBits(codes, b);
    WordBitsField(codes, b, 0);
    WordBitsField(codes, b, 1);
    assert Span(0, b) == 0 && Span(1, b) == b && Span(2, b) == 2 * b;
    if j < b {
      assert bs[0..b][j] == bs[j];
    } else {
      assert bs[b..b + b][j - b] == bs[j];
    }
  }

  /** The first field of ten bits is the first code's front. */
  lemma FirstField(codes: seq<nat>, b: nat, rest: seq<bool>)
    requires |codes| >= 2 && b >= 11
    ensures 20 <= |WordBits(codes, b) + rest| && Span(1, 10) == 10 && Span(2, 10) == 20
    ensures FieldAt(WordBits(codes, b) + rest, 10, 0) == codes[0] % 1024
  {
    hide WordBits, Bit, Pow2;
    var bits := WordBits(codes, b) + rest;
    CodeBit(codes, b, rest, 19);
    forall j | 0 <= j < 10 ensures bits[j] == Bit(codes[0], j) {
      CodeBit(codes, b, rest, j);
    }
    assert bits[0..10] == Field(codes[0], 10);
    ValueOfField(codes[0], 10);
    Ten();
  }

  /** The second one begins with the rest of the first code. */
  lemma SecondField(codes: seq<nat>, b: nat, rest: seq<bool>, j: nat)
    requires |codes| >= 2 && 11 <= b <= 15 && codes[0] < 1024 && j < 10
    ensures 20 <= |WordBits(codes, b) + rest| && Span(2, 10) == 20
    ensures Bit(FieldAt(WordBits(codes, b) + rest, 10, 1), j) == (j >= b - 10 && Bit(codes[1], j - (b - 10)))
  {
    hide WordBits, Bit, Pow2;
    var bits := WordBits(codes, b) + rest;
    CodeBit(codes, b, rest, 19);
    CodeBit(codes, b, rest, 10 + j);
    ValueBit(bits[10..20], j);
    if 10 + j < b {
      Ten();
      NoBitsAbove(codes[0], 10, 10 + j);
    }
  }

  predicate Shifted(bs: seq<bool>, m: nat, i: nat)
    requires i < |bs|
  {
    bs[i] == (i >= m && bs[i - m])
  }

  /** Bits that are their own shift are none. */
  lemma NoOwnShift(bs: seq<bool>, m: nat, j: nat)
    requires m >= 1 && j < |bs| && forall i :: 0 <= i < |bs| ==> Shifted(bs, m, i)
    ensures !bs[j]
  {
    assert Shifted(bs, m, j);
    if j >= m {
      NoOwnShift(bs, m, j - m);
    }
  }

  lemma ShiftDiffers(c: nat, v: nat, m: nat)
    requires m >= 1 && 0 < c < 1024 && forall j: nat :: j < 10 ==> Bit(v, j) == (j >= m && Bit(c, j - m))
    ensures c != v
  {
    if c == v {
      var j := HighBit(c);
      Ten();
      if j >= 10 {
        NoBitsAbove(c, 10, j);
      } else {
        var bs := Field(c, 10);
        assert bs[j];
        forall i | 0 <= i < 10 ensures Shifted(bs, m, i) {}
        NoOwnShift(bs, m, j);
      }
    }
  }

  lemma WidePower(b: nat)
    requires 11 <= b <= 15
    ensures Pow2(b - 1) >= 1024 && Flag(b) % 1024 == 1023 && Pow2(b) <= 32768
  {
    Ten();
    assert Pow2(15) == 32 * Pow2(10);
  }

  /** A sample that a field below 1024 gives back has just this code. */
  lemma SampleTold(x: short, mean: int, b: nat, v: nat)
    requires 11 <= b <= 15 && -127 <= mean <= 127 && v < 1024 && Restore(mean, Unbifurcate(v)) == x
    ensures Within(x, mean, b)
    ensures 0 < MainCode(x, mean, b) < 65536 && (v != 0 ==> MainCode(x, mean, b) == v)
        && (v == 0 ==> MainCode(x, mean, b) == 1)
  {
    WidePower(b);
    hide Pow2;
    var d := Unbifurcate(v);
    assert -512 <= d <= 512;
    RestoreDistance(x, mean, d);
    assert x == mean + d;
  }

  /**
   * Read back at ten bits, no waveform survives whose first code does not end
   * in ten ones: one of the first two samples comes back wrong.
   */
  lemma NeverBack(w: seq<short>, mean: int, b: nat, rest: seq<bool>, slots: seq<short>, n: nat)
    requires 11 <= b <= 15 && -127 <= mean <= 127 && 2 <= n == |w| <= |slots|
    requires MainCode(w[0], mean, b) % 1024 != 1023
    requires Span(n, 10) <= |MainBits(w, mean, b, n) + rest|
    ensures ComboSamples(MainBits(w, mean, b, n) + rest, mean, 10, slots, n) != w
  {
    hide MainCode, Within, Bit, FieldAt, WordBits, ComboSamples, Restore, Unbifurcate, Pow2, Flag;
    var codes := MainCodes(w, mean, b);
    assert codes[..n] == codes;
    var bits := MainBits(w, mean, b, n) + rest;
    assert bits == WordBits(codes, b) + rest;
    var c0, c1, m := codes[0], codes[1], b - 10;
    Ten();
    FirstField(codes, b, rest);
    ComboSampleAt(bits, mean, 10, slots, n, 0);
    ComboSampleAt(bits, mean, 10, slots, n, 1);
    if ComboSamples(bits, mean, 10, slots, n) == w {
      SampleTold(w[0], mean, b, c0 % 1024);
      FrontIsWhole(c0);
      SecondWrong(w, mean, b, codes, rest, slots);
    }
  }

  /** A code that is 1 where its front is 0, and its front elsewhere, is below 1024. */
  lemma FrontIsWhole(c: nat)
    requires (c % 1024 != 0 ==> c == c % 1024) && (c % 1024 == 0 ==> c == 1)
    ensures c < 1024
  {
  }

  lemma SecondWrong(w: seq<short>, mean: int, b: nat, codes: seq<nat>, rest: seq<bool>, slots: seq<short>)
    requires 11 <= b <= 15 && -127 <= mean <= 127 && 2 <= |w| == |codes| <= |slots|
    requires codes == MainCodes(w, mean, b) && codes[0] < 1024
    requires Span(2, 10) <= |WordBits(codes, b) + rest|
    ensures ComboSample(WordBits(codes, b) + rest, mean, 10, slots, 1) != w[1]
  {
    hide Within, Bit, FieldAt, WordBits, Restore, Unbifurcate, Pow2, MainCode;
    var bits, m, c := WordBits(codes, b) + rest, b - 10, codes[1];
    var v := FieldAt(bits, 10, 1);
    FieldBelow(bits);
    Ten();
    forall j: nat | j < 10 ensures Bit(v, j) == (j >= m && Bit(c, j - m)) {
      SecondField(codes, b, rest, j);
    }
    assert !Bit(v, 0);
    assert Bit(v, m) == Bit(c, 0);
    EvenAndOdd(v, c, m);
    if Restore(mean, Unbifurcate(v)) == w[1] {
      SampleTold(w[1], mean, b, v);
      if v != 0 {
        ShiftDiffers(c, v, m);
      }
    }
  }

  lemma FieldBelow(bits: seq<bool>)
    requires 20 <= |bits| && Span(2, 10) == 20
    ensures FieldAt(bits, 10, 1) < 1024
  {
    Ten();
    ValueBound(bits[10..20]);
  }

  lemma EvenAndOdd(v: nat, c: nat, m: nat)
    requires !Bit(v, 0) && Bit(v, m) == Bit(c, 0)
    ensures v != 1023 && (c == 1 ==> v != 0)
  {
    hide Bit;
    FirstBit(v);
    FirstBit(c);
    if v == 0 {
      ZeroBit(m);
    }
  }

  lemma FirstBit(v: nat)
    ensures Bit(v, 0) == (v % 2 == 1)
  {
  }

  lemma WideComboWave(w: seq<short>, mean: int, b: nat, tail: seq<byte>, env: Surroundings)
    requires 11 <= b <= 15 && -127 <= mean <= 127 && |w| == SAMPLES && |tail| >= BEHIND && Roomy(env)
    requires MainCode(w[0], mean, b) % 1024 != 1023
    ensures ComboWave(ENCODE_LOSSLESS_BINFIB_10BIT, ComboRecord(w, mean, b) + tail, env).0 != w
  {
    hide *;
    var f := Flat(ComboRecord(w, mean, b) + tail);
    ComboStream(w, mean, b, tail);
    TenBits(ComboRecord(w, mean, b) + tail, mean, env);
    var slots := Overlay(env.stack, Table(f, 8 + Span(SAMPLES, 10), 0, mean, 10, env.hi));
    NeverBack(w, mean, b, f[8 + Span(|w|, b)..], slots, SAMPLES);
  }

  lemma TenBits(input: seq<byte>, mean: int, env: Surroundings)
    requires |input| >= BEHIND && Roomy(env) && HeadMean(Flat(input)) == mean
    ensures var f := Flat(input);
            && 8 + Span(SAMPLES, 10) + Reach(0) <= |f| && SAMPLES >= 2
            && |Table(f, 8 + Span(SAMPLES, 10), 0, mean, 10, env.hi)| <= |env.stack| && SAMPLES <= |env.stack|
            && var slots := Overlay(env.stack, Table(f, 8 + Span(SAMPLES, 10), 0, mean, 10, env.hi));
               |slots| == |env.stack|
               && ComboWave(ENCODE_LOSSLESS_BINFIB_10BIT, input, env).0
                  == ComboSamples(f[8..], mean, 10, slots, SAMPLES)
  {
    hide Flat, HeadMean, Table, ComboSamples, Flags, Span;
    assert BinFibBitSize(ENCODE_LOSSLESS_BINFIB_10BIT) == 10;
    SpanOfWave(10);
  }

  /** At channel level: such a wave is lost whatever follows its record and whatever memory holds. */
  lemma WideRangeLost(w: seq<short>, st: Stats, tail: seq<byte>, prior: seq<short>, env: Surroundings)
    requires Encodable(ENCODE_LOSSLESS_BINFIB_COMBO, st) && st.range >= 1024
    requires |w| == |prior| == SAMPLES && |tail| >= BEHIND && Roomy(env)
    requires ComboWidth(st.range) >= 1 && MainCode(w[0], ClampMean(st.mean), ComboWidth(st.range)) % 1024 != 1023
    ensures var t := ENCODE_LOSSLESS_BINFIB_COMBO;
            DecodedWave(ActualType(t, st), |Body(t, w, st)|, Body(t, w, st) + tail, prior, env).1 != w
  {
    ComboWidthPositive(st.range);
    var b, mean := ComboWidth(st.range), ClampMean(st.mean);
    assert BinFibEncType(b) == ENCODE_LOSSLESS_BINFIB_10BIT;
    hide Width, ComboWidth, MainCode, ComboRecord, ComboWave, ClampMean, BinFibBitSize, BinFibEncType;
    WideComboWave(w, mean, b, tail, env);
  }
}

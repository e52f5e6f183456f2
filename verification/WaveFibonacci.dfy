// Lossless Fibonacci encoding of a waveform: a one-byte mean, then every
// sample's zig-zag mapped distance from it as a Fibonacci codeword.
module WaveFibonacci {
  import opened Bits
  import opened BitCursor
  import opened Fibonacci
  import opened CompUtils
  import opened Encoding
  import opened Records
  import opened CodeScan

  /** The mean as an int, held to what a signed byte takes. */
  function ClampMean(mean: int): (m: int)
    ensures -127 <= m <= 127
  {
    if mean > 127 then 127 else if mean < -127 then -127 else mean
  }

  /** A byte read as a signed char. */
  function S8(b: byte): (m: int)
    ensures -128 <= m < 128
  {
    if b < 128 then b else b - 256
  }

  function Far(a: int, b: int): nat {
    if a < b then b - a else a - b
  }

  /** It is the number of -127..127 nearest to the mean. */
  lemma ClampNearest(mean: int)
    ensures forall m :: -127 <= m <= 127 ==> Far(mean, ClampMean(mean)) <= Far(mean, m)
  {
  }

  /** A signed byte read back. */
  lemma SignedByte(m: int)
    requires -128 <= m < 128
    ensures S8(m % 256) == m
  {
  }

  /** The record's first byte is the number of -127..127 nearest to the channel's mean. */
  lemma FibMean(w: seq<short>, mean: int)
    ensures forall m :: -127 <= m <= 127 ==> Far(mean, S8(FibRecord(w, ClampMean(mean))[0])) <= Far(mean, m)
  {
    ClampNearest(mean);
    SignedByte(ClampMean(mean));
  }

  /** A number less its bits from 16 on, as stored in an unsigned short. */
  function Short(bits: seq<bool>): (r: seq<bool>)
    ensures |r| == |bits|
  {
    if |bits| <= 16 then bits else bits[..16] + Zeros(|bits| - 16)
  }

  lemma ShortField(c: seq<bool>)
    ensures Field(Value(c) % 65536, |c|) == Short(c)
  {
    var v := Value(c) % 65536;
    Pow2Of16Bits();
    forall j: nat ensures Bit(v, j) == (j < 16 && j < |c| && c[j]) {
      ValueBit(c, j);
      ModBit(Value(c), 16, j);
    }
  }

  lemma Pow2Of16Bits()
    ensures Pow2(16) == 65536
  {
    assert Pow2(8) == 256;
  }

  lemma ModBit(v: nat, k: nat, j: nat)
    ensures Bit(v % Pow2(k), j) == (j < k && Bit(v, j))
  {
    ValueOfField(v, k);
    ValueBit(Field(v, k), j);
  }

  /** What the encoder emits for one sample: the code, its high bits lost. */
  function SampleCode(x: short, mean: int): (c: seq<bool>) {
    Short(FibCode(Bifurcate(Distance(x, mean))))
  }

  function SampleCodes(w: seq<short>, mean: int): (cs: seq<seq<bool>>)
    ensures |cs| == |w|
  {
    seq(|w|, k requires 0 <= k < |w| => SampleCode(w[k], mean))
  }

  function FibRecord(w: seq<short>, mean: int): (s: seq<byte>)
    requires -127 <= mean <= 127
    ensures |s| == 1 + BytesFor(|Concat(SampleCodes(w, mean))|)
  {
    [mean % 256] + Pack(Concat(SampleCodes(w, mean)))
  }

  /** What the encoder packs for a sample is the sample's listed code. */
  lemma EmittedField(x: short, mean: int)
    ensures var c := FibCode(Bifurcate(Distance(x, mean)));
            Field(Value(c) % 65536, |c|) == SampleCode(x, mean)
  {
    hide FibCode, Value, Field, Bifurcate, Distance;
    ShortField(FibCode(Bifurcate(Distance(x, mean))));
  }

  /** The writing loop, into zeroed bytes. */
  method WriteSampleCodes(buf: array<byte>, off: nat, w: seq<short>, mean: int) returns (end: nat)
    requires ZeroFrom(buf[..], off, BytesFor(|Concat(SampleCodes(w, mean))|))
    modifies buf
    ensures end == off + BytesFor(|Concat(SampleCodes(w, mean))|)
    ensures buf[..] == Splice(old(buf[..]), off, Pack(Concat(SampleCodes(w, mean))))
  {
    hide *;
    ghost var codes := SampleCodes(w, mean);
    ghost var before := buf[..];
    ghost var len := BytesFor(|Concat(codes)|);
    RoomThere(before, off, len);
    ghost var pre, post := before[..off], before[off + len..];
    WritingStart(before, off, codes);
    var cur: nat, bit: nat := off, 0;
    var wordNum := 0;
    while wordNum < |w|
      invariant 0 <= wordNum <= |w|
      invariant Writing(buf[..], pre, codes, wordNum, post, cur, bit)
    {
      cur, bit := EmitSample(buf, cur, bit, w, mean, wordNum, pre, post);
      wordNum := wordNum + 1;
    }
    WritingEnd(buf[..], pre, codes, post, cur, bit);
    SpliceIs(before, off, Pack(Concat(codes)));
    end := if bit != 0 then cur + 1 else cur;
  }

  /** One sample's code, as an unsigned short holds it. */
  method EmitSample(buf: array<byte>, cur0: nat, bit0: nat, w: seq<short>, mean: int, k: nat,
                    ghost pre: seq<byte>, ghost post: seq<byte>)
    returns (cur: nat, bit: nat)
    requires k < |w| && Writing(buf[..], pre, SampleCodes(w, mean), k, post, cur0, bit0)
    modifies buf
    ensures Writing(buf[..], pre, SampleCodes(w, mean), k + 1, post, cur, bit)
  {
    hide *;
    SampleCodeAt(w, mean, k);
    EmittedField(w[k], mean);
    var newVal := Bifurcate(Distance(w[k], mean));
    var code, numBits := EncodeShort(newVal);
    cur, bit := PutCode(buf, cur0, bit0, code % 65536, numBits, pre, SampleCodes(w, mean), k, post);
  }

  lemma SampleCodeAt(w: seq<short>, mean: int, k: nat)
    requires k < |w|
    ensures SampleCodes(w, mean)[k] == SampleCode(w[k], mean)
  {
  }

  method EncodeLosslessFibonacci(buf: array<byte>, off: nat, w: seq<short>, chanMean: int) returns (size: nat)
    requires ZeroFrom(buf[..], off, |FibRecord(w, ClampMean(chanMean))|)
    modifies buf
    ensures size == |FibRecord(w, ClampMean(chanMean))|
    ensures buf[..] == Splice(old(buf[..]), off, FibRecord(w, ClampMean(chanMean)))
    ensures forall m :: -127 <= m <= 127 ==> Far(chanMean, S8(buf[off])) <= Far(chanMean, m)
  {
    FibMean(w, chanMean);
    var mean := ClampMean(chanMean);
    ghost var before, body := buf[..], Pack(Concat(SampleCodes(w, mean)));
    HeadThenBody(before, off, [mean % 256], body);
    hide Pack, Concat, SampleCodes, ClampMean, Splice, ZeroFrom;
    StoreByte(buf, off, mean % 256);
    var end := WriteSampleCodes(buf, off + 1, w, mean);
    size := end - off;
  }

  // ----- Decoding

  /** A found word as a sample; the word is kept in an unsigned short. */
  function WordSample(word: nat, mean: int): short {
    Restore(mean, Unbifurcate(Unfib(23, word % 65536)))
  }

  /** One sample at bit `pos`: the new sample and position; with no pair in the window nothing changes. */
  function FibStep(f: seq<bool>, pos: nat, prior: short, mean: int, hi: Bit32): (r: (short, nat))
    requires WindowEnd(pos) <= |f|
    ensures r.1 >= pos
  {
    var ws := WindowBits(f, pos, hi(pos));
    var e := PairEnd(ws);
    if e == 0 then (prior, pos) else (WordSample(Value(ws[..e]), mean), pos + e)
  }

  /** The decoder's loop from bit `pos` over samples whose memory holds `prior`. */
  function FibRun(f: seq<bool>, pos: nat, prior: seq<short>, mean: int, numBytes: nat, hi: Bit32)
    : (r: (CompressErrorCode, seq<short>))
    requires 8 * (numBytes + 5) <= |f| && pos <= 8 * numBytes + 8
    ensures |r.1| == |prior|
    decreases |prior|
  {
    if prior == [] then (Ok, [])
    else
      WindowFits(pos, numBytes + 1);
      var (x, next) := FibStep(f, pos, prior[0], mean, hi);
      if next >= 8 * numBytes + 8 then (BadSize, [x] + prior[1..])
      else
        var (code, rest) := FibRun(f, next, prior[1..], mean, numBytes, hi);
        (code, [x] + rest)
  }

  method DecodeSample(input: seq<byte>, cur0: nat, bit0: nat, prior: short, mean: int, hi: Bit32, ghost pos: nat)
    returns (x: short, cur: nat, bit: nat)
    requires cur0 + 4 <= |input| && bit0 < 8 && pos == 8 * cur0 + bit0
    ensures WindowEnd(pos) <= |Flat(input)| && bit < 8
    ensures (x, 8 * cur + bit) == FibStep(Flat(input), pos, prior, mean, hi)
  {
    hide Value, Fib, Flat, PairEnd, WindowBits, Unfib, Unbifurcate, Restore, Bit, Field;
    x, cur, bit := prior, cur0, bit0;
    assert pos / 8 == cur0;
    var e, fibNum := FindWord(input, cur0, bit0, hi(8 * cur0 + bit0), pos);
    if e != 0 {
      fibNum := fibNum % 65536;
      var unfibNum := DecodeShort(fibNum);
      x := Restore(mean, Unbifurcate(unfibNum));
      var tempBit := bit0 + e;
      cur := cur + tempBit / 8;
      bit := tempBit % 8;
    }
  }

  /** Mid-way through the loop: what is stored so far, and what the rest of the run will store. */
  ghost predicate Running(f: seq<bool>, pos: nat, before: seq<short>, k: nat, now: seq<short>, mean: int,
                          numBytes: nat, hi: Bit32) {
    && 8 * (numBytes + 5) <= |f| && pos <= 8 * numBytes + 8 && k <= |before| == |now|
    && now[k..] == before[k..]
    && var (code, rest) := FibRun(f, pos, before[k..], mean, numBytes, hi);
       FibRun(f, 8, before, mean, numBytes, hi) == (code, now[..k] + rest)
  }

  lemma RunStart(f: seq<bool>, before: seq<short>, mean: int, numBytes: nat, hi: Bit32)
    requires 8 * (numBytes + 5) <= |f|
    ensures Running(f, 8, before, 0, before, mean, numBytes, hi)
  {
    assert before[0..] == before && before[..0] == [];
    hide FibRun;
    var rest := FibRun(f, 8, before, mean, numBytes, hi).1;
    assert [] + rest == rest;
  }

  lemma RunStep(f: seq<bool>, pos: nat, before: seq<short>, k: nat, now: seq<short>, mean: int, numBytes: nat,
                hi: Bit32)
    requires Running(f, pos, before, k, now, mean, numBytes, hi) && k < |before|
    ensures now[k] == before[k]
    ensures var (x, next) := FibStep(f, pos, before[k], mean, hi);
            if next >= 8 * numBytes + 8 then FibRun(f, 8, before, mean, numBytes, hi) == (BadSize, now[k := x])
            else Running(f, next, before, k + 1, now[k := x], mean, numBytes, hi)
  {
    assert now[k..][0] == before[k..][0];
    var (x, next) := FibStep(f, pos, before[k], mean, hi);
    assert before[k..][1..] == before[k + 1..];
    hide FibStep;
    assert now[k := x] == now[..k] + [x] + now[k + 1..];
    assert now[k + 1..] == now[k..][1..];
    if next >= 8 * numBytes + 8 {
      Assoc(now[..k], [x], before[k + 1..]);
    } else {
      Assoc(now[..k], [x], FibRun(f, next, before[k + 1..], mean, numBytes, hi).1);
      assert now[k := x][..k + 1] == now[..k] + [x];
    }
  }

  lemma RunEnd(f: seq<bool>, pos: nat, before: seq<short>, now: seq<short>, mean: int, numBytes: nat, hi: Bit32)
    requires Running(f, pos, before, |before|, now, mean, numBytes, hi)
    ensures FibRun(f, 8, before, mean, numBytes, hi) == (Ok, now)
  {
    assert now[..|before|] + [] == now;
  }

  method DecodeLosslessFibonacci(input: seq<byte>, numBytes: nat, data: array<short>, hi: Bit32)
    returns (code: CompressErrorCode)
    requires numBytes + 5 <= |input|
    modifies data
    ensures (code, data[..]) == FibRun(Flat(input), 8, old(data[..]), S8(input[0]), numBytes, hi)
  {
    var mean := S8(input[0]);
    ghost var f, before := Flat(input), data[..];
    RunStart(f, before, mean, numBytes, hi);
    hide Flat, FibStep, FibRun, S8, Running;
    var cur: nat, bit: nat := 1, 0;
    var sampNum := 0;
    ghost var pos := 8;
    while sampNum < data.Length
      invariant 0 <= sampNum <= data.Length && bit < 8 && cur <= numBytes + 1 && pos == 8 * cur + bit
      invariant Running(f, pos, before, sampNum, data[..], mean, numBytes, hi)
    {
      ghost var now := data[..];
      RunStep(f, pos, before, sampNum, now, mean, numBytes, hi);
      var x;
      x, cur, bit := DecodeSample(input, cur, bit, data[sampNum], mean, hi, pos);
      pos := FibStep(f, pos, before[sampNum], mean, hi).1;
      data[sampNum] := x;
      assert data[..] == now[sampNum := x];
      sampNum := sampNum + 1;
      if cur > numBytes {
        return BadSize;
      }
    }
    RunEnd(f, pos, before, data[..], mean, numBytes, hi);
    return Ok;
  }

  // ----- Round trip

  /** The code of the sample has at most 16 bits. */
  predicate Coded(x: short, mean: int) {
    -798 <= Distance(x, mean) <= 797
  }

  lemma SmallCode(v: nat)
    requires 1 <= v <= 1596
    ensures IsCodeword(FibCode(v)) && |FibCode(v)| <= 16
    ensures Value(FibCode(v)) < 65536
    ensures Unfib(23, Value(FibCode(v))) == v
  {
    FNIsTable();
    FibCodeSound(v);
    FibCodeLength(v, 16);
    ShortCode(v);
    ValueBound(FibCode(v));
    Pow2Monotone(|FibCode(v)|, 16);
    Pow2Of16Bits();
  }

  lemma SampleCodeSound(x: short, mean: int)
    requires Coded(x, mean)
    ensures IsCodeword(SampleCode(x, mean)) && |SampleCode(x, mean)| <= 16
    ensures WordSample(Value(SampleCode(x, mean)), mean) == x
  {
    var d := Distance(x, mean);
    var v := Bifurcate(d);
    UnbifurcateBifurcate(d);
    assert 1 <= v <= 1596;
    hide Fib, FibCode, Value, Unfib, Distance, Bifurcate, Unbifurcate, IsCodeword;
    SmallCode(v);
    ModSmall(Value(FibCode(v)), 65536);
    RestoreDistance(x, mean, d);
  }

  /** A coded sample at the cursor is read back and stepped over. */
  lemma StepSound(f: seq<bool>, pos: nat, x: short, mean: int, prior: short, hi: Bit32)
    requires WindowEnd(pos) <= |f|
    requires Coded(x, mean) && SampleCode(x, mean) <= f[pos..]
    ensures FibStep(f, pos, prior, mean, hi) == (x, pos + |SampleCode(x, mean)|)
  {
    hide SampleCode, WindowBits, PairEnd, WordSample, Value, IsCodeword, Coded;
    SampleCodeSound(x, mean);
    CodewordLength(SampleCode(x, mean));
    FoundCodeword(f, pos, hi(pos), SampleCode(x, mean));
  }

  lemma CodewordLength(c: seq<bool>)
    requires IsCodeword(c)
    ensures |c| >= 2
  {
  }

  lemma SampleCodesCons(w: seq<short>, mean: int)
    requires w != []
    ensures SampleCodes(w, mean) == [SampleCode(w[0], mean)] + SampleCodes(w[1..], mean)
  {
  }

  lemma {:induction false} RunSound(f: seq<bool>, pos: nat, w: seq<short>, rest: seq<bool>, mean: int,
                                    prior: seq<short>, numBytes: nat, hi: Bit32)
    requires 8 * (numBytes + 5) <= |f| && |prior| == |w|
    requires pos <= |f| && f[pos..] == Concat(SampleCodes(w, mean)) + rest
    requires pos + |Concat(SampleCodes(w, mean))| < 8 * numBytes + 8
    requires forall k :: 0 <= k < |w| ==> Coded(w[k], mean)
    ensures FibRun(f, pos, prior, mean, numBytes, hi) == (Ok, w)
    decreases |w|
  {
    hide *;
    if w == [] {
      RunNothing(f, pos, prior, mean, numBytes, hi);
    } else {
      var c := SampleCode(w[0], mean);
      SampleAhead(f, pos, w, rest, mean);
      WindowFits(pos, numBytes + 1);
      StepSound(f, pos, w[0], mean, prior[0], hi);
      RunSound(f, pos + |c|, w[1..], rest, mean, prior[1..], numBytes, hi);
      RunCons(f, pos, prior, mean, numBytes, hi, pos + |c|, w);
    }
  }

  lemma SampleAhead(f: seq<bool>, pos: nat, w: seq<short>, rest: seq<bool>, mean: int)
    requires pos <= |f| && w != [] && f[pos..] == Concat(SampleCodes(w, mean)) + rest
    ensures var c, more := SampleCode(w[0], mean), Concat(SampleCodes(w[1..], mean));
            && |Concat(SampleCodes(w, mean))| == |c| + |more|
            && c <= f[pos..] && pos + |c| <= |f| && f[pos + |c|..] == more + rest
  {
    hide *;
    var c, cs := SampleCode(w[0], mean), SampleCodes(w[1..], mean);
    SampleCodesCons(w, mean);
    ConcatCons(c, cs);
    AfterFirst(f, pos, c, Concat(cs), rest);
  }

  lemma RunNothing(f: seq<bool>, pos: nat, prior: seq<short>, mean: int, numBytes: nat, hi: Bit32)
    requires 8 * (numBytes + 5) <= |f| && pos < 8 * numBytes + 8 && prior == []
    ensures FibRun(f, pos, prior, mean, numBytes, hi) == (Ok, [])
  {
  }

  lemma RunCons(f: seq<bool>, pos: nat, prior: seq<short>, mean: int, numBytes: nat, hi: Bit32, next: nat,
                w: seq<short>)
    requires 8 * (numBytes + 5) <= |f| && pos <= next < 8 * numBytes + 8 && |prior| == |w| > 0
    requires FibStep(f, pos, prior[0], mean, hi) == (w[0], next)
    requires FibRun(f, next, prior[1..], mean, numBytes, hi) == (Ok, w[1..])
    ensures FibRun(f, pos, prior, mean, numBytes, hi) == (Ok, w)
  {
    hide FibStep;
    assert w == [w[0]] + w[1..];
  }

  /** The record, anything after it, and what the memory for the samples held. */
  ghost predicate Recovers(w: seq<short>, mean: int, tail: seq<byte>, prior: seq<short>, hi: Bit32)
    requires -127 <= mean <= 127 && |tail| >= 5
  {
    var r := FibRecord(w, mean);
    && S8((r + tail)[0]) == mean
    && FibRun(Flat(r + tail), 8, prior, mean, |r|, hi) == (Ok, w)
  }

  /** The bits a reader of the record finds after the mean. */
  lemma RecordStream(w: seq<short>, mean: int, tail: seq<byte>)
    requires -127 <= mean <= 127
    ensures var r, bs := FibRecord(w, mean), Concat(SampleCodes(w, mean));
            && |Flat(r + tail)| == 8 * |r| + 8 * |tail| && 8 + |bs| <= 8 * |r|
            && Flat(r + tail)[8..] == bs + (Zeros(Padding(|bs|)) + Flat(tail))
            && S8((r + tail)[0]) == mean
  {
    hide Concat, SampleCodes, Pack, Flat, Zeros;
    RecordBits([mean % 256], Concat(SampleCodes(w, mean)), tail);
  }

  lemma FibRoundTrip(w: seq<short>, mean: int, tail: seq<byte>, prior: seq<short>, hi: Bit32)
    requires -127 <= mean <= 127 && |tail| >= 5 && |prior| == |w|
    requires forall k :: 0 <= k < |w| ==> Coded(w[k], mean)
    ensures Recovers(w, mean, tail, prior, hi)
  {
    var r, bs := FibRecord(w, mean), Concat(SampleCodes(w, mean));
    var f := Flat(r + tail);
    hide Flat, Pack, Concat, FibRun, SampleCodes, Zeros, Coded, S8, Padding, FibRecord;
    RecordStream(w, mean, tail);
    RunSound(f, 8, w, Zeros(Padding(|bs|)) + Flat(tail), mean, prior, |r|, hi);
  }

  // ----- A size that is too small

  lemma RunFirst(f: seq<bool>, pos: nat, prior: seq<short>, mean: int, numBytes: nat, hi: Bit32)
    requires 8 * (numBytes + 5) <= |f| && pos <= 8 * numBytes + 8 && prior != []
    ensures WindowEnd(pos) <= |f|
    ensures var next := FibStep(f, pos, prior[0], mean, hi).1;
            FibRun(f, pos, prior, mean, numBytes, hi).0
            == if next >= 8 * numBytes + 8 then BadSize else FibRun(f, next, prior[1..], mean, numBytes, hi).0
  {
    hide FibStep;
    WindowFits(pos, numBytes + 1);
  }

  lemma {:induction false} RunShort(f: seq<bool>, pos: nat, w: seq<short>, rest: seq<bool>, mean: int,
                                    prior: seq<short>, numBytes: nat, hi: Bit32)
    requires 8 * (numBytes + 5) <= |f| && |prior| == |w| > 0 && pos <= 8 * numBytes + 8
    requires pos <= |f| && f[pos..] == Concat(SampleCodes(w, mean)) + rest
    requires pos + |Concat(SampleCodes(w, mean))| >= 8 * numBytes + 8
    requires forall k :: 0 <= k < |w| ==> Coded(w[k], mean)
    ensures FibRun(f, pos, prior, mean, numBytes, hi).0 == BadSize
    decreases |w|
  {
    hide *;
    NoCodesLeft(mean);
    var c := SampleCode(w[0], mean);
    SampleAhead(f, pos, w, rest, mean);
    RunFirst(f, pos, prior, mean, numBytes, hi);
    StepSound(f, pos, w[0], mean, prior[0], hi);
    if pos + |c| < 8 * numBytes + 8 {
      RunShort(f, pos + |c|, w[1..], rest, mean, prior[1..], numBytes, hi);
    }
  }

  lemma NoCodesLeft(mean: int)
    ensures Concat(SampleCodes([], mean)) == []
  {
  }

  /**
   * The size test, exactly: read with a header that says n bytes, the record of
   * a waveform whose samples are all coded gives a size error if and only if its
   * codes take 8 n bits or more.
   */
  lemma SizeExactly(w: seq<short>, mean: int, n: nat, tail: seq<byte>, prior: seq<short>, hi: Bit32)
    requires -127 <= mean <= 127 && |prior| == |w| && n + 5 <= |FibRecord(w, mean)| + |tail|
    requires forall k :: 0 <= k < |w| ==> Coded(w[k], mean)
    ensures var f := Flat(FibRecord(w, mean) + tail);
            8 * (n + 5) <= |f|
            && FibRun(f, 8, prior, mean, n, hi).0
               == if |Concat(SampleCodes(w, mean))| >= 8 * n && w != [] then BadSize else Ok
  {
    var r, bs := FibRecord(w, mean), Concat(SampleCodes(w, mean));
    var f := Flat(r + tail);
    hide Flat, Pack, Concat, FibRun, SampleCodes, Zeros, Coded, S8, Padding, FibRecord;
    RecordStream(w, mean, tail);
    NoCodesLeft(mean);
    if |bs| < 8 * n {
      RunSound(f, 8, w, Zeros(Padding(|bs|)) + Flat(tail), mean, prior, n, hi);
    } else if w == [] {
      NothingRun(f, prior, mean, n, hi);
    } else {
      RunShort(f, 8, w, Zeros(Padding(|bs|)) + Flat(tail), mean, prior, n, hi);
    }
  }

  lemma NothingRun(f: seq<bool>, prior: seq<short>, mean: int, n: nat, hi: Bit32)
    requires 8 * (n + 5) <= |f| && prior == []
    ensures FibRun(f, 8, prior, mean, n, hi).0 == Ok
  {
  }

  // ----- ... and only then

  /** A code that lost its closing 1: no pair, and a 0 at the end. */
  ghost predicate Dead(c: seq<bool>) {
    |c| >= 1 && NoPair(c) && !c[|c| - 1]
  }

  lemma NoPairZeros(bs: seq<bool>, n: nat)
    requires NoPair(bs)
    ensures NoPair(bs + Zeros(n))
  {
    forall i ensures !PairAt(bs + Zeros(n), i) {
      assert !PairAt(bs, i);
    }
  }

  lemma PrefixNoPair(bs: seq<bool>, k: nat)
    requires NoPair(bs) && k <= |bs|
    ensures NoPair(bs[..k])
  {
    NoPairPrefix(bs, k);
  }

  lemma ZerosAt(n: nat, i: nat)
    requires i < n
    ensures !Zeros(n)[i]
  {
  }

  lemma LostCode(x: short, mean: int)
    requires !Coded(x, mean) && Distance(x, mean) != -32768
    ensures Dead(SampleCode(x, mean))
  {
    var d := Distance(x, mean);
    var v := Bifurcate(d);
    assert v >= 1597;
    FNIsTable();
    FibCodeSound(v);
    FibCodeLength(v, 16);
    var c := FibCode(v);
    hide Fib, FibCode, Bifurcate, Distance;
    var body := c[..|c| - 1];
    assert NoPair(body) && body[..16] == c[..16];
    hide IsCodeword, NoPair, Zeros;
    PrefixNoPair(body, 16);
    NoPairZeros(c[..16], |c| - 16);
    assert !Zeros(|c| - 16)[|c| - 17] by {
      ZerosAt(|c| - 16, |c| - 17);
    }
  }

  function CodewordCount(cs: seq<seq<bool>>): (n: nat)
    ensures n <= |cs|
  {
    if cs == [] then 0 else (if IsClosed(cs[0]) then 1 else 0) + CodewordCount(cs[1..])
  }

  /** Tells a codeword from a dead code. */
  predicate IsClosed(c: seq<bool>) {
    c != [] && c[|c| - 1]
  }

  lemma CountFull(cs: seq<seq<bool>>, k: nat)
    requires k < |cs| && !IsClosed(cs[k])
    ensures CodewordCount(cs) < |cs|
  {
    if k > 0 {
      CountFull(cs[1..], k - 1);
    }
  }

  lemma NoPairJoin(a: seq<bool>, b: seq<bool>)
    requires NoPair(a) && NoPair(b) && (a == [] || !a[|a| - 1])
    ensures NoPair(a + b)
  {
    forall i ensures !PairAt(a + b, i) {
      assert !PairAt(a, i) && !PairAt(b, i - |a|);
    }
  }

  /** Cutting a stream at each 11 gives one word per code that kept its closing 1. */
  lemma {:induction false} SplitCount(pre: seq<bool>, cs: seq<seq<bool>>, pad: seq<bool>)
    requires NoPair(pre) && (pre == [] || !pre[|pre| - 1]) && NoPair(pad)
    requires forall i :: 0 <= i < |cs| ==> IsCodeword(cs[i]) || Dead(cs[i])
    ensures |Split(pre + (Concat(cs) + pad))| == CodewordCount(cs)
    decreases |cs|
  {
    if cs == [] {
      assert pre + (Concat(cs) + pad) == pre + pad;
      NoPairJoin(pre, pad);
      assert (pre + pad)[..|pre + pad|] == pre + pad;
      PairEndBeyond(pre + pad, |pre + pad|);
    } else {
      var c, rest := cs[0], Concat(cs[1..]) + pad;
      assert Concat(cs) + pad == c + rest;
      assert pre + (c + rest) == (pre + c) + rest;
      if IsCodeword(c) {
        var word := pre + c;
        NoPairJoin(pre, c[..|c| - 1]);
        assert word[..|word| - 1] == pre + c[..|c| - 1];
        PairEndOfCodeword(word, rest);
        assert (word + rest)[|word|..] == [] + rest;
        SplitCount([], cs[1..], pad);
      } else {
        NoPairJoin(pre, c);
        SplitCount(pre + c, cs[1..], pad);
      }
    }
  }

  /** A pair found in the window, with bit 32 read as 0, is the first pair of the stream. */
  lemma WindowPair(f: seq<bool>, pos: nat)
    requires pos <= WindowEnd(pos) <= |f|
    ensures var e := PairEnd(WindowBits(f, pos, false));
            e != 0 ==> PairEnd(f[pos..]) == e
  {
    var ws := WindowBits(f, pos, false);
    var e := PairEnd(ws);
    if e != 0 {
      assert PairAt(ws, e - 2);
      var rest := f[pos..];
      assert ws[..e] == rest[..e];
      assert PairAt(rest, e - 2);
      NoPairPrefix(ws, e - 1);
      assert ws[..e - 1] == rest[..e - 1];
      PairEndAt(rest, e);
    }
  }

  function Bit32Clear(pos: nat): bool { false }

  /** If nothing of the prior contents survives, every sample was read off a pair, and none was at -32768. */
  lemma {:induction false} StoredCount(f: seq<bool>, pos: nat, prior: seq<short>, w: seq<short>, mean: int,
                                       numBytes: nat)
    requires 8 * (numBytes + 5) <= |f| && pos <= 8 * numBytes + 8 && |prior| == |w|
    requires FibRun(f, pos, prior, mean, numBytes, Bit32Clear) == (Ok, w)
    requires forall k :: 0 <= k < |w| ==> prior[k] != w[k]
    ensures |Split(f[pos..])| >= |w|
    ensures forall k :: 0 <= k < |w| ==> Distance(w[k], mean) != -32768
    decreases |w|
  {
    if w != [] {
      WindowFits(pos, numBytes + 1);
      var ws := WindowBits(f, pos, false);
      var e := PairEnd(ws);
      assert FibStep(f, pos, prior[0], mean, Bit32Clear).0 == w[0];
      assert e != 0;
      WindowPair(f, pos);
      NotLowest(Value(ws[..e]), mean, w[0]);
      var next := pos + e;
      assert f[pos..][e..] == f[next..];
      hide WindowBits, WordSample, PairEnd, Distance;
      StoredCount(f, next, prior[1..], w[1..], mean, numBytes);
      forall k | 0 <= k < |w| ensures Distance(w[k], mean) != -32768 {
        if k > 0 {
          assert w[1..][k - 1] == w[k];
        }
      }
    }
  }

  lemma NotLowest(word: nat, mean: int, x: short)
    requires WordSample(word, mean) == x
    ensures Distance(x, mean) != -32768
  {
    hide Unfib;
    var d := Unbifurcate(Unfib(23, word % 65536));
    RestoreDistance(x, mean, d);
  }

  /** Memory that holds something else in every place. */
  function Other(w: seq<short>): (p: seq<short>)
    ensures |p| == |w| && forall k :: 0 <= k < |w| ==> p[k] != w[k]
  {
    seq(|w|, k requires 0 <= k < |w| => if w[k] == 0 then 1 else 0)
  }

  lemma NotRecovered(w: seq<short>, mean: int, k: nat, tail: seq<byte>)
    requires -127 <= mean <= 127 && k < |w| && !Coded(w[k], mean)
    requires |tail| >= 5 && forall i :: 0 <= i < |tail| ==> tail[i] == 0
    ensures !Recovers(w, mean, tail, Other(w), Bit32Clear)
  {
    if Recovers(w, mean, tail, Other(w), Bit32Clear) {
      var r := FibRecord(w, mean);
      var cs := SampleCodes(w, mean);
      var f := Flat(r + tail);
      var pad := Zeros(Padding(|Concat(cs)|)) + Flat(tail);
      ZeroTail(Padding(|Concat(cs)|), tail);
      RecordStream(w, mean, tail);
      assert 8 <= 8 * |r| + 8 && FibRun(f, 8, Other(w), mean, |r|, Bit32Clear) == (Ok, w);
      hide Flat, Pack, Concat, FibRun, Zeros, Coded, S8, Split, NoPair, IsCodeword, Dead, Recovers, Other, Padding,
           BytesFor;
      StoredCount(f, 8, Other(w), w, mean, |r|);
      forall i | 0 <= i < |cs| ensures IsCodeword(cs[i]) || Dead(cs[i]) {
        if Coded(w[i], mean) {
          SampleCodeSound(w[i], mean);
        } else {
          LostCode(w[i], mean);
        }
      }
      NoPairEmpty();
      SplitCount([], cs, pad);
      assert [] + (Concat(cs) + pad) == Concat(cs) + pad;
      LostCode(w[k], mean);
      DeadIsOpen(cs[k]);
      CountFull(cs, k);
    }
  }

  lemma NoPairEmpty()
    ensures NoPair([])
  {
  }

  lemma DeadIsOpen(c: seq<bool>)
    requires Dead(c)
    ensures !IsClosed(c)
  {
  }

  lemma ZeroTail(n: nat, tail: seq<byte>)
    requires forall i :: 0 <= i < |tail| ==> tail[i] == 0
    ensures NoPair(Zeros(n) + Flat(tail))
  {
    var z := Flat(tail);
    forall i | 0 <= i < |z| ensures !z[i] {
      ZeroBit(i % 8);
    }
    forall i ensures !PairAt(Zeros(n) + z, i) {}
  }

  /**
   * The exact condition.  A waveform comes back from its record whatever bytes
   * follow, whatever the sample memory held and whatever a test of bit 32
   * yields, if and only if no code was too long for the unsigned short.
   */
  lemma FibExact(w: seq<short>, mean: int, room: nat)
    requires -127 <= mean <= 127 && room >= 5
    ensures (forall tail: seq<byte>, prior: seq<short>, hi: Bit32 ::
               |tail| >= room && |prior| == |w| ==> Recovers(w, mean, tail, prior, hi))
       <==> (forall k :: 0 <= k < |w| ==> Coded(w[k], mean))
  {
    hide Recovers, Coded;
    if forall k :: 0 <= k < |w| ==> Coded(w[k], mean) {
      forall tail: seq<byte>, prior: seq<short>, hi: Bit32 | |tail| >= room && |prior| == |w|
        ensures Recovers(w, mean, tail, prior, hi)
      {
        FibRoundTrip(w, mean, tail, prior, hi);
      }
    } else {
      var k :| 0 <= k < |w| && !Coded(w[k], mean);
      var tail: seq<byte> := seq(room, i => 0);
      NotRecovered(w, mean, k, tail);
    }
  }
}

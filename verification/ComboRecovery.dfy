// What the combined encoding's decoder makes of the encoder's records.
module ComboRecovery {
  import opened Bits
  import opened Fibonacci
  import opened CompUtils
  import opened Encoding
  import opened Records
  import opened CodeScan
  import opened WaveBinary
  import opened WaveFibonacci
  import opened WaveBinFib
  import opened WaveBinFibDecode

  /** Every tail number fits the 16 bits it is stored in. */
  ghost predicate AllFit(xs: seq<short>, mean: int, b: nat)
    requires b >= 1 && forall i :: 0 <= i < |xs| ==> !Within(xs[i], mean, b)
  {
    forall i :: 0 <= i < |xs| ==> TailNumber(xs[i], mean, b) < 65536
  }

  // ----- The tail codes

  /** A tail number that fits gets a codeword, short enough for the window, and comes back. */
  lemma TailCodeSound(x: short, mean: int, b: nat)
    requires 2 <= b <= 10 && -127 <= mean <= 127 && !Within(x, mean, b)
    requires TailNumber(x, mean, b) % 65536 >= 1
    ensures IsCodeword(TailCode(x, mean, b)) && |TailCode(x, mean, b)| <= 24
    ensures WordTail(TailCode(x, mean, b), mean, b) == TailSample(TailNumber(x, mean, b) % 65536, mean, b)
  {
    hide TailNumber, TailSample, Value, Unfib, Within;
    var v := TailNumber(x, mean, b) % 65536;
    FNIsTable();
    FibCodeSound(v);
    FibCodeLength(v, 24);
    UnfibOfCode(23, v);
  }

  /** The lookup at a codeword of at most 24 bits takes it, and goes on behind it. */
  lemma TableAtCode(f: seq<bool>, pos: nat, k: nat, mean: int, b: nat, hi: Bit32, c: seq<bool>)
    requires b >= 1 && k < LOOKUPS && pos + Reach(k) <= |f|
    requires IsCodeword(c) && |c| <= 24 && c <= f[pos..]
    ensures pos + |c| + Reach(k + 1) <= |f|
    ensures Table(f, pos, k, mean, b, hi) == [WordTail(c, mean, b)] + Table(f, pos + |c|, k + 1, mean, b, hi)
  {
    hide WordTail, PairEnd, WindowBits, Reach, Table, IsCodeword, BitOf;
    TableCons(f, pos, k, mean, b, hi);
    InWindow(pos, |c|);
    CodewordLength(c);
    FoundCodeword(f, pos, hi(pos), c);
  }

  lemma InWindow(pos: nat, n: nat)
    requires n <= 24
    ensures BitOf(pos) + n < 32 && pos % 8 + n < 32
  {
  }

  /** The codes of the samples outside fill the front of the table, in order. */
  lemma {:induction false} TableSound(f: seq<bool>, pos: nat, k: nat, xs: seq<short>, rest: seq<bool>, mean: int,
                                      b: nat, hi: Bit32)
    requires 2 <= b <= 10 && -127 <= mean <= 127 && forall i :: 0 <= i < |xs| ==> !Within(xs[i], mean, b)
    requires AllFit(xs, mean, b) && k + |xs| <= LOOKUPS && pos + Reach(k) <= |f|
    requires f[pos..] == Concat(TailCodes(xs, mean, b)) + rest
    ensures pos + |Concat(TailCodes(xs, mean, b))| + Reach(k + |xs|) <= |f|
    ensures Table(f, pos, k, mean, b, hi)
         == xs + Table(f, pos + |Concat(TailCodes(xs, mean, b))|, k + |xs|, mean, b, hi)
    decreases |xs|
  {
    hide Table, TailNumber, Reach, IsCodeword, TailCode, WordTail, Concat, TailCodes, Within;
    if xs == [] {
      NoCodes(mean, b);
      WithNothing(Table(f, pos, k, mean, b, hi));
    } else {
      var x, c := xs[0], TailCode(xs[0], mean, b);
      TailAhead(f, pos, xs, rest, mean, b);
      TailNumberExact(x, mean, b);
      ModSmall(TailNumber(x, mean, b), 65536);
      TailCodeSound(x, mean, b);
      TableAtCode(f, pos, k, mean, b, hi, c);
      TableSound(f, pos + |c|, k + 1, xs[1..], rest, mean, b, hi);
      Rejoin(xs, Table(f, pos + |Concat(TailCodes(xs, mean, b))|, k + |xs|, mean, b, hi));
    }
  }

  lemma NoCodes(mean: int, b: nat)
    requires b >= 1
    ensures Concat(TailCodes([], mean, b)) == []
  {
  }

  lemma Rejoin<T>(xs: seq<T>, t: seq<T>)
    requires xs != []
    ensures [xs[0]] + (xs[1..] + t) == xs + t
  {
  }

  lemma TailAhead(f: seq<bool>, pos: nat, xs: seq<short>, rest: seq<bool>, mean: int, b: nat)
    requires b >= 1 && xs != [] && forall i :: 0 <= i < |xs| ==> !Within(xs[i], mean, b)
    requires pos <= |f| && f[pos..] == Concat(TailCodes(xs, mean, b)) + rest
    ensures var c, more := TailCode(xs[0], mean, b), Concat(TailCodes(xs[1..], mean, b));
            && |Concat(TailCodes(xs, mean, b))| == |c| + |more|
            && c <= f[pos..] && pos + |c| <= |f| && f[pos + |c|..] == more + rest
  {
    hide TailCode, Concat, Within;
    var c, cs := TailCode(xs[0], mean, b), TailCodes(xs[1..], mean, b);
    assert TailCodes(xs, mean, b) == [c] + cs;
    ConcatCons(c, cs);
    AfterFirst(f, pos, c, Concat(cs), rest);
  }

  // ----- The fixed-width part

  /** Field k of the record is the code of sample k, whatever follows. */
  lemma MainField(w: seq<short>, mean: int, b: nat, rest: seq<bool>, k: nat)
    requires 2 <= b <= 10 && -127 <= mean <= 127 && k < |w|
    ensures Span(k + 1, b) <= |MainBits(w, mean, b, |w|) + rest|
    ensures FieldAt(MainBits(w, mean, b, |w|) + rest, b, k) == MainCode(w[k], mean, b)
  {
    hide FieldAt, WordBits, MainCode;
    var codes := MainCodes(w, mean, b);
    assert codes[..|w|] == codes;
    FieldOfStream(codes, b, rest, k);
    MainCodeSound(w[k], mean, b);
    ModSmall(MainCode(w[k], mean, b), Pow2(b));
  }

  /** As many flags as samples outside, so far. */
  lemma FlagsAreOutside(w: seq<short>, mean: int, b: nat, rest: seq<bool>, k: nat)
    requires 2 <= b <= 10 && -127 <= mean <= 127 && k <= |w|
    ensures Span(k, b) <= |MainBits(w, mean, b, |w|) + rest|
    ensures Flags(MainBits(w, mean, b, |w|) + rest, b, k) == |Outside(w, mean, b, k)|
  {
    hide FieldAt, MainBits, MainCode, Within;
    if k > 0 {
      FlagsAreOutside(w, mean, b, rest, k - 1);
      MainField(w, mean, b, rest, k - 1);
      MainCodeSound(w[k - 1], mean, b);
      FlagIff(w[k - 1], mean, b);
    }
  }

  /** The flag marks the samples outside, and no other. */
  lemma FlagIff(x: short, mean: int, b: nat)
    requires 2 <= b <= 10 && -127 <= mean <= 127
    ensures MainCode(x, mean, b) == Flag(b) <==> !Within(x, mean, b)
  {
    MainCodeSound(x, mean, b);
  }

  /** A sample outside stands in its slot of the list of those outside. */
  lemma OutsideAt(w: seq<short>, mean: int, b: nat, n: nat, k: nat)
    requires b >= 1 && k < n <= |w|
    ensures !Within(w[k], mean, b) ==>
              |Outside(w, mean, b, k)| < |Outside(w, mean, b, n)|
              && Outside(w, mean, b, n)[|Outside(w, mean, b, k)|] == w[k]
    ensures |Outside(w, mean, b, k)| <= |Outside(w, mean, b, n)|
  {
    hide Within;
    if k < n - 1 {
      OutsideAt(w, mean, b, n - 1, k);
    }
  }

  /** A sample comes back, if the slots hold the samples outside at the front. */
  lemma SampleBack(w: seq<short>, mean: int, b: nat, rest: seq<bool>, slots: seq<short>, k: nat)
    requires 2 <= b <= 10 && -127 <= mean <= 127 && k < |w| <= |slots|
    ensures Span(k + 1, b) <= |MainBits(w, mean, b, |w|) + rest|
    ensures |Outside(w, mean, b, k)| < |slots|
    ensures ComboSample(MainBits(w, mean, b, |w|) + rest, mean, b, slots, k)
         == if Within(w[k], mean, b) then w[k] else slots[|Outside(w, mean, b, k)|]
  {
    hide FieldAt, MainBits, MainCode, Within, Outside;
    MainField(w, mean, b, rest, k);
    FlagsAreOutside(w, mean, b, rest, k);
    MainCodeSound(w[k], mean, b);
    FlagIff(w[k], mean, b);
  }

  // ----- The record

  /** What a reader of the record finds after the mean. */
  lemma ComboStream(w: seq<short>, mean: int, b: nat, tail: seq<byte>)
    requires b >= 1 && -127 <= mean <= 127
    ensures var f, pad := Flat(ComboRecord(w, mean, b) + tail), Padding(|ComboBits(w, mean, b)|);
            var start := 8 + Span(|w|, b);
            && start + |TailBits(w, mean, b, |w|)| + pad + 8 * |tail| == |f|
            && pad < 8
            && HeadMean(f) == mean
            && f[8..] == MainBits(w, mean, b, |w|) + f[start..]
            && f[start..] == TailBits(w, mean, b, |w|) + (Zeros(pad) + Flat(tail))
  {
    hide Flat, Pack, Zeros, MainBits, TailBits, HeadMean;
    var bs := ComboBits(w, mean, b);
    RecordBits([mean % 256], bs, tail);
    var s := [mean % 256] + Pack(bs) + tail;
    HeadMeanOf(s);
    TwoParts(Flat(s), 8, MainBits(w, mean, b, |w|), TailBits(w, mean, b, |w|), Zeros(Padding(|bs|)) + Flat(tail));
  }

  lemma TwoParts(f: seq<bool>, off: nat, m: seq<bool>, o: seq<bool>, rest: seq<bool>)
    requires off <= |f| && f[off..] == m + o + rest
    ensures off + |m| <= |f| && f[off..] == m + f[off + |m|..] && f[off + |m|..] == o + rest
  {
    assert f[off..][|m|..] == f[off + |m|..];
    assert f[off + |m|..] == o + rest;
  }

  /** The table the decoder of a record fills. */
  function RecordTable(w: seq<short>, mean: int, b: nat, tail: seq<byte>, hi: Bit32): seq<short>
    requires 2 <= b <= 10 && -127 <= mean <= 127
    requires |Flat(tail)| >= Reach(0)
  {
    ComboStream(w, mean, b, tail);
    Table(Flat(ComboRecord(w, mean, b) + tail), 8 + Span(|w|, b), 0, mean, b, hi)
  }

  /**
   * What the decoder makes of any record: samples within come back, and each
   * sample outside takes the next slot; the run stays in the table as long as
   * neither the entries found nor the samples outside are more than 256.
   */
  lemma ComboYields(w: seq<short>, mean: int, b: nat, tail: seq<byte>, stack: seq<short>,
                    prior: seq<short>, now: seq<short>, overran: bool, hi: Bit32)
    requires 2 <= b <= 10 && -127 <= mean <= 127 && |prior| == |w| && |Flat(tail)| >= Reach(0)
    requires ComboResult(Flat(ComboRecord(w, mean, b) + tail), b, stack, prior, now, overran, hi)
    ensures var t := RecordTable(w, mean, b, tail, hi);
            && |t| <= |stack| && |w| == |now| <= |stack|
            && overran == (|t| > SLOTS || |Outside(w, mean, b, |w|)| > SLOTS)
            && forall k :: 0 <= k < |w| ==>
                 now[k] == if Within(w[k], mean, b) then w[k] else Overlay(stack, t)[|Outside(w, mean, b, k)|]
  {
    hide Flat, ComboRecord, Table, ComboSample, MainBits, TailBits, ComboBits, Within, Reach, Outside,
         Span, Zeros, Padding, HeadMean, Flags, Overlay, ComboSamples;
    ComboStream(w, mean, b, tail);
    var f := Flat(ComboRecord(w, mean, b) + tail);
    var rest := f[8 + Span(|w|, b)..];
    var slots := Overlay(stack, RecordTable(w, mean, b, tail, hi));
    FlagsAreOutside(w, mean, b, rest, |w|);
    forall k | 0 <= k < |w|
      ensures now[k] == if Within(w[k], mean, b) then w[k] else slots[|Outside(w, mean, b, k)|]
    {
      ComboSampleAt(f[8..], mean, b, slots, |w|, k);
      SampleBack(w, mean, b, rest, slots, k);
    }
  }

  /** Samples and tail numbers the encoding can carry. */
  ghost predicate Fitting(w: seq<short>, mean: int, b: nat)
    requires b >= 1
  {
    AllFit(Outside(w, mean, b, |w|), mean, b) && |Outside(w, mean, b, |w|)| <= SLOTS
  }

  /** The entries found begin with the samples outside. */
  lemma TableOfRecord(w: seq<short>, mean: int, b: nat, tail: seq<byte>, hi: Bit32)
    requires 2 <= b <= 10 && -127 <= mean <= 127 && |Flat(tail)| >= Reach(0) && Fitting(w, mean, b)
    ensures Outside(w, mean, b, |w|) <= RecordTable(w, mean, b, tail, hi)
  {
    hide Flat, ComboRecord, Table, MainBits, ComboBits, Within, Reach, Outside, Span, Zeros, Padding, HeadMean,
         TailCodes, Concat, TailNumber;
    ComboStream(w, mean, b, tail);
    TableSound(Flat(ComboRecord(w, mean, b) + tail), 8 + Span(|w|, b), 0, Outside(w, mean, b, |w|),
               Zeros(Padding(|ComboBits(w, mean, b)|)) + Flat(tail), mean, b, hi);
  }

  /**
   * Round trip: if at most 256 samples lie outside and their tail numbers fit
   * 16 bits, the waveform comes back, whatever follows the record, whatever the
   * table's memory held and whatever bit 32 reads as.
   */
  lemma ComboRoundTrip(w: seq<short>, mean: int, b: nat, tail: seq<byte>, stack: seq<short>,
                       prior: seq<short>, now: seq<short>, overran: bool, hi: Bit32)
    requires 2 <= b <= 10 && -127 <= mean <= 127 && |prior| == |w| && |Flat(tail)| >= Reach(0)
    requires ComboResult(Flat(ComboRecord(w, mean, b) + tail), b, stack, prior, now, overran, hi)
    requires Fitting(w, mean, b)
    ensures now == w
    ensures overran <==> |RecordTable(w, mean, b, tail, hi)| > SLOTS
  {
    hide Flat, ComboRecord, ComboResult, RecordTable, Within, Reach, AllFit;
    ComboYields(w, mean, b, tail, stack, prior, now, overran, hi);
    TableOfRecord(w, mean, b, tail, hi);
    forall k | 0 <= k < |w| ensures now[k] == w[k] {
      OutsideAt(w, mean, b, |w|, k);
    }
  }
}

// What may follow a record of the combined encoding: how far off the next four
// zero bytes may be for the search still to end within the table of 256.
module ComboTail {
  import opened Bits
  import opened Fibonacci
  import opened CompUtils
  import opened Records
  import opened CodeScan
  import opened WaveBinary
  import opened WaveFibonacci
  import opened WaveBinFib
  import opened WaveBinFibDecode
  import opened ComboRecovery
  import opened ComboExact

  /** The 32 bits from `from` on are zeros, as far as there are so many. */
  ghost predicate Quiet(f: seq<bool>, from: nat) {
    forall i :: from <= i < from + 32 && i < |f| ==> !f[i]
  }

  /** A word found ends at most one bit behind where the zeros begin, and there only when it ends a window. */
  lemma WordBefore(f: seq<bool>, pos: nat, from: nat, hi: bool)
    requires WindowEnd(pos) <= |f| && Quiet(f, from)
    requires pos <= from || (pos == from + 1 && pos % 8 == 1)
    ensures var e := PairEnd(WindowBits(f, pos, hi));
            e > 0 ==> 2 <= e && pos + e <= from + 1 && (pos + e == from + 1 ==> (pos + e) % 8 == 1)
  {
    var ws := WindowBits(f, pos, hi);
    var e := PairEnd(ws);
    if e > 0 {
      assert PairAt(ws, e - 2);
      assert ws[e - 2] == f[pos + (e - 2)];
      assert e < |ws| ==> ws[e - 1] == f[pos + (e - 1)];
    }
  }

  /** Of n bits before the zeros, every word takes two. */
  lemma {:induction false} TableBounded(f: seq<bool>, pos: nat, k: nat, from: nat, mean: int, b: nat, hi: Bit32)
    requires b >= 1 && k <= LOOKUPS && pos + Reach(k) <= |f| && Quiet(f, from)
    requires pos <= from || (pos == from + 1 && pos % 8 == 1)
    ensures |Table(f, pos, k, mean, b, hi)| <= (from - pos + 1) / 2
    decreases LOOKUPS - k
  {
    hide Table, WordTail, PairEnd, WindowBits, Quiet, Reach;
    if k == LOOKUPS {
      TableFull(f, pos, mean, b, hi);
    } else {
      TableCons(f, pos, k, mean, b, hi);
      WordBefore(f, pos, from, hi(pos));
      var e := PairEnd(WindowBits(f, pos, hi(pos)));
      if e > 0 && BitOf(pos) + e != 32 {
        TableBounded(f, pos + e, k + 1, from, mean, b, hi);
      }
    }
  }

  /** Four zero bytes, `d` bytes behind the record. */
  predicate FourZerosAt(tail: seq<byte>, d: nat) {
    d + 4 <= |tail| && forall i :: d <= i < d + 4 ==> tail[i] == 0
  }

  lemma QuietTail(f: seq<bool>, end: nat, pad: nat, tail: seq<byte>, d: nat)
    requires end <= |f| && f[end..] == Zeros(pad) + Flat(tail) && FourZerosAt(tail, d)
    ensures Quiet(f, end + pad + 8 * d)
  {
    var from := end + pad + 8 * d;
    forall i | from <= i < from + 32 && i < |f| ensures !f[i] {
      var j := i - from;
      assert f[i] == f[end..][i - end];
      assert f[i] == Flat(tail)[8 * (d + j / 8) + j % 8];
      FlatAt(tail, d + j / 8, j % 8);
      ZeroBit(j % 8);
    }
  }

  /** The decoder's table is the samples outside and what it takes for words in the padding and the bytes behind. */
  lemma RecordThenTail(w: seq<short>, mean: int, b: nat, tail: seq<byte>, hi: Bit32) returns (end: nat)
    requires 2 <= b <= 10 && -127 <= mean <= 127 && |Flat(tail)| >= Reach(0) && Fitting(w, mean, b)
    ensures var f, pad := Flat(ComboRecord(w, mean, b) + tail), Padding(|ComboBits(w, mean, b)|);
            var xs := Outside(w, mean, b, |w|);
            && pad < 8 && |xs| <= LOOKUPS && end + Reach(|xs|) <= |f| && f[end..] == Zeros(pad) + Flat(tail)
            && RecordTable(w, mean, b, tail, hi) == xs + Table(f, end, |xs|, mean, b, hi)
  {
    hide Flat, ComboRecord, Table, MainBits, ComboBits, Within, Reach, Outside, Span, Zeros, Padding, HeadMean,
         TailCodes, Concat, TailNumber;
    var xs := Outside(w, mean, b, |w|);
    var f, start, pad := Flat(ComboRecord(w, mean, b) + tail), 8 + Span(|w|, b), Padding(|ComboBits(w, mean, b)|);
    ComboStream(w, mean, b, tail);
    var codes := Concat(TailCodes(xs, mean, b));
    TableSound(f, start, 0, xs, Zeros(pad) + Flat(tail), mean, b, hi);
    Behind(f, start, codes, Zeros(pad) + Flat(tail));
    WithNothing(Zeros(pad) + Flat(tail));
    end := start + |codes|;
  }

  /** So zeros d bytes behind keep the table below the samples outside and 4 d + 4 more. */
  lemma TailBound(w: seq<short>, mean: int, b: nat, tail: seq<byte>, hi: Bit32, d: nat)
    requires 2 <= b <= 10 && -127 <= mean <= 127 && |Flat(tail)| >= Reach(0) && Fitting(w, mean, b)
        && FourZerosAt(tail, d)
    ensures |RecordTable(w, mean, b, tail, hi)| <= |Outside(w, mean, b, |w|)| + 4 * d + 4
  {
    hide Flat, ComboRecord, Table, ComboBits, Within, Reach, Outside, Zeros, Padding, RecordTable, Fitting,
         FourZerosAt, Quiet;
    var end := RecordThenTail(w, mean, b, tail, hi);
    var f, pad := Flat(ComboRecord(w, mean, b) + tail), Padding(|ComboBits(w, mean, b)|);
    var xs := Outside(w, mean, b, |w|);
    QuietTail(f, end, pad, tail, d);
    TableBounded(f, end, |xs|, end + pad + 8 * d, mean, b, hi);
  }

  /** Every run on such a record gives back the waveform and keeps to the table, whatever else follows. */
  lemma TailSafe(w: seq<short>, mean: int, b: nat, tail: seq<byte>, d: nat)
    requires 2 <= b <= 10 && -127 <= mean <= 127 && |Flat(tail)| >= Reach(0) && Fitting(w, mean, b)
        && FourZerosAt(tail, d)
    requires |Outside(w, mean, b, |w|)| + 4 * d + 4 <= SLOTS
    ensures Safe(w, mean, b, tail)
  {
    hide Flat, ComboRecord, ComboResult, RecordTable, Within, Reach, AllFit, FourZerosAt, Outside;
    forall stack, prior, now, overran, hi |
      ComboResult(Flat(ComboRecord(w, mean, b) + tail), b, stack, prior, now, overran, hi) && |prior| == |w|
      ensures now == w && !overran
    {
      ComboRoundTrip(w, mean, b, tail, stack, prior, now, overran, hi);
      TailBound(w, mean, b, tail, hi, d);
    }
  }
}

// When the combined encoding is safe: exactly which waveforms come back, and
// what the bytes behind a record can do to the decoder.
module ComboExact {
  import opened Bits
  import opened Fibonacci
  import opened CompUtils
  import opened Records
  import opened CodeScan
  import opened WaveBinary
  import opened WaveFibonacci
  import opened WaveBinFib
  import opened WaveBinFibDecode
  import opened ComboRecovery

  // ----- Streams of codewords and of single ones

  /** A codeword short enough for the window, or what a tail number that wraps to 0 leaves: a single 1. */
  ghost predicate Piece(d: seq<bool>) {
    d == [true] || (IsCodeword(d) && |d| <= 24)
  }

  ghost predicate Pieces(ds: seq<seq<bool>>) {
    forall i :: 0 <= i < |ds| ==> Piece(ds[i])
  }

  /** The word a reader meets first: a single 1 joins what follows it. */
  function FirstWord(ds: seq<seq<bool>>): (seq<bool>, seq<seq<bool>>)
    requires Pieces(ds) && ds != [] && ds != [[true]]
  {
    if ds[0] != [true] then (ds[0], ds[1..])
    else if !ds[1][0] then ([true] + ds[1], ds[2..])
    else ([true, true], if |ds[1]| == 1 then ds[2..] else [ds[1][1..]] + ds[2..])
  }

  lemma FirstWordSound(ds: seq<seq<bool>>)
    requires Pieces(ds) && ds != [] && ds != [[true]]
    ensures var (c, rest) := FirstWord(ds);
            && IsCodeword(c) && |c| <= 25 && Pieces(rest) && |rest| < |ds|
            && Concat(ds) == c + Concat(rest)
            && (ds[0] == [true] ==> c == [true, true] || |rest| <= |ds| - 2)
  {
    hide Concat, Pieces, IsCodeword;
    PiecesParts(ds);
    if ds[0] == [true] {
      var d, more := ds[1], ds[2..];
      TwoAhead(ds);
      if !d[0] {
        Assoc([true], d, Concat(more));
        ZeroAfterOne(d);
      } else {
        TwoOnes();
        PieceCut(d);
        PiecesJoin(d[1..], more);
        OneOver(d, more);
      }
    } else {
      ConcatFirst(ds);
    }
  }

  lemma PiecesParts(ds: seq<seq<bool>>)
    requires Pieces(ds) && ds != []
    ensures Piece(ds[0]) && Pieces(ds[1..])
    ensures |ds| >= 2 ==> Piece(ds[1]) && ds[1] != [] && Pieces(ds[2..])
    ensures |ds| == 1 ==> ds == [ds[0]]
  {
  }

  lemma PiecesJoin(d: seq<bool>, ds: seq<seq<bool>>)
    requires Pieces(ds)
    ensures Piece(d) ==> Pieces([d] + ds)
  {
  }

  lemma ConcatFirst(ds: seq<seq<bool>>)
    requires ds != []
    ensures Concat(ds) == ds[0] + Concat(ds[1..])
  {
  }

  lemma TwoAhead(ds: seq<seq<bool>>)
    requires |ds| >= 2
    ensures Concat(ds) == ds[0] + (ds[1] + Concat(ds[2..]))
  {
    assert ds[1..][1..] == ds[2..];
  }

  lemma OneOver(d: seq<bool>, more: seq<seq<bool>>)
    requires d != [] && d[0]
    ensures [true] + (d + Concat(more)) == [true, true] + Concat(if |d| == 1 then more else [d[1..]] + more)
  {
    ConcatCons(d[1..], more);
    hide Concat;
    assert d == [true] + d[1..];
    if |d| == 1 {
      assert d == [true];
    }
  }

  lemma TwoOnes()
    ensures IsCodeword([true, true])
  {
  }

  lemma ZeroAfterOne(d: seq<bool>)
    requires IsCodeword(d) && !d[0]
    ensures IsCodeword([true] + d)
  {
    var e := ([true] + d)[..|d|];
    forall i: int ensures !PairAt(e, i) {
      assert !PairAt(d[..|d| - 1], i - 1);
    }
  }

  lemma PieceCut(d: seq<bool>)
    requires Piece(d) && d[0]
    ensures |d| > 1 ==> Piece(d[1..])
  {
    if |d| > 2 {
      assert !PairAt(d[..|d| - 1], 0);
      var e := d[1..][..|d| - 2];
      forall i: int ensures !PairAt(e, i) {
        assert !PairAt(d[..|d| - 1], i + 1);
      }
    } else if |d| == 2 {
      assert d[1..] == [true];
    }
  }

  // ----- How many entries such a stream can give

  /** A lookup at a codeword of 25 bits may be the last one. */
  lemma TableAtWord(f: seq<bool>, pos: nat, k: nat, mean: int, b: nat, hi: Bit32, c: seq<bool>)
    requires b >= 1 && k < LOOKUPS && pos + Reach(k) <= |f|
    requires IsCodeword(c) && |c| <= 25 && c <= f[pos..]
    ensures pos + |c| + Reach(k + 1) <= |f|
    ensures var t := Table(f, pos, k, mean, b, hi);
            && 1 <= |t| <= 1 + |Table(f, pos + |c|, k + 1, mean, b, hi)|
            && t[0] == WordTail(c, mean, b)
  {
    hide WordTail, PairEnd, WindowBits, Reach, Table, IsCodeword, BitOf;
    TableCons(f, pos, k, mean, b, hi);
    InWindow25(pos, |c|);
    CodewordLength(c);
    FoundCodeword(f, pos, hi(pos), c);
  }

  lemma InWindow25(pos: nat, n: nat)
    requires n <= 25
    ensures pos % 8 + n <= 32
  {
  }

  /** Zeros up to the end of the window, after at most a single 1, hold no word. */
  lemma NothingFound(f: seq<bool>, pos: nat, k: nat, mean: int, b: nat, hi: Bit32, one: seq<bool>, z: nat,
                     more: seq<bool>)
    requires b >= 1 && k <= LOOKUPS && pos + Reach(k) <= |f|
    requires (one == [] || one == [true]) && z >= 32
    requires f[pos..] == one + (Zeros(z) + more)
    ensures Table(f, pos, k, mean, b, hi) == []
  {
    if k < LOOKUPS {
      WindowNear(pos);
      var ws := WindowBits(f, pos, hi(pos));
      forall i | 0 <= i < |ws| - 1 ensures ws[i] == (i < |one|) {
        assert ws[i] == f[pos..][i];
      }
      forall i ensures !PairAt(ws, i) {}
      assert ws[..|ws|] == ws;
      PairEndBeyond(ws, |ws|);
    }
  }

  /** No more entries than pieces, wherever the pieces get cut. */
  lemma {:induction false} EntryCount(f: seq<bool>, pos: nat, k: nat, ds: seq<seq<bool>>, z: nat, more: seq<bool>,
                                      mean: int, b: nat, hi: Bit32)
    requires b >= 1 && k <= LOOKUPS && pos + Reach(k) <= |f| && Pieces(ds) && z >= 32
    requires f[pos..] == Concat(ds) + (Zeros(z) + more)
    ensures |Table(f, pos, k, mean, b, hi)| <= |ds|
    decreases LOOKUPS - k
  {
    hide Table, WordTail, Zeros, Piece, Pieces, FirstWord, Reach, IsCodeword;
    if ds == [] || ds == [[true]] {
      SingleConcat(ds);
      NothingFound(f, pos, k, mean, b, hi, Concat(ds), z, more);
    } else if k < LOOKUPS {
      FirstWordSound(ds);
      var (c, rest) := FirstWord(ds);
      AfterFirst(f, pos, c, Concat(rest), Zeros(z) + more);
      TableAtWord(f, pos, k, mean, b, hi, c);
      EntryCount(f, pos + |c|, k + 1, rest, z, more, mean, b, hi);
    }
  }

  lemma SingleConcat(ds: seq<seq<bool>>)
    requires ds == [] || ds == [[true]]
    ensures Concat(ds) == if ds == [] then [] else [true]
  {
  }

  // ----- Tail numbers that do not fit

  lemma TailPiece(x: short, mean: int, b: nat)
    requires 2 <= b <= 10 && -127 <= mean <= 127 && !Within(x, mean, b)
    ensures Piece(TailCode(x, mean, b))
    ensures TailNumber(x, mean, b) % 65536 == 0 ==>
              TailCode(x, mean, b) == [true] && WordTail([true, true], mean, b) != x
  {
    if TailNumber(x, mean, b) % 65536 == 0 {
      WrappedToZero();
      OneIsUpper(mean, b);
      TailParity(x, mean, b);
    } else {
      TailCodeSound(x, mean, b);
    }
  }

  lemma WrappedToZero()
    ensures FibCode(0) == [true]
  {
    DigitsUnique(0, 0);
  }

  lemma OneIsUpper(mean: int, b: nat)
    requires 2 <= b <= 10 && -127 <= mean <= 127
    ensures WordTail([true, true], mean, b) == Upper(mean, b)
  {
    OneDecodes();
    hide Value, Unfib, Pow2;
    UpperFits(mean, b);
  }

  lemma OneDecodes()
    ensures Unfib(23, Value([true, true])) == 1
  {
    CodeDigits(1, 1);
    assert FibCode(1) == [true, true];
    hide Value, Unfib;
    FNIsTable();
    UnfibOfCode(23, 1);
  }

  lemma UpperFits(mean: int, b: nat)
    requires 2 <= b <= 10 && -127 <= mean <= 127
    ensures -32768 <= Upper(mean, b) < 32768
  {
    Pow2Monotone(b - 1, 10);
    assert Pow2(5) == 32;
    assert Pow2(10) == 1024;
  }

  /** An even tail number is that of a sample below. */
  lemma TailParity(x: short, mean: int, b: nat)
    requires b >= 1 && !Within(x, mean, b) && TailNumber(x, mean, b) % 65536 == 0
    ensures x < Upper(mean, b)
  {
    hide Pow2;
    WholeIsEven(TailNumber(x, mean, b));
  }

  lemma WholeIsEven(t: nat)
    requires t % 65536 == 0
    ensures t % 2 == 0
  {
  }

  lemma AllPieces(xs: seq<short>, mean: int, b: nat)
    requires 2 <= b <= 10 && -127 <= mean <= 127 && forall i :: 0 <= i < |xs| ==> !Within(xs[i], mean, b)
    ensures Pieces(TailCodes(xs, mean, b))
  {
    forall i | 0 <= i < |xs| ensures Piece(TailCodes(xs, mean, b)[i]) {
      TailPiece(xs[i], mean, b);
    }
  }

  /** With a tail number that does not fit, the entries found never begin with the samples outside. */
  lemma {:induction false} TableSpoilt(f: seq<bool>, pos: nat, k: nat, xs: seq<short>, z: nat, more: seq<bool>,
                                       mean: int, b: nat, hi: Bit32)
    requires 2 <= b <= 10 && -127 <= mean <= 127 && forall i :: 0 <= i < |xs| ==> !Within(xs[i], mean, b)
    requires !AllFit(xs, mean, b) && k + |xs| <= LOOKUPS && pos + Reach(k) <= |f| && z >= 32
    requires f[pos..] == Concat(TailCodes(xs, mean, b)) + (Zeros(z) + more)
    ensures !(xs <= Table(f, pos, k, mean, b, hi))
    decreases |xs|
  {
    hide Table, TailNumber, Reach, IsCodeword, TailCode, WordTail, Concat, TailCodes, Within, Zeros, Piece, TailSample;
    var x, c := xs[0], TailCode(xs[0], mean, b);
    TailAhead(f, pos, xs, Zeros(z) + more, mean, b);
    TailNumberExact(x, mean, b);
    TailPiece(x, mean, b);
    if TailNumber(x, mean, b) % 65536 == 0 {
      SpoiltAtOnce(f, pos, k, xs, z, more, mean, b, hi);
    } else {
      TailCodeSound(x, mean, b);
      TableAtCode(f, pos, k, mean, b, hi, c);
      if TailNumber(x, mean, b) < 65536 {
        TableSpoilt(f, pos + |c|, k + 1, xs[1..], z, more, mean, b, hi);
      }
    }
  }

  /** A number that wraps to 0 leaves a wrong entry, or one entry too few. */
  lemma SpoiltAtOnce(f: seq<bool>, pos: nat, k: nat, xs: seq<short>, z: nat, more: seq<bool>, mean: int, b: nat,
                     hi: Bit32)
    requires 2 <= b <= 10 && -127 <= mean <= 127 && forall i :: 0 <= i < |xs| ==> !Within(xs[i], mean, b)
    requires xs != [] && k + |xs| <= LOOKUPS && pos + Reach(k) <= |f| && z >= 32
    requires TailNumber(xs[0], mean, b) % 65536 == 0
    requires f[pos..] == Concat(TailCodes(xs, mean, b)) + (Zeros(z) + more)
    ensures !(xs <= Table(f, pos, k, mean, b, hi))
  {
    hide Table, TailNumber, Reach, IsCodeword, TailCode, WordTail, Concat, Within, Zeros, Piece, FirstWord, Pieces;
    var ds := TailCodes(xs, mean, b);
    AllPieces(xs, mean, b);
    TailPiece(xs[0], mean, b);
    if ds == [[true]] {
      SingleConcat(ds);
      NothingFound(f, pos, k, mean, b, hi, [true], z, more);
    } else {
      FirstWordSound(ds);
      var (c, rest) := FirstWord(ds);
      AfterFirst(f, pos, c, Concat(rest), Zeros(z) + more);
      TableAtWord(f, pos, k, mean, b, hi, c);
      EntryCount(f, pos + |c|, k + 1, rest, z, more, mean, b, hi);
    }
  }

  // ----- The theorems

  /** Each of the samples outside stands somewhere in the waveform. */
  lemma OutsideFrom(w: seq<short>, mean: int, b: nat, n: nat, i: nat) returns (k: nat)
    requires b >= 1 && n <= |w| && i < |Outside(w, mean, b, n)|
    ensures k < n && !Within(w[k], mean, b)
    ensures |Outside(w, mean, b, k)| == i && w[k] == Outside(w, mean, b, n)[i]
  {
    if i < |Outside(w, mean, b, n - 1)| {
      k := OutsideFrom(w, mean, b, n - 1, i);
    } else {
      k := n - 1;
    }
  }

  /** If a run gives back the waveform, the slots begin with the samples outside. */
  lemma SlotsOfSuccess(w: seq<short>, mean: int, b: nat, slots: seq<short>)
    requires b >= 1 && |Outside(w, mean, b, |w|)| <= |slots|
    requires forall k :: 0 <= k < |w| && !Within(w[k], mean, b) && |Outside(w, mean, b, k)| < |slots| ==>
               w[k] == slots[|Outside(w, mean, b, k)|]
    ensures Outside(w, mean, b, |w|) <= slots
  {
    hide Within, Outside;
    var xs := Outside(w, mean, b, |w|);
    forall i | 0 <= i < |xs| ensures xs[i] == slots[i] {
      var k := OutsideFrom(w, mean, b, |w|, i);
    }
  }

  /** At most 256 samples lie outside, and the number of each fits 16 bits. */
  lemma FittingMeans(w: seq<short>, mean: int, b: nat)
    requires 2 <= b <= 10 && -127 <= mean <= 127
    ensures Fitting(w, mean, b) <==>
              && |Outside(w, mean, b, |w|)| <= 256
              && forall k :: 0 <= k < |w| && !Within(w[k], mean, b) ==> TailNumber(w[k], mean, b) < 65536
  {
    hide Within, TailNumber, Outside;
    var xs := Outside(w, mean, b, |w|);
    if AllFit(xs, mean, b) {
      forall k | 0 <= k < |w| && !Within(w[k], mean, b) ensures TailNumber(w[k], mean, b) < 65536 {
        OutsideAt(w, mean, b, |w|, k);
        assert xs[|Outside(w, mean, b, k)|] == w[k];
      }
    }
    if forall k :: 0 <= k < |w| && !Within(w[k], mean, b) ==> TailNumber(w[k], mean, b) < 65536 {
      forall i | 0 <= i < |xs| ensures TailNumber(xs[i], mean, b) < 65536 {
        var k := OutsideFrom(w, mean, b, |w|, i);
      }
    }
  }

  /** The bytes behind the record begin with four zeros. */
  predicate FourZeros(tail: seq<byte>) {
    |tail| >= 4 && tail[0] == 0 && tail[1] == 0 && tail[2] == 0 && tail[3] == 0
  }

  lemma ZeroTailBits(tail: seq<byte>, pad: nat)
    requires FourZeros(tail)
    ensures Zeros(pad) + Flat(tail) == Zeros(pad + 32) + Flat(tail)[32..]
  {
    forall p | 0 <= p < 32 ensures !Flat(tail)[p] {
      ZeroBit(p % 8);
    }
  }

  /** Behind a record of tail numbers that fit, zeros end the search; otherwise it goes wrong before. */
  lemma ZeroTailTable(w: seq<short>, mean: int, b: nat, tail: seq<byte>, hi: Bit32)
    requires 2 <= b <= 10 && -127 <= mean <= 127 && |Flat(tail)| >= Reach(0) && FourZeros(tail)
    requires |Outside(w, mean, b, |w|)| <= SLOTS
    ensures var xs, t := Outside(w, mean, b, |w|), RecordTable(w, mean, b, tail, hi);
            if AllFit(xs, mean, b) then t == xs else !(xs <= t)
  {
    hide Flat, ComboRecord, Table, MainBits, ComboBits, Within, Reach, Outside, Span, Zeros, Padding, HeadMean,
         TailCodes, Concat, TailNumber, FourZeros;
    var xs := Outside(w, mean, b, |w|);
    var f, start, pad := Flat(ComboRecord(w, mean, b) + tail), 8 + Span(|w|, b), Padding(|ComboBits(w, mean, b)|);
    ComboStream(w, mean, b, tail);
    ZeroTailBits(tail, pad);
    if AllFit(xs, mean, b) {
      var codes := Concat(TailCodes(xs, mean, b));
      TableSound(f, start, 0, xs, Zeros(pad) + Flat(tail), mean, b, hi);
      Behind(f, start, codes, Zeros(pad + 32) + Flat(tail)[32..]);
      NothingFound(f, start + |codes|, |xs|, mean, b, hi, [], pad + 32, Flat(tail)[32..]);
    } else {
      TableSpoilt(f, start, 0, xs, pad + 32, Flat(tail)[32..], mean, b, hi);
    }
  }

  lemma Behind(f: seq<bool>, start: nat, codes: seq<bool>, rest: seq<bool>)
    requires start <= |f| && f[start..] == codes + rest
    ensures start + |codes| <= |f| && f[start + |codes|..] == [] + rest
  {
    assert f[start..][|codes|..] == f[start + |codes|..];
  }

  /** Whatever the memory held, the run stays in the table and gives back the waveform. */
  ghost predicate Safe(w: seq<short>, mean: int, b: nat, tail: seq<byte>)
    requires b >= 1
  {
    forall stack, prior, now, overran, hi |
      ComboResult(Flat(ComboRecord(w, mean, b) + tail), b, stack, prior, now, overran, hi) && |prior| == |w| ::
      now == w && !overran
  }

  /** A run on a record, from any memory. */
  lemma RunOfRecord(w: seq<short>, mean: int, b: nat, tail: seq<byte>, stack: seq<short>, hi: Bit32)
    returns (now: seq<short>, overran: bool)
    requires 2 <= b <= 10 && -127 <= mean <= 127 && |Flat(tail)| >= Reach(0)
    requires |stack| >= LOOKUPS && |stack| >= |w|
    ensures ComboResult(Flat(ComboRecord(w, mean, b) + tail), b, stack, w, now, overran, hi)
  {
    hide Flat, ComboRecord, Table, MainBits, TailBits, ComboBits, Reach, Span, Zeros, Padding, HeadMean, Flags,
         Overlay, ComboSamples;
    ComboStream(w, mean, b, tail);
    var f := Flat(ComboRecord(w, mean, b) + tail);
    var xs := Table(f, 8 + Span(|w|, b), 0, mean, b, hi);
    now := ComboSamples(f[8..], mean, b, Overlay(stack, xs), |w|);
    overran := |xs| > SLOTS || Flags(f[8..], b, |w|) > SLOTS;
  }

  /** Memory none of whose cells holds `x`. */
  lemma OtherMemory(x: short, n: nat) returns (stack: seq<short>)
    ensures |stack| == n && forall i :: 0 <= i < n ==> stack[i] != x
  {
    stack := seq(n, i requires 0 <= i < n => if x == 0 then 1 else 0);
  }

  lemma OverlayAt(stack: seq<short>, t: seq<short>, i: nat)
    requires |t| <= |stack| && i < |stack|
    ensures Overlay(stack, t)[i] == if i < |t| then t[i] else stack[i]
  {
  }

  lemma OverlayFront<T>(xs: seq<T>, ys: seq<T>)
    requires xs != [] && xs <= ys
    ensures xs[|xs| - 1] == ys[|xs| - 1]
  {
  }

  /** Entries laid over memory without the last sample: all samples outside must be among the entries. */
  lemma AllFromTable(xs: seq<short>, t: seq<short>, stack: seq<short>)
    requires |t| <= |stack| && |xs| <= |stack| && xs != [] && xs <= Overlay(stack, t)
    requires forall i :: 0 <= i < |stack| ==> stack[i] != xs[|xs| - 1]
    ensures xs <= t
  {
    OverlayAt(stack, t, |xs| - 1);
    OverlayFront(xs, Overlay(stack, t));
  }

  /** A waveform that does not fit: some memory leaves it unrecovered or makes the run leave the table. */
  lemma NotFitting(w: seq<short>, mean: int, b: nat, tail: seq<byte>)
    requires 2 <= b <= 10 && -127 <= mean <= 127 && |Flat(tail)| >= Reach(0) && FourZeros(tail)
    requires !Fitting(w, mean, b)
    ensures !Safe(w, mean, b, tail)
  {
    hide Flat, ComboRecord, ComboResult, RecordTable, Within, Reach, AllFit, FourZeros, Overlay, Outside, TailNumber;
    var xs := Outside(w, mean, b, |w|);
    NoneFit(mean, b);
    var stack := OtherMemory(if xs == [] then 0 else xs[|xs| - 1], LOOKUPS + |w|);
    var now, overran := RunOfRecord(w, mean, b, tail, stack, Bit32Clear);
    ComboYields(w, mean, b, tail, stack, w, now, overran, Bit32Clear);
    if now == w && !overran {
      var t := RecordTable(w, mean, b, tail, Bit32Clear);
      SlotsOfSuccess(w, mean, b, Overlay(stack, t));
      AllFromTable(xs, t, stack);
      ZeroTailTable(w, mean, b, tail, Bit32Clear);
    }
  }

  lemma NoneFit(mean: int, b: nat)
    requires b >= 1
    ensures AllFit([], mean, b)
  {
  }

  /**
   * Exactly when the combined encoding is safe: with zeros behind the record,
   * every run stays within the 256 slots and gives back the waveform if and
   * only if at most 256 samples lie outside and their numbers fit 16 bits.
   */
  lemma ComboSafeExactly(w: seq<short>, mean: int, b: nat, tail: seq<byte>)
    requires 2 <= b <= 10 && -127 <= mean <= 127 && |Flat(tail)| >= Reach(0) && FourZeros(tail)
    ensures Safe(w, mean, b, tail) <==> Fitting(w, mean, b)
    ensures Fitting(w, mean, b) <==>
              && |Outside(w, mean, b, |w|)| <= 256
              && forall k :: 0 <= k < |w| && !Within(w[k], mean, b) ==> TailNumber(w[k], mean, b) < 65536
  {
    FittingMeans(w, mean, b);
    hide Flat, ComboRecord, ComboResult, RecordTable, Within, Reach, AllFit, FourZeros, Outside;
    if Fitting(w, mean, b) {
      forall stack, prior, now, overran, hi |
        ComboResult(Flat(ComboRecord(w, mean, b) + tail), b, stack, prior, now, overran, hi) && |prior| == |w|
        ensures now == w && !overran
      {
        ComboRoundTrip(w, mean, b, tail, stack, prior, now, overran, hi);
        ZeroTailTable(w, mean, b, tail, hi);
      }
    } else {
      NotFitting(w, mean, b, tail);
    }
  }

  // ----- What the bytes behind the record can do

  /** After up to seven zeros, nothing but ones. */
  lemma {:induction false} OnesFill(f: seq<bool>, pos: nat, k: nat, z: nat, mean: int, b: nat, hi: Bit32)
    requires b >= 1 && k <= LOOKUPS && pos + Reach(k) <= |f| && z < 8
    requires forall p :: pos <= p < |f| ==> f[p] == (p >= pos + z)
    ensures |Table(f, pos, k, mean, b, hi)| == LOOKUPS - k
    decreases LOOKUPS - k
  {
    hide *;
    if k < LOOKUPS {
      var c := OnesWord(f, pos, k, z);
      TableAtCode(f, pos, k, mean, b, hi, c);
      OnesFill(f, pos + |c|, k + 1, 0, mean, b, hi);
    } else {
      TableFull(f, pos, mean, b, hi);
    }
  }

  lemma OnesWord(f: seq<bool>, pos: nat, k: nat, z: nat) returns (c: seq<bool>)
    requires k < LOOKUPS && pos + Reach(k) <= |f| && z < 8
    requires forall p :: pos <= p < |f| ==> f[p] == (p >= pos + z)
    ensures IsCodeword(c) && z < |c| <= 24 && pos + |c| <= |f| && c <= f[pos..]
  {
    c := Zeros(z) + [true, true];
    var front := c[..z + 1];
    forall i: int ensures !PairAt(front, i) {}
  }

  lemma TableFull(f: seq<bool>, pos: nat, mean: int, b: nat, hi: Bit32)
    requires b >= 1 && pos + Reach(LOOKUPS) <= |f|
    ensures Table(f, pos, LOOKUPS, mean, b, hi) == []
  {
  }

  /**
   * Nothing in a record ends the search: with bytes 0xFF behind it, every
   * waveform that fits makes the decoder fill 260 entries into its 256 slots.
   */
  lemma OnesOverrun(w: seq<short>, mean: int, b: nat, tail: seq<byte>, hi: Bit32)
    requires 2 <= b <= 10 && -127 <= mean <= 127 && |Flat(tail)| >= Reach(0) && Fitting(w, mean, b)
    requires forall i :: 0 <= i < |tail| ==> tail[i] == 255
    ensures |RecordTable(w, mean, b, tail, hi)| == LOOKUPS > SLOTS
  {
    hide Flat, ComboRecord, Table, MainBits, ComboBits, Within, Reach, Outside, Span, Zeros, Padding, HeadMean,
         TailCodes, Concat, TailNumber;
    var xs := Outside(w, mean, b, |w|);
    var f, start, pad := Flat(ComboRecord(w, mean, b) + tail), 8 + Span(|w|, b), Padding(|ComboBits(w, mean, b)|);
    ComboStream(w, mean, b, tail);
    var codes := Concat(TailCodes(xs, mean, b));
    TableSound(f, start, 0, xs, Zeros(pad) + Flat(tail), mean, b, hi);
    Behind(f, start, codes, Zeros(pad) + Flat(tail));
    OnesBehind(f, start + |codes|, pad, tail);
    OnesFill(f, start + |codes|, |xs|, pad, mean, b, hi);
  }

  lemma OnesBehind(f: seq<bool>, pos: nat, pad: nat, tail: seq<byte>)
    requires pos <= |f| && f[pos..] == [] + (Zeros(pad) + Flat(tail))
    requires forall i :: 0 <= i < |tail| ==> tail[i] == 255
    ensures forall p :: pos <= p < |f| ==> f[p] == (p >= pos + pad)
  {
    forall p | pos <= p < |f| ensures f[p] == (p >= pos + pad) {
      assert f[p] == f[pos..][p - pos];
      if p >= pos + pad {
        assert Pow2(8) == 256;
        LowBit(8, (p - pos - pad) % 8);
      }
    }
  }
}

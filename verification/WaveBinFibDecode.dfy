// Decoding the combined encoding: first the tail codes into a table, then the
// fixed-width part, which takes a table entry wherever it finds the flag.
module WaveBinFibDecode {
  import opened Bits
  import opened BitCursor
  import opened Fibonacci
  import opened CompUtils
  import opened Encoding
  import opened Records
  import opened CodeScan
  import opened WaveBinary
  import opened WaveFibonacci
  import opened WaveBinFib

  const SLOTS: nat := 256   // overFlowVals[256]
  const LOOKUPS: nat := 260 // while (overflowNum < 260)

  /** Bits the search loop may look at from where it starts. */
  function Reach(k: nat): nat
    requires k <= LOOKUPS
  {
    33 * (LOOKUPS - k) + 32
  }

  // ----- The table of tail samples

  /** Entries k, k+1, ... of the table, searched from bit `pos` on. */
  function Table(f: seq<bool>, pos: nat, k: nat, mean: int, b: nat, hi: Bit32): (xs: seq<short>)
    requires b >= 1 && k <= LOOKUPS && pos + Reach(k) <= |f|
    ensures |xs| <= LOOKUPS - k
    decreases LOOKUPS - k
  {
    if k == LOOKUPS then []
    else
      WindowNear(pos);
      var ws := WindowBits(f, pos, hi(pos));
      var e := PairEnd(ws);
      if e == 0 then []
      else if BitOf(pos) + e == 32 then [WordTail(ws[..e], mean, b)]
      else [WordTail(ws[..e], mean, b)] + Table(f, pos + e, k + 1, mean, b, hi)
  }

  function BitOf(pos: nat): nat { pos % 8 }

  function WordTail(word: seq<bool>, mean: int, b: nat): short
    requires b >= 1
  {
    TailSample(Unfib(23, Value(word)), mean, b)
  }

  lemma WindowNear(pos: nat)
    ensures WindowEnd(pos) <= pos + 32
  {
  }

  /** The table's memory, and what lies behind it, once the entries are in. */
  function Overlay(stack: seq<short>, xs: seq<short>): (r: seq<short>)
    requires |xs| <= |stack|
    ensures |r| == |stack|
  {
    xs + stack[|xs|..]
  }

  lemma OverlayNothing(stack: seq<short>)
    ensures Overlay(stack, []) == stack
  {
  }

  lemma OverlayNext(stack: seq<short>, xs: seq<short>, x: short)
    requires |xs| < |stack|
    ensures Overlay(stack, xs)[|xs| := x] == Overlay(stack, xs + [x])
  {
  }

  /** Mid-way through the search: the entries so far are the front of the table. */
  ghost predicate Searching(f: seq<bool>, start: nat, pos: nat, xs: seq<short>, mean: int, b: nat, hi: Bit32) {
    && b >= 1 && |xs| <= LOOKUPS && start + Reach(0) <= |f| && pos + Reach(|xs|) <= |f|
    && Table(f, start, 0, mean, b, hi) == xs + Table(f, pos, |xs|, mean, b, hi)
  }

  lemma SearchStart(f: seq<bool>, start: nat, mean: int, b: nat, hi: Bit32)
    requires b >= 1 && start + Reach(0) <= |f|
    ensures Searching(f, start, start, [], mean, b, hi)
  {
    hide Table;
    assert [] + Table(f, start, 0, mean, b, hi) == Table(f, start, 0, mean, b, hi);
  }

  lemma TableCons(f: seq<bool>, pos: nat, k: nat, mean: int, b: nat, hi: Bit32)
    requires b >= 1 && k < LOOKUPS && pos + Reach(k) <= |f|
    ensures WindowEnd(pos) <= |f| && PairEnd(WindowBits(f, pos, hi(pos))) <= 33
    ensures pos + PairEnd(WindowBits(f, pos, hi(pos))) + Reach(k + 1) <= |f|
    ensures var e := PairEnd(WindowBits(f, pos, hi(pos)));
            var x := WordTail(WindowBits(f, pos, hi(pos))[..e], mean, b);
            Table(f, pos, k, mean, b, hi)
            == if e == 0 then [] else [x] + (if BitOf(pos) + e == 32 then [] else Table(f, pos + e, k + 1, mean, b, hi))
  {
    hide PairEnd, WindowBits, WindowEnd, WordTail, BitOf;
    WindowNear(pos);
  }

  /** What the search meets next: its window is there, and the table goes on accordingly. */
  lemma SearchNow(f: seq<bool>, start: nat, pos: nat, xs: seq<short>, mean: int, b: nat, hi: Bit32)
    requires Searching(f, start, pos, xs, mean, b, hi) && |xs| < LOOKUPS
    ensures WindowEnd(pos) <= |f|
    ensures PairEnd(WindowBits(f, pos, hi(pos))) == 0 ==> Table(f, start, 0, mean, b, hi) == xs
  {
    TableCons(f, pos, |xs|, mean, b, hi);
    hide WordTail, PairEnd, WindowBits, WindowEnd, Table, Reach, BitOf;
    if PairEnd(WindowBits(f, pos, hi(pos))) == 0 {
      WithNothing(xs);
    }
  }

  lemma SearchNext(f: seq<bool>, start: nat, pos: nat, xs: seq<short>, mean: int, b: nat, hi: Bit32, e: nat, x: short)
    requires Searching(f, start, pos, xs, mean, b, hi) && |xs| < LOOKUPS
    requires WindowEnd(pos) <= |f| && e == PairEnd(WindowBits(f, pos, hi(pos))) > 0
    requires x == WordTail(WindowBits(f, pos, hi(pos))[..e], mean, b)
    ensures if BitOf(pos) + e == 32 then Table(f, start, 0, mean, b, hi) == xs + [x]
            else Searching(f, start, pos + e, xs + [x], mean, b, hi)
  {
    assert pos + Reach(|xs|) <= |f|;
    hide Table, Reach, WordTail, PairEnd, WindowBits, WindowEnd, BitOf;
    if BitOf(pos) + e == 32 {
      SearchStop(f, start, pos, xs, mean, b, hi, e, x);
    } else {
      SearchRest(f, pos, |xs|, mean, b, hi, e, x);
      SearchGo(f, start, pos, xs, mean, b, hi, e, x);
    }
  }

  lemma SearchStop(f: seq<bool>, start: nat, pos: nat, xs: seq<short>, mean: int, b: nat, hi: Bit32, e: nat, x: short)
    requires Searching(f, start, pos, xs, mean, b, hi) && |xs| < LOOKUPS
    requires WindowEnd(pos) <= |f| && e == PairEnd(WindowBits(f, pos, hi(pos))) > 0 && BitOf(pos) + e == 32
    requires x == WordTail(WindowBits(f, pos, hi(pos))[..e], mean, b)
    ensures Table(f, start, 0, mean, b, hi) == xs + [x]
  {
    hide WordTail, PairEnd, WindowBits, WindowEnd, BitOf, Reach, Table;
    TableCons(f, pos, |xs|, mean, b, hi);
    WithNothing([x]);
  }

  lemma SearchGo(f: seq<bool>, start: nat, pos: nat, xs: seq<short>, mean: int, b: nat, hi: Bit32, e: nat, x: short)
    requires Searching(f, start, pos, xs, mean, b, hi) && |xs| < LOOKUPS
    requires pos + e + Reach(|xs| + 1) <= |f|
    requires Table(f, pos, |xs|, mean, b, hi) == [x] + Table(f, pos + e, |xs| + 1, mean, b, hi)
    ensures Searching(f, start, pos + e, xs + [x], mean, b, hi)
  {
    hide Table, Reach;
    MoveOver(Table(f, start, 0, mean, b, hi), xs, x, Table(f, pos, |xs|, mean, b, hi),
             Table(f, pos + e, |xs| + 1, mean, b, hi));
    hide *;
    SearchingIs(f, start, pos + e, xs + [x], mean, b, hi, |xs| + 1);
  }

  lemma SearchRest(f: seq<bool>, pos: nat, k: nat, mean: int, b: nat, hi: Bit32, e: nat, x: short)
    requires b >= 1 && k < LOOKUPS && pos + Reach(k) <= |f|
    requires WindowEnd(pos) <= |f| && e == PairEnd(WindowBits(f, pos, hi(pos))) > 0 && BitOf(pos) + e != 32
    requires x == WordTail(WindowBits(f, pos, hi(pos))[..e], mean, b)
    ensures pos + e + Reach(k + 1) <= |f|
    ensures Table(f, pos, k, mean, b, hi) == [x] + Table(f, pos + e, k + 1, mean, b, hi)
  {
    hide *;
    TableCons(f, pos, k, mean, b, hi);
  }

  lemma SearchingIs(f: seq<bool>, start: nat, pos: nat, xs: seq<short>, mean: int, b: nat, hi: Bit32, k: nat)
    requires b >= 1 && k == |xs| <= LOOKUPS && start + Reach(0) <= |f| && pos + Reach(k) <= |f|
    requires Table(f, start, 0, mean, b, hi) == xs + Table(f, pos, k, mean, b, hi)
    ensures Searching(f, start, pos, xs, mean, b, hi)
  {
  }

  lemma MoveOver<T>(all: seq<T>, xs: seq<T>, x: T, rest: seq<T>, more: seq<T>)
    requires all == xs + rest && rest == [x] + more
    ensures all == xs + [x] + more
  {
  }

  lemma SearchEnd(f: seq<bool>, start: nat, pos: nat, xs: seq<short>, mean: int, b: nat, hi: Bit32)
    requires Searching(f, start, pos, xs, mean, b, hi) && |xs| == LOOKUPS
    ensures Table(f, start, 0, mean, b, hi) == xs
  {
    assert xs + [] == xs;
  }

  /** One lookup: where the next codeword ends, and the sample it stands for. */
  method LookUp(input: seq<byte>, cur: nat, bit: nat, mean: int, b: nat, hi: Bit32, ghost pos: nat)
    returns (e: nat, x: short)
    requires b >= 1 && bit < 8 && pos == 8 * cur + bit && WindowEnd(pos) <= |Flat(input)|
    ensures var ws := WindowBits(Flat(input), pos, hi(pos));
            e == PairEnd(ws) && (e > 0 ==> x == WordTail(ws[..e], mean, b))
    ensures BitOf(pos) == bit
  {
    hide Flat, TailSample, Unfib, Value, WindowBits, PairEnd, WindowEnd;
    WindowInside(input, pos, cur, bit);
    x := 0;
    var fibNum;
    e, fibNum := FindWord(input, cur, bit, hi(8 * cur + bit), pos);
    if e > 0 {
      x := DecodeTail(fibNum, mean, b);
    }
  }

  /** One turn of the search loop: the entry found, if any, goes into the table. */
  method NextEntry(input: seq<byte>, cur: nat, bit: nat, mean: int, b: nat, hi: Bit32, table: array<short>, k: nat,
                   ghost start: nat, ghost pos: nat, ghost stack: seq<short>, ghost xs: seq<short>)
    returns (e: nat, ghost ys: seq<short>)
    requires bit < 8 && pos == 8 * cur + bit && k == |xs| < LOOKUPS <= |stack|
    requires Searching(Flat(input), start, pos, xs, mean, b, hi) && table[..] == Overlay(stack, xs)
    modifies table
    ensures |ys| <= |stack| && table[..] == Overlay(stack, ys)
    ensures if e == 0 then ys == xs && Table(Flat(input), start, 0, mean, b, hi) == ys
            else |ys| == |xs| + 1
                 && if bit + e == 32 then Table(Flat(input), start, 0, mean, b, hi) == ys
                    else Searching(Flat(input), start, pos + e, ys, mean, b, hi)
  {
    ghost var f := Flat(input);
    SearchNow(f, start, pos, xs, mean, b, hi);
    assert b >= 1 && start + Reach(0) <= |f|;
    hide *;
    var x;
    e, x := LookUp(input, cur, bit, mean, b, hi, pos);
    ys := xs;
    if e > 0 {
      SearchNext(f, start, pos, xs, mean, b, hi, e, x);
      StoreEntry(table, k, x, stack, xs);
      ys := xs + [x];
    }
  }

  /** The search loop, storing into the table; `filled` counts the entries. */
  method FillTable(input: seq<byte>, off: nat, mean: int, b: nat, n: nat, table: array<short>, hi: Bit32)
    returns (filled: nat)
    requires b >= 1 && table.Length >= LOOKUPS
    requires 8 * off + Span(n, b) + Reach(0) <= |Flat(input)|
    modifies table
    ensures var xs := Table(Flat(input), 8 * off + Span(n, b), 0, mean, b, hi);
            filled == |xs| && table[..] == Overlay(old(table[..]), xs)
  {
    hide *;
    ghost var f, stack := Flat(input), table[..];
    ghost var start := 8 * off + Span(n, b);
    ghost var pos, xs: seq<short> := start, [];
    OverlayNothing(stack);
    SearchStart(f, start, mean, b, hi);
    var overflowChar, overflowBit := TailCursor(off, n, b);
    var overflowNum := 0;
    while overflowNum < LOOKUPS
      invariant 0 <= overflowNum == |xs| <= LOOKUPS && overflowBit < 8
      invariant pos == 8 * overflowChar + overflowBit
      invariant Searching(f, start, pos, xs, mean, b, hi)
      invariant table[..] == Overlay(stack, xs)
    {
      var e;
      e, xs := NextEntry(input, overflowChar, overflowBit, mean, b, hi, table, overflowNum, start, pos, stack, xs);
      if e == 0 {
        return overflowNum;
      }
      overflowNum := overflowNum + 1;
      if overflowBit + e == 32 {
        return overflowNum;
      }
      overflowChar, overflowBit := Skip(overflowChar, overflowBit, e);
      pos := pos + e;
    }
    SearchEnd(f, start, pos, xs, mean, b, hi);
    return overflowNum;
  }

  method StoreEntry(table: array<short>, k: nat, x: short, ghost stack: seq<short>, ghost xs: seq<short>)
    requires k == |xs| < |stack| && table[..] == Overlay(stack, xs)
    modifies table
    ensures table[..] == Overlay(stack, xs + [x])
  {
    OverlayNext(stack, xs, x);
    hide *;
    ghost var before := table[..];
    table[k] := x;
    assert table[..] == before[k := x];
  }

  lemma WindowInside(input: seq<byte>, pos: nat, cur: nat, bit: nat)
    requires bit < 8 && pos == 8 * cur + bit && WindowEnd(pos) <= |Flat(input)|
    ensures cur + 4 <= |input| && BitOf(pos) == bit
  {
  }

  /** A tail number back to its sample. */
  method DecodeTail(fibNum: nat, mean: int, b: nat) returns (x: short)
    requires b >= 1
    ensures x == TailSample(Unfib(23, fibNum), mean, b)
  {
    hide Unfib, Fib;
    var xMin, xMax := Lower(mean, b), Upper(mean, b);
    var tempNum := DecodeShort(fibNum);
    if tempNum % 2 == 1 {
      x := S16(xMax + (tempNum - 1) / 2);
    } else {
      x := S16(xMin - (tempNum - 2) / 2);
    }
  }

  // ----- The fixed-width part

  /** Flags among the first k fields. */
  function Flags(bits: seq<bool>, b: nat, k: nat): (n: nat)
    requires Span(k, b) <= |bits|
    ensures n <= k
  {
    if k == 0 then 0
    else Flags(bits, b, k - 1) + (if FieldAt(bits, b, k - 1) == Flag(b) then 1 else 0)
  }

  /** The k-th sample, a flag taking the next unused slot of the table's memory. */
  function ComboSample(bits: seq<bool>, mean: int, b: nat, slots: seq<short>, k: nat): short
    requires b <= 16 && Span(k + 1, b) <= |bits| && k < |slots|
  {
    var v := FieldAt(bits, b, k);
    if v == Flag(b) then slots[Flags(bits, b, k)] else Restore(mean, Unbifurcate(v))
  }

  function ComboSamples(bits: seq<bool>, mean: int, b: nat, slots: seq<short>, n: nat): (w: seq<short>)
    requires b <= 16 && Span(n, b) <= |bits| && n <= |slots|
    ensures |w| == n
  {
    if n == 0 then [] else ComboSamples(bits, mean, b, slots, n - 1) + [ComboSample(bits, mean, b, slots, n - 1)]
  }

  lemma ComboSampleAt(bits: seq<bool>, mean: int, b: nat, slots: seq<short>, n: nat, k: nat)
    requires b <= 16 && Span(n, b) <= |bits| && n <= |slots| && k < n
    ensures Span(k + 1, b) <= |bits|
    ensures ComboSamples(bits, mean, b, slots, n)[k] == ComboSample(bits, mean, b, slots, k)
  {
    SpanMonotone(k + 1, n, b);
    if k < n - 1 {
      ComboSampleAt(bits, mean, b, slots, n - 1, k);
    }
  }

  /** Samples 0..k-1 are decoded and `used` slots taken. */
  ghost predicate Decoding(f: seq<bool>, mean: int, b: nat, slots: seq<short>, now: seq<short>, prior: seq<short>,
                           k: nat, used: nat) {
    && 8 <= |f| && b <= 16 && |now| == |prior| <= |slots| && k <= |now| && Span(|now|, b) <= |f| - 8
    && Span(k, b) <= |f| - 8
    && now == ComboSamples(f[8..], mean, b, slots, |now|)[..k] + prior[k..]
    && used == Flags(f[8..], b, k)
  }

  /** The field at bit `pos` as a sample, and the slots used after it. */
  function FieldSample(f: seq<bool>, pos: nat, mean: int, b: nat, slots: seq<short>, used: nat): (r: (short, nat))
    requires pos + b <= |f| && b <= 16 && used < |slots|
  {
    FieldBound(f[pos..pos + b]);
    var v := Value(f[pos..pos + b]);
    if v == Flag(b) then (slots[used], used + 1) else (Restore(mean, Unbifurcate(v)), used)
  }

  lemma FieldBound(bs: seq<bool>)
    requires |bs| <= 16
    ensures Value(bs) < 65536
  {
    ValueBound(bs);
    Pow2Of16(|bs|);
  }

  lemma DecodingNext(f: seq<bool>, mean: int, b: nat, slots: seq<short>, now: seq<short>, prior: seq<short>, k: nat,
                     used: nat, pos: nat)
    requires Decoding(f, mean, b, slots, now, prior, k, used) && k < |now| && pos == 8 + Span(k, b)
    ensures pos + b <= |f| && used < |slots|
    ensures var (x, next) := FieldSample(f, pos, mean, b, slots, used);
            Decoding(f, mean, b, slots, now[k := x], prior, k + 1, next)
  {
    var bits := f[8..];
    var n := |now|;
    SpanMonotone(k + 1, n, b);
    SliceShift(f, 8, Span(k, b), Span(k + 1, b));
    ComboSampleAt(bits, mean, b, slots, n, k);
    var w := ComboSamples(bits, mean, b, slots, n);
    assert w[k] == FieldSample(f, pos, mean, b, slots, used).0;
    assert Flags(bits, b, k + 1) == FieldSample(f, pos, mean, b, slots, used).1;
    hide FieldSample, ComboSamples, ComboSample, Flags;
    PrefixStep(w, prior, k);
  }

  /** Reads one field through the window. */
  method DecodeField(input: seq<byte>, cur: nat, bit: nat, mean: int, b: nat, slots: seq<short>, used0: nat,
                     ghost pos: nat)
    returns (x: short, used: nat)
    requires cur + 4 <= |input| && bit < 8 && b <= 16 && pos == 8 * cur + bit && used0 < |slots|
    ensures pos + b <= |Flat(input)|
    ensures (x, used) == FieldSample(Flat(input), pos, mean, b, slots, used0)
  {
    var tempNum := ReadField(input, cur, bit, b, pos);
    FieldBound(Flat(input)[pos..pos + b]);
    hide Flat, Value, Flag, Restore, Unbifurcate;
    if tempNum == Flag(b) {
      x, used := slots[used0], used0 + 1;
    } else {
      x, used := Restore(mean, Unbifurcate(tempNum)), used0;
    }
  }

  /**
   * The whole decoder.  `stack` is the memory of the 256-slot table and of what
   * lies behind it, as found; `overran` tells that the run went behind the
   * table, filling it or reading it, which C gives no meaning.
   */
  method DecodeCombo(input: seq<byte>, data: array<short>, encType: nat, stack: seq<short>, hi: Bit32)
    returns (overran: bool)
    requires |stack| >= LOOKUPS && |stack| >= data.Length
    requires 8 + Span(data.Length, BinFibBitSize(encType)) + Reach(0) <= 8 * |input|
    modifies data
    ensures ComboResult(Flat(input), BinFibBitSize(encType), stack, old(data[..]), data[..], overran, hi)
  {
    hide *;
    ComboRoom(input, data.Length, encType);
    var n, mean, bitSize := data.Length, S8(input[0]), BinFibBitSize(encType);
    var table := Slots(stack);
    ghost var prior := data[..];
    var filled := FillTable(input, 1, mean, bitSize, n, table, hi);
    var used := ReadMain(input, mean, bitSize, data, table[..]);
    overran := filled > SLOTS || used > SLOTS;
    ResultIs(input, bitSize, stack, prior, data[..], table[..], filled, used, hi);
  }

  lemma ComboRoom(input: seq<byte>, n: nat, encType: nat)
    requires 8 + Span(n, BinFibBitSize(encType)) + Reach(0) <= 8 * |input|
    ensures 1 <= BinFibBitSize(encType) <= 10
    ensures 8 + Span(n, BinFibBitSize(encType)) + 32 <= 8 * |input| == |Flat(input)|
  {
  }

  /** The local table, with whatever its memory holds. */
  method Slots(stack: seq<short>) returns (table: array<short>)
    ensures fresh(table) && table[..] == stack
  {
    table := new short[|stack|](i requires 0 <= i < |stack| => stack[i]);
  }

  /** What a run of the decoder yields. */
  ghost predicate ComboResult(f: seq<bool>, b: nat, stack: seq<short>, prior: seq<short>, now: seq<short>,
                              overran: bool, hi: Bit32)
  {
    && 1 <= b <= 16 && 8 <= |f| && |stack| >= LOOKUPS && |stack| >= |prior| == |now|
    && 8 + Span(|prior|, b) + Reach(0) <= |f|
    && var mean := HeadMean(f);
       var xs := Table(f, 8 + Span(|prior|, b), 0, mean, b, hi);
       && now == ComboSamples(f[8..], mean, b, Overlay(stack, xs), |prior|)
       && overran == (|xs| > SLOTS || Flags(f[8..], b, |prior|) > SLOTS)
  }

  /** The mean in the first byte of a flat view. */
  function HeadMean(f: seq<bool>): int
    requires |f| >= 8
  {
    if Value(f[..8]) < 128 then Value(f[..8]) else Value(f[..8]) - 256
  }

  lemma HeadMeanOf(input: seq<byte>)
    requires |input| >= 1
    ensures HeadMean(Flat(input)) == S8(input[0])
  {
    var f := Flat(input)[..8];
    forall j | 0 <= j < 8 ensures f[j] == Bit(input[0], j) {
      FlatAt(input, 0, j);
    }
    assert f == Field(input[0], 8);
    ValueOfField(input[0], 8);
    assert Pow2(8) == 256;
  }

  lemma ResultIs(input: seq<byte>, b: nat, stack: seq<short>, prior: seq<short>, now: seq<short>, slots: seq<short>,
                 filled: nat, used: nat, hi: Bit32)
    requires |input| >= 1 && 1 <= b <= 16 && |stack| >= LOOKUPS && |stack| >= |prior| == |now|
    requires 8 + Span(|prior|, b) + Reach(0) <= |Flat(input)|
    requires var xs := Table(Flat(input), 8 + Span(|prior|, b), 0, S8(input[0]), b, hi);
             filled == |xs| && slots == Overlay(stack, xs)
    requires Decoding(Flat(input), S8(input[0]), b, slots, now, prior, |now|, used)
    ensures ComboResult(Flat(input), b, stack, prior, now, filled > SLOTS || used > SLOTS, hi)
  {
    hide Flat, Table, ComboSamples, Overlay, HeadMean, S8, Reach, Flags, Span;
    HeadMeanOf(input);
    WholePrefix(ComboSamples(Flat(input)[8..], S8(input[0]), b, slots, |now|), prior);
  }

  lemma WholePrefix<T>(w: seq<T>, o: seq<T>)
    requires |w| == |o|
    ensures w[..|w|] + o[|w|..] == w
  {
  }

  method ReadMain(input: seq<byte>, mean: int, b: nat, data: array<short>, slots: seq<short>) returns (used: nat)
    requires 1 <= b <= 16 && data.Length <= |slots|
    requires 8 + Span(data.Length, b) + 32 <= 8 * |input|
    modifies data
    ensures Decoding(Flat(input), mean, b, slots, data[..], old(data[..]), data.Length, used)
  {
    ghost var f, prior := Flat(input), data[..];
    DecodingStart(f, mean, b, slots, prior);
    assert Span(0, b) == 0;
    hide Flat, Decoding, FieldSample, Span;
    var cur: nat, bit: nat := 1, 0;
    var sampNum := 0;
    ghost var pos := 8;
    used := 0;
    while sampNum < data.Length
      invariant 0 <= sampNum <= data.Length && bit < 8
      invariant pos == 8 * cur + bit && pos == 8 + Span(sampNum, b) && pos <= 8 + Span(data.Length, b)
      invariant Decoding(f, mean, b, slots, data[..], prior, sampNum, used)
    {
      ghost var now := data[..];
      DecodingNext(f, mean, b, slots, now, prior, sampNum, used, pos);
      SpanNext(sampNum, data.Length, b);
      var x;
      x, used := DecodeField(input, cur, bit, mean, b, slots, used, pos);
      data[sampNum] := x;
      assert data[..] == now[sampNum := x];
      sampNum := sampNum + 1;
      cur, bit := Skip(cur, bit, b);
      pos := pos + b;
    }
  }

  lemma SpanNext(k: nat, n: nat, b: nat)
    requires k < n
    ensures Span(k + 1, b) == Span(k, b) + b <= Span(n, b)
  {
    SpanMonotone(k + 1, n, b);
  }

  lemma DecodingStart(f: seq<bool>, mean: int, b: nat, slots: seq<short>, prior: seq<short>)
    requires 8 <= |f| && b <= 16 && |prior| <= |slots| && Span(|prior|, b) <= |f| - 8
    ensures Decoding(f, mean, b, slots, prior, prior, 0, 0)
  {
    hide ComboSamples;
    assert ComboSamples(f[8..], mean, b, slots, |prior|)[..0] + prior[0..] == prior;
  }
}

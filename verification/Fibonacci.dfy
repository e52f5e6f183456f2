// Fibonacci (Zeckendorf) coding.  A number is written as a sum of Fibonacci
// numbers no two of which are neighbours, least significant first, and closed
// by one extra 1: "11" occurs at the end of a codeword and nowhere else.
module Fibonacci {
  import opened Bits
  import opened BitCursor

  /** 1, 2, 3, 5, 8, ... */
  function Fib(i: nat): (f: nat)
    ensures f >= 1
  {
    if i == 0 then 1 else if i == 1 then 2 else Fib(i - 1) + Fib(i - 2)
  }

  lemma FibGrows(i: nat)
    ensures Fib(i) < Fib(i + 1)
  {
  }

  lemma FibMonotone(i: nat, j: nat)
    requires i <= j
    ensures Fib(i) <= Fib(j)
  {
    if i < j {
      FibMonotone(i, j - 1);
      FibGrows(j - 1);
    }
  }

  // ----- What a codeword is

  /** Positions i and i + 1 hold a 11. */
  predicate PairAt(bs: seq<bool>, i: int) {
    0 <= i < |bs| - 1 && bs[i] && bs[i + 1]
  }

  ghost predicate NoPair(bs: seq<bool>) {
    forall i :: !PairAt(bs, i)
  }

  lemma NoPairPrefix(bs: seq<bool>, k: nat)
    requires k <= |bs|
    ensures NoPair(bs[..k]) <==> forall i :: i < k - 1 ==> !PairAt(bs, i)
  {
    forall i ensures PairAt(bs[..k], i) == (i < k - 1 && PairAt(bs, i)) {}
  }

  /** The number a bit string denotes, bit i weighing Fib(i). */
  function FibSum(bs: seq<bool>): nat {
    if bs == [] then 0
    else FibSum(bs[..|bs| - 1]) + (if bs[|bs| - 1] then Fib(|bs| - 1) else 0)
  }

  /** Ends in 11 and has no 11 before. */
  ghost predicate IsCodeword(c: seq<bool>) {
    && |c| >= 2
    && c[|c| - 1]
    && c[|c| - 2]
    && NoPair(c[..|c| - 1])
  }

  /** The number a codeword denotes: its last bit only closes it. */
  function CodeValue(c: seq<bool>): nat
    requires |c| >= 1
  {
    FibSum(c[..|c| - 1])
  }

  // ----- Greedy representation

  /** The `i` low digits of the greedy representation of `v`. */
  function Greedy(v: nat, i: nat): (bs: seq<bool>)
    requires v < Fib(i)
    ensures |bs| == i
  {
    if i == 0 then []
    else if v >= Fib(i - 1) then
      GreedyRemainder(v, i);
      Greedy(v - Fib(i - 1), i - 1) + [true]
    else Greedy(v, i - 1) + [false]
  }

  lemma GreedyRemainder(v: nat, i: nat)
    requires i >= 1 && Fib(i - 1) <= v < Fib(i)
    ensures v - Fib(i - 1) < Fib(i - 1)
    ensures i >= 2 ==> v - Fib(i - 1) < Fib(i - 2)
  {
    if i >= 2 {
      FibGrows(i - 2);
    }
  }

  /** Index of the first Fibonacci number above `v`. */
  function Digits(v: nat): (i: nat)
    ensures v < Fib(i)
    ensures forall k :: 0 <= k < i ==> Fib(k) <= v
  {
    DigitsFrom(v, 0)
  }

  function DigitsFrom(v: nat, k: nat): (i: nat)
    requires forall m :: 0 <= m < k ==> Fib(m) <= v
    ensures v < Fib(i)
    ensures forall m :: 0 <= m < i ==> Fib(m) <= v
    decreases v - k
  {
    FibAbove(k);
    if v < Fib(k) then k else DigitsFrom(v, k + 1)
  }

  lemma FibAbove(k: nat)
    ensures Fib(k) > k
  {
  }

  /** The codeword of `v`. */
  function FibCode(v: nat): (c: seq<bool>) {
    Greedy(v, Digits(v)) + [true]
  }

  lemma FibSumSnoc(bs: seq<bool>, b: bool)
    ensures FibSum(bs + [b]) == FibSum(bs) + (if b then Fib(|bs|) else 0)
  {
    assert (bs + [b])[..|bs|] == bs;
  }

  lemma NoPairSnoc(bs: seq<bool>, b: bool)
    requires NoPair(bs) && (|bs| >= 1 && bs[|bs| - 1] ==> !b)
    ensures NoPair(bs + [b])
  {
    assert (bs + [b])[..|bs|] == bs;
    NoPairPrefix(bs + [b], |bs|);
  }

  lemma {:induction false} GreedySound(v: nat, i: nat)
    requires v < Fib(i)
    ensures FibSum(Greedy(v, i)) == v
    ensures NoPair(Greedy(v, i))
    ensures i >= 1 ==> Greedy(v, i)[i - 1] == (v >= Fib(i - 1))
    decreases i
  {
    if i > 0 {
      var b := v >= Fib(i - 1);
      if b {
        GreedyRemainder(v, i);
      }
      var u := if b then v - Fib(i - 1) else v;
      var front := Greedy(u, i - 1);
      assert Greedy(v, i) == front + [b];
      hide Fib, FibSum, Greedy;
      GreedySound(u, i - 1);
      assert FibSum(front + [b]) == v by {
        FibSumSnoc(front, b);
      }
      NoPairSnoc(front, b);
    }
  }

  /** Greedy coding is right: v >= 1 gets a codeword, and the codeword denotes v. */
  lemma FibCodeSound(v: nat)
    requires v >= 1
    ensures IsCodeword(FibCode(v))
    ensures CodeValue(FibCode(v)) == v
  {
    var i := Digits(v);
    GreedySound(v, i);
    assert FibCode(v)[..i] == Greedy(v, i);
    assert i >= 1;
  }

  /** A string without neighbours denotes less than the next Fibonacci number. */
  lemma {:induction false} FibSumBound(bs: seq<bool>)
    requires NoPair(bs)
    ensures FibSum(bs) < Fib(|bs|)
    ensures |bs| >= 1 && !bs[|bs| - 1] ==> FibSum(bs) < Fib(|bs| - 1)
    decreases |bs|
  {
    var n := |bs|;
    if n > 0 {
      var front := bs[..n - 1];
      NoPairPrefix(bs, n - 1);
      FibSumBound(front);
      FibGrows(n - 1);
      assert n >= 2 && bs[n - 1] ==> !front[n - 2] by {
        assert !PairAt(bs, n - 2);
      }
    }
  }

  /** Zeckendorf's theorem: no other string without neighbours denotes the same number. */
  lemma {:induction false} GreedyUnique(bs: seq<bool>)
    requires NoPair(bs)
    ensures FibSum(bs) < Fib(|bs|)
    ensures Greedy(FibSum(bs), |bs|) == bs
    decreases |bs|
  {
    FibSumBound(bs);
    var n := |bs|;
    if n > 0 {
      var front := bs[..n - 1];
      NoPairPrefix(bs, n - 1);
      FibSumBound(front);
      GreedyUnique(front);
      assert bs == front + [bs[n - 1]];
    }
  }

  /** Every codeword is the code of the number it denotes, and of no other. */
  lemma FibCodeComplete(c: seq<bool>)
    requires IsCodeword(c)
    ensures CodeValue(c) >= 1
    ensures FibCode(CodeValue(c)) == c
  {
    var n := |c| - 1;
    var front := c[..n];
    var v := FibSum(front);
    GreedyUnique(front);
    FibSumSnoc(front[..n - 1], true);
    assert front == front[..n - 1] + [true];
    CodeDigits(v, n);
    assert c == front + [true];
  }

  lemma CodeDigits(v: nat, n: nat)
    requires n >= 1 && Fib(n - 1) <= v < Fib(n)
    ensures Digits(v) == n
  {
    forall k | 0 <= k < n ensures Fib(k) <= v {
      FibMonotone(k, n - 1);
    }
    DigitsUnique(v, n);
  }

  lemma DigitsUnique(v: nat, i: nat)
    requires v < Fib(i) && forall k :: 0 <= k < i ==> Fib(k) <= v
    ensures Digits(v) == i
  {
    var d := Digits(v);
    assert v < Fib(d);
  }

  lemma FibCodeLength(v: nat, k: nat)
    requires k >= 1
    ensures |FibCode(v)| <= k <==> v < Fib(k - 1)
  {
    var i := Digits(v);
    if i <= k - 1 {
      FibMonotone(i, k - 1);
    }
  }

  // ----- Streams of codewords

  function Concat(cs: seq<seq<bool>>): seq<bool> {
    if cs == [] then [] else cs[0] + Concat(cs[1..])
  }

  ghost predicate AllCodewords(cs: seq<seq<bool>>) {
    forall i :: 0 <= i < |cs| ==> IsCodeword(cs[i])
  }

  /** One past the first 11, or 0 when there is none. */
  function PairEnd(bs: seq<bool>): (e: nat)
    ensures e <= |bs| && e != 1
  {
    PairEndFrom(bs, 0)
  }

  function PairEndFrom(bs: seq<bool>, i: nat): (e: nat)
    requires i <= |bs|
    ensures e == 0 || (i + 2 <= e <= |bs| && PairAt(bs, e - 2))
    ensures forall k :: i <= k && (e == 0 || k < e - 2) ==> !PairAt(bs, k)
    decreases |bs| - i
  {
    if i + 1 >= |bs| then 0
    else if PairAt(bs, i) then i + 2
    else PairEndFrom(bs, i + 1)
  }

  lemma PairEndAt(bs: seq<bool>, k: nat)
    requires 2 <= k <= |bs| && NoPair(bs[..k - 1]) && PairAt(bs, k - 2)
    ensures PairEnd(bs) == k
  {
    NoPairPrefix(bs, k - 1);
  }

  lemma PairEndBeyond(bs: seq<bool>, k: nat)
    requires k <= |bs| && NoPair(bs[..k])
    ensures PairEnd(bs) == 0 || PairEnd(bs) > k
    ensures k == |bs| ==> PairEnd(bs) == 0
  {
    NoPairPrefix(bs, k);
  }

  /** The first 11 of a codeword followed by anything is the codeword's own. */
  lemma PairEndOfCodeword(c: seq<bool>, rest: seq<bool>)
    requires IsCodeword(c)
    ensures PairEnd(c + rest) == |c|
  {
    var n := |c|;
    assert (c + rest)[..n - 1] == c[..n - 1];
    PairEndAt(c + rest, n);
  }

  /** Cuts a stream after each 11; what follows the last one is dropped. */
  function Split(bs: seq<bool>): (cs: seq<seq<bool>>)
    decreases |bs|
  {
    var e := PairEnd(bs);
    if e == 0 then [] else [bs[..e]] + Split(bs[e..])
  }

  /** Splitting undoes concatenation, whatever pair-free padding follows. */
  lemma {:induction false} SplitConcat(cs: seq<seq<bool>>, pad: seq<bool>)
    requires AllCodewords(cs) && NoPair(pad)
    ensures Split(Concat(cs) + pad) == cs
    decreases |cs|
  {
    if cs == [] {
      assert Concat(cs) + pad == pad && pad[..|pad|] == pad;
      PairEndBeyond(pad, |pad|);
    } else {
      var rest := Concat(cs[1..]) + pad;
      assert Concat(cs) + pad == cs[0] + rest;
      PairEndOfCodeword(cs[0], rest);
      assert (cs[0] + rest)[|cs[0]|..] == rest;
      SplitConcat(cs[1..], pad);
      assert cs == [cs[0]] + cs[1..];
    }
  }

  /** No codeword is a proper prefix of another. */
  lemma PrefixFree(a: seq<bool>, b: seq<bool>)
    requires IsCodeword(a) && IsCodeword(b)
    requires a <= b
    ensures a == b
  {
    PairEndOfCodeword(a, b[|a|..]);
    assert a + b[|a|..] == b;
    PairEndOfCodeword(b, []);
    assert b + [] == b;
  }

  /** Two different lists of codewords never give the same bit string. */
  lemma UniquelyDecodable(cs: seq<seq<bool>>, ds: seq<seq<bool>>)
    requires AllCodewords(cs) && AllCodewords(ds)
    requires Concat(cs) == Concat(ds)
    ensures cs == ds
  {
    SplitConcat(cs, []);
    SplitConcat(ds, []);
  }

  // ----- The routines over a table of Fibonacci numbers

  /** The first |table| Fibonacci numbers. */
  ghost predicate FibTable(table: seq<nat>) {
    |table| >= 1 && forall i :: 0 <= i < |table| ==> table[i] == Fib(i)
  }

  const FN: seq<nat> := [1, 2, 3, 5, 8, 13, 21, 34, 55, 89, 144, 233, 377, 610, 987, 1597,
                         2584, 4181, 6765, 10946, 17711, 28657, 46368, 75025]

  lemma FNIsTable()
    ensures FibTable(FN) && |FN| == 24
    ensures Fib(15) == 1597 && Fib(22) == 46368 && Fib(23) == 75025
  {
    assert Fib(2) == 3 && Fib(3) == 5 && Fib(4) == 8 && Fib(5) == 13;
    assert Fib(6) == 21 && Fib(7) == 34 && Fib(8) == 55 && Fib(9) == 89;
    assert Fib(10) == 144 && Fib(11) == 233 && Fib(12) == 377 && Fib(13) == 610;
    assert Fib(14) == 987 && Fib(15) == 1597 && Fib(16) == 2584 && Fib(17) == 4181;
    assert Fib(18) == 6765 && Fib(19) == 10946 && Fib(20) == 17711 && Fib(21) == 28657;
    assert Fib(22) == 46368 && Fib(23) == 75025;
  }

  /** The greedy encoder: the code as a number, and how many bits it has. */
  method EncodeFibonacci(table: seq<nat>, input0: nat) returns (output: nat, numBits: nat)
    requires FibTable(table) && input0 < table[|table| - 1]
    ensures output == Value(FibCode(input0)) && numBits == |FibCode(input0)|
    ensures numBits <= |table|
  {
    var input := input0;
    var i := 0;
    while input >= table[i]
      invariant 0 <= i < |table|
      invariant forall k :: 0 <= k < i ==> Fib(k) <= input
      decreases |table| - i
    {
      i := i + 1;
    }
    numBits := i + 1;
    output := Shl(1, i);
    ShlIsMul(1, i);
    DigitsUnique(input, i);
    ghost var high: seq<bool> := [];
    var top := i;
    assert Greedy(input0, top) + high == Greedy(input0, top);
    assert Value(high + [true]) == 1;
    i := i - 1;
    while i >= 0
      invariant -1 <= i < top < |table|
      invariant 0 <= input < Fib(i + 1)
      invariant Greedy(input0, top) == Greedy(input, i + 1) + high
      invariant output == Pow2(i + 1) * Value(high + [true])
    {
      ghost var b := input >= table[i];
      GreedyStep(input, i);
      ValueStep(i, b, high);
      ShlIsMul(1, i);
      if input >= table[i] {
        output := output + Shl(1, i);
        input := input - table[i];
      }
      high := [b] + high;
      i := i - 1;
    }
    assert Greedy(input0, top) == high;
  }

  lemma GreedyStep(v: nat, i: nat)
    requires v < Fib(i + 1)
    ensures var b := v >= Fib(i);
            var u := if b then v - Fib(i) else v;
            u < Fib(i) && forall high :: Greedy(v, i + 1) + high == Greedy(u, i) + ([b] + high)
  {
    if v >= Fib(i) {
      GreedyRemainder(v, i + 1);
    }
  }

  lemma ValueStep(i: nat, b: bool, high: seq<bool>)
    ensures Pow2(i) * Value([b] + high + [true])
         == Pow2(i + 1) * Value(high + [true]) + (if b then Pow2(i) else 0)
  {
    var v := Value(high + [true]);
    assert ([b] + high + [true])[1..] == high + [true];
    var d := if b then 1 else 0;
    assert Value([b] + high + [true]) == d + 2 * v;
    assert Pow2(i) * (d + 2 * v) == Pow2(i) * d + 2 * Pow2(i) * v;
  }

  /** Digits up to, and not including, the bit that completes a 11. */
  function UpToPair(bs: seq<bool>): seq<bool> {
    var e := PairEnd(bs);
    if e == 0 then bs else bs[..e - 1]
  }

  /** What the decoder returns for any word at all, with its 16-bit sum. */
  function Unfib(m: nat, input: nat): (v: nat)
    ensures v < 65536
  {
    FibSum(UpToPair(Field(input, m))) % 65536
  }

  /** One more digit that completes no pair. */
  lemma NextDigit(bs: seq<bool>, i: nat)
    requires i < |bs| && NoPair(bs[..i]) && !(i > 0 && bs[i - 1] && bs[i])
    ensures NoPair(bs[..i + 1])
    ensures FibSum(bs[..i + 1]) % 65536
         == if bs[i] then (FibSum(bs[..i]) % 65536 + Fib(i)) % 65536 else FibSum(bs[..i]) % 65536
  {
    assert bs[..i + 1] == bs[..i] + [bs[i]];
    NoPairSnoc(bs[..i], bs[i]);
    FibSumSnoc(bs[..i], bs[i]);
  }

  /** Sums the digits below the terminator; the loop looks at |table| - 1 bits. */
  method Unfibonacci(table: seq<nat>, input: nat) returns (output: nat)
    requires FibTable(table)
    ensures output == Unfib(|table| - 1, input)
  {
    ghost var m := |table| - 1;
    ghost var bs := Field(input, m);
    output := 0;
    var lastbit := 0;
    var i := 0;
    while i < |table| - 1
      invariant 0 <= i <= m
      invariant lastbit == (if i > 0 && bs[i - 1] then 1 else 0)
      invariant NoPair(bs[..i])
      invariant output == FibSum(bs[..i]) % 65536
    {
      var curbit := TestBit(input, i);
      assert bs[i] == Bit(input, i);
      if curbit == 1 && lastbit == 1 {
        PairEndAt(bs, i + 1);
        assert UpToPair(bs) == bs[..i];
        return;
      }
      NextDigit(bs, i);
      if curbit == 1 {
        output := (output + table[i]) % 65536;
      }
      lastbit := curbit;
      i := i + 1;
    }
    assert bs[..m] == bs;
    PairEndBeyond(bs, m);
    assert UpToPair(bs) == bs;
  }

  /** With the table of the source, which covers every 16-bit number. */
  method EncodeShort(input: nat) returns (output: nat, numBits: nat)
    requires input < 65536
    ensures output == Value(FibCode(input)) && numBits == |FibCode(input)| <= 24
  {
    FNIsTable();
    output, numBits := EncodeFibonacci(FN, input);
  }

  method DecodeShort(input: nat) returns (output: nat)
    ensures output == Unfib(23, input)
  {
    FNIsTable();
    output := Unfibonacci(FN, input);
  }

  /** Decoding a code word gives back the number, for a table of any length. */
  lemma UnfibOfCode(m: nat, v: nat)
    requires 1 <= v < 65536 && v < Fib(m)
    ensures Unfib(m, Value(FibCode(v))) == v
  {
    var c := FibCode(v);
    var n := Digits(v);
    FibCodeSound(v);
    assert n <= m;
    CutAtPair(c, m);
  }

  /** Of a codeword's number, the m low digits up to a pair are the code less its closing 1. */
  lemma CutAtPair(c: seq<bool>, m: nat)
    requires IsCodeword(c) && |c| <= m + 1
    ensures UpToPair(Field(Value(c), m)) == c[..|c| - 1]
  {
    var n := |c| - 1;
    var bs := Field(Value(c), m);
    forall j | 0 <= j < m ensures bs[j] == (j <= n && c[j]) {
      ValueBit(c, j);
    }
    if n < m {
      assert bs == c + bs[n + 1..];
      PairEndOfCodeword(c, bs[n + 1..]);
    } else {
      assert bs == c[..n] && bs[..m] == bs;
      PairEndBeyond(bs, m);
    }
  }
}

// The zig-zag map between signed and positive numbers, the fixed-width packer,
// and the packer and unpacker of variable-length codes.
module CompUtils {
  import opened Bits
  import opened BitCursor
  import opened Fibonacci

  type short = x: int | -32768 <= x < 32768
  type ushort = x: nat | x < 65536

  /** Conversion to a 16-bit signed integer. */
  function S16(x: int): short { (x + 32768) % 65536 - 32768 }

  /** Difference and sum as the source stores them, in 16 bits. */
  function Distance(x: int, mean: int): short { S16(x - mean) }

  function Restore(mean: int, d: int): short { S16(mean + d) }

  lemma RestoreDistance(x: short, mean: int, d: short)
    ensures Restore(mean, d) == x <==> d == Distance(x, mean)
  {
  }

  // ----- bifurcate and unbifurcate

  function Bifurcate(input: short): ushort {
    if input >= 0 then 2 * input as int + 1 else (2 * -(input as int)) % 65536
  }

  function Unbifurcate(input: ushort): short {
    if input % 2 == 1 then (input as int - 1) / 2 else -(input as int / 2)
  }

  /** The map is undone exactly away from -32768, which goes to 0. */
  lemma UnbifurcateBifurcate(d: short)
    ensures Unbifurcate(Bifurcate(d)) == d <==> d != -32768
    ensures Bifurcate(d) == 0 <==> d == -32768
  {
  }

  lemma BifurcateUnbifurcate(u: ushort)
    ensures Bifurcate(Unbifurcate(u)) == u <==> u != 0
  {
  }

  // ----- Packing helpers

  /** C's `~` on a word of `width` bits. */
  function Not(m: nat, width: nat): nat
    requires m < Pow2(width)
  {
    Pow2(width) - 1 - m
  }

  lemma NotBit(m: nat, width: nat, j: nat)
    requires m < Pow2(width)
    ensures Bit(Not(m, width), j) == (j < width && !Bit(m, j))
    decreases width
  {
    if width == 0 {
      ZeroBit(j);
    } else if j > 0 {
      NotBit(m / 2, width - 1, j - 1);
    }
  }

  /** Keeping the bits above k and shifting by k is just shifting by k. */
  lemma HighPart(x: nat, k: nat, width: nat)
    requires k <= width && x < Pow2(width)
    ensures Low(k) < Pow2(width)
    ensures Shr(And(x, Not(Low(k), width)), k) == Shr(x, k)
  {
    Pow2Monotone(k, width);
    var h := And(x, Not(Low(k), width));
    forall j: nat ensures Bit(Shr(h, k), j) == Bit(Shr(x, k), j) {
      ShrBit(h, k, j);
      ShrBit(x, k, j);
      AndBit(x, Not(Low(k), width), j + k);
      NotBit(Low(k), width, j + k);
      LowBit(k, j + k);
      if j + k >= width {
        NoBitsAbove(x, width, j + k);
      }
    }
    SameBits(Shr(h, k), Shr(x, k));
  }

  lemma ShrBound(x: nat, k: nat, n: nat)
    requires k <= n && x < Pow2(n)
    ensures Shr(x, k) < Pow2(n - k)
    decreases k
  {
    if k > 0 {
      ShrBound(x / 2, k - 1, n - 1);
    }
  }

  lemma AndLowIdentity(x: nat, n: nat)
    requires x < Pow2(n)
    ensures And(x, Low(n)) == x
  {
    forall j: nat ensures Bit(And(x, Low(n)), j) == Bit(x, j) {
      AndBit(x, Low(n), j);
      LowBit(n, j);
      if j >= n {
        NoBitsAbove(x, n, j);
      }
    }
    SameBits(And(x, Low(n)), x);
  }

  lemma AndLowBound(x: nat, n: nat)
    ensures And(x, Low(n)) < Pow2(n)
    ensures Field(And(x, Low(n)), n) == Field(x, n)
  {
    forall j: nat ensures Bit(And(x, Low(n)), j) == (Bit(x, j) && j < n) {
      AndBit(x, Low(n), j);
      LowBit(n, j);
    }
    BelowByBits(And(x, Low(n)), n);
  }

  lemma FieldSplit(v: nat, k: nat, m: nat)
    ensures Field(v, k + m) == Field(v, k) + Field(Shr(v, k), m)
  {
    forall j | 0 <= j < m ensures Field(Shr(v, k), m)[j] == Field(v, k + m)[k + j] {
      ShrBit(v, k, j);
    }
  }

  /** The bits written so far, in a buffer whose current byte is clear above the cursor. */
  ghost predicate Written(out: seq<byte>, cur: nat, bit: nat, w: seq<bool>) {
    && bit < 8 && cur < |out|
    && |w| == 8 * cur + bit
    && Flat(out[..cur + 1]) == w + Zeros(8 - bit)
  }

  lemma WrittenStep(out: seq<byte>, cur: nat, bit: nat, w: seq<bool>, v: nat, k: nat)
    requires Written(out, cur, bit, w) && bit + k <= 8
    ensures var x := Or(out[cur], Shl(And(v, Low(k)), bit));
            x < 256 && Flat(out[cur := x][..cur + 1]) == w + Field(v, k) + Zeros(8 - bit - k)
  {
    var front := out[..cur + 1];
    OrByte(front, cur, bit, v, k);
    var x := Or(out[cur], Shl(And(v, Low(k)), bit));
    assert out[cur := x][..cur + 1] == front[cur := x];
    assert w + Zeros(8 - bit) + [] == w + Zeros(8 - bit);
    OrAtZeros(w, 8 - bit, [], Field(v, k));
    assert w + Field(v, k) + Zeros(8 - bit - k) + [] == w + Field(v, k) + Zeros(8 - bit - k);
  }

  /** A finished byte followed by a cleared one. */
  lemma WrittenNext(out: seq<byte>, cur: nat, w: seq<bool>)
    requires cur + 1 < |out| && |w| == 8 * (cur + 1)
    requires Flat(out[..cur + 1]) == w
    ensures Written(out[cur + 1 := 0], cur + 1, 0, w)
  {
    var s := out[cur + 1 := 0];
    assert s[..cur + 2] == out[..cur + 1] + [0];
    FlatConcat(out[..cur + 1], [0]);
    forall j | 0 <= j < 8 ensures Flat([0])[j] == false {
      ZeroBit(j);
    }
    assert Flat([0]) == Zeros(8);
  }

  /** One round of the loop below: `k` more bits of `word` after the first `done`. */
  lemma AppendStep(out: seq<byte>, cur: nat, bit: nat, w: seq<bool>, word: nat, done: nat, k: nat)
    requires Written(out, cur, bit, w + Field(word, done)) && bit + k <= 8
    ensures var x := Or(out[cur], Shl(And(Shr(word, done), Low(k)), bit));
            && x < 256
            && (bit + k < 8 ==> Written(out[cur := x], cur, bit + k, w + Field(word, done + k)))
            && (bit + k == 8 && cur + 1 < |out| ==>
                  Written(out[cur := x][cur + 1 := 0], cur + 1, 0, w + Field(word, done + k)))
  {
    var x := Or(out[cur], Shl(And(Shr(word, done), Low(k)), bit));
    WrittenStep(out, cur, bit, w + Field(word, done), Shr(word, done), k);
    FieldSplit(word, done, k);
    var w1 := w + Field(word, done + k);
    assert w + Field(word, done) + Field(Shr(word, done), k) == w1;
    if bit + k == 8 && cur + 1 < |out| {
      assert w1 + Zeros(0) == w1;
      WrittenNext(out[cur := x], cur, w1);
    }
  }

  /** ORs `v`, the next `k` bits of `word`, into the current byte; clears the next byte if it enters it. */
  method AppendByte(out: array<byte>, cur0: nat, bit0: nat, v: nat, k: nat,
                    ghost w: seq<bool>, ghost word: nat, ghost done: nat) returns (cur: nat, bit: nat)
    requires Written(out[..], cur0, bit0, w + Field(word, done))
    requires bit0 + k <= 8 && (bit0 + k == 8 ==> cur0 + 1 < out.Length)
    requires v == And(Shr(word, done), Low(k))
    modifies out
    ensures Written(out[..], cur, bit, w + Field(word, done + k))
  {
    AppendStep(out[..], cur0, bit0, w, word, done, k);
    hide Flat, Field, Written, Or, And, Shl, Shr, Low;
    ghost var before := out[..];
    cur, bit := cur0, bit0 + k;
    out[cur] := Or(out[cur], Shl(v, bit0));
    assert out[..] == before[cur0 := out[cur0]];
    if bit == 8 {
      cur := cur + 1;
      bit := 0;
      out[cur] := 0;
      assert out[..] == before[cur0 := out[cur0]][cur := 0];
    }
  }

  /**
   * The inner loop of bitpack and codepack: appends the `n0` bits of `word`,
   * clearing each byte as the cursor enters it.
   */
  method AppendBits(out: array<byte>, cur0: nat, bit0: nat, word: nat, n0: nat, width: nat, ghost w: seq<bool>)
    returns (cur: nat, bit: nat)
    requires Written(out[..], cur0, bit0, w)
    requires 8 <= width && word < Pow2(width) && word < Pow2(n0)
    requires (|w| + n0) / 8 < out.Length
    modifies out
    ensures Written(out[..], cur, bit, w + Field(word, n0))
  {
    hide Flat, Field, Shr, And, Or, Shl, Pow2, Zeros, Bit;
    NoFieldYet(word, w);
    cur, bit := cur0, bit0;
    var scratch, left := word, n0;
    while left > 0
      invariant 0 <= left <= n0
      invariant left > 0 ==> scratch == Shr(word, n0 - left) && scratch < Pow2(width) && scratch < Pow2(left)
      invariant Written(out[..], cur, bit, w + Field(word, n0 - left))
    {
      ghost var done := n0 - left;
      if left > 8 - bit {
        var k := 8 - bit;
        HighPart(scratch, k, width);
        ShrShr(word, done, k);
        ShrBound(scratch, k, left);
        ShrBelow(scratch, k);
        var mask := Not(Not(Low(k), width), width);
        cur, bit := AppendByte(out, cur, bit, And(scratch, mask), k, w, word, done);
        mask := Not(mask, width);
        scratch := Shr(And(scratch, mask), k);
        left := left - k;
      } else {
        AndLowIdentity(scratch, left);
        cur, bit := AppendByte(out, cur, bit, scratch, left, w, word, done);
        left := 0;
      }
    }
  }

  lemma NoFieldYet(word: nat, w: seq<bool>)
    ensures word == Shr(word, 0) && w + Field(word, 0) == w
  {
  }

  lemma ShrBelow(x: nat, k: nat)
    ensures Shr(x, k) <= x
  {
    if k > 0 {
      ShrBelow(x / 2, k - 1);
    }
  }

  lemma CutPadding(w: seq<bool>, z: nat, n: nat)
    requires |w| <= n <= |w| + z
    ensures (w + Zeros(z))[0..n] == w + Zeros(n - |w|)
  {
  }

  /** The bytes in use when the cursor stops. */
  lemma WrittenBytes(out: seq<byte>, cur: nat, bit: nat, w: seq<bool>)
    requires Written(out, cur, bit, w)
    ensures var len := if bit == 0 then cur else cur + 1;
            len == BytesFor(|w|) && out[..len] == Pack(w)
  {
    hide Flat, Pack, Zeros, Bit;
    var len := if bit == 0 then cur else cur + 1;
    var front := out[..cur + 1];
    assert front[..len] == out[..len];
    FlatPack(w);
    FlatSlice(front, 0, len);
    CutPadding(w, 8 - bit, 8 * len);
    FlatInjective(out[..len], Pack(w));
  }

  // ----- bitpack and bitstrip

  /** The bits that `k` fields of `nbits` take: k * nbits, kept out of the solver's arithmetic. */
  function Span(k: nat, nbits: nat): nat {
    if k == 0 then 0 else Span(k - 1, nbits) + nbits
  }

  lemma SpanIsProduct(k: nat, nbits: nat)
    ensures Span(k, nbits) == k * nbits
  {
    if k > 0 {
      SpanIsProduct(k - 1, nbits);
      assert k * nbits == (k - 1) * nbits + nbits;
    }
  }

  lemma SpanMonotone(k: nat, m: nat, nbits: nat)
    requires k <= m
    ensures Span(k, nbits) <= Span(m, nbits)
  {
    if k < m {
      SpanMonotone(k, m - 1, nbits);
    }
  }

  /** The `nbits` low bits of every word, in order. */
  function WordBits(words: seq<nat>, nbits: nat): (bs: seq<bool>)
    ensures |bs| == Span(|words|, nbits)
  {
    if words == [] then []
    else WordBits(words[..|words| - 1], nbits) + Field(words[|words| - 1], nbits)
  }

  lemma WordBitsSnoc(words: seq<nat>, nbits: nat, i: nat)
    requires i < |words|
    ensures WordBits(words[..i + 1], nbits) == WordBits(words[..i], nbits) + Field(words[i], nbits)
    ensures |WordBits(words[..i], nbits)| + nbits <= |WordBits(words, nbits)|
  {
    assert words[..i + 1][..i] == words[..i];
    SpanMonotone(i + 1, |words|, nbits);
  }

  /** The k-th field is the low bits of the k-th word. */
  lemma {:induction false} WordBitsField(words: seq<nat>, nbits: nat, k: nat)
    requires k < |words|
    ensures Span(k, nbits) + nbits <= |WordBits(words, nbits)|
    ensures WordBits(words, nbits)[Span(k, nbits)..Span(k, nbits) + nbits] == Field(words[k], nbits)
    decreases |words|
  {
    var n := |words| - 1;
    if k < n {
      SpanMonotone(k + 1, n, nbits);
      WordBitsField(words[..n], nbits, k);
    }
  }

  /** Bit k*nbits + j of the packed string is bit j of word k. */
  lemma WordBitsAt(words: seq<nat>, nbits: nat, k: nat, j: nat)
    requires k < |words| && j < nbits
    ensures k * nbits + j < |WordBits(words, nbits)|
    ensures WordBits(words, nbits)[k * nbits + j] == Bit(words[k], j)
  {
    WordBitsField(words, nbits, k);
    SpanIsProduct(k, nbits);
    assert WordBits(words, nbits)[Span(k, nbits)..Span(k, nbits) + nbits][j] == Field(words[k], nbits)[j];
  }

  method BitPack(nbits: nat, input: seq<ushort>, out: array<byte>) returns (len: nat)
    requires nbits <= 16
    requires |input| * nbits / 8 < out.Length && |input| * nbits / 8 < 65535
    modifies out
    ensures len == BytesFor(|input| * nbits) && len <= out.Length
    ensures out[..len] == Pack(WordBits(input, nbits))
  {
    SpanIsProduct(|input|, nbits);
    ghost var total := Span(|input|, nbits);
    var byteNo, bit := 0, 0;
    out[0] := 0;
    WrittenStart(out[..]);
    var mask1 := Low(nbits);
    var i := 0;
    while i < |input|
      invariant 0 <= i <= |input|
      invariant Written(out[..], byteNo, bit, WordBits(input[..i], nbits))
      invariant total / 8 < out.Length
    {
      var scratch := And(input[i], mask1);
      AndLowBound(input[i], nbits);
      Pow2Monotone(nbits, 16);
      WordBitsSnoc(input, nbits, i);
      byteNo, bit := AppendBits(out, byteNo, bit, scratch, nbits, 16, WordBits(input[..i], nbits));
      i := i + 1;
    }
    assert input[..i] == input;
    WrittenBytes(out[..], byteNo, bit, WordBits(input, nbits));
    len := if bit == 0 then byteNo else byteNo + 1;
    assert out[..][..len] == out[..len];
  }

  lemma WrittenStart(out: seq<byte>)
    requires |out| >= 1 && out[0] == 0
    ensures Written(out, 0, 0, [])
  {
    forall j | 0 <= j < 8 ensures Flat(out[..1])[j] == false {
      ZeroBit(j);
    }
    assert Flat(out[..1]) == Zeros(8);
  }

  /** Shifts every word right in place. */
  method BitStrip(nbits: nat, data: array<nat>)
    modifies data
    ensures forall k :: 0 <= k < data.Length ==> data[k] == Shr(old(data[k]), nbits)
  {
    var i := 0;
    while i < data.Length
      invariant 0 <= i <= data.Length
      invariant forall k :: 0 <= k < i ==> data[k] == Shr(old(data[k]), nbits)
      invariant forall k :: i <= k < data.Length ==> data[k] == old(data[k])
    {
      data[i] := Shr(data[i], nbits);
      i := i + 1;
    }
  }

  /** The packed field and the stripped word together rebuild the word. */
  lemma BitpackBitstrip(words: seq<nat>, nbits: nat, k: nat)
    requires k < |words|
    ensures k * nbits + nbits <= |WordBits(words, nbits)|
    ensures words[k] == Value(WordBits(words, nbits)[k * nbits..k * nbits + nbits])
                        + Pow2(nbits) * Shr(words[k], nbits)
  {
    WordBitsField(words, nbits, k);
    SpanIsProduct(k, nbits);
    ValueOfField(words[k], nbits);
    DivModShr(words[k], nbits);
  }

  lemma DivModShr(v: nat, n: nat)
    ensures v == v % Pow2(n) + Pow2(n) * Shr(v, n)
  {
    if n > 0 {
      var p, q := Pow2(n - 1), Shr(v / 2, n - 1);
      DivModShr(v / 2, n - 1);
      assert Pow2(n) == 2 * p && Shr(v, n) == q;
      hide *;
      ModDouble(v, p);
      DoubleProduct(p, q);
    }
  }

  lemma DoubleProduct(p: int, q: int)
    ensures (2 * p) * q == 2 * (p * q)
  {
  }

  // ----- codepack and codeunpack

  /** How many bits a word has once leading zeros are dropped. */
  function NumBits(v: nat): nat {
    if v == 0 then 0 else 1 + NumBits(v / 2)
  }

  lemma NumBitsBound(v: nat, k: nat)
    ensures v < Pow2(NumBits(v))
    ensures k < NumBits(v) ==> Pow2(k) <= v
  {
    if v > 0 {
      NumBitsBound(v / 2, if k > 0 then k - 1 else 0);
    }
  }

  lemma NumBitsOfValue(c: seq<bool>)
    requires |c| >= 1 && c[|c| - 1]
    ensures NumBits(Value(c)) == |c|
  {
    if |c| > 1 {
      NumBitsOfValue(c[1..]);
    }
  }

  /** Every word's bits, leading zeros dropped, one after another. */
  function CodeBits(words: seq<nat>): seq<bool> {
    if words == [] then []
    else CodeBits(words[..|words| - 1]) + Field(words[|words| - 1], NumBits(words[|words| - 1]))
  }

  lemma CodeBitsMonotone(words: seq<nat>, i: nat)
    requires i <= |words|
    ensures |CodeBits(words[..i])| <= |CodeBits(words)|
    decreases |words|
  {
    if i == |words| {
      assert words[..i] == words;
    } else {
      var front := words[..|words| - 1];
      assert words[..i] == front[..i];
      CodeBitsMonotone(front, i);
    }
  }

  method CountBits(v: nat) returns (nbits: nat)
    requires v < 0x8000_0000  // at 2^31 and above the 32-bit sbit of the source shifts out to 0
    ensures nbits == NumBits(v)
  {
    assert Pow2(0) == 1 && (v > 0 ==> NumBits(v) >= 1);
    hide NumBits, Shl;
    nbits := 0;
    var sbit := 1;
    while sbit <= v
      invariant 0 <= nbits <= NumBits(v) && sbit == Pow2(nbits)
      invariant nbits < NumBits(v) ==> sbit <= v
      decreases NumBits(v) - nbits
    {
      NumBitsBound(v, nbits);
      NumBitsBound(v, nbits + 1);
      ShlIsMul(sbit, 1);
      sbit := Shl(sbit, 1);
      nbits := nbits + 1;
    }
    NumBitsBound(v, nbits);
  }

  method CodePack(input: seq<nat>, out: array<byte>) returns (len: nat)
    requires forall i :: 0 <= i < |input| ==> input[i] < 0x8000_0000
    requires |CodeBits(input)| / 8 < out.Length
    modifies out
    ensures len == BytesFor(|CodeBits(input)|) && len <= out.Length
    ensures out[..len] == Pack(CodeBits(input))
  {
    var byteNo, bit := 0, 0;
    out[0] := 0;
    WrittenStart(out[..]);
    var i := 0;
    while i < |input|
      invariant 0 <= i <= |input|
      invariant Written(out[..], byteNo, bit, CodeBits(input[..i]))
    {
      var nbits := CountBits(input[i]);
      NumBitsBound(input[i], nbits);
      Pow32();
      assert input[..i + 1][..i] == input[..i];
      CodeBitsMonotone(input, i + 1);
      byteNo, bit := AppendBits(out, byteNo, bit, input[i], nbits, 32, CodeBits(input[..i]));
      i := i + 1;
    }
    assert input[..i] == input;
    WrittenBytes(out[..], byteNo, bit, CodeBits(input));
    len := if bit == 0 then byteNo else byteNo + 1;
    assert out[..][..len] == out[..len];
  }

  lemma Pow32()
    ensures Pow2(32) == 0x1_0000_0000
  {
    assert Pow2(8) == 256;
    assert Pow2(16) == 65536;
    assert Pow2(24) == 0x100_0000;
  }

  /** Cuts after each 11, and after 32 bits without one; the rest is dropped. */
  function Words(bs: seq<bool>): (ws: seq<seq<bool>>) {
    WordsFrom([], bs)
  }

  /** ... when the bits `cur` of the current word have been read already. */
  function WordsFrom(cur: seq<bool>, bs: seq<bool>): (ws: seq<seq<bool>>)
    decreases |bs|
  {
    if bs == [] then []
    else
      var word := cur + [bs[0]];
      if EndsWord(word) then [word] + WordsFrom([], bs[1..]) else WordsFrom(word, bs[1..])
  }

  predicate EndsWord(word: seq<bool>) {
    PairAt(word, |word| - 2) || |word| == 32
  }

  /**
   * The words are cut from the front of the bits, each behind its first two
   * ones or else behind 32 bits, and what is left over holds neither.
   */
  lemma WordsExactly(bs: seq<bool>)
    ensures Concat(Words(bs)) <= bs
    ensures forall k :: 0 <= k < |Words(bs)| ==> WholeWord(Words(bs)[k])
    ensures NoPair(bs[|Concat(Words(bs))|..]) && |bs[|Concat(Words(bs))|..]| < 32
  {
    WordsFromExactly([], bs);
    assert [] + bs == bs;
  }

  /** Two ones at the end and none before, or 32 bits with none before the last. */
  ghost predicate WholeWord(w: seq<bool>) {
    2 <= |w| <= 32 && NoPair(w[..|w| - 1]) && ((w[|w| - 2] && w[|w| - 1]) || |w| == 32)
  }

  lemma {:induction false} WordsFromExactly(cur: seq<bool>, bs: seq<bool>)
    requires NoPair(cur) && |cur| < 32
    ensures var c := Concat(WordsFrom(cur, bs));
            c <= cur + bs && NoPair((cur + bs)[|c|..]) && |(cur + bs)[|c|..]| < 32
    ensures forall k :: 0 <= k < |WordsFrom(cur, bs)| ==> WholeWord(WordsFrom(cur, bs)[k])
    decreases |bs|
  {
    hide NoPair, WholeWord;
    if bs == [] {
      assert cur + bs == cur;
    } else {
      var word := cur + [bs[0]];
      assert cur + bs == word + bs[1..];
      WordGrown(cur, bs[0]);
      if EndsWord(word) {
        NothingPaired();
        WordsFromExactly([], bs[1..]);
        assert [] + bs[1..] == bs[1..];
        var more := WordsFrom([], bs[1..]);
        WordThenWords(word, more);
        CutBehind(word, Concat(more), bs[1..]);
      } else {
        WordsFromExactly(word, bs[1..]);
      }
    }
  }

  lemma WordThenWords(w: seq<bool>, ws: seq<seq<bool>>)
    ensures Concat([w] + ws) == w + Concat(ws)
  {
    assert ([w] + ws)[1..] == ws;
  }

  lemma NothingPaired()
    ensures NoPair([])
  {
  }

  lemma CutBehind(w: seq<bool>, c: seq<bool>, rest: seq<bool>)
    requires c <= rest
    ensures w + c <= w + rest && (w + rest)[|w + c|..] == rest[|c|..]
  {
  }

  lemma WordGrown(cur: seq<bool>, b: bool)
    requires NoPair(cur) && |cur| < 32
    ensures var word := cur + [b];
            if EndsWord(word) then WholeWord(word) else NoPair(word) && |word| < 32
  {
    var word := cur + [b];
    assert word[..|word| - 1] == cur;
    if !EndsWord(word) {
      forall i: int ensures !PairAt(word, i) {
        assert !PairAt(cur, i);
      }
    }
  }

  function Values(ws: seq<seq<bool>>): (vs: seq<nat>)
    ensures |vs| == |ws|
  {
    if ws == [] then [] else Values(ws[..|ws| - 1]) + [Value(ws[|ws| - 1])]
  }

  lemma ValuesAt(ws: seq<seq<bool>>, i: nat)
    requires i < |ws|
    ensures Values(ws)[i] == Value(ws[i])
  {
    if i < |ws| - 1 {
      ValuesAt(ws[..|ws| - 1], i);
    }
  }

  lemma ValueSnoc(bs: seq<bool>, b: bool)
    ensures Value(bs + [b]) == Or(Value(bs), Shl(if b then 1 else 0, |bs|))
  {
    var x := if b then 1 else 0;
    forall j: nat ensures Bit(Value(bs + [b]), j) == Bit(Or(Value(bs), Shl(x, |bs|)), j) {
      ValueBit(bs + [b], j);
      ValueBit(bs, j);
      OrBit(Value(bs), Shl(x, |bs|), j);
      ShlBit(x, |bs|, j);
      OneBit(j, |bs|);
      if j >= |bs| {
        ZeroBit(j - |bs|);
      }
    }
    SameBits(Value(bs + [b]), Or(Value(bs), Shl(x, |bs|)));
  }

  lemma ValuesSnoc(ws: seq<seq<bool>>, w: seq<bool>)
    ensures Values(ws + [w]) == Values(ws) + [Value(w)]
  {
    assert (ws + [w])[..|ws|] == ws;
  }

  /** `out[outword] |= curbit << outbit`, and on to a cleared next word if that ends this one. */
  method StoreBit(out: array<nat>, outword0: nat, outbit0: nat, curbit: nat, lastbit: nat,
                  ghost done: seq<seq<bool>>, ghost cur: seq<bool>) returns (outword: nat, outbit: nat)
    requires outword0 < out.Length && outbit0 == |cur| < 32 && curbit < 2
    requires EndsWord(cur + [curbit == 1]) ==> outword0 + 1 < out.Length
    requires outword0 == |done| && out[..outword0] == Values(done) && out[outword0] == Value(cur)
    requires lastbit == (if outbit0 > 0 && cur[outbit0 - 1] then 1 else 0)
    modifies out
    ensures outbit < 32
    ensures var word := cur + [curbit == 1];
            if EndsWord(word)
            then outword == outword0 + 1 && outbit == 0
                 && out[..outword] == Values(done + [word]) && out[outword] == 0
            else outword == outword0 && outbit == outbit0 + 1
                 && out[..outword] == Values(done) && out[outword] == Value(word)
  {
    ValueSnoc(cur, curbit == 1);
    ValuesSnoc(done, cur + [curbit == 1]);
    hide Value, Values, Or, Shl;
    ghost var before := out[..outword0];
    outword, outbit := outword0, outbit0 + 1;
    out[outword] := Or(out[outword], Shl(curbit, outbit0));
    assert out[..outword] == before;
    assert EndsWord(cur + [curbit == 1]) == ((curbit == 1 && lastbit == 1) || outbit == 32);
    if (curbit == 1 && lastbit == 1) || outbit == 32 {
      assert out[..outword + 1] == before + [out[outword]];
      outword := outword + 1;
      outbit := 0;
      out[outword] := 0;
      assert out[..outword] == before + [out[outword0]];
    }
  }

  /** After p bits: the words finished, and the bits of the current one. */
  ghost predicate Unpacked(bs: seq<bool>, p: nat, done: seq<seq<bool>>, cur: seq<bool>) {
    p <= |bs| && Words(bs) == done + WordsFrom(cur, bs[p..])
  }

  lemma UnpackStart(bs: seq<bool>)
    ensures Unpacked(bs, 0, [], [])
    ensures Values([]) == [] && Value([]) == 0
  {
    assert bs[0..] == bs;
  }

  lemma UnpackStep(bs: seq<bool>, p: nat, done: seq<seq<bool>>, cur: seq<bool>)
    requires Unpacked(bs, p, done, cur) && p < |bs|
    ensures var word := cur + [bs[p]];
            if EndsWord(word) then Unpacked(bs, p + 1, done + [word], []) else Unpacked(bs, p + 1, done, word)
  {
    var word := cur + [bs[p]];
    assert bs[p..][1..] == bs[p + 1..];
    Assoc(done, [word], WordsFrom([], bs[p + 1..]));
  }

  lemma UnpackEnd(bs: seq<bool>, done: seq<seq<bool>>, cur: seq<bool>)
    requires Unpacked(bs, |bs|, done, cur)
    ensures Words(bs) == done
  {
    assert WordsFrom(cur, bs[|bs|..]) == [];
  }

  lemma UnpackRoom(bs: seq<bool>, p: nat, done: seq<seq<bool>>, cur: seq<bool>)
    requires Unpacked(bs, p, done, cur)
    ensures |done| <= |Words(bs)|
  {
  }

  /** Splits the bytes one bit at a time. */
  method CodeUnpack(m: nat, input: seq<byte>, out: array<nat>) returns (outword: nat)
    requires m <= |input|
    requires |Words(Flat(input[..m]))| < out.Length
    modifies out
    ensures outword == |Words(Flat(input[..m]))|
    ensures out[..outword] == Values(Words(Flat(input[..m])))
  {
    hide *;
    ghost var bs := Flat(input[..m]);
    ghost var done: seq<seq<bool>> := [];
    ghost var cur: seq<bool> := [];
    ghost var p := 0;
    var inbyte, inbit, outbit := 0, 0, 0;
    var lastbit := 0;
    outword := 0;
    out[0] := 0;
    UnpackStart(bs);
    assert out[..0] == [];
    while inbyte < m
      invariant 0 <= inbyte <= m && 0 <= inbit < 8 && (inbyte == m ==> inbit == 0)
      invariant p == 8 * inbyte + inbit && Unpacked(bs, p, done, cur)
      invariant |done| <= |Words(bs)|
      invariant outword == |done| && out[..outword] == Values(done)
      invariant out[outword] == Value(cur)
      invariant outbit == |cur| < 32
      invariant lastbit == (if outbit > 0 && cur[outbit - 1] then 1 else 0)
      decreases 8 * m - p
    {
      ghost var word := cur + [bs[p]];
      UnpackStep(bs, p, done, cur);
      FlatAt(input[..m], inbyte, inbit);
      var curbit := TestBit(input[inbyte], inbit);
      ghost var ends := EndsWord(word);
      UnpackRoom(bs, p + 1, if ends then done + [word] else done, if ends then [] else word);
      outword, outbit := StoreBit(out, outword, outbit, curbit, lastbit, done, cur);
      done, cur, p := if ends then done + [word] else done, if ends then [] else word, p + 1;
      lastbit := if outbit != 0 then curbit else 0;
      inbit := inbit + 1;
      if inbit == 8 {
        inbyte := inbyte + 1;
        inbit := 0;
      }
    }
    UnpackEnd(bs, done, cur);
  }

  /** Reading the rest of a codeword finishes it, and nothing before does. */
  lemma {:induction false} WordsOfCodeword(c: seq<bool>, k: nat, rest: seq<bool>)
    requires IsCodeword(c) && |c| <= 32 && k < |c|
    ensures WordsFrom(c[..k], c[k..] + rest) == [c] + WordsFrom([], rest)
    decreases |c| - k
  {
    var bs := c[k..] + rest;
    assert c[..k] + [bs[0]] == c[..k + 1] && bs[1..] == c[k + 1..] + rest;
    if k + 1 < |c| {
      NoPairPrefix(c[..|c| - 1], k + 1);
      assert c[..|c| - 1][..k + 1] == c[..k + 1];
      WordsOfCodeword(c, k + 1, rest);
    } else {
      assert c[..k + 1] == c && bs[1..] == rest;
    }
  }

  lemma {:induction false} WordsOfTail(cur: seq<bool>, t: seq<bool>)
    requires NoPair(cur + t) && |cur + t| < 32
    ensures WordsFrom(cur, t) == []
    decreases |t|
  {
    if t != [] {
      var word := cur + [t[0]];
      assert word + t[1..] == cur + t && (cur + t)[..|word|] == word;
      NoPairPrefix(cur + t, |word|);
      WordsOfTail(word, t[1..]);
    }
  }

  /** A code word as the fixed-width number codepack is given. */
  ghost predicate IsCode(v: nat) {
    IsCodeword(Field(v, NumBits(v))) && NumBits(v) <= 31
  }

  lemma {:induction false} WordsConcat(cs: seq<seq<bool>>, pad: seq<bool>)
    requires AllCodewords(cs) && NoPair(pad) && |pad| < 32
    requires forall i :: 0 <= i < |cs| ==> |cs[i]| <= 32
    ensures Words(Concat(cs) + pad) == cs
    decreases |cs|
  {
    if cs == [] {
      assert Concat(cs) + pad == pad && [] + pad == pad;
      WordsOfTail([], pad);
    } else {
      var rest := Concat(cs[1..]) + pad;
      assert Concat(cs) + pad == cs[0][0..] + rest && cs[0][..0] == [];
      WordsOfCodeword(cs[0], 0, rest);
      WordsConcat(cs[1..], pad);
      assert cs == [cs[0]] + cs[1..];
    }
  }

  function Fields(words: seq<nat>): (cs: seq<seq<bool>>)
    ensures |cs| == |words|
  {
    seq(|words|, i requires 0 <= i < |words| => Field(words[i], NumBits(words[i])))
  }

  lemma ConcatSnoc(cs: seq<seq<bool>>, c: seq<bool>)
    ensures Concat(cs + [c]) == Concat(cs) + c
  {
    if cs == [] {
      assert [c][1..] == [];
    } else {
      assert (cs + [c])[1..] == cs[1..] + [c];
      ConcatSnoc(cs[1..], c);
    }
  }

  lemma CodeBitsConcat(words: seq<nat>)
    ensures CodeBits(words) == Concat(Fields(words))
  {
    if words != [] {
      var n := |words| - 1;
      CodeBitsConcat(words[..n]);
      assert Fields(words) == Fields(words[..n]) + [Field(words[n], NumBits(words[n]))];
      ConcatSnoc(Fields(words[..n]), Field(words[n], NumBits(words[n])));
    }
  }

  lemma ValueOfNumBits(v: nat)
    ensures Value(Field(v, NumBits(v))) == v
  {
    NumBitsBound(v, 0);
    ValueOfField(v, NumBits(v));
    ModSmall(v, Pow2(NumBits(v)));
  }

  lemma ModSmall(v: nat, m: nat)
    requires v < m
    ensures v % m == v
  {
  }

  /** codeunpack undoes codepack: same words, same count, nothing from the padding. */
  lemma CodepackRoundTrip(words: seq<nat>)
    requires forall i :: 0 <= i < |words| ==> IsCode(words[i])
    ensures Values(Words(Flat(Pack(CodeBits(words))))) == words
  {
    CodeBitsConcat(words);
    CodeFields(words);
    WordsOfPacked(Fields(words));
  }

  /** Packed into bytes, a list of codewords splits back into itself. */
  lemma WordsOfPacked(cs: seq<seq<bool>>)
    requires AllCodewords(cs)
    requires forall i :: 0 <= i < |cs| ==> |cs[i]| <= 32
    ensures Words(Flat(Pack(Concat(cs)))) == cs
  {
    var bs := Concat(cs);
    var pad := Zeros(Padding(|bs|));
    assert Flat(Pack(bs)) == bs + pad by {
      FlatPack(bs);
    }
    WordsConcat(cs, pad);
  }

  lemma CodeFields(words: seq<nat>)
    requires forall i :: 0 <= i < |words| ==> IsCode(words[i])
    ensures AllCodewords(Fields(words))
    ensures forall i :: 0 <= i < |words| ==> |Fields(words)[i]| <= 31
    ensures Values(Fields(words)) == words
  {
    forall i | 0 <= i < |words|
      ensures IsCodeword(Fields(words)[i]) && |Fields(words)[i]| <= 31
      ensures Values(Fields(words))[i] == words[i]
    {
      assert IsCode(words[i]);
      ValueOfNumBits(words[i]);
      ValuesAt(Fields(words), i);
    }
  }

  // ----- Lists of shorts through the whole chain

  function ShortCodes(xs: seq<short>): (ws: seq<nat>)
    ensures |ws| == |xs|
  {
    seq(|xs|, i requires 0 <= i < |xs| => Value(FibCode(Bifurcate(xs[i]))))
  }

  function PackShorts(xs: seq<short>): seq<byte> {
    Pack(CodeBits(ShortCodes(xs)))
  }

  function UnpackShorts(s: seq<byte>): (xs: seq<short>)
  {
    var ws := Values(Words(Flat(s)));
    seq(|ws|, i requires 0 <= i < |ws| => Unbifurcate(Unfib(23, ws[i])))
  }

  lemma ShortCode(v: nat)
    requires 1 <= v < 65536
    ensures IsCode(Value(FibCode(v)))
    ensures Unfib(23, Value(FibCode(v))) == v
    ensures |FibCode(v)| <= 24
  {
    FibCodeSound(v);
    FNIsTable();
    FibCodeLength(v, 24);
    NumBitsOfValue(FibCode(v));
    FieldOfValue(FibCode(v));
    UnfibOfCode(23, v);
  }

  /** The chain is the identity on exactly the lists without -32768. */
  lemma ShortsRoundTrip(xs: seq<short>)
    ensures UnpackShorts(PackShorts(xs)) == xs <==> -32768 !in xs
  {
    if -32768 !in xs {
      var ws := ShortCodes(xs);
      forall i | 0 <= i < |xs|
        ensures IsCode(ws[i]) && Unbifurcate(Unfib(23, ws[i])) == xs[i]
      {
        UnbifurcateBifurcate(xs[i]);
        ShortCode(Bifurcate(xs[i]));
      }
      CodepackRoundTrip(ws);
    } else {
      var ys := UnpackShorts(PackShorts(xs));
      assert forall i :: 0 <= i < |ys| ==> ys[i] != -32768;
    }
  }
}

// Finding a codeword in the 32-bit window at the cursor, and writing a list of
// codewords: shared by the Fibonacci and the combined wave codecs.
module CodeScan {
  import opened Bits
  import opened BitCursor
  import opened Fibonacci
  import opened CompUtils
  import opened Records

  /**
   * What a test of bit 32 of an int yields, which C leaves undefined, at a
   * window whose search starts at a given bit.
   */
  type Bit32 = nat -> bool

  /** One past the last bit of the window that starts at the byte of bit `pos`. */
  function WindowEnd(pos: nat): nat {
    8 * (pos / 8) + 32
  }

  lemma WindowFits(pos: nat, numBytes: nat)
    ensures pos < 8 * numBytes + 8 ==> WindowEnd(pos) <= 8 * (numBytes + 4)
  {
  }

  /**
   * The bits a search from `pos` looks at: to the end of the window at byte
   * pos / 8, and one more, `hi`, for the test of bit 32.
   */
  function WindowBits(f: seq<bool>, pos: nat, hi: bool): (ws: seq<bool>)
    requires WindowEnd(pos) <= |f|
    ensures |ws| == 33 - pos % 8
  {
    f[pos..WindowEnd(pos)] + [hi]
  }

  /** The window as a number, bit 32 being `hi`. */
  function WideWindow(s: seq<byte>, cur: nat, hi: bool): nat
    requires cur + 4 <= |s|
  {
    Window(s, cur) + (if hi then 0x1_0000_0000 else 0)
  }

  lemma WindowBound(s: seq<byte>, cur: nat)
    requires cur + 4 <= |s|
    ensures Window(s, cur) < Pow2(32)
  {
    Pow32();
  }

  lemma WideWindowBit(s: seq<byte>, cur: nat, hi: bool, j: nat)
    requires cur + 4 <= |s| && j <= 32
    ensures Bit(WideWindow(s, cur, hi), j) == (if j < 32 then Flat(s)[8 * cur + j] else hi)
  {
    var x := if hi then 1 else 0;
    Pow32();
    WindowBound(s, cur);
    BytePlusShift(Window(s, cur), x, 32, j);
    if j < 32 {
      WindowBit(s, cur, j);
    }
  }

  lemma WideSlice(s: seq<byte>, cur: nat, bit: nat, hi: bool, pos: nat, k: nat)
    requires cur + 4 <= |s| && bit < 8 && pos == 8 * cur + bit && bit + k <= 33
    ensures seq(k, j requires 0 <= j < k => Bit(WideWindow(s, cur, hi), bit + j))
         == WindowBits(Flat(s), pos, hi)[..k]
  {
    var ws, fred := WindowBits(Flat(s), pos, hi), WideWindow(s, cur, hi);
    hide Bit, Flat, WideWindow;
    forall j | 0 <= j < k ensures ws[j] == Bit(fred, bit + j) {
      WideWindowBit(s, cur, hi, bit + j);
    }
  }

  lemma WindowBitsAt(s: seq<byte>, cur: nat, bit: nat, hi: bool, pos: nat, t: nat)
    requires cur + 4 <= |s| && bit < 8 && pos == 8 * cur + bit && bit <= t <= 32
    ensures |WindowBits(Flat(s), pos, hi)| == 33 - bit
    ensures WindowBits(Flat(s), pos, hi)[t - bit] == Bit(WideWindow(s, cur, hi), t)
  {
    hide Bit, Flat, WideWindow;
    WideWindowBit(s, cur, hi, t);
  }

  /** A test of two bits of the window is a test for a pair. */
  lemma PairTest(s: seq<byte>, cur: nat, bit: nat, hi: bool, pos: nat, t: nat)
    requires cur + 4 <= |s| && bit < 8 && pos == 8 * cur + bit && bit <= t < 32
    ensures var ws, fred := WindowBits(Flat(s), pos, hi), WideWindow(s, cur, hi);
            PairAt(ws, t - bit) == (TestBit(fred, t) == 1 && TestBit(fred, t + 1) == 1)
  {
    hide Bit, Flat, WideWindow, WindowBits;
    WindowBitsAt(s, cur, bit, hi, pos, t);
    WindowBitsAt(s, cur, bit, hi, pos, t + 1);
  }

  lemma PairStep(ws: seq<bool>, k: nat)
    requires k < |ws|
    ensures PairEndFrom(ws, k) == if PairAt(ws, k) then k + 2 else PairEndFrom(ws, k + 1)
    ensures PairEndFrom(ws, |ws| - 1) == 0
    ensures PairEnd(ws) == PairEndFrom(ws, 0)
  {
  }

  /** The bits of the window from the cursor on, gathered into a number. */
  method GatherWord(s: seq<byte>, cur: nat, bit: nat, hi: bool, k: nat, ghost pos: nat) returns (word: nat)
    requires cur + 4 <= |s| && bit < 8 && pos == 8 * cur + bit && bit + k <= 33
    ensures word == Value(WindowBits(Flat(s), pos, hi)[..k])
  {
    WideSlice(s, cur, bit, hi, pos, k);
    hide Flat, WideWindow, WindowBits, Bit;
    word := GetBits(WideWindow(s, cur, hi), bit, bit + k);
  }

  lemma WindowLength(s: seq<byte>, cur: nat, bit: nat, hi: bool, pos: nat)
    requires cur + 4 <= |s| && bit < 8 && pos == 8 * cur + bit
    ensures WindowEnd(pos) <= |Flat(s)| && |WindowBits(Flat(s), pos, hi)| == 33 - bit
  {
  }

  /**
   * Searches for two ones.  Returns one past them, counted from the cursor, and
   * the bits from the cursor up to there as a number; 0 when there is no pair.
   */
  method FindWord(s: seq<byte>, cur: nat, bit: nat, hi: bool, ghost pos: nat) returns (e: nat, word: nat)
    requires cur + 4 <= |s| && bit < 8 && pos == 8 * cur + bit
    ensures var ws := WindowBits(Flat(s), pos, hi);
            e == PairEnd(ws) && (e > 0 ==> word == Value(ws[..e]))
  {
    hide *;
    WindowLength(s, cur, bit, hi, pos);
    ghost var ws := WindowBits(Flat(s), pos, hi);
    PairStep(ws, 0);
    var fred := WideWindow(s, cur, hi);
    var tempBit := bit;
    while tempBit < 32
      invariant bit <= tempBit <= 32
      invariant PairEnd(ws) == PairEndFrom(ws, tempBit - bit)
    {
      PairTest(s, cur, bit, hi, pos, tempBit);
      PairStep(ws, tempBit - bit);
      if TestBit(fred, tempBit) == 1 && TestBit(fred, tempBit + 1) == 1 {
        e := tempBit + 2 - bit;
        word := GatherWord(s, cur, bit, hi, e, pos);
        return;
      }
      tempBit := tempBit + 1;
    }
    return 0, 0;
  }

  /** A codeword at the cursor that ends within the window is the one found. */
  lemma FoundCodeword(f: seq<bool>, pos: nat, hi: bool, c: seq<bool>)
    requires WindowEnd(pos) <= |f|
    requires IsCodeword(c) && c <= f[pos..] && pos % 8 + |c| <= 32
    ensures PairEnd(WindowBits(f, pos, hi)) == |c|
    ensures WindowBits(f, pos, hi)[..|c|] == c
  {
    var ws := WindowBits(f, pos, hi);
    assert ws[..|c|] == f[pos..][..|c|] == c;
    assert ws == c + ws[|c|..];
    PairEndOfCodeword(c, ws[|c|..]);
  }

  // ----- Lists of bit strings

  lemma ConcatPrefix(cs: seq<seq<bool>>, k: nat)
    requires k < |cs|
    ensures Concat(cs[..k + 1]) == Concat(cs[..k]) + cs[k]
    ensures |Concat(cs[..k])| + |cs[k]| <= |Concat(cs)|
  {
    assert cs[..k + 1] == cs[..k] + [cs[k]];
    ConcatSnoc(cs[..k], cs[k]);
    ConcatSplit(cs, k + 1);
  }

  lemma ConcatSplit(cs: seq<seq<bool>>, k: nat)
    requires k <= |cs|
    ensures Concat(cs) == Concat(cs[..k]) + Concat(cs[k..])
  {
    if k == 0 {
      assert cs[0..] == cs;
    } else {
      ConcatSplit(cs[1..], k - 1);
      assert cs[1..][..k - 1] == cs[..k][1..] && cs[1..][k - 1..] == cs[k..];
      Assoc(cs[0], Concat(cs[..k][1..]), Concat(cs[k..]));
    }
  }

  lemma ConcatCons(c: seq<bool>, cs: seq<seq<bool>>)
    ensures Concat([c] + cs) == c + Concat(cs)
  {
    assert ([c] + cs)[1..] == cs;
  }

  /** What is left of a stream once its first code has been read. */
  lemma AfterFirst(f: seq<bool>, pos: nat, c: seq<bool>, a: seq<bool>, b: seq<bool>)
    requires pos <= |f| && f[pos..] == c + a + b
    ensures c <= f[pos..] && pos + |c| <= |f|
    ensures f[pos + |c|..] == a + b
  {
    assert f[pos..][|c|..] == a + b;
  }

  // ----- Writing a list of codes into zeroed bytes

  /**
   * The first k codes of `cs` are in place from byte `off` on, between the
   * bytes `pre` and `post`, and the cursor stands behind them.
   */
  ghost predicate Writing(s: seq<byte>, pre: seq<byte>, cs: seq<seq<bool>>, k: nat, post: seq<byte>, cur: nat,
                          bit: nat) {
    var done := Concat(cs[..if k <= |cs| then k else 0]);
    var room := 8 * BytesFor(|Concat(cs)|);
    && k <= |cs| && bit < 8 && |done| <= |Concat(cs)|
    && 8 * cur + bit == 8 * |pre| + |done|
    && Filling(s, Flat(pre), done, room - |done|, Flat(post))
  }

  lemma WritingStart(s: seq<byte>, off: nat, cs: seq<seq<bool>>)
    requires ZeroFrom(s, off, BytesFor(|Concat(cs)|))
    ensures Writing(s, s[..off], cs, 0, s[off + BytesFor(|Concat(cs)|)..], off, 0)
  {
    ZerosFilling(s, off, BytesFor(|Concat(cs)|));
    assert cs[..0] == [];
  }

  method PutCode(buf: array<byte>, cur0: nat, bit0: nat, val: nat, n: nat,
                 ghost pre: seq<byte>, ghost cs: seq<seq<bool>>, ghost k: nat, ghost post: seq<byte>)
    returns (cur: nat, bit: nat)
    requires k < |cs| && Field(val, n) == cs[k]
    requires Writing(buf[..], pre, cs, k, post, cur0, bit0)
    modifies buf
    ensures Writing(buf[..], pre, cs, k + 1, post, cur, bit)
  {
    hide Flat, Field, Concat, Filling;
    ConcatPrefix(cs, k);
    ghost var done := Concat(cs[..k]);
    cur, bit := PutNext(buf, cur0, bit0, val, n, Flat(pre), done,
                        8 * BytesFor(|Concat(cs)|) - |done|, Flat(post));
  }

  /** When the last code is in, the bytes are the packed codes and the cursor tells their end. */
  lemma WritingEnd(s: seq<byte>, pre: seq<byte>, cs: seq<seq<bool>>, post: seq<byte>, cur: nat, bit: nat)
    requires Writing(s, pre, cs, |cs|, post, cur, bit)
    ensures s == pre + Pack(Concat(cs)) + post
    ensures (if bit != 0 then cur + 1 else cur) == |pre| + BytesFor(|Concat(cs)|)
  {
    assert cs[..|cs|] == cs;
    FilledBytes(s, pre, Concat(cs), 8 * BytesFor(|Concat(cs)|) - |Concat(cs)|, post);
  }
}

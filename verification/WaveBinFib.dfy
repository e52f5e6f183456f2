// The combined encoding: samples near the mean as fixed-width codes, the rest
// flagged there and written as Fibonacci codewords behind the fixed-width part.
module WaveBinFib {
  import opened Bits
  import opened BitCursor
  import opened Fibonacci
  import opened CompUtils
  import opened Encoding
  import opened Records
  import opened CodeScan
  import opened WaveBinary
  import opened WaveFibonacci

  /** The width for three times the rms; a width of 1 is raised to 2. */
  function ComboWidth(range: nat): nat {
    if Width(range) == 1 then 2 else Width(range)
  }

  /** It is the least width of at least two whose codes number more than the range. */
  lemma ComboWidthLeast(range: nat)
    requires range >= 1
    ensures var b := ComboWidth(range);
            b >= 2 && range + 1 <= Pow2(b) && (b > 2 ==> Pow2(b - 1) < range + 1)
  {
    assert Pow2(1) == 2;
  }

  // ----- What one sample becomes

  /** The cut-off points: codes lie strictly between them. */
  function Lower(mean: int, b: nat): int
    requires b >= 1
  {
    mean - Pow2(b - 1)
  }

  function Upper(mean: int, b: nat): int
    requires b >= 1
  {
    mean + Pow2(b - 1) - 1
  }

  predicate Within(x: short, mean: int, b: nat)
    requires b >= 1
  {
    Lower(mean, b) < x < Upper(mean, b)
  }

  function Flag(b: nat): nat { Pow2(b) - 1 }

  function MainCode(x: short, mean: int, b: nat): nat
    requires b >= 1
  {
    if Within(x, mean, b) then Bifurcate(Distance(x, mean)) else Flag(b)
  }

  /** Odd numbers for the upper tail, even ones for the lower. */
  function TailNumber(x: short, mean: int, b: nat): nat
    requires b >= 1 && !Within(x, mean, b)
  {
    Pow2Positive(b);
    if x >= Upper(mean, b) then 2 * (x - Upper(mean, b)) + 1 else 2 * (Lower(mean, b) - x) + 2
  }

  /** The samples within are just those whose zig-zag code fits below the flag. */
  lemma WithinExactly(x: short, mean: int, b: nat)
    requires 2 <= b <= 15 && -127 <= mean <= 127
    ensures Within(x, mean, b) <==> 1 <= Bifurcate(Distance(x, mean)) <= Pow2(b) - 2
  {
    hide Pow2, Bifurcate, Distance;
    Pow2Positive(b);
    Pow2Positive(b - 1);
    Pow2Monotone(b, 15);
    FifteenBits();
    FitsBelow(x, mean, Pow2(b - 1));
  }

  lemma FifteenBits()
    ensures Pow2(15) == 32768
  {
    assert Pow2(5) == 32;
    assert Pow2(10) == 1024;
  }

  lemma FitsBelow(x: short, mean: int, h: nat)
    requires 2 <= h <= 16384 && -127 <= mean <= 127
    ensures mean - h < x < mean + h - 1 <==> 1 <= Bifurcate(Distance(x, mean)) <= 2 * h - 2
  {
    var d := Distance(x, mean);
    assert -32768 <= x - mean < 32768 ==> d == x - mean;
    if x - mean >= 32768 {
      assert d == x - mean - 65536;
    } else if x - mean < -32768 {
      assert d == x - mean + 65536;
    }
  }

  /**
   * The samples outside are numbered outwards: the nearest one above is 1, the
   * nearest below is 2, and each further one on a side is two more.
   */
  lemma TailOrder(x: short, mean: int, b: nat)
    requires b >= 2 && -127 <= mean <= 127 && !Within(x, mean, b)
    ensures x > mean ==>
              TailNumber(x, mean, b) == if Within(x - 1, mean, b) then 1 else TailNumber(x - 1, mean, b) + 2
    ensures x < mean ==>
              TailNumber(x, mean, b) == if Within(x + 1, mean, b) then 2 else TailNumber(x + 1, mean, b) + 2
    ensures x != mean
  {
    Pow2Positive(b);
    Pow2Positive(b - 1);
  }

  lemma Pow2Positive(b: nat)
    requires b >= 1
    ensures Pow2(b) == 2 * Pow2(b - 1) >= 2
  {
  }

  /** ... and what the decoder makes of such a number. */
  function TailSample(t: nat, mean: int, b: nat): short
    requires b >= 1
  {
    if t % 2 == 1 then S16(Upper(mean, b) + (t - 1) / 2) else S16(Lower(mean, b) - (t - 2) / 2)
  }

  /** Read back, any two numbers two apart give samples one apart, outwards, modulo 2^16. */
  lemma TailSampleOrder(t: nat, mean: int, b: nat)
    requires b >= 1
    ensures TailSample(1, mean, b) == S16(mean + Pow2(b - 1) - 1) && TailSample(2, mean, b) == S16(mean - Pow2(b - 1))
    ensures TailSample(t + 2, mean, b) == S16(TailSample(t, mean, b) + if t % 2 == 1 then 1 else -1)
  {
    hide Pow2, S16;
    if t % 2 == 1 {
      S16Plus(Upper(mean, b) + (t - 1) / 2, 1);
    } else {
      S16Plus(Lower(mean, b) - (t - 2) / 2, -1);
    }
  }

  lemma S16Plus(x: int, d: int)
    ensures S16(S16(x) + d) == S16(x + d)
  {
  }

  function TailCode(x: short, mean: int, b: nat): (c: seq<bool>)
    requires b >= 1 && !Within(x, mean, b)
  {
    FibCode(TailNumber(x, mean, b) % 65536)
  }

  /** In-range codes stay clear of the flag, and determine the sample. */
  lemma MainCodeSound(x: short, mean: int, b: nat)
    requires 2 <= b <= 10 && -127 <= mean <= 127
    ensures MainCode(x, mean, b) < Pow2(b) <= 1024
    ensures Within(x, mean, b) ==> 1 <= MainCode(x, mean, b) <= Pow2(b) - 2
    ensures Within(x, mean, b) ==> Restore(mean, Unbifurcate(MainCode(x, mean, b))) == x
  {
    Pow2Positive(b);
    Pow2Monotone(b, 10);
    assert Pow2(5) == 32;
    assert Pow2(10) == 1024;
    if Within(x, mean, b) {
      assert Distance(x, mean) == x - mean;
      UnbifurcateBifurcate(Distance(x, mean));
      RestoreDistance(x, mean, Distance(x, mean));
    }
  }

  /** A tail number that fits 16 bits determines the sample; one that does not, loses it. */
  lemma TailNumberExact(x: short, mean: int, b: nat)
    requires 2 <= b <= 10 && -127 <= mean <= 127 && !Within(x, mean, b)
    ensures TailNumber(x, mean, b) >= 1
    ensures TailSample(TailNumber(x, mean, b) % 65536, mean, b) == x <==> TailNumber(x, mean, b) < 65536
  {
    Pow2Positive(b);
    Pow2Monotone(b, 10);
    assert Pow2(5) == 32;
    assert Pow2(10) == 1024;
    var t := TailNumber(x, mean, b);
    hide Pow2;
    if t >= 65536 {
      assert t % 65536 == t - 65536;
    }
  }

  // ----- The record

  /** The samples among the first k that fall outside. */
  function Outside(w: seq<short>, mean: int, b: nat, k: nat): (xs: seq<short>)
    requires b >= 1 && k <= |w|
    ensures |xs| <= k
    ensures forall i :: 0 <= i < |xs| ==> !Within(xs[i], mean, b)
  {
    if k == 0 then []
    else if Within(w[k - 1], mean, b) then Outside(w, mean, b, k - 1)
    else Outside(w, mean, b, k - 1) + [w[k - 1]]
  }

  function TailCodes(xs: seq<short>, mean: int, b: nat): (cs: seq<seq<bool>>)
    requires b >= 1 && forall i :: 0 <= i < |xs| ==> !Within(xs[i], mean, b)
    ensures |cs| == |xs|
  {
    seq(|xs|, i requires 0 <= i < |xs| => TailCode(xs[i], mean, b))
  }

  function MainCodes(w: seq<short>, mean: int, b: nat): (codes: seq<nat>)
    requires b >= 1
    ensures |codes| == |w|
  {
    seq(|w|, k requires 0 <= k < |w| => MainCode(w[k], mean, b))
  }

  function MainBits(w: seq<short>, mean: int, b: nat, k: nat): (bs: seq<bool>)
    requires b >= 1 && k <= |w|
    ensures |bs| == Span(k, b)
  {
    WordBits(MainCodes(w, mean, b)[..k], b)
  }

  function TailBits(w: seq<short>, mean: int, b: nat, k: nat): seq<bool>
    requires b >= 1 && k <= |w|
  {
    Concat(TailCodes(Outside(w, mean, b, k), mean, b))
  }

  function ComboBits(w: seq<short>, mean: int, b: nat): seq<bool>
    requires b >= 1
  {
    MainBits(w, mean, b, |w|) + TailBits(w, mean, b, |w|)
  }

  function ComboRecord(w: seq<short>, mean: int, b: nat): (s: seq<byte>)
    requires b >= 1
    ensures |s| == 1 + BytesFor(|ComboBits(w, mean, b)|)
  {
    [mean % 256] + Pack(ComboBits(w, mean, b))
  }

  lemma MainStep(w: seq<short>, mean: int, b: nat, k: nat)
    requires b >= 1 && k < |w|
    ensures MainBits(w, mean, b, k + 1) == MainBits(w, mean, b, k) + Field(MainCode(w[k], mean, b), b)
    ensures Span(k, b) + b <= Span(|w|, b)
  {
    var codes := MainCodes(w, mean, b);
    WordBitsSnoc(codes, b, k);
  }

  lemma TailStep(w: seq<short>, mean: int, b: nat, k: nat)
    requires b >= 1 && k < |w|
    ensures TailBits(w, mean, b, k + 1)
         == if Within(w[k], mean, b) then TailBits(w, mean, b, k)
            else TailBits(w, mean, b, k) + TailCode(w[k], mean, b)
  {
    var xs := Outside(w, mean, b, k);
    if !Within(w[k], mean, b) {
      assert TailCodes(xs + [w[k]], mean, b) == TailCodes(xs, mean, b) + [TailCode(w[k], mean, b)];
      ConcatSnoc(TailCodes(xs, mean, b), TailCode(w[k], mean, b));
    }
  }

  lemma TailGrows(w: seq<short>, mean: int, b: nat, k: nat)
    requires b >= 1 && k <= |w|
    ensures |TailBits(w, mean, b, k)| <= |TailBits(w, mean, b, |w|)|
    decreases |w| - k
  {
    if k < |w| {
      TailStep(w, mean, b, k);
      TailGrows(w, mean, b, k + 1);
    }
  }

  // ----- Two writers in one buffer

  /** The main part `m` is followed by zeros still to fill, then the tail part `o`, then more zeros. */
  ghost predicate TwoFill(s: seq<byte>, a: seq<bool>, m: seq<bool>, z1: nat, o: seq<bool>, z2: nat, b: seq<bool>) {
    Flat(s) == a + m + Zeros(z1) + o + Zeros(z2) + b
  }

  lemma TailFilling(s: seq<byte>, a: seq<bool>, m: seq<bool>, z1: nat, o: seq<bool>, z2: nat, b: seq<bool>)
    ensures TwoFill(s, a, m, z1, o, z2, b) <==> Filling(s, a + m + Zeros(z1), o, z2, b)
  {
  }

  lemma MainFilling(s: seq<byte>, a: seq<bool>, m: seq<bool>, z1: nat, o: seq<bool>, z2: nat, b: seq<bool>)
    ensures TwoFill(s, a, m, z1, o, z2, b) <==> Filling(s, a, m, z1, o + Zeros(z2) + b)
  {
    Assoc(a + m + Zeros(z1), o, Zeros(z2));
    Assoc(a + m + Zeros(z1), o + Zeros(z2), b);
  }

  method PutTail(buf: array<byte>, cur0: nat, bit0: nat, val: nat, n: nat, ghost pos: nat,
                 ghost a: seq<bool>, ghost m: seq<bool>, ghost z1: nat, ghost o: seq<bool>, ghost z2: nat,
                 ghost b: seq<bool>)
    returns (cur: nat, bit: nat)
    requires TwoFill(buf[..], a, m, z1, o, z2, b)
    requires bit0 < 8 && 8 * cur0 + bit0 == pos == |a| + |m| + z1 + |o| && n <= z2
    modifies buf
    ensures bit < 8 && 8 * cur + bit == pos + n
    ensures TwoFill(buf[..], a, m, z1, o + Field(val, n), z2 - n, b)
  {
    TailFilling(buf[..], a, m, z1, o, z2, b);
    hide TwoFill, Filling, Field;
    cur, bit := PutNext(buf, cur0, bit0, val, n, a + m + Zeros(z1), o, z2, b);
    TailFilling(buf[..], a, m, z1, o + Field(val, n), z2 - n, b);
  }

  method PutMain(buf: array<byte>, cur0: nat, bit0: nat, val: nat, n: nat, ghost pos: nat,
                 ghost a: seq<bool>, ghost m: seq<bool>, ghost z1: nat, ghost o: seq<bool>, ghost z2: nat,
                 ghost b: seq<bool>)
    returns (cur: nat, bit: nat)
    requires TwoFill(buf[..], a, m, z1, o, z2, b)
    requires bit0 < 8 && 8 * cur0 + bit0 == pos == |a| + |m| && n <= z1
    modifies buf
    ensures bit < 8 && 8 * cur + bit == pos + n
    ensures TwoFill(buf[..], a, m + Field(val, n), z1 - n, o, z2, b)
  {
    MainFilling(buf[..], a, m, z1, o, z2, b);
    hide TwoFill, Filling, Field;
    cur, bit := PutNext(buf, cur0, bit0, val, n, a, m, z1, o + Zeros(z2) + b);
    MainFilling(buf[..], a, m + Field(val, n), z1 - n, o, z2, b);
  }

  /** Zeros still to fill in the main part, and in the tail part. */
  function MainRoom(w: seq<short>, b: nat, k: nat): nat
    requires k <= |w|
  {
    SpanMonotone(k, |w|, b);
    Span(|w|, b) - Span(k, b)
  }

  function TailRoom(w: seq<short>, mean: int, b: nat, k: nat): nat
    requires b >= 1 && k <= |w|
  {
    TailGrows(w, mean, b, k);
    8 * BytesFor(|ComboBits(w, mean, b)|) - Span(|w|, b) - |TailBits(w, mean, b, k)|
  }

  /** Samples 0..k-1 are in place in both parts, and both cursors stand behind them. */
  ghost predicate Placing(s: seq<byte>, pre: seq<byte>, w: seq<short>, mean: int, b: nat, k: nat, post: seq<byte>,
                          pos: nat, tailPos: nat)
    requires b >= 1 && k <= |w|
  {
    && pos == 8 * |pre| + Span(k, b)
    && tailPos == 8 * |pre| + Span(|w|, b) + |TailBits(w, mean, b, k)|
    && TwoFill(s, Flat(pre), MainBits(w, mean, b, k), MainRoom(w, b, k),
               TailBits(w, mean, b, k), TailRoom(w, mean, b, k), Flat(post))
  }

  /** What the next sample's codes meet ... */
  lemma PlacingNow(s: seq<byte>, pre: seq<byte>, w: seq<short>, mean: int, b: nat, k: nat, post: seq<byte>,
                   pos: nat, tailPos: nat)
    requires b >= 1 && k < |w| && Placing(s, pre, w, mean, b, k, post, pos, tailPos)
    ensures TwoFill(s, Flat(pre), MainBits(w, mean, b, k), MainRoom(w, b, k),
                    TailBits(w, mean, b, k), TailRoom(w, mean, b, k), Flat(post))
    ensures pos == |Flat(pre)| + |MainBits(w, mean, b, k)|
    ensures tailPos == pos + MainRoom(w, b, k) + |TailBits(w, mean, b, k)|
    ensures b <= MainRoom(w, b, k)
    ensures !Within(w[k], mean, b) ==> |TailCode(w[k], mean, b)| <= TailRoom(w, mean, b, k)
  {
    SampleRoom(w, mean, b, k);
    hide TwoFill, MainBits, TailBits, ComboBits, Flat, Span, BytesFor, TailCode, Within;
  }

  /** ... and what they leave. */
  lemma PlacingNext(s: seq<byte>, pre: seq<byte>, w: seq<short>, mean: int, b: nat, k: nat, post: seq<byte>,
                    pos: nat, tailPos: nat)
    requires b >= 1 && k < |w|
    requires pos == 8 * |pre| + Span(k, b) && tailPos == 8 * |pre| + Span(|w|, b) + |TailBits(w, mean, b, k)|
    requires b <= MainRoom(w, b, k)
    requires var c := if Within(w[k], mean, b) then [] else TailCode(w[k], mean, b);
             |c| <= TailRoom(w, mean, b, k)
             && TwoFill(s, Flat(pre), MainBits(w, mean, b, k) + Field(MainCode(w[k], mean, b), b),
                MainRoom(w, b, k) - b,
                        TailBits(w, mean, b, k) + c, TailRoom(w, mean, b, k) - |c|, Flat(post))
    ensures var c := if Within(w[k], mean, b) then [] else TailCode(w[k], mean, b);
            Placing(s, pre, w, mean, b, k + 1, post, pos + b, tailPos + |c|)
  {
    SampleRoom(w, mean, b, k);
    hide TwoFill, MainBits, TailBits, ComboBits, Flat, Span, BytesFor, TailCode, MainCode, Within;
  }

  lemma PlacingStart(s: seq<byte>, off: nat, w: seq<short>, mean: int, b: nat)
    requires b >= 1
    requires ZeroFrom(s, off, BytesFor(|ComboBits(w, mean, b)|))
    ensures Placing(s, s[..off], w, mean, b, 0, s[off + BytesFor(|ComboBits(w, mean, b)|)..],
                    8 * off, 8 * off + Span(|w|, b))
  {
    hide Flat, ComboBits, MainBits, TailBits, Filling, TwoFill;
    PartsStart(w, mean, b);
    var len := BytesFor(|ComboBits(w, mean, b)|);
    ZerosFilling(s, off, len);
    StartFilling(s, Flat(s[..off]), MainRoom(w, b, 0), TailRoom(w, mean, b, 0), 8 * len, Flat(s[off + len..]));
    hide *;
    PlacingIs(s, s[..off], w, mean, b, 0, s[off + len..], 8 * off, 8 * off + Span(|w|, b));
  }

  lemma PlacingIs(s: seq<byte>, pre: seq<byte>, w: seq<short>, mean: int, b: nat, k: nat, post: seq<byte>,
                  pos: nat, tailPos: nat)
    requires b >= 1 && k <= |w|
    requires pos == 8 * |pre| + Span(k, b)
    requires tailPos == 8 * |pre| + Span(|w|, b) + |TailBits(w, mean, b, k)|
    requires TwoFill(s, Flat(pre), MainBits(w, mean, b, k), MainRoom(w, b, k),
                     TailBits(w, mean, b, k), TailRoom(w, mean, b, k), Flat(post))
    ensures Placing(s, pre, w, mean, b, k, post, pos, tailPos)
  {
    hide Flat, ComboBits, MainBits, TailBits, TwoFill, MainRoom, TailRoom, Span;
  }

  lemma StartFilling(s: seq<byte>, a: seq<bool>, x: nat, y: nat, z: nat, p: seq<bool>)
    requires Filling(s, a, [], z, p) && z == x + y
    ensures TwoFill(s, a, [], x, [], y, p)
  {
    hide Flat;
    SplitZeros(a, x, y, p);
  }

  lemma PartsStart(w: seq<short>, mean: int, b: nat)
    requires b >= 1
    ensures MainBits(w, mean, b, 0) == [] && TailBits(w, mean, b, 0) == []
    ensures Span(0, b) == 0 && Span(|w|, b) <= |ComboBits(w, mean, b)|
  {
  }

  lemma SplitZeros(a: seq<bool>, x: nat, y: nat, p: seq<bool>)
    ensures a + [] + Zeros(x + y) + p == a + [] + Zeros(x) + [] + Zeros(y) + p
  {
  }

  lemma PlacingEnd(s: seq<byte>, pre: seq<byte>, w: seq<short>, mean: int, b: nat, post: seq<byte>, pos: nat,
                   tailPos: nat)
    requires b >= 1
    requires Placing(s, pre, w, mean, b, |w|, post, pos, tailPos)
    ensures s == pre + Pack(ComboBits(w, mean, b)) + post
    ensures tailPos == 8 * |pre| + |ComboBits(w, mean, b)|
  {
    var m, o := MainBits(w, mean, b, |w|), TailBits(w, mean, b, |w|);
    var z := Padding(|m + o|);
    assert MainRoom(w, b, |w|) == 0 && TailRoom(w, mean, b, |w|) == z;
    hide MainBits, TailBits, Flat, Pack, MainRoom, TailRoom, Padding;
    JoinParts(Flat(pre), m, o, z, Flat(post));
    FilledBytes(s, pre, m + o, z, post);
  }

  lemma JoinParts(a: seq<bool>, m: seq<bool>, o: seq<bool>, z: nat, p: seq<bool>)
    ensures a + m + Zeros(0) + o + Zeros(z) + p == a + (m + o) + Zeros(z) + p
  {
    assert Zeros(0) == [];
    Assoc(a, m, o);
    assert a + m + [] == a + m;
  }

  /** The overflow part of the loop body: nothing for a sample within, its tail code for one outside. */
  method PlaceTail(buf: array<byte>, x: short, mean: int, b: nat, cur0: nat, bit0: nat, ghost pos: nat,
                   ghost a: seq<bool>, ghost m: seq<bool>, ghost z1: nat, ghost o: seq<bool>, ghost z2: nat,
                   ghost p: seq<bool>)
    returns (newVal: nat, cur: nat, bit: nat)
    requires b >= 1 && TwoFill(buf[..], a, m, z1, o, z2, p)
    requires bit0 < 8 && 8 * cur0 + bit0 == pos == |a| + |m| + z1 + |o|
    requires !Within(x, mean, b) ==> |TailCode(x, mean, b)| <= z2
    modifies buf
    ensures newVal == MainCode(x, mean, b)
    ensures var c := if Within(x, mean, b) then [] else TailCode(x, mean, b);
            && bit < 8 && 8 * cur + bit == pos + |c| && |c| <= z2
            && TwoFill(buf[..], a, m, z1, o + c, z2 - |c|, p)
  {
    hide TwoFill, FibCode, Value, Field, Bifurcate, Distance, Flag, Pow2;
    cur, bit := cur0, bit0;
    if Within(x, mean, b) {
      newVal := Bifurcate(Distance(x, mean));
      assert o + [] == o;
    } else {
      newVal := Flag(b);
      var fibVal := TailNumber(x, mean, b) % 65536;
      var asFib, fibBits := EncodeShort(fibVal);
      FieldOfValue(TailCode(x, mean, b));
      cur, bit := PutTail(buf, cur, bit, asFib, fibBits, pos, a, m, z1, o, z2, p);
    }
  }

  /** One sample: its code into the tail part if it falls outside, then its code or the flag into the main part. */
  method PlaceSample(buf: array<byte>, w: seq<short>, mean: int, b: nat, k: nat,
                     cur0: nat, bit0: nat, tailCur0: nat, tailBit0: nat,
                     ghost pre: seq<byte>, ghost post: seq<byte>, ghost pos: nat, ghost tailPos: nat)
    returns (cur: nat, bit: nat, tailCur: nat, tailBit: nat, ghost next: nat, ghost tailNext: nat)
    requires b >= 1 && k < |w| && bit0 < 8 && tailBit0 < 8
    requires pos == 8 * cur0 + bit0 && tailPos == 8 * tailCur0 + tailBit0
    requires Placing(buf[..], pre, w, mean, b, k, post, pos, tailPos)
    modifies buf
    ensures bit < 8 && tailBit < 8 && next == 8 * cur + bit && tailNext == 8 * tailCur + tailBit
    ensures Placing(buf[..], pre, w, mean, b, k + 1, post, next, tailNext)
  {
    ghost var m, o := MainBits(w, mean, b, k), TailBits(w, mean, b, k);
    ghost var z1, z2 := MainRoom(w, b, k), TailRoom(w, mean, b, k);
    ghost var c := if Within(w[k], mean, b) then [] else TailCode(w[k], mean, b);
    ghost var a, p := Flat(pre), Flat(post);
    PlacingNow(buf[..], pre, w, mean, b, k, post, pos, tailPos);
    hide *;
    var newVal;
    newVal, tailCur, tailBit := PlaceTail(buf, w[k], mean, b, tailCur0, tailBit0, tailPos, a, m, z1, o, z2, p);
    cur, bit := PutMain(buf, cur0, bit0, newVal, b, pos, a, m, z1, o + c, z2 - |c|, p);
    next, tailNext := pos + b, tailPos + |c|;
    PlacingNext(buf[..], pre, w, mean, b, k, post, pos, tailPos);
  }

  /** Both parts grow by one sample's codes, and there is room for them. */
  lemma SampleRoom(w: seq<short>, mean: int, b: nat, k: nat)
    requires b >= 1 && k < |w|
    ensures var c := if Within(w[k], mean, b) then [] else TailCode(w[k], mean, b);
            && TailBits(w, mean, b, k + 1) == TailBits(w, mean, b, k) + c
            && |TailBits(w, mean, b, k)| + |c| + Span(|w|, b) <= 8 * BytesFor(|ComboBits(w, mean, b)|)
    ensures MainBits(w, mean, b, k + 1) == MainBits(w, mean, b, k) + Field(MainCode(w[k], mean, b), b)
    ensures Span(k + 1, b) == Span(k, b) + b <= Span(|w|, b)
  {
    MainStep(w, mean, b, k);
    TailStep(w, mean, b, k);
    TailGrows(w, mean, b, k + 1);
    hide TailBits, TailCode, Within;
    assert TailBits(w, mean, b, k) + [] == TailBits(w, mean, b, k);
  }

  /** Below 1024 the type names that width. */
  lemma TypeOfRange(range: nat)
    requires range >= 1
    ensures ComboWidth(range) >= 2
    ensures range < 1024 ==>
              var b := BinFibBitSize(BinFibEncType(ComboWidth(range)));
              2 <= b <= 10 && range + 1 <= Pow2(b) && (b > 2 ==> Pow2(b - 1) < range + 1)
  {
    ComboWidthLeast(range);
    var b := ComboWidth(range);
    if range < 1024 && b > 10 {
      assert Pow2(5) == 32;
      assert Pow2(10) == 1024;
      Pow2Monotone(10, b - 1);
    }
    WidthsAgree(b);
  }

  /** The record's first byte is the number of -127..127 nearest to the channel's mean. */
  lemma ComboMean(w: seq<short>, mean: int, b: nat)
    requires b >= 1
    ensures forall m :: -127 <= m <= 127 ==>
              Far(mean, S8(ComboRecord(w, ClampMean(mean), b)[0])) <= Far(mean, m)
  {
    ClampNearest(mean);
    SignedByte(ClampMean(mean));
  }

  method EncodeCombo(buf: array<byte>, off: nat, w: seq<short>, chanMean: int, range: nat)
    returns (size: nat, encType: nat)
    requires 1 <= range < 32768  // with 0 the source shifts by -1; with more its cut-offs overflow their shorts
    requires ZeroFrom(buf[..], off, |ComboRecord(w, ClampMean(chanMean), ComboWidth(range))|)
    modifies buf
    ensures size == |ComboRecord(w, ClampMean(chanMean), ComboWidth(range))|
    ensures encType == BinFibEncType(ComboWidth(range))
    ensures range < 1024 ==>
              var b := BinFibBitSize(encType);
              2 <= b <= 10 && range + 1 <= Pow2(b) && (b > 2 ==> Pow2(b - 1) < range + 1)
    ensures forall m :: -127 <= m <= 127 ==> Far(chanMean, S8(buf[off])) <= Far(chanMean, m)
    ensures buf[..] == Splice(old(buf[..]), off, ComboRecord(w, ClampMean(chanMean), ComboWidth(range)))
  {
    var mean := ClampMean(chanMean);
    var bitSize := ComboWidth(range);
    TypeOfRange(range);
    ComboMean(w, chanMean, bitSize);
    encType := BinFibEncType(bitSize);
    ghost var before, body := buf[..], Pack(ComboBits(w, mean, bitSize));
    HeadThenBody(before, off, [mean % 256], body);
    hide ComboWidth, ClampMean, BinFibEncType, Splice, ZeroFrom, Pack, ComboBits;
    StoreByte(buf, off, mean % 256);
    var end := PlaceAll(buf, off + 1, w, mean, bitSize);
    size := end - off;
  }

  /** The tail part starts right behind n fields of b bits. */
  method TailCursor(off: nat, n: nat, b: nat) returns (cur: nat, bit: nat)
    ensures bit < 8 && 8 * cur + bit == 8 * off + Span(n, b)
  {
    SpanIsProduct(n, b);
    var bits := n * b;
    cur, bit := off + bits / 8, bits % 8;
  }

  method PlaceAll(buf: array<byte>, off: nat, w: seq<short>, mean: int, bitSize: nat) returns (end: nat)
    requires bitSize >= 1
    requires ZeroFrom(buf[..], off, BytesFor(|ComboBits(w, mean, bitSize)|))
    modifies buf
    ensures end == off + BytesFor(|ComboBits(w, mean, bitSize)|)
    ensures buf[..] == Splice(old(buf[..]), off, Pack(ComboBits(w, mean, bitSize)))
  {
    hide *;
    ghost var before := buf[..];
    RoomThere(before, off, BytesFor(|ComboBits(w, mean, bitSize)|));
    ghost var pre, post := before[..off], before[off + BytesFor(|ComboBits(w, mean, bitSize)|)..];
    PlacingStart(before, off, w, mean, bitSize);
    var cur: nat, bit: nat := off, 0;
    var tailCur, tailBit := TailCursor(off, |w|, bitSize);
    ghost var pos, tailPos := 8 * off, 8 * off + Span(|w|, bitSize);
    var wordNum := 0;
    while wordNum < |w|
      invariant 0 <= wordNum <= |w| && bit < 8 && tailBit < 8
      invariant pos == 8 * cur + bit && tailPos == 8 * tailCur + tailBit
      invariant Placing(buf[..], pre, w, mean, bitSize, wordNum, post, pos, tailPos)
    {
      cur, bit, tailCur, tailBit, pos, tailPos :=
        PlaceSample(buf, w, mean, bitSize, wordNum, cur, bit, tailCur, tailBit, pre, post, pos, tailPos);
      wordNum := wordNum + 1;
    }
    PlacingEnd(buf[..], pre, w, mean, bitSize, post, pos, tailPos);
    EndByte(tailCur, tailBit, off, |ComboBits(w, mean, bitSize)|);
    end := if tailBit != 0 then tailCur + 1 else tailCur;
    SpliceIs(before, off, Pack(ComboBits(w, mean, bitSize)));
  }
}

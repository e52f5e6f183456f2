// Four 12-bit quantities in three 16-bit words, and the 12-bit wave encoding
// made of them.
module Pack12Bit {
  import opened Bits
  import opened CompUtils
  import opened Encoding
  import opened Records
  import opened WaveBinary

  // ----- The masks

  lemma AndLowIsMod(x: nat, k: nat)
    ensures And(x, Low(k)) == x % Pow2(k)
  {
    hide *;
    AndLowBound(x, k);
    ValueOfField(x, k);
    ValueOfField(And(x, Low(k)), k);
    ModSmall(And(x, Low(k)), Pow2(k));
  }

  lemma AndShl(x: nat, m: nat, k: nat)
    ensures And(x, Shl(m, k)) == Shl(And(Shr(x, k), m), k)
  {
    forall j: nat ensures Bit(And(x, Shl(m, k)), j) == Bit(Shl(And(Shr(x, k), m), k), j) {
      AndBit(x, Shl(m, k), j);
      ShlBit(m, k, j);
      ShlBit(And(Shr(x, k), m), k, j);
      if j >= k {
        AndBit(Shr(x, k), m, j - k);
        ShrBit(x, k, j - k);
      }
    }
    SameBits(And(x, Shl(m, k)), Shl(And(Shr(x, k), m), k));
  }

  lemma ShrIsDiv(x: nat, k: nat)
    ensures Shr(x, k) == x / Pow2(k)
  {
    if k > 0 {
      ShrIsDiv(x / 2, k - 1);
      HalfThenDiv(x, Pow2(k - 1));
    }
  }

  lemma HalfThenDiv(x: nat, p: nat)
    requires p >= 1
    ensures x / 2 / p == x / (2 * p)
  {
    var q := x / 2 / p;
    var r := x % 2 + 2 * ((x / 2) % p);
    assert x / 2 == q * p + (x / 2) % p;
    assert x == q * (2 * p) + r by {
      assert 2 * (q * p) == q * (2 * p);
    }
    ModUnique(x, 2 * p, q, r);
  }

  lemma Masks()
    ensures 0x0fff == Low(12) && 0xf000 == Shl(15, 12) && 15 == Low(4)
    ensures Pow2(12) == 4096 && Pow2(4) == 16 && Pow2(8) == 256
  {
    assert Pow2(4) == 16 && Pow2(8) == 256 && Pow2(12) == 4096;
    ShlIsMul(15, 12);
  }

  lemma LowTwelve(x: nat)
    ensures And(x, 0x0fff) == x % 4096
  {
    Masks();
    AndLowIsMod(x, 12);
  }

  lemma HighFour(x: nat)
    ensures And(x, 0xf000) == 4096 * (x / 4096 % 16)
  {
    Masks();
    AndShl(x, 15, 12);
    ShrIsDiv(x, 12);
    AndLowIsMod(x / 4096, 4);
    ShlIsMul(x / 4096 % 16, 12);
  }

  // ----- Packing four values

  /** Nibble k of a value, nibble 0 being the lowest. */
  function Nibble(v: nat, k: nat): (n: nat)
    ensures n < 16
  {
    if k == 0 then v % 16 else if k == 1 then v / 16 % 16 else v / 256 % 16
  }

  /** A 12-bit value with a nibble of the fourth above it. */
  function Topped(v: nat, n: nat): ushort
    requires n < 16
  {
    v % 4096 + 4096 * n
  }

  function Packed(w: seq<ushort>): (s: seq<byte>)
    requires |w| == 4
    ensures |s| == 6
  {
    LE16(Topped(w[0], Nibble(w[3], 0))) + LE16(Topped(w[1], Nibble(w[3], 1))) + LE16(Topped(w[2], Nibble(w[3], 2)))
  }

  function Unpacked12(s: seq<byte>): (w: seq<ushort>)
    requires |s| == 6
    ensures |w| == 4
  {
    var (a, b, c) := (Word16(s), Word16(s[2..]), Word16(s[4..]));
    [a % 4096, b % 4096, c % 4096, a / 4096 + 16 * (b / 4096) + 256 * (c / 4096)]
  }

  /** What comes back: the twelve low bits of each of the four. */
  lemma UnpackPack(w: seq<ushort>)
    requires |w| == 4
    ensures Unpacked12(Packed(w)) == [w[0] % 4096, w[1] % 4096, w[2] % 4096, w[3] % 4096]
  {
    hide Nibble, Word16, Topped;
    var s := Packed(w);
    var (a, b, c) := (Topped(w[0], Nibble(w[3], 0)), Topped(w[1], Nibble(w[3], 1)), Topped(w[2], Nibble(w[3], 2)));
    assert s == LE16(a) + (LE16(b) + LE16(c)) && s[2..] == LE16(b) + LE16(c) && s[4..] == LE16(c) + [];
    hide Packed, LE16;
    Word16OfLE16(a, LE16(b) + LE16(c));
    Word16OfLE16(b, LE16(c));
    Word16OfLE16(c, []);
    ToppedParts(w[0], Nibble(w[3], 0));
    ToppedParts(w[1], Nibble(w[3], 1));
    ToppedParts(w[2], Nibble(w[3], 2));
    Nibbles(w[3]);
  }

  lemma ToppedParts(v: nat, n: nat)
    requires n < 16
    ensures Topped(v, n) % 65536 == Topped(v, n)
    ensures Topped(v, n) % 4096 == v % 4096 && Topped(v, n) / 4096 == n
  {
    ModUnique(Topped(v, n), 4096, n, v % 4096);
  }

  lemma Nibbles(v: nat)
    ensures Nibble(v, 0) + 16 * Nibble(v, 1) + 256 * Nibble(v, 2) == v % 4096
  {
    hide *;
    var u := v / 16;
    var t := u / 16;
    var q := t / 16;
    NibblesOf(v % 16, u % 16, t % 16, q, v);
  }

  lemma NibblesOf(a: nat, b: nat, c: nat, q: nat, v: nat)
    requires a < 16 && b < 16 && c < 16 && v == a + 16 * (b + 16 * (c + 16 * q))
    ensures Nibble(v, 0) == a && Nibble(v, 1) == b && Nibble(v, 2) == c && v % 4096 == a + 16 * b + 256 * c
  {
    ModUnique(v, 16, b + 16 * (c + 16 * q), a);
    ModUnique(b + 16 * (c + 16 * q), 16, c + 16 * q, b);
    ModUnique(v, 256, c + 16 * q, a + 16 * b);
    ModUnique(c + 16 * q, 16, q, c);
    ModUnique(v, 4096, q, a + 16 * b + 256 * c);
  }

  /** No six bytes get lost either. */
  lemma PackUnpack(s: seq<byte>)
    requires |s| == 6
    ensures Packed(Unpacked12(s)) == s
  {
    hide Nibble, Word16;
    var (a, b, c) := (Word16(s), Word16(s[2..]), Word16(s[4..]));
    SplitTop(a / 4096, b / 4096, c / 4096, Unpacked12(s)[3]);
    Retopped(a);
    Retopped(b);
    Retopped(c);
    hide Unpacked12, Topped;
    WordBytes(s);
    WordBytes(s[2..]);
    WordBytes(s[4..]);
    assert s == s[..2] + s[2..][..2] + s[4..][..2];
  }

  lemma Retopped(v: ushort)
    ensures v / 4096 < 16 && Topped(v % 4096, v / 4096) == v
  {
  }

  lemma SplitTop(a: nat, b: nat, c: nat, top: nat)
    requires a < 16 && b < 16 && c < 16 && top == a + 16 * b + 256 * c
    ensures Nibble(top, 0) == a && Nibble(top, 1) == b && Nibble(top, 2) == c
  {
    assert top / 16 == b + 16 * c;
    assert top / 256 == c;
  }

  lemma WordBytes(s: seq<byte>)
    requires |s| >= 2
    ensures LE16(Word16(s)) == s[..2]
  {
  }

  /** `(w[i] & 0x0fff) + ((w[3] << up) & 0xf000)`, for up = 12, 8 and 4. */
  method MakeWord(low: ushort, high: ushort, k: nat) returns (val: ushort)
    requires k <= 2
    ensures val == Topped(low, Nibble(high, k))
  {
    hide And, Shl, Pow2;
    LowTwelve(low);
    HighFour(Shl(high, 12 - 4 * k));
    ShlIsMul(high, 12 - 4 * k);
    Masks();
    TopNibble(high, k, Shl(high, 12 - 4 * k));
    val := (And(low, 0x0fff) + And(Shl(high, 12 - 4 * k), 0xf000)) % 65536;
  }

  lemma TopNibble(v: nat, k: nat, up: nat)
    requires k <= 2 && up == (if k == 0 then 4096 else if k == 1 then 256 else 16) * v
    ensures up / 4096 % 16 == Nibble(v, k)
  {
  }

  method PackFour(w: seq<ushort>, buf: array<byte>, off: nat)
    requires |w| == 4 && off + 6 <= buf.Length
    modifies buf
    ensures buf[..] == Splice(old(buf[..]), off, Packed(w))
  {
    hide Topped, Nibble, LE16, Splice;
    ghost var before := buf[..];
    var val := MakeWord(w[0], w[3], 0);
    StoreWord(buf, off, val);
    ghost var a := LE16(val);
    val := MakeWord(w[1], w[3], 1);
    StoreWord(buf, off + 2, val);
    SpliceTwice(before, off, a, LE16(val));
    a := a + LE16(val);
    val := MakeWord(w[2], w[3], 2);
    StoreWord(buf, off + 4, val);
    SpliceTwice(before, off, a, LE16(val));
  }

  lemma SpliceTwice(s: seq<byte>, off: nat, a: seq<byte>, b: seq<byte>)
    requires off + |a| + |b| <= |s|
    ensures Splice(Splice(s, off, a), off + |a|, b) == Splice(s, off, a + b)
  {
    var s1 := Splice(s, off, a);
    assert s1[..off + |a|] == s[..off] + a;
    assert s1[off + |a| + |b|..] == s[off + |a| + |b|..];
    Assoc(s[..off], a, b);
  }

  /** `(val & 0xf000) >> down`, for down = 12, 8 and 4: the top nibble at place k of the fourth value. */
  method TopBits(val: ushort, k: nat) returns (n: nat)
    requires k <= 2
    ensures n == (if k == 0 then 1 else if k == 1 then 16 else 256) * (val / 4096)
  {
    hide And, Shr, Pow2;
    HighFour(val);
    Masks();
    ShrIsDiv(And(val, 0xf000), 12 - 4 * k);
    n := Shr(And(val, 0xf000), 12 - 4 * k);
  }

  method UnpackFour(input: seq<byte>, off: nat) returns (w: seq<ushort>)
    requires off + 6 <= |input|
    ensures w == Unpacked12(input[off..off + 6])
  {
    hide And, Word16;
    var a, b, c := Word16(input[off..]), Word16(input[off + 2..]), Word16(input[off + 4..]);
    assert input[off..off + 6][0..] == input[off..off + 6];
    SameWord(input, off, 0);
    SameWord(input, off, 2);
    SameWord(input, off, 4);
    LowTwelve(a);
    LowTwelve(b);
    LowTwelve(c);
    var top := TopBits(a, 0);
    var next := TopBits(b, 1);
    top := top + next;
    next := TopBits(c, 2);
    top := top + next;
    w := [And(a, 0x0fff), And(b, 0x0fff), And(c, 0x0fff), top];
  }

  lemma SameWord(s: seq<byte>, off: nat, k: nat)
    requires off + 6 <= |s| && k <= 4
    ensures Word16(s[off..off + 6][k..]) == Word16(s[off + k..])
  {
  }

  // ----- The wave encoding

  const OFFSET_VALUE: nat := 2048

  /** Four samples as unsigned shorts around the offset. */
  function Shifted(w: seq<short>): (v: seq<ushort>)
    requires |w| == 4
    ensures |v| == 4
  {
    seq(4, i requires 0 <= i < 4 => (w[i] + OFFSET_VALUE) % 65536)
  }

  function Unshifted(v: seq<ushort>): (w: seq<short>)
    requires |v| == 4
    ensures |w| == 4
  {
    seq(4, i requires 0 <= i < 4 => S16((S16(v[i]) - OFFSET_VALUE) % 65536))
  }

  /** The first `g` groups of four samples. */
  function Record12(w: seq<short>, g: nat): (s: seq<byte>)
    requires 4 * g <= |w|
    ensures |s| == 6 * g
  {
    if g == 0 then [] else Record12(w, g - 1) + Packed(Shifted(w[4 * g - 4..4 * g]))
  }

  function Samples12(s: seq<byte>, g: nat): (w: seq<short>)
    requires 6 * g <= |s|
    ensures |w| == 4 * g
  {
    if g == 0 then [] else Samples12(s, g - 1) + Unshifted(Unpacked12(s[6 * g - 6..6 * g]))
  }

  method Encode12Bit(buf: array<byte>, off: nat, w: seq<short>) returns (encSize: nat)
    requires |w| % 4 == 0 && off + 6 * (|w| / 4) <= buf.Length
    modifies buf
    ensures encSize == 6 * (|w| / 4)
    ensures buf[..] == Splice(old(buf[..]), off, Record12(w, |w| / 4))
  {
    hide Packed, Shifted, Splice, Record12;
    ghost var before := buf[..];
    encSize := 6 * (|w| / 4);
    NoGroups(before, off, w);
    var samp := 0;
    while samp < |w|
      invariant 0 <= samp <= |w| && samp % 4 == 0
      invariant buf[..] == Splice(before, off, Record12(w, samp / 4))
    {
      ghost var g := samp / 4;
      var value := Shifted(w[samp..samp + 4]);
      var charNum := samp * 3 / 2;
      assert charNum == 6 * g && samp == 4 * g;
      NextGroup(w, g);
      PackFour(value, buf, off + charNum);
      SpliceTwice(before, off, Record12(w, g), Packed(value));
      samp := samp + 4;
    }
  }

  lemma NoGroups(s: seq<byte>, off: nat, w: seq<short>)
    requires off <= |s|
    ensures Splice(s, off, Record12(w, 0)) == s
  {
  }

  lemma NextGroup(w: seq<short>, g: nat)
    requires 4 * g + 4 <= |w|
    ensures Record12(w, g + 1) == Record12(w, g) + Packed(Shifted(w[4 * g..4 * g + 4]))
  {
  }

  lemma NextSamples(s: seq<byte>, g: nat)
    requires 6 * g + 6 <= |s|
    ensures Samples12(s, g + 1) == Samples12(s, g) + Unshifted(Unpacked12(s[6 * g..6 * g + 6]))
  {
  }

  method StoreFour(data: array<short>, k: nat, four: seq<short>)
    requires |four| == 4 && k + 4 <= data.Length
    modifies data
    ensures data[..k + 4] == old(data[..k]) + four
  {
    data[k], data[k + 1], data[k + 2], data[k + 3] := four[0], four[1], four[2], four[3];
  }

  method Decode12Bit(input: seq<byte>, numBytes: int, data: array<short>) returns (code: CompressErrorCode)
    requires data.Length % 4 == 0 && 6 * (data.Length / 4) <= |input|
    modifies data
    ensures code == if numBytes == 6 * (data.Length / 4) then Ok else BadSize
    ensures data[..] == if code == Ok then Samples12(input, data.Length / 4) else old(data[..])
  {
    hide *;
    var encSize := 6 * (data.Length / 4);
    if numBytes != encSize {
      return BadSize;
    }
    NoSamples(input);
    ghost var g := 0;
    assert data[..0] == [];
    assert data.Length == 4 * (encSize / 6);
    var charNum := 0;
    while charNum < encSize
      invariant charNum == 6 * g <= encSize
      invariant 4 * g <= data.Length && data[..4 * g] == Samples12(input, g)
    {
      var samp := 2 * (charNum / 3);
      assert samp == 4 * g;
      var value := UnpackFour(input, charNum);
      NextSamples(input, g);
      StoreFour(data, samp, Unshifted(value));
      charNum, g := charNum + 6, g + 1;
    }
    assert data[..] == data[..4 * g];
    return Ok;
  }

  lemma NoSamples(s: seq<byte>)
    ensures Samples12(s, 0) == []
  {
  }

  /** A sample survives exactly when it lies in the twelve bits around 0. */
  predicate Twelve(x: short) { -2048 <= x < 2048 }

  /** Of the samples read back, just those that fit twelve bits are right. */
  ghost predicate BackWhereTwelve(r: seq<short>, w: seq<short>) {
    |r| == |w| && forall k :: 0 <= k < |r| ==> (r[k] == w[k] <==> Twelve(w[k]))
  }

  lemma BackJoin(r: seq<short>, w: seq<short>, r1: seq<short>, w1: seq<short>)
    requires BackWhereTwelve(r, w) && BackWhereTwelve(r1, w1)
    ensures BackWhereTwelve(r + r1, w + w1)
  {
  }

  lemma GroupBack(w: seq<short>)
    requires |w| == 4
    ensures BackWhereTwelve(Unshifted(Unpacked12(Packed(Shifted(w)))), w)
  {
    hide Packed, Unpacked12, S16;
    var v := Shifted(w);
    UnpackPack(v);
    OneBack(w[0]);
    OneBack(w[1]);
    OneBack(w[2]);
    OneBack(w[3]);
  }

  lemma OneBack(x: short)
    ensures S16((S16((x + OFFSET_VALUE) % 65536 % 4096) - OFFSET_VALUE) % 65536) == x <==> Twelve(x)
  {
    var v := (x + OFFSET_VALUE) % 65536 % 4096;
    assert S16(v) == v;
  }

  /** Group by group, the record gives back what survives, whatever follows. */
  lemma {:induction false} Samples12Of(w: seq<short>, g: nat, tail: seq<byte>)
    requires 4 * g <= |w|
    ensures BackWhereTwelve(Samples12(Record12(w, g) + tail, g), w[..4 * g])
  {
    hide *;
    if g == 0 {
      NothingBack(w, tail);
    } else {
      var four := w[4 * g - 4..4 * g];
      var front, last := Record12(w, g - 1), Packed(Shifted(four));
      NextGroup(w, g - 1);
      Samples12Of(w, g - 1, last + tail);
      GroupBack(four);
      SamplesSplit(front, last, tail, g - 1);
      BackJoin(Samples12(front + (last + tail), g - 1), w[..4 * (g - 1)], Unshifted(Unpacked12(last)), four);
      assert w[..4 * g] == w[..4 * (g - 1)] + four;
    }
  }

  lemma NothingBack(w: seq<short>, tail: seq<byte>)
    ensures BackWhereTwelve(Samples12(Record12(w, 0) + tail, 0), w[..0])
  {
  }

  lemma SamplesSplit(front: seq<byte>, last: seq<byte>, tail: seq<byte>, g: nat)
    requires |front| == 6 * g && |last| == 6
    ensures Samples12(front + last + tail, g + 1) == Samples12(front + (last + tail), g) + Unshifted(Unpacked12(last))
  {
    hide Unpacked12, Unshifted, Samples12;
    var s := front + last + tail;
    NextSamples(s, g);
    assert s[6 * g..6 * g + 6] == last;
    Assoc(front, last, tail);
  }

  /** Round trip, exactly: the record gives back the samples if and only if all of them fit 12 bits. */
  lemma RoundTrip12(w: seq<short>, tail: seq<byte>)
    requires |w| % 4 == 0
    ensures Samples12(Record12(w, |w| / 4) + tail, |w| / 4) == w <==> forall k :: 0 <= k < |w| ==> Twelve(w[k])
  {
    hide Samples12, Record12;
    Samples12Of(w, |w| / 4, tail);
    assert w[..4 * (|w| / 4)] == w;
  }
}

// The bit cursor every codec walks a byte buffer with: a byte index and a bit
// number in 0..7.  PutBits is the writing loop the wave encoders repeat, and
// GetBits the loop that lifts a field out of a 32-bit window.
module BitCursor {
  import opened Bits

  /** `s` with the bits of `t` ORed in from position `p` on. */
  function OrAt(s: seq<bool>, p: nat, t: seq<bool>): (r: seq<bool>)
    ensures |r| == |s|
  {
    seq(|s|, i requires 0 <= i < |s| => s[i] || (p <= i < p + |t| && t[i - p]))
  }

  /** Into zeros, ORing is writing. */
  lemma OrAtZeros(a: seq<bool>, z: nat, b: seq<bool>, t: seq<bool>)
    requires |t| <= z
    ensures OrAt(a + Zeros(z) + b, |a|, t) == a + t + Zeros(z - |t|) + b
  {
  }

  lemma OrAtTwice(s: seq<bool>, p: nat, v: nat, k: nat, m: nat)
    ensures OrAt(OrAt(s, p, Field(v, k)), p + k, Field(Shr(v, k), m)) == OrAt(s, p, Field(v, k + m))
  {
    forall j | 0 <= j < m ensures Field(Shr(v, k), m)[j] == Bit(v, j + k) {
      ShrBit(v, k, j);
    }
  }

  lemma ShrShr(v: nat, a: nat, b: nat)
    ensures Shr(Shr(v, a), b) == Shr(v, a + b)
  {
  }

  /** ORing `k` bits of `v`, shifted to bit `bit`, into one byte. */
  lemma OrByte(s: seq<byte>, cur: nat, bit: nat, v: nat, k: nat)
    requires cur < |s| && bit + k <= 8
    ensures var x := Or(s[cur], Shl(And(v, Low(k)), bit));
            x < 256 && Flat(s[cur := x]) == OrAt(Flat(s), 8 * cur + bit, Field(v, k))
  {
    var x := Or(s[cur], Shl(And(v, Low(k)), bit));
    forall j: nat
      ensures Bit(x, j) == (Bit(s[cur], j) || (bit <= j < bit + k && Bit(v, j - bit)))
    {
      OrBit(s[cur], Shl(And(v, Low(k)), bit), j);
      ShlBit(And(v, Low(k)), bit, j);
      if j >= bit {
        AndBit(v, Low(k), j - bit);
        LowBit(k, j - bit);
      }
    }
    forall j: nat | j >= 8 ensures !Bit(x, j) {
      ByteBit(s[cur], j);
    }
    FitsByte(x);
    var s' := s[cur := x];
    forall p | 0 <= p < 8 * |s|
      ensures Flat(s')[p] == OrAt(Flat(s), 8 * cur + bit, Field(v, k))[p]
    {
      if p / 8 == cur {
        assert Flat(s')[p] == Bit(x, p % 8);
      }
    }
  }

  /** The mask the loops build one bit at a time. */
  method BitMask(k: nat) returns (mask: nat)
    ensures mask == Low(k)
  {
    mask := 0;
    var bitNum := 0;
    while bitNum < k
      invariant 0 <= bitNum <= k
      invariant mask == Low(bitNum)
    {
      MaskStep(bitNum);
      mask := Or(mask, Shl(1, bitNum));
      bitNum := bitNum + 1;
    }
  }

  lemma MaskStep(k: nat)
    ensures Or(Low(k), Shl(1, k)) == Low(k + 1)
  {
    forall j: nat ensures Bit(Or(Low(k), Shl(1, k)), j) == Bit(Low(k + 1), j) {
      OrBit(Low(k), Shl(1, k), j);
      LowBit(k, j);
      LowBit(k + 1, j);
      ShlBit(1, k, j);
      OneBit(j, k);
    }
    SameBits(Or(Low(k), Shl(1, k)), Low(k + 1));
  }

  lemma OneBit(j: nat, k: nat)
    ensures j >= k ==> Bit(1, j - k) == (j == k)
  {
    if j > k {
      ZeroBit(j - k - 1);
    }
  }

  /**
   * `(*currentChar) |= (newVal & bitMask) << currentBit`, for a mask of `k`
   * bits: `done` bits of `val` were in already, from `pos` on, and now k more.
   */
  method OrInto(buf: array<byte>, cur: nat, bit: nat, newVal: nat, k: nat,
                ghost flat: seq<bool>, ghost pos: nat, ghost val: nat, ghost done: nat)
    requires cur < buf.Length && bit + k <= 8 && pos + done == 8 * cur + bit
    requires newVal == Shr(val, done)
    requires Flat(buf[..]) == OrAt(flat, pos, Field(val, done))
    modifies buf
    ensures Flat(buf[..]) == OrAt(flat, pos, Field(val, done + k))
  {
    OrByte(buf[..], cur, bit, newVal, k);
    OrAtTwice(flat, pos, val, done, k);
    hide Flat, OrAt, Field, Or, And, Shl, Low;
    var bitMask := BitMask(k);
    ghost var before := buf[..];
    buf[cur] := Or(buf[cur], Shl(And(newVal, bitMask), bit));
    assert buf[..] == before[cur := buf[cur]];
  }

  /** ORs the `n` low bits of `val` into the buffer at the cursor and advances it. */
  method PutBits(buf: array<byte>, cur0: nat, bit0: nat, val: nat, n: nat) returns (cur: nat, bit: nat)
    requires bit0 < 8 && 8 * cur0 + bit0 + n <= 8 * buf.Length
    modifies buf
    ensures bit < 8 && 8 * cur + bit == 8 * cur0 + bit0 + n
    ensures Flat(buf[..]) == OrAt(Flat(old(buf[..])), 8 * cur0 + bit0, Field(val, n))
  {
    assert Flat(buf[..]) == OrAt(Flat(buf[..]), 8 * cur0 + bit0, Field(val, 0));
    assert val == Shr(val, 0);
    hide Flat, OrAt, Field, Shr;
    ghost var flat, pos := Flat(buf[..]), 8 * cur0 + bit0;
    cur, bit := cur0, bit0;
    var numBitsLeft, newVal := n, val;
    while numBitsLeft != 0
      invariant 0 <= numBitsLeft <= n && bit < 8
      invariant 8 * cur + bit == pos + (n - numBitsLeft)
      invariant numBitsLeft > 0 ==> newVal == Shr(val, n - numBitsLeft)
      invariant Flat(buf[..]) == OrAt(flat, pos, Field(val, n - numBitsLeft))
      decreases numBitsLeft
    {
      ghost var done := n - numBitsLeft;
      if numBitsLeft > 8 - bit {
        OrInto(buf, cur, bit, newVal, 8 - bit, flat, pos, val, done);
        ShrShr(val, done, 8 - bit);
        newVal := Shr(newVal, 8 - bit);
        numBitsLeft := numBitsLeft - (8 - bit);
        cur := cur + 1;
        bit := 0;
      } else {
        OrInto(buf, cur, bit, newVal, numBitsLeft, flat, pos, val, done);
        bit := bit + numBitsLeft;
        if bit == 8 {
          bit := 0;
          cur := cur + 1;
        }
        numBitsLeft := 0;
      }
    }
  }

  /** A buffer being filled: bits `a + done` in place, then zeros still to fill, then `b`. */
  ghost predicate Filling(s: seq<byte>, a: seq<bool>, done: seq<bool>, z: nat, b: seq<bool>) {
    Flat(s) == a + done + Zeros(z) + b
  }

  /** PutBits into the zeros: the field is appended and nothing else changes. */
  method PutNext(buf: array<byte>, cur0: nat, bit0: nat, val: nat, n: nat,
                 ghost a: seq<bool>, ghost done: seq<bool>, ghost z: nat, ghost b: seq<bool>)
    returns (cur: nat, bit: nat)
    requires Filling(buf[..], a, done, z, b)
    requires bit0 < 8 && 8 * cur0 + bit0 == |a| + |done| && n <= z
    modifies buf
    ensures bit < 8 && 8 * cur + bit == |a| + |done| + n
    ensures Filling(buf[..], a, done + Field(val, n), z - n, b)
  {
    OrAtZeros(a + done, z, b, Field(val, n));
    Assoc(a, done, Field(val, n));
    cur, bit := PutBits(buf, cur0, bit0, val, n);
  }

  // ----- Reading

  /** The four bytes at `cur` as a little-endian int (bits 0..31). */
  function Window(s: seq<byte>, cur: nat): nat
    requires cur + 4 <= |s|
  {
    s[cur] as nat + 256 * (s[cur + 1] as nat + 256 * (s[cur + 2] as nat + 256 * s[cur + 3] as nat))
  }

  lemma BytePlusBit(b: byte, x: nat, j: nat)
    ensures Bit(b + 256 * x, j) == (if j < 8 then Bit(b, j) else Bit(x, j - 8))
  {
    BytePlusShift(b, x, 8, j);
    assert Pow2(8) == 256;
  }

  lemma BytePlusShift(b: nat, x: nat, k: nat, j: nat)
    requires b < Pow2(k)
    ensures Bit(b + Pow2(k) * x, j) == (if j < k then Bit(b, j) else Bit(x, j - k))
    decreases k
  {
    if k > 0 {
      var y := Pow2(k - 1) * x;
      assert Pow2(k) * x == 2 * y;
      assert (b + 2 * y) % 2 == b % 2 && (b + 2 * y) / 2 == b / 2 + y;
      if j > 0 {
        BytePlusShift(b / 2, x, k - 1, j - 1);
      }
    }
  }

  /** Bit j of the window is the flat bit j places after its first byte. */
  lemma WindowBit(s: seq<byte>, cur: nat, j: nat)
    requires cur + 4 <= |s| && j < 32
    ensures Bit(Window(s, cur), j) == Flat(s)[8 * cur + j]
  {
    var w3: nat := s[cur + 3];
    var w2 := s[cur + 2] as nat + 256 * w3;
    var w1 := s[cur + 1] as nat + 256 * w2;
    BytePlusBit(s[cur], w1, j);
    if j >= 8 {
      BytePlusBit(s[cur + 1], w2, j - 8);
    }
    if j >= 16 {
      BytePlusBit(s[cur + 2], w3, j - 16);
    }
    assert (8 * cur + j) / 8 == cur + j / 8 && (8 * cur + j) % 8 == j % 8;
  }

  /** `(fred >> j) & 0x1` */
  function TestBit(fred: nat, j: nat): (b: nat)
    ensures b == (if Bit(fred, j) then 1 else 0)
  {
    ShrBit(fred, j, 0);
    AndOne(Shr(fred, j));
    And(Shr(fred, j), 1)
  }

  lemma AndOne(v: nat)
    ensures And(v, 1) == v % 2
  {
  }

  /** Gathers bits lo..hi-1 of the window into a number, bit lo becoming bit 0. */
  method GetBits(fred: nat, lo: nat, hi: nat) returns (v: nat)
    requires lo <= hi
    ensures v == Value(seq(hi - lo, j requires 0 <= j < hi - lo => Bit(fred, lo + j)))
  {
    v := 0;
    forall j: nat ensures !Bit(0, j) { ZeroBit(j); }
    var bitNum := lo;
    while bitNum < hi
      invariant lo <= bitNum <= hi
      invariant forall j: nat :: Bit(v, j) == (j < bitNum - lo && Bit(fred, lo + j))
    {
      ghost var v0 := v;
      v := Or(v, Shl(TestBit(fred, bitNum), bitNum - lo));
      forall j: nat ensures Bit(v, j) == (j < bitNum + 1 - lo && Bit(fred, lo + j)) {
        OrBit(v0, Shl(TestBit(fred, bitNum), bitNum - lo), j);
        ShlBit(TestBit(fred, bitNum), bitNum - lo, j);
        OneBit(j, bitNum - lo);
        if j >= bitNum - lo {
          ZeroBit(j - (bitNum - lo));
        }
      }
      bitNum := bitNum + 1;
    }
    ghost var bs := seq(hi - lo, j requires 0 <= j < hi - lo => Bit(fred, lo + j));
    forall j: nat ensures Bit(v, j) == Bit(Value(bs), j) {
      ValueBit(bs, j);
    }
    SameBits(v, Value(bs));
  }

  lemma WindowSlice(s: seq<byte>, cur: nat, lo: nat, n: nat)
    requires cur + 4 <= |s| && lo + n <= 32
    ensures seq(n, j requires 0 <= j < n => Bit(Window(s, cur), lo + j))
         == Flat(s)[8 * cur + lo..8 * cur + lo + n]
  {
    var f := Flat(s)[8 * cur + lo..8 * cur + lo + n];
    forall j | 0 <= j < n ensures f[j] == Bit(Window(s, cur), lo + j) {
      WindowBit(s, cur, lo + j);
    }
  }

  /** Reads the `n` bits at the cursor through the window. */
  method ReadField(s: seq<byte>, cur: nat, bit: nat, n: nat, ghost pos: nat) returns (v: nat)
    requires cur + 4 <= |s| && bit + n <= 32 && pos == 8 * cur + bit
    ensures pos + n <= |Flat(s)|
    ensures v == Value(Flat(s)[pos..pos + n])
  {
    hide Value, Bit, Flat, Window;
    var fred := Window(s, cur);
    v := GetBits(fred, bit, bit + n);
    WindowSlice(s, cur, bit, n);
  }

  /** Moves the cursor over `n` bits. */
  method Skip(cur0: nat, bit0: nat, n: nat) returns (cur: nat, bit: nat)
    requires bit0 < 8
    ensures bit < 8 && 8 * cur + bit == 8 * cur0 + bit0 + n
  {
    cur, bit := cur0, bit0 + n;
    while bit >= 8
      invariant 8 * cur + bit == 8 * cur0 + bit0 + n
    {
      bit := bit - 8;
      cur := cur + 1;
    }
  }
}

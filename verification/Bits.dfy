// Bit arithmetic on natural numbers, and the flat bit string behind a byte
// buffer: bit position p of a buffer is bit p % 8 of byte p / 8.
module Bits {
  type byte = x: nat | x < 256

  function Pow2(k: nat): (p: nat)
    ensures p >= 1
  {
    if k == 0 then 1 else 2 * Pow2(k - 1)
  }

  /** Bit `j` of `v`, bit 0 being the least significant. */
  predicate Bit(v: nat, j: nat) {
    if j == 0 then v % 2 == 1 else Bit(v / 2, j - 1)
  }

  /** C's `|`. */
  function Or(a: nat, b: nat): nat {
    if a == 0 then b
    else if b == 0 then a
    else 2 * Or(a / 2, b / 2) + (if a % 2 == 1 || b % 2 == 1 then 1 else 0)
  }

  /** C's `&`. */
  function And(a: nat, b: nat): nat {
    if a == 0 || b == 0 then 0
    else 2 * And(a / 2, b / 2) + (if a % 2 == 1 && b % 2 == 1 then 1 else 0)
  }

  /** C's `<<`, before any truncation to the width of the type. */
  function Shl(a: nat, k: nat): nat {
    if k == 0 then a else 2 * Shl(a, k - 1)
  }

  /** C's `>>`. */
  function Shr(a: nat, k: nat): nat {
    if k == 0 then a else Shr(a / 2, k - 1)
  }

  lemma OrBit(a: nat, b: nat, j: nat)
    ensures Bit(Or(a, b), j) == (Bit(a, j) || Bit(b, j))
  {
    if a == 0 {
      ZeroBit(j);
    } else if b == 0 {
      ZeroBit(j);
    } else if j > 0 {
      OrBit(a / 2, b / 2, j - 1);
    }
  }

  lemma AndBit(a: nat, b: nat, j: nat)
    ensures Bit(And(a, b), j) == (Bit(a, j) && Bit(b, j))
  {
    if a == 0 || b == 0 {
      ZeroBit(j);
    } else if j > 0 {
      AndBit(a / 2, b / 2, j - 1);
    }
  }

  lemma ZeroBit(j: nat)
    ensures !Bit(0, j)
  {
    if j > 0 {
      ZeroBit(j - 1);
    }
  }

  lemma ShlBit(a: nat, k: nat, j: nat)
    ensures Bit(Shl(a, k), j) == (j >= k && Bit(a, j - k))
    decreases k
  {
    if k > 0 && j > 0 {
      ShlBit(a, k - 1, j - 1);
    }
  }

  lemma ShrBit(a: nat, k: nat, j: nat)
    ensures Bit(Shr(a, k), j) == Bit(a, j + k)
  {
    if k > 0 {
      ShrBit(a / 2, k - 1, j);
    }
  }

  lemma ShlIsMul(a: nat, k: nat)
    ensures Shl(a, k) == a * Pow2(k)
  {
  }

  /** A number below 2^k has no bit at or above k. */
  lemma NoBitsAbove(v: nat, k: nat, j: nat)
    requires v < Pow2(k) && j >= k
    ensures !Bit(v, j)
    decreases k
  {
    if k == 0 {
      ZeroBit(j);
    } else {
      NoBitsAbove(v / 2, k - 1, j - 1);
    }
  }

  /** A number with no bit at or above k is below 2^k. */
  lemma BelowByBits(v: nat, k: nat)
    requires forall j: nat :: j >= k ==> !Bit(v, j)
    ensures v < Pow2(k)
    decreases k
  {
    if k == 0 {
      if v > 0 {
        var j := HighBit(v);
      }
    } else {
      forall j: nat | j >= k - 1 ensures !Bit(v / 2, j) {
        assert !Bit(v, j + 1);
      }
      BelowByBits(v / 2, k - 1);
    }
  }

  /** Every positive number has a bit set. */
  lemma HighBit(v: nat) returns (j: nat)
    requires v > 0
    ensures Bit(v, j)
  {
    if v % 2 == 1 {
      j := 0;
    } else {
      var i := HighBit(v / 2);
      j := i + 1;
    }
  }

  /** Two numbers with the same bits are equal. */
  lemma SameBits(a: nat, b: nat)
    requires forall j: nat :: Bit(a, j) == Bit(b, j)
    ensures a == b
  {
    if a == 0 && b == 0 {
    } else if a == 0 {
      var j := HighBit(b);
      ZeroBit(j);
    } else if b == 0 {
      var j := HighBit(a);
      ZeroBit(j);
    } else {
      assert Bit(a, 0) == Bit(b, 0);
      forall j: nat ensures Bit(a / 2, j) == Bit(b / 2, j) {
        assert Bit(a, j + 1) == Bit(b, j + 1);
      }
      SameBits(a / 2, b / 2);
    }
  }

  /** The `k` lowest bits set: the masks every packing routine builds. */
  function Low(k: nat): (m: nat)
  {
    Pow2(k) - 1
  }

  lemma LowBit(k: nat, j: nat)
    ensures Bit(Low(k), j) == (j < k)
  {
    if k == 0 {
      ZeroBit(j);
    } else if j > 0 {
      LowBit(k - 1, j - 1);
    }
  }

  // ----- Bit strings

  /** The `n` low bits of `v`, least significant first. */
  function Field(v: nat, n: nat): (bs: seq<bool>)
    ensures |bs| == n
  {
    seq(n, j requires 0 <= j < n => Bit(v, j))
  }

  /** The number a bit string spells, least significant bit first. */
  function Value(bs: seq<bool>): nat {
    if bs == [] then 0 else (if bs[0] then 1 else 0) + 2 * Value(bs[1..])
  }

  function Zeros(n: nat): (bs: seq<bool>)
    ensures |bs| == n
  {
    seq(n, j requires 0 <= j < n => false)
  }

  lemma ValueBit(bs: seq<bool>, j: nat)
    ensures Bit(Value(bs), j) == (j < |bs| && bs[j])
  {
    if bs == [] {
      ZeroBit(j);
    } else if j > 0 {
      ValueBit(bs[1..], j - 1);
    }
  }

  lemma ValueBound(bs: seq<bool>)
    ensures Value(bs) < Pow2(|bs|)
  {
  }

  lemma FieldOfValue(bs: seq<bool>)
    ensures Field(Value(bs), |bs|) == bs
  {
    forall j | 0 <= j < |bs| ensures Field(Value(bs), |bs|)[j] == bs[j] {
      ValueBit(bs, j);
    }
  }

  /** Reading back a field gives the number itself, less the bits cut off. */
  lemma ValueOfField(v: nat, n: nat)
    ensures Value(Field(v, n)) == v % Pow2(n)
  {
    if n > 0 {
      var f := Field(v, n);
      assert f[1..] == Field(v / 2, n - 1) by {
        forall j | 0 <= j < n - 1 ensures f[1..][j] == Bit(v / 2, j) {
          assert f[1..][j] == Bit(v, j + 1);
        }
      }
      ValueOfField(v / 2, n - 1);
      ModDouble(v, Pow2(n - 1));
    }
  }

  lemma ModDouble(v: nat, p: nat)
    requires p >= 1
    ensures v % (2 * p) == v % 2 + 2 * ((v / 2) % p)
  {
    var h := v / 2;
    var q := h / p;
    assert h == q * p + h % p;
    assert v == 2 * h + v % 2;
    var r := v % 2 + 2 * (h % p);
    assert v == q * (2 * p) + r by {
      assert 2 * (q * p) == q * (2 * p);
    }
    assert 0 <= r < 2 * p;
    ModUnique(v, 2 * p, q, r);
  }

  lemma ModUnique(v: nat, m: nat, q: nat, r: nat)
    requires m > 0 && v == q * m + r && r < m
    ensures v % m == r && v / m == q
  {
    var d := v / m - q;
    assert d * m == r - v % m by {
      assert v == (v / m) * m + v % m;
    }
    if d >= 1 {
      MulGe(d, m);
    } else if d <= -1 {
      MulGe(-d, m);
    }
  }

  lemma MulGe(k: int, m: nat)
    requires k >= 1
    ensures k * m >= m
  {
  }

  /** Filling a sequence from the front, one element at a time. */
  lemma PrefixStep<T>(w: seq<T>, o: seq<T>, k: nat)
    requires |w| == |o| && k < |w|
    ensures (w[..k] + o[k..])[k := w[k]] == w[..k + 1] + o[k + 1..]
  {
  }

  lemma SliceShift<T>(s: seq<T>, off: nat, lo: nat, hi: nat)
    requires lo <= hi && off + hi <= |s|
    ensures s[off..][lo..hi] == s[off + lo..off + hi]
  {
  }

  lemma WithNothing<T>(s: seq<T>)
    ensures [] + s == s + [] == s
  {
  }

  lemma Assoc<T>(a: seq<T>, b: seq<T>, c: seq<T>)
    ensures a + b + c == a + (b + c)
  {
  }

  // ----- The flat view of a byte buffer

  /** The buffer as one bit string. */
  function Flat(s: seq<byte>): (bs: seq<bool>)
    ensures |bs| == 8 * |s|
  {
    seq(8 * |s|, p requires 0 <= p < 8 * |s| => Bit(s[p / 8], p % 8))
  }

  lemma FlatAt(s: seq<byte>, i: nat, j: nat)
    requires i < |s| && j < 8
    ensures Flat(s)[8 * i + j] == Bit(s[i], j)
  {
  }

  lemma FlatConcat(a: seq<byte>, b: seq<byte>)
    ensures Flat(a + b) == Flat(a) + Flat(b)
  {
  }

  lemma FlatSlice(s: seq<byte>, lo: nat, hi: nat)
    requires lo <= hi <= |s|
    ensures Flat(s[lo..hi]) == Flat(s)[8 * lo..8 * hi]
  {
  }

  /** Buffers of bytes with the same flat view are the same. */
  lemma FlatInjective(a: seq<byte>, b: seq<byte>)
    requires Flat(a) == Flat(b)
    ensures a == b
  {
    assert |Flat(a)| == |Flat(b)|;
    forall i | 0 <= i < |a| ensures a[i] == b[i] {
      forall j: nat ensures Bit(a[i], j) == Bit(b[i], j) {
        if j < 8 {
          assert Flat(a)[8 * i + j] == Bit(a[i], j);
          assert Flat(b)[8 * i + j] == Bit(b[i], j);
        } else {
          ByteBit(a[i], j);
          ByteBit(b[i], j);
        }
      }
      SameBits(a[i], b[i]);
    }
  }

  lemma ByteBit(b: byte, j: nat)
    requires j >= 8
    ensures !Bit(b, j)
  {
    assert Pow2(8) == 256;
    NoBitsAbove(b, 8, j);
  }

  /** A number whose bits all lie below 8 fits a byte. */
  lemma FitsByte(v: nat)
    requires forall j: nat :: j >= 8 ==> !Bit(v, j)
    ensures v < 256
  {
    assert Pow2(8) == 256;
    BelowByBits(v, 8);
  }

  /** Bytes needed for `n` bits. */
  function BytesFor(n: nat): nat { (n + 7) / 8 }

  /** Zero bits that fill up the last byte. */
  function Padding(n: nat): nat { 8 * BytesFor(n) - n }

  /** A bit string laid into bytes, the last byte padded with zeros. */
  function Pack(bs: seq<bool>): (s: seq<byte>)
    ensures |s| == BytesFor(|bs|)
    decreases |bs|
  {
    if bs == [] then []
    else
      var k := if |bs| < 8 then |bs| else 8;
      PackByte(bs[..k]);
      [Value(bs[..k])] + Pack(bs[k..])
  }

  lemma PackByte(bs: seq<bool>)
    requires |bs| <= 8
    ensures Value(bs) < 256
  {
    ValueBound(bs);
    Pow2Monotone(|bs|, 8);
    assert Pow2(8) == 256;
  }

  lemma Pow2Monotone(a: nat, b: nat)
    requires a <= b
    ensures Pow2(a) <= Pow2(b)
  {
    if a < b {
      Pow2Monotone(a, b - 1);
    }
  }

  lemma OneByte(s: seq<byte>, bs: seq<bool>)
    requires |bs| <= 8 && |s| == 1 && s[0] == Value(bs)
    ensures Flat(s) == bs + Zeros(8 - |bs|)
  {
    hide Value, Flat, Bit;
    forall p | 0 <= p < 8 ensures Flat(s)[p] == (p < |bs| && bs[p]) {
      FlatAt(s, 0, p);
      ValueBit(bs, p);
    }
  }

  /** Packing puts bit p of the string at flat position p, and zeros after it. */
  lemma {:induction false} FlatPack(bs: seq<bool>)
    ensures Flat(Pack(bs)) == bs + Zeros(Padding(|bs|))
    decreases |bs|
  {
    if bs != [] {
      var k := if |bs| < 8 then |bs| else 8;
      var front, rest := bs[..k], bs[k..];
      PackByte(front);
      FlatPack(rest);
      OneByte([Value(front)], front);
      FlatConcat([Value(front)], Pack(rest));
      assert Flat(Pack(bs)) == Flat([Value(front)]) + Flat(Pack(rest));
      hide *;
      ZerosApart(front, rest);
    }
  }

  lemma ZerosApart(front: seq<bool>, rest: seq<bool>)
    requires |front| == 8 || rest == []
    requires 1 <= |front| <= 8
    ensures front + Zeros(8 - |front|) + (rest + Zeros(Padding(|rest|)))
         == front + rest + Zeros(Padding(|front + rest|))
  {
  }
}

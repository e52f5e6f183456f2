// Laying a record of bytes, whose body is a packed bit string, into a buffer.
module Records {
  import opened Bits
  import opened BitCursor
  import opened CompUtils

  /** The little-endian bytes of a 16-bit word. */
  function LE16(x: int): (s: seq<byte>)
    ensures |s| == 2
  {
    [x % 65536 % 256, x % 65536 / 256]
  }

  /** The unsigned word at the head of some bytes. */
  function Word16(s: seq<byte>): ushort
    requires |s| >= 2
  {
    s[0] as nat + 256 * s[1] as nat
  }

  lemma Word16OfLE16(x: int, rest: seq<byte>)
    ensures Word16(LE16(x) + rest) == x % 65536
    ensures -32768 <= x < 32768 ==> S16(Word16(LE16(x) + rest)) == x
  {
  }

  ghost predicate ZeroFrom(s: seq<byte>, off: nat, len: nat) {
    off + len <= |s| && forall i :: off <= i < off + len ==> s[i] == 0
  }

  /** `s` with the bytes of `t` in place from `off` on. */
  function Splice(s: seq<byte>, off: nat, t: seq<byte>): (r: seq<byte>)
    requires off + |t| <= |s|
    ensures |r| == |s|
  {
    s[..off] + t + s[off + |t|..]
  }

  lemma RoomThere(s: seq<byte>, off: nat, n: nat)
    requires ZeroFrom(s, off, n)
    ensures off + n <= |s|
  {
  }

  lemma SpliceIs(s: seq<byte>, off: nat, r: seq<byte>)
    requires off + |r| <= |s|
    ensures Splice(s, off, r) == s[..off] + r + s[off + |r|..]
  {
  }

  /** A head, then a body right behind it, into a zeroed stretch. */
  lemma HeadThenBody(s: seq<byte>, off: nat, head: seq<byte>, body: seq<byte>)
    requires ZeroFrom(s, off, |head| + |body|)
    ensures ZeroFrom(Splice(s, off, head), off + |head|, |body|)
    ensures Splice(Splice(s, off, head), off + |head|, body) == Splice(s, off, head + body)
  {
    var s1 := Splice(s, off, head);
    assert s1[..off + |head|] == s[..off] + head;
    assert s1[off + |head| + |body|..] == s[off + |head| + |body|..];
    Assoc(s[..off], head, body);
  }

  method StoreByte(buf: array<byte>, off: nat, x: byte)
    requires off < buf.Length
    modifies buf
    ensures buf[..] == Splice(old(buf[..]), off, [x])
  {
    buf[off] := x;
  }

  method StoreWord(buf: array<byte>, off: nat, x: int)
    requires off + 2 <= buf.Length
    modifies buf
    ensures buf[..] == Splice(old(buf[..]), off, LE16(x))
  {
    ghost var head := LE16(x);
    buf[off] := x % 65536 % 256;
    buf[off + 1] := x % 65536 / 256;
    assert buf[off] == head[0] && buf[off + 1] == head[1];
  }

  /** The byte count a cursor yields when it stops after `n` bits. */
  lemma EndByte(cur: nat, bit: nat, off: nat, n: nat)
    requires bit < 8 && 8 * cur + bit == 8 * off + n
    ensures (if bit != 0 then cur + 1 else cur) == off + BytesFor(n)
  {
  }

  /** A zeroed stretch is ready to be filled. */
  lemma ZerosFilling(s: seq<byte>, off: nat, len: nat)
    requires ZeroFrom(s, off, len)
    ensures Filling(s, Flat(s[..off]), [], 8 * len, Flat(s[off + len..]))
  {
    assert s == s[..off] + s[off..off + len] + s[off + len..];
    FlatConcat(s[..off], s[off..off + len]);
    FlatConcat(s[..off] + s[off..off + len], s[off + len..]);
    var mid := Flat(s[off..off + len]);
    forall p | 0 <= p < 8 * len ensures !mid[p] {
      assert s[off..off + len][p / 8] == 0;
      ZeroBit(p % 8);
    }
    assert mid == Zeros(8 * len);
    assert Flat(s[..off]) + [] == Flat(s[..off]);
  }

  /** Once filled, the stretch holds exactly the packed bytes. */
  lemma FilledBytes(s: seq<byte>, a: seq<byte>, bs: seq<bool>, z: nat, b: seq<byte>)
    requires Filling(s, Flat(a), bs, z, Flat(b))
    requires z == Padding(|bs|)
    ensures s == a + Pack(bs) + b
  {
    hide Flat, Pack, Zeros;
    FlatPack(bs);
    Assoc(Flat(a), bs, Zeros(z));
    FlatConcat(a, Pack(bs));
    FlatConcat(a + Pack(bs), b);
    FlatInjective(s, a + Pack(bs) + b);
  }

  /** Reading a record: the bits after its head are its packed bits, zero padding, and what follows. */
  lemma RecordBits(head: seq<byte>, bs: seq<bool>, tail: seq<byte>)
    ensures var s := head + Pack(bs) + tail;
            8 * |head| <= |Flat(s)|
            && Flat(s)[8 * |head|..] == bs + (Zeros(Padding(|bs|)) + Flat(tail))
  {
    var z := Zeros(Padding(|bs|));
    FlatConcat(head, Pack(bs));
    FlatConcat(head + Pack(bs), tail);
    FlatPack(bs);
    var s := head + Pack(bs) + tail;
    assert Flat(s) == Flat(head) + (bs + z) + Flat(tail);
    DropHead(Flat(head), bs, z, Flat(tail));
  }

  lemma DropHead<T>(a: seq<T>, b: seq<T>, c: seq<T>, d: seq<T>)
    ensures (a + (b + c) + d)[|a|..] == b + (c + d)
  {
  }

  function LE32(x: nat): (s: seq<byte>)
    ensures |s| == 4
  {
    LE16(x) + LE16(x / 65536)
  }

  function Word32(s: seq<byte>): nat
    requires |s| >= 4
  {
    Word16(s) + 65536 * Word16(s[2..])
  }

  lemma Word32OfLE32(x: nat, rest: seq<byte>)
    requires x < 0x1_0000_0000
    ensures Word32(LE32(x) + rest) == x
  {
    hide LE16, Word16;
    var s := LE32(x) + rest;
    assert s == LE16(x) + (LE16(x / 65536) + rest);
    assert s[2..] == LE16(x / 65536) + rest;
    Word16OfLE16(x, LE16(x / 65536) + rest);
    Word16OfLE16(x / 65536, rest);
  }

  method StoreBytes(buf: array<byte>, off: nat, s: seq<byte>)
    requires off + |s| <= buf.Length
    modifies buf
    ensures buf[..] == Splice(old(buf[..]), off, s)
  {
    forall i | 0 <= i < |s| {
      buf[off + i] := s[i];
    }
  }

  // ----- Laying bytes into the front of a buffer

  /** The buffer as it was, but for the bytes laid into its front. */
  ghost predicate Laid(s: seq<byte>, done: seq<byte>, orig: seq<byte>) {
    |done| <= |orig| && s == done + orig[|done|..]
  }

  lemma LaidStart(s: seq<byte>)
    ensures Laid(s, [], s)
  {
  }

  lemma LaidNext(s: seq<byte>, done: seq<byte>, orig: seq<byte>, next: seq<byte>, t: seq<byte>)
    requires Laid(s, done, orig) && |done| + |next| <= |orig|
    requires t == Splice(s, |done|, next)
    ensures Laid(t, done + next, orig)
  {
  }

  /** The gap filled in. */
  lemma LaidFilled(s: seq<byte>, pre: seq<byte>, gap: seq<byte>, rest: seq<byte>, orig: seq<byte>, h: seq<byte>,
                   t: seq<byte>)
    requires Laid(s, pre + gap + rest, orig) && |h| == |gap|
    requires t == Splice(s, |pre|, h)
    ensures Laid(t, pre + h + rest, orig)
  {
  }

  lemma LaidSlice(s: seq<byte>, pre: seq<byte>, rest: seq<byte>, orig: seq<byte>)
    requires Laid(s, pre + rest, orig)
    ensures |pre| + |rest| <= |s| && s[|pre|..|pre| + |rest|] == rest
  {
  }

  lemma LaidZero(s: seq<byte>, done: seq<byte>, orig: seq<byte>, n: nat)
    requires Laid(s, done, orig) && |done| + n <= |orig|
    requires forall i :: 0 <= i < |orig| ==> orig[i] == 0
    ensures ZeroFrom(s, |done|, n)
  {
  }

  lemma LaidLength(s: seq<byte>, done: seq<byte>, orig: seq<byte>)
    requires Laid(s, done, orig)
    ensures |s| == |orig| >= |done|
  {
  }

  lemma FrontIs(s: seq<byte>, done: seq<byte>, orig: seq<byte>)
    requires Laid(s, done, orig)
    ensures |done| <= |s| == |orig| && s[..|done|] == done
  {
  }
}

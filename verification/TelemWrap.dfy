// Telemetry frames: the writer with its running counter, and the loop of
// testing/writeGpsLocFile.c that walks a recorded stream of them.
module TelemWrap {
  import opened Bits
  import opened CompUtils
  import opened Records
  import opened Checksum

  const TW_LOS: int := 0
  const TW_SIP: int := 1
  const TW_PAD_BYTE: byte := 0xDA

  /** sizeof(unsigned long) on the machine that writes. */
  type Width = w: nat | w == 4 || w == 8 witness 4

  /** One past the largest counter value. */
  function Modulus(width: Width): (m: nat)
    ensures m >= 0x1_0000_0000
  {
    if width == 4 then 0x1_0000_0000 else 0x1_0000_0000 * 0x1_0000_0000
  }

  // ----- The frame

  function StartBytes(id: ushort): (s: seq<byte>)
    ensures |s| == 6
  {
    LE16(0xF00D) + LE16(0xD0CC) + LE16(id)
  }

  function EndBytes(): (s: seq<byte>)
    ensures |s| == 6
  {
    LE16(0xAEFF) + LE16(0xC0FE) + LE16(0xD0CC)
  }

  function CounterBytes(c: nat, width: Width): (s: seq<byte>)
    ensures |s| == width
  {
    if width == 4 then LE32(c) else LE32(c) + LE32(c / 0x1_0000_0000)
  }

  /** The payload with a pad byte if its size is odd. */
  function Padded(data: seq<byte>): (s: seq<byte>)
    ensures |s| % 2 == 0 && |s| == |data| + |data| % 2
  {
    if |data| % 2 == 1 then data + [TW_PAD_BYTE] else data
  }

  /** The size field, kept in an unsigned short: 65535 bytes and the pad give 0. */
  function SizeField(data: seq<byte>): ushort {
    |Padded(data)| % 65536
  }

  /** Only the words the size field counts are summed. */
  function FrameSum(data: seq<byte>): ushort
    requires |data| < 65536
  {
    Crc(Padded(data), SizeField(data) / 2)
  }

  function Frame(data: seq<byte>, id: ushort, c: nat, width: Width): (s: seq<byte>)
    requires |data| < 65536
    ensures |s| == 16 + width + |Padded(data)|
  {
    StartBytes(id) + CounterBytes(c, width) + LE16(SizeField(data)) + Padded(data) + LE16(FrameSum(data)) + EndBytes()
  }

  /** The writer with its static variables. */
  class Wrapper {
    const width: Width
    var startId: ushort
    var bufferCount: nat
    var datasource: int

    constructor (width0: Width)
      ensures width == width0 && startId == 0xAE00 && bufferCount == 0 && datasource == TW_LOS && Valid()
    {
      width := width0;
      startId, bufferCount, datasource := 0xAE00, 0, TW_LOS;
    }

    predicate Valid()
      reads this
    {
      bufferCount < Modulus(width)
    }

    /** Every call for SIP raises the identifier once more; none lowers it. */
    method Init(datasource0: int) returns (r: int)
      requires Valid()
      modifies this`startId, this`datasource
      ensures Valid()
      ensures r == if datasource0 == TW_LOS || datasource0 == TW_SIP then 0 else -1
      ensures startId == if datasource0 == TW_SIP then (old(startId) + 1) % 65536 else old(startId)
      ensures datasource == if r == 0 then datasource0 else old(datasource)
    {
      if datasource0 != TW_LOS && datasource0 != TW_SIP {
        return -1;
      }
      if datasource0 == TW_SIP {
        startId := (startId + 1) % 65536;
      }
      datasource := datasource0;
      return 0;
    }

    /** Lays the frame of `data` into the front of the buffer and counts it. */
    method Wrap(data: seq<byte>, wrapbuf: array<byte>) returns (len: nat)
      requires Valid() && |data| < 65536 && wrapbuf.Length >= 16 + width + |Padded(data)|
      modifies this`bufferCount, wrapbuf
      ensures Valid() && bufferCount == (old(bufferCount) + 1) % Modulus(width)
      ensures len == |Frame(data, startId, old(bufferCount), width)|
      ensures Laid(wrapbuf[..], Frame(data, startId, old(bufferCount), width), old(wrapbuf[..]))
    {
      hide StartBytes, CounterBytes, LE16, EndBytes, Laid, Modulus, Padded, FrameSum, SizeField, Frame;
      ghost var orig, c := wrapbuf[..], bufferCount;
      FrameParts(data, startId, c, width);
      CountUp(c, width);
      LaidStart(orig);
      var cp := Put(wrapbuf, 0, StartBytes(startId), [], orig);
      ghost var done := [] + StartBytes(startId);
      cp := Put(wrapbuf, cp, CounterBytes(bufferCount, width), done, orig);
      done := done + CounterBytes(c, width);
      bufferCount := (bufferCount + 1) % Modulus(width);
      cp := PutScience(wrapbuf, cp, data, done, orig);
      done := done + LE16(SizeField(data)) + Padded(data) + LE16(FrameSum(data));
      len := Put(wrapbuf, cp, EndBytes(), done, orig);
    }
  }

  lemma FrameParts(data: seq<byte>, id: ushort, c: nat, width: Width)
    requires |data| < 65536
    ensures Frame(data, id, c, width)
         == [] + StartBytes(id) + CounterBytes(c, width) + LE16(SizeField(data)) + Padded(data) + LE16(FrameSum(data))
            + EndBytes()
    ensures 2 * (SizeField(data) / 2) <= |Padded(data)| == |data| + |data| % 2
  {
    hide Padded, FrameSum;
    ghost var start, count := StartBytes(id), CounterBytes(c, width);
    assert [] + start == start;
  }

  /** The size field, the payload and its checksum; the size goes in last. */
  method PutScience(wrapbuf: array<byte>, cp0: nat, data: seq<byte>, ghost done: seq<byte>, ghost orig: seq<byte>)
    returns (cp: nat)
    requires |data| < 65536 && cp0 == |done| && |done| + 4 + |Padded(data)| <= wrapbuf.Length
    requires Laid(wrapbuf[..], done, orig)
    modifies wrapbuf
    ensures cp == |done| + 4 + |Padded(data)|
    ensures Laid(wrapbuf[..], done + LE16(SizeField(data)) + Padded(data) + LE16(FrameSum(data)), orig)
  {
    hide *;
    LaidLength(wrapbuf[..], done, orig);
    var nbytesp := cp0;
    ghost var gap := orig[cp0..cp0 + 2];
    LaidSkip(wrapbuf[..], done, orig, 2);
    var scidatap := cp0 + 2;
    var nbytes;
    cp, nbytes := PutPadded(wrapbuf, scidatap, data, done + gap, orig);
    ghost var before := wrapbuf[..];
    StoreBytes(wrapbuf, nbytesp, LE16(nbytes));
    LaidFilled(before, done, gap, Padded(data), orig, LE16(nbytes), wrapbuf[..]);
    SumOfLaid(wrapbuf[..], done + LE16(nbytes), data, orig);
    var checksum := SimpleCrcShort(wrapbuf[scidatap..], nbytes / 2);
    cp := Put(wrapbuf, cp, LE16(checksum), done + LE16(nbytes) + Padded(data), orig);
  }

  method PutPadded(wrapbuf: array<byte>, cp0: nat, data: seq<byte>, ghost done: seq<byte>, ghost orig: seq<byte>)
    returns (cp: nat, nbytes: ushort)
    requires |data| < 65536 && cp0 == |done| && |done| + |Padded(data)| <= wrapbuf.Length
    requires Laid(wrapbuf[..], done, orig)
    modifies wrapbuf
    ensures cp == cp0 + |Padded(data)| && nbytes == SizeField(data)
    ensures Laid(wrapbuf[..], done + Padded(data), orig)
  {
    hide Laid;
    nbytes := |data|;
    cp := Put(wrapbuf, cp0, data, done, orig);
    if nbytes % 2 != 0 {
      nbytes := (nbytes + 1) % 65536;
      cp := Put(wrapbuf, cp, [TW_PAD_BYTE], done + data, orig);
      Assoc(done, data, [TW_PAD_BYTE]);
    }
  }

  lemma SumOfLaid(s: seq<byte>, done: seq<byte>, data: seq<byte>, orig: seq<byte>)
    requires |data| < 65536 && Laid(s, done + Padded(data), orig)
    ensures |done| + |Padded(data)| <= |s| && 2 * (SizeField(data) / 2) <= |s| - |done|
    ensures Crc(s[|done|..], SizeField(data) / 2) == FrameSum(data)
  {
    LaidSlice(s, done, Padded(data), orig);
    SizeInside(data);
    hide *;
    assert s[|done|..][..|Padded(data)|] == s[|done|..|done| + |Padded(data)|];
    SumIs(data);
    CrcOfFront(s[|done|..], Padded(data), SizeField(data) / 2);
  }

  lemma SizeInside(data: seq<byte>)
    ensures 2 * (SizeField(data) / 2) <= |Padded(data)|
  {
  }

  lemma SumIs(data: seq<byte>)
    requires |data| < 65536
    ensures 2 * (SizeField(data) / 2) <= |Padded(data)|
    ensures FrameSum(data) == Crc(Padded(data), SizeField(data) / 2)
  {
  }

  /** memcpy to the moving pointer. */
  method Put(buf: array<byte>, cp0: nat, s: seq<byte>, ghost done: seq<byte>, ghost orig: seq<byte>) returns (cp: nat)
    requires cp0 == |done| && Laid(buf[..], done, orig) && |done| + |s| <= buf.Length
    modifies buf
    ensures cp == cp0 + |s| && Laid(buf[..], done + s, orig)
  {
    LaidLength(buf[..], done, orig);
    ghost var before := buf[..];
    StoreBytes(buf, cp0, s);
    LaidNext(before, done, orig, s, buf[..]);
    cp := cp0 + |s|;
  }

  lemma LaidSkip(s: seq<byte>, done: seq<byte>, orig: seq<byte>, k: nat)
    requires Laid(s, done, orig) && |done| + k <= |orig|
    ensures Laid(s, done + orig[|done|..|done| + k], orig)
  {
  }

  lemma CountUp(c: nat, width: Width)
    ensures (c + 1) % Modulus(width) < Modulus(width)
  {
  }

  lemma CrcOfFront(s: seq<byte>, t: seq<byte>, n: nat)
    requires 2 * n <= |t| <= |s| && s[..|t|] == t
    ensures Crc(s, n) == Crc(t, n)
  {
    WordSumOfFront(t, s, n);
  }

  // ----- What a frame promises

  /** A payload the size field can hold: not 65535 bytes, which the pad byte takes to 65536. */
  predicate Fits(data: seq<byte>) {
    |data| < 65535
  }

  /**
   * The words of the payload and the checksum sum to 0 modulo 2^16 for every
   * payload that fits; for one of 65535 bytes the checksum is that of nothing.
   */
  lemma FrameCloses(data: seq<byte>)
    requires |data| < 65536
    ensures Fits(data) ==> (WordSum(Padded(data), |Padded(data)| / 2) + FrameSum(data)) % 65536 == 0
    ensures !Fits(data) ==> FrameSum(data) == 0
  {
    hide WordSum;
    if Fits(data) {
      NegatedCloses(WordSum(Padded(data), |Padded(data)| / 2));
    } else {
      NoSum(Padded(data));
    }
  }

  lemma NoSum(s: seq<byte>)
    ensures Crc(s, 0) == 0
  {
  }

  // ----- A stream of frames

  ghost predicate AllFit(ps: seq<seq<byte>>) {
    forall k :: 0 <= k < |ps| ==> Fits(ps[k])
  }

  /** The counter k frames after one with counter c. */
  function CounterAt(c: nat, k: nat, width: Width): nat {
    (c + k) % Modulus(width)
  }

  /** The frames of the payloads, the counter running on from c. */
  ghost function Stream(ps: seq<seq<byte>>, id: ushort, c: nat, width: Width): seq<byte>
    requires AllFit(ps)
  {
    if ps == [] then []
    else Frame(ps[0], id, c, width) + Stream(ps[1..], id, (c + 1) % Modulus(width), width)
  }

  /** One more call of the writer: its frame goes behind the others, with the counter that many calls on. */
  lemma {:induction false} StreamSnoc(ps: seq<seq<byte>>, p: seq<byte>, id: ushort, c: nat, width: Width)
    requires AllFit(ps) && Fits(p) && c < Modulus(width)
    ensures AllFit(ps + [p])
    ensures Stream(ps + [p], id, c, width) == Stream(ps, id, c, width) + Frame(p, id, CounterAt(c, |ps|, width), width)
    decreases |ps|
  {
    hide Frame, Modulus;
    var f := Frame(p, id, CounterAt(c, |ps|, width), width);
    if ps == [] {
      CounterOn(c, 0, width);
      assert ps + [p] == [p] && [p][1..] == [];
      assert Stream([p], id, c, width) == f + Stream([], id, (c + 1) % Modulus(width), width) == f + [];
    } else {
      var next := (c + 1) % Modulus(width);
      CounterOn(c, |ps|, width);
      StreamSnoc(ps[1..], p, id, next, width);
      assert (ps + [p])[1..] == ps[1..] + [p] && (ps + [p])[0] == ps[0];
      Assoc(Frame(ps[0], id, c, width), Stream(ps[1..], id, next, width), f);
    }
  }

  /** The counter after k calls, modulo 2^32 or 2^64. */
  lemma CounterRange(c: nat, k: nat)
    ensures CounterAt(c, k, 4) == (c + k) % 0x1_0000_0000
    ensures CounterAt(c, k, 8) == (c + k) % 0x1_0000_0000_0000_0000
  {
  }

  lemma CounterOn(c: nat, k: nat, width: Width)
    requires c < Modulus(width)
    ensures CounterAt(c, 0, width) == c && (c + 1) % Modulus(width) < Modulus(width)
    ensures k > 0 ==> CounterAt((c + 1) % Modulus(width), k - 1, width) == CounterAt(c, k, width)
  {
    hide Modulus;
    var m := Modulus(width);
    ModSmall(c, m);
    if k > 0 {
      if c + 1 == m {
        ModUnique(c + 1, m, 1, 0);
        ModWrap(k - 1, m);
      } else {
        ModSmall(c + 1, m);
      }
    }
  }

  lemma ModWrap(k: nat, m: nat)
    requires m > 0
    ensures (k + m) % m == k % m
  {
    var q := k / m;
    assert k == q * m + k % m;
    assert (q + 1) * m == q * m + m;
    ModUnique(k + m, m, q + 1, k % m);
  }

  /** The words at which the frames begin, the first at word `pos`. */
  ghost function Positions(ps: seq<seq<byte>>, pos: nat): (qs: seq<nat>)
    ensures |qs| == |ps|
  {
    if ps == [] then [] else [pos] + Positions(ps[1..], pos + 10 + |Padded(ps[0])| / 2)
  }

  /** The bytes as the words the reader sees. */
  function WordsOf(s: seq<byte>): (ws: seq<ushort>)
    ensures |ws| == |s| / 2
  {
    seq(|s| / 2, i requires 0 <= i < |s| / 2 => WordAt(s, i))
  }

  // ----- The reader

  /** The header test at word `count`. */
  predicate Header(ws: seq<ushort>, count: nat)
    requires count + 6 <= |ws|
  {
    ws[count] == 0xF00D && ws[count + 1] == 0xD0CC && ws[count + 2] / 16 == 0xAE0
  }

  /** Words from a header to where the reader looks for the next one. */
  function Step(ws: seq<ushort>, count: nat): nat
    requires count + 6 <= |ws|
  {
    10 + ws[count + 5] / 2
  }

  /** The positions at which the loop recognises a header; `limit` is the number of bytes read. */
  function Visits(ws: seq<ushort>, count: nat, limit: nat): seq<nat>
    requires |ws| >= limit + 6
    decreases limit - count
  {
    if count >= limit then []
    else if Header(ws, count) then [count] + Visits(ws, count + Step(ws, count), limit)
    else Visits(ws, count + 1, limit)
  }

  /** The reader's loop, over its buffer of words. */
  method Walk(ws: seq<ushort>, numBytes: nat) returns (found: seq<nat>)
    requires |ws| >= numBytes + 6
    ensures found == Visits(ws, 0, numBytes)
  {
    found := [];
    var count := 0;
    while count < numBytes
      invariant found + Visits(ws, count, numBytes) == Visits(ws, 0, numBytes)
      decreases numBytes - count
    {
      if ws[count] == 0xF00D && ws[count + 1] == 0xD0CC && ws[count + 2] / 16 == 0xAE0 {
        Assoc(found, [count], Visits(ws, count + Step(ws, count), numBytes));
        found := found + [count];
        count := count + 10 + ws[count + 5] / 2;
      } else {
        count := count + 1;
      }
    }
    assert found + [] == found;
  }

  // ----- Reading what was written, with a counter of four bytes

  /** What the reader finds at a frame of 4-byte counters: the six words in front ... */
  lemma FrameWords(mem: seq<byte>, pos: nat, data: seq<byte>, id: ushort, c: nat, rest: seq<byte>)
    requires |data| < 65536 && c < 0x1_0000_0000 && 2 * pos <= |mem| && mem[2 * pos..] == Frame(data, id, c, 4) + rest
    ensures 2 * pos + 20 + |Padded(data)| <= |mem|
    ensures WordAt(mem, pos) == 0xF00D && WordAt(mem, pos + 1) == 0xD0CC && WordAt(mem, pos + 2) == id
    ensures WordAt(mem, pos + 3) + 65536 * WordAt(mem, pos + 4) == c
    ensures WordAt(mem, pos + 5) == SizeField(data)
  {
    hide *;
    var at := mem[2 * pos..];
    FrameLayout(data, id, c, rest);
    TwoHalves(c);
    assert at[0..] == at;
    WordHere(mem, pos, at, 0, 0xF00D);
    WordHere(mem, pos, at, 1, 0xD0CC);
    WordHere(mem, pos, at, 2, id);
    WordHere(mem, pos, at, 3, c);
    WordHere(mem, pos, at, 4, c / 65536);
    WordHere(mem, pos, at, 5, SizeField(data));
  }

  /** ... then the payload, and its checksum. */
  lemma FrameBody(mem: seq<byte>, pos: nat, data: seq<byte>, id: ushort, c: nat, rest: seq<byte>)
    requires |data| < 65536 && c < 0x1_0000_0000 && 2 * pos <= |mem| && mem[2 * pos..] == Frame(data, id, c, 4) + rest
    ensures 2 * pos + 20 + |Padded(data)| <= |mem|
    ensures mem[2 * pos + 12..2 * pos + 12 + |Padded(data)|] == Padded(data)
    ensures WordAt(mem, pos + 6 + |Padded(data)| / 2) == FrameSum(data)
  {
    hide *;
    var at, n := mem[2 * pos..], |Padded(data)|;
    var half := n / 2;
    FrameLayout(data, id, c, rest);
    EvenSize(data);
    assert n == 2 * half;
    WordHere(mem, pos, at, 6 + half, FrameSum(data));
    SliceShift(mem, 2 * pos, 12, 12 + n);
  }

  /** ... then the three words that end it. */
  lemma FrameEnd(mem: seq<byte>, pos: nat, data: seq<byte>, id: ushort, c: nat, rest: seq<byte>)
    requires |data| < 65536 && c < 0x1_0000_0000 && 2 * pos <= |mem| && mem[2 * pos..] == Frame(data, id, c, 4) + rest
    ensures 2 * pos + 20 + |Padded(data)| <= |mem|
    ensures var e := pos + 7 + |Padded(data)| / 2;
            WordAt(mem, e) == 0xAEFF && WordAt(mem, e + 1) == 0xC0FE && WordAt(mem, e + 2) == 0xD0CC
  {
    hide *;
    var at, half := mem[2 * pos..], |Padded(data)| / 2;
    EvenSize(data);
    FrameTail(data, id, c, rest);
    EndWords(at, 14 + 2 * half, rest);
    WordHere(mem, pos, at, 7 + half, 0xAEFF);
    WordHere(mem, pos, at, 8 + half, 0xC0FE);
    WordHere(mem, pos, at, 9 + half, 0xD0CC);
  }

  lemma FrameTail(data: seq<byte>, id: ushort, c: nat, rest: seq<byte>)
    requires |data| < 65536
    ensures var at, n := Frame(data, id, c, 4) + rest, |Padded(data)|;
            |at| == 20 + n + |rest| && at[14 + n..] == EndBytes() + rest
  {
    hide StartBytes, CounterBytes, LE16, EndBytes, Padded, FrameSum, SizeField;
    var front := StartBytes(id) + CounterBytes(c, 4) + LE16(SizeField(data)) + Padded(data) + LE16(FrameSum(data));
    assert Frame(data, id, c, 4) == front + EndBytes();
    Assoc(front, EndBytes(), rest);
    assert (front + (EndBytes() + rest))[|front|..] == EndBytes() + rest;
  }

  /** The payload fills its stretch, up to a pad byte. */
  lemma FramePayload(mem: seq<byte>, lo: nat, data: seq<byte>)
    requires lo + |Padded(data)| <= |mem| && mem[lo..lo + |Padded(data)|] == Padded(data)
    ensures |Padded(data)| == |data| + |data| % 2 && mem[lo..lo + |data|] == data
    ensures |data| % 2 == 1 ==> mem[lo + |data|] == 0xDA
  {
    assert mem[lo..lo + |Padded(data)|][..|data|] == mem[lo..lo + |data|];
  }

  lemma EndWords(at: seq<byte>, p: nat, rest: seq<byte>)
    requires p + 6 <= |at| && at[p..] == EndBytes() + rest
    ensures at[p..] == LE16(0xAEFF) + at[p + 2..] && at[p + 2..] == LE16(0xC0FE) + at[p + 4..]
    ensures at[p + 4..] == LE16(0xD0CC) + at[p + 6..]
  {
    hide LE16;
    var a, b, c := LE16(0xAEFF), LE16(0xC0FE), LE16(0xD0CC);
    assert at[p..] == a + (b + (c + rest));
    Peel(at, p, a, b + (c + rest));
    Peel(at, p + 2, b, c + rest);
    Peel(at, p + 4, c, rest);
  }

  /** A counter of eight bytes is little-endian, too. */
  lemma WideCounter(c: nat)
    requires c < Modulus(8)
    ensures var s := CounterBytes(c, 8); Word32(s) + 0x1_0000_0000 * Word32(s[4..]) == c
  {
    hide LE32, Word32;
    Word32OfLE32(c % 0x1_0000_0000, LE32(c / 0x1_0000_0000));
    Word32OfLE32(c / 0x1_0000_0000, []);
    LowHalf(c);
    assert CounterBytes(c, 8)[4..] == LE32(c / 0x1_0000_0000) + [];
  }

  lemma LowHalf(c: nat)
    ensures LE32(c) == LE32(c % 0x1_0000_0000)
  {
    var q, r := c / 0x1_0000_0000, c % 0x1_0000_0000;
    var a, b := r / 65536, r % 65536;
    ModUnique(c, 65536, 65536 * q + a, b);
    ModUnique(65536 * q + a, 65536, q, a);
    ModSmall(a, 65536);
    SameHalf(c, r);
    SameHalf(c / 65536, r / 65536);
  }

  lemma SameHalf(x: nat, y: nat)
    requires x % 65536 == y % 65536
    ensures LE16(x) == LE16(y)
  {
  }

  lemma TwoHalves(c: nat)
    requires c < 0x1_0000_0000
    ensures c % 65536 + 65536 * (c / 65536 % 65536) == c
  {
  }

  lemma EvenSize(data: seq<byte>)
    ensures |Padded(data)| % 2 == 0
  {
  }

  lemma WordHere(mem: seq<byte>, pos: nat, at: seq<byte>, k: nat, x: nat)
    requires 2 * pos <= |mem| && at == mem[2 * pos..] && 2 * k + 2 <= |at|
    requires at[2 * k..] == LE16(x) + at[2 * k + 2..]
    ensures 2 * (pos + k) + 2 <= |mem| && WordAt(mem, pos + k) == x % 65536
  {
    Word16OfLE16(x, at[2 * k + 2..]);
    FrontWord(mem, pos, k);
  }

  lemma FrontWord(mem: seq<byte>, pos: nat, k: nat)
    requires 2 * (pos + k) + 2 <= |mem|
    ensures WordAt(mem, pos + k) == Word16(mem[2 * pos..][2 * k..])
  {
  }

  /** The parts of a frame, one behind the other. */
  lemma FrameLayout(data: seq<byte>, id: ushort, c: nat, rest: seq<byte>)
    requires |data| < 65536
    ensures var at, n := Frame(data, id, c, 4) + rest, |Padded(data)|;
            && |at| == 20 + n + |rest| && |Frame(data, id, c, 4)| == 20 + n
            && at == LE16(0xF00D) + at[2..] && at[2..] == LE16(0xD0CC) + at[4..] && at[4..] == LE16(id) + at[6..]
            && at[6..] == LE16(c) + at[8..] && at[8..] == LE16(c / 65536) + at[10..]
            && at[10..] == LE16(SizeField(data)) + at[12..] && at[12..12 + n] == Padded(data)
            && at[12 + n..] == LE16(FrameSum(data)) + at[14 + n..]
  {
    var (start, sync, name, low, high) := (LE16(0xF00D), LE16(0xD0CC), LE16(id), LE16(c), LE16(c / 65536));
    var (size, body, sum, end) := (LE16(SizeField(data)), Padded(data), LE16(FrameSum(data)), EndBytes());
    var at := Frame(data, id, c, 4) + rest;
    Nested(start, sync, name, low, high, size, body, sum, end, rest);
    var r8 := sum + (end + rest);
    var r7 := body + r8;
    var r6 := size + r7;
    var r5 := high + r6;
    var r4 := low + r5;
    var r3 := name + r4;
    var r2 := sync + r3;
    assert at == start + r2;
    hide *;
    Peel(at, 0, start, r2);
    Peel(at, 2, sync, r3);
    Peel(at, 4, name, r4);
    Peel(at, 6, low, r5);
    Peel(at, 8, high, r6);
    Peel(at, 10, size, r7);
    Peel(at, 12, body, r8);
    Peel(at, 12 + |body|, sum, end + rest);
    assert at[12..12 + |body|] == at[12..][..|body|] == body;
  }

  lemma Peel<T>(at: seq<T>, k: nat, a: seq<T>, r: seq<T>)
    requires k <= |at| && at[k..] == a + r
    ensures k + |a| <= |at| && at[k + |a|..] == r
  {
    assert at[k..][|a|..] == at[k + |a|..];
  }

  lemma Nested<T>(a: seq<T>, b: seq<T>, c: seq<T>, d: seq<T>, e: seq<T>, f: seq<T>, g: seq<T>, h: seq<T>, i: seq<T>,
                  r: seq<T>)
    ensures (a + b + c) + (d + e) + f + g + h + i + r == a + (b + (c + (d + (e + (f + (g + (h + (i + r))))))))
  {
    Assoc(a + b + c + (d + e) + f + g + h, i, r);
    Assoc(a + b + c + (d + e) + f + g, h, i + r);
    Assoc(a + b + c + (d + e) + f, g, h + (i + r));
    Assoc(a + b + c + (d + e), f, g + (h + (i + r)));
    Assoc(a + b + c, d + e, f + (g + (h + (i + r))));
    Assoc(d, e, f + (g + (h + (i + r))));
    Assoc(a + b, c, d + (e + (f + (g + (h + (i + r))))));
    Assoc(a, b, c + (d + (e + (f + (g + (h + (i + r)))))));
  }

  /** Stepping from a frame's header reaches its end exactly when its payload fits. */
  lemma StepExact(mem: seq<byte>, pos: nat, data: seq<byte>, id: ushort, c: nat, rest: seq<byte>)
    requires |data| < 65536 && c < 0x1_0000_0000 && 2 * pos <= |mem| && mem[2 * pos..] == Frame(data, id, c, 4) + rest
    ensures pos + 6 <= |WordsOf(mem)|
    ensures Header(WordsOf(mem), pos) <==> id / 16 == 0xAE0
    ensures 2 * Step(WordsOf(mem), pos) == |Frame(data, id, c, 4)| <==> Fits(data)
  {
    hide *;
    FrameWords(mem, pos, data, id, c, rest);
    EvenSize(data);
    HeaderAt(mem, pos);
    SizeExact(data);
    FrameLayout(data, id, c, rest);
  }

  lemma HeaderAt(mem: seq<byte>, pos: nat)
    requires 2 * pos + 12 <= |mem|
    ensures pos + 6 <= |WordsOf(mem)|
    ensures Header(WordsOf(mem), pos)
       <==> WordAt(mem, pos) == 0xF00D && WordAt(mem, pos + 1) == 0xD0CC && WordAt(mem, pos + 2) / 16 == 0xAE0
    ensures Step(WordsOf(mem), pos) == 10 + WordAt(mem, pos + 5) / 2
  {
    hide WordAt;
  }

  lemma SizeExact(data: seq<byte>)
    requires |data| < 65536
    ensures SizeField(data) == |Padded(data)| <==> Fits(data)
    ensures SizeField(data) % 2 == 0
  {
  }

  lemma FramePiece(ps: seq<seq<byte>>, id: ushort, c: nat)
    requires AllFit(ps) && ps != []
    ensures AllFit(ps[1..]) && |ps[0]| < 65536 && Modulus(4) == 0x1_0000_0000
    ensures Stream(ps, id, c, 4) == Frame(ps[0], id, c, 4) + Stream(ps[1..], id, (c + 1) % Modulus(4), 4)
    ensures |Frame(ps[0], id, c, 4)| == 20 + |Padded(ps[0])| && |Padded(ps[0])| % 2 == 0
  {
    hide Frame, Padded;
  }

  lemma FirstFrame(mem: seq<byte>, pos: nat, ps: seq<seq<byte>>, id: ushort, c: nat, tail: seq<byte>)
    requires AllFit(ps) && ps != [] && 2 * pos <= |mem| && mem[2 * pos..] == Stream(ps, id, c, 4) + tail
    ensures AllFit(ps[1..]) && |ps[0]| < 65536 && Modulus(4) == 0x1_0000_0000
    ensures var f, rest, n := Frame(ps[0], id, c, 4), Stream(ps[1..], id, (c + 1) % Modulus(4), 4) + tail,
        |Padded(ps[0])|;
            && mem[2 * pos..] == f + rest && |f| == 20 + n
            && 2 * (pos + 10 + n / 2) <= |mem| && mem[2 * (pos + 10 + n / 2)..] == rest
            && |Stream(ps, id, c, 4)| == 20 + n + |Stream(ps[1..], id, (c + 1) % Modulus(4), 4)|
  {
    hide *;
    FramePiece(ps, id, c);
    var f, more := Frame(ps[0], id, c, 4), Stream(ps[1..], id, (c + 1) % Modulus(4), 4);
    Assoc(f, more, tail);
    Peel(mem, 2 * pos, f, more + tail);
  }

  /** The walk visits exactly the frames, then goes on behind them. */
  lemma {:induction false} StreamVisited(mem: seq<byte>, pos: nat, limit: nat, ps: seq<seq<byte>>, id: ushort, c: nat,
                                         tail: seq<byte>)
    requires AllFit(ps) && id / 16 == 0xAE0 && c < 0x1_0000_0000
    requires 2 * pos <= |mem| && mem[2 * pos..] == Stream(ps, id, c, 4) + tail
    requires |WordsOf(mem)| >= limit + 6 && 2 * pos + |Stream(ps, id, c, 4)| <= 2 * limit
    ensures |Stream(ps, id, c, 4)| % 2 == 0
    ensures Visits(WordsOf(mem), pos, limit)
         == Positions(ps, pos) + Visits(WordsOf(mem), pos + |Stream(ps, id, c, 4)| / 2, limit)
    decreases |ps|
  {
    hide *;
    var ws := WordsOf(mem);
    if ps == [] {
      NothingVisited(id, c, pos);
      assert [] + Visits(ws, pos, limit) == Visits(ws, pos, limit);
    } else {
      var n := |Padded(ps[0])|;
      FirstFrame(mem, pos, ps, id, c, tail);
      var rest := Stream(ps[1..], id, (c + 1) % Modulus(4), 4) + tail;
      EvenSize(ps[0]);
      StepExact(mem, pos, ps[0], id, c, rest);
      var next := pos + 10 + n / 2;
      PositionsCons(ps, pos, ws, limit);
      StreamVisited(mem, next, limit, ps[1..], id, (c + 1) % Modulus(4), tail);
      Assoc([pos], Positions(ps[1..], next), Visits(ws, pos + |Stream(ps, id, c, 4)| / 2, limit));
    }
  }

  lemma NothingVisited(id: ushort, c: nat, pos: nat)
    ensures AllFit([]) && Stream([], id, c, 4) == [] && Positions([], pos) == []
  {
  }

  lemma PositionsCons(ps: seq<seq<byte>>, pos: nat, ws: seq<ushort>, limit: nat)
    requires ps != [] && AllFit(ps)
    ensures AllFit(ps[1..]) && Fits(ps[0]) && |ps[0]| < 65536
    ensures Positions(ps, pos) == [pos] + Positions(ps[1..], pos + 10 + |Padded(ps[0])| / 2)
    ensures Modulus(4) == 0x1_0000_0000
    ensures |ws| >= limit + 6 && pos < limit && Header(ws, pos) ==>
              Visits(ws, pos, limit) == [pos] + Visits(ws, pos + Step(ws, pos), limit)
  {
    hide Header, Step, Padded;
  }

  /** The fields of a frame at word q: start, counter, size, payload with its pad byte, checksum, end. */
  ghost predicate FieldsAt(mem: seq<byte>, q: nat, data: seq<byte>, id: ushort, counter: nat)
    requires |data| < 65536
  {
    var n := |Padded(data)|;
    && n == |data| + |data| % 2 && 2 * q + 20 + n <= |mem|
    && WordAt(mem, q) == 0xF00D && WordAt(mem, q + 1) == 0xD0CC && WordAt(mem, q + 2) == id
    && WordAt(mem, q + 3) + 65536 * WordAt(mem, q + 4) == counter
    && WordAt(mem, q + 5) == n
    && mem[2 * q + 12..2 * q + 12 + |data|] == data && (|data| % 2 == 1 ==> mem[2 * q + 12 + |data|] == 0xDA)
    && WordAt(mem, q + 6 + n / 2) == FrameSum(data)
    && WordAt(mem, q + 7 + n / 2) == 0xAEFF && WordAt(mem, q + 8 + n / 2) == 0xC0FE
    && WordAt(mem, q + 9 + n / 2) == 0xD0CC
  }

  lemma FrameFieldsAt(mem: seq<byte>, pos: nat, data: seq<byte>, id: ushort, c: nat, rest: seq<byte>)
    requires |data| < 65536 && Fits(data) && c < 0x1_0000_0000
    requires 2 * pos <= |mem| && mem[2 * pos..] == Frame(data, id, c, 4) + rest
    ensures FieldsAt(mem, pos, data, id, c)
  {
    hide Padded, Frame, WordAt, FrameSum, SizeField, Fits;
    FrameWords(mem, pos, data, id, c, rest);
    FrameBody(mem, pos, data, id, c, rest);
    FrameEnd(mem, pos, data, id, c, rest);
    FramePayload(mem, 2 * pos + 12, data);
    SizeExact(data);
  }

  /** Frame k carries the counter c + k, modulo the counter's range, its payload and the payload's checksum. */
  lemma {:induction false} FrameFields(mem: seq<byte>, pos: nat, ps: seq<seq<byte>>, id: ushort, c: nat,
                                       tail: seq<byte>, k: nat)
    requires AllFit(ps) && c < 0x1_0000_0000 && k < |ps|
    requires 2 * pos <= |mem| && mem[2 * pos..] == Stream(ps, id, c, 4) + tail
    ensures FieldsAt(mem, Positions(ps, pos)[k], ps[k], id, CounterAt(c, k, 4))
    decreases |ps|
  {
    hide *;
    var n := |Padded(ps[0])|;
    FirstFrame(mem, pos, ps, id, c, tail);
    PositionsCons(ps, pos, [], 0);
    if k == 0 {
      FrameFieldsAt(mem, pos, ps[0], id, c, Stream(ps[1..], id, (c + 1) % Modulus(4), 4) + tail);
    } else {
      FrameFields(mem, pos + 10 + n / 2, ps[1..], id, (c + 1) % Modulus(4), tail, k - 1);
    }
    CounterOn(c, k, 4);
  }

  lemma {:induction false} NothingBehind(ws: seq<ushort>, count: nat, limit: nat)
    requires |ws| >= limit + 6 && forall i :: count <= i < limit ==> ws[i] != 0xF00D
    ensures Visits(ws, count, limit) == []
    decreases limit - count
  {
    if count < limit {
      NothingBehind(ws, count + 1, limit);
    }
  }

  /**
   * A recorded stream: with no 0xF00D in what the buffer holds behind it, the
   * reader finds the frames written, all of them and nothing else.
   */
  lemma FramesFound(ps: seq<seq<byte>>, id: ushort, c: nat, tail: seq<byte>, limit: nat)
    requires AllFit(ps) && id / 16 == 0xAE0 && c < 0x1_0000_0000
    requires var s := Stream(ps, id, c, 4);
             limit == |s| && |s + tail| / 2 >= limit + 6
             && forall i :: |s| / 2 <= i < limit ==> WordAt(s + tail, i) != 0xF00D
    ensures Visits(WordsOf(Stream(ps, id, c, 4) + tail), 0, limit) == Positions(ps, 0)
  {
    hide Frame, Padded, Visits, Stream;
    var mem := Stream(ps, id, c, 4) + tail;
    assert mem[0..] == mem;
    StreamVisited(mem, 0, limit, ps, id, c, tail);
    NothingBehind(WordsOf(mem), |Stream(ps, id, c, 4)| / 2, limit);
  }

  lemma {:induction false} JunkSkipped(ws: seq<ushort>, count: nat, at: nat, limit: nat)
    requires count <= at <= limit && |ws| >= limit + 6 && forall i :: count <= i < at ==> ws[i] != 0xF00D
    ensures Visits(ws, count, limit) == Visits(ws, at, limit)
    decreases at - count
  {
    if count < at {
      JunkSkipped(ws, count + 1, at, limit);
    }
  }

  /** And so it does behind bytes of another kind, wherever among them it begins to read. */
  lemma FramesFoundBehind(front: seq<byte>, ps: seq<seq<byte>>, id: ushort, c: nat, tail: seq<byte>, from: nat,
                          limit: nat)
    requires AllFit(ps) && id / 16 == 0xAE0 && c < 0x1_0000_0000 && |front| % 2 == 0 && from <= |front| / 2
    requires var mem := front + (Stream(ps, id, c, 4) + tail);
             && |mem| / 2 >= limit + 6 && |front| + |Stream(ps, id, c, 4)| <= 2 * limit
             && (forall i :: from <= i < |front| / 2 ==> WordAt(mem, i) != 0xF00D)
             && forall i :: (|front| + |Stream(ps, id, c, 4)|) / 2 <= i < limit ==> WordAt(mem, i) != 0xF00D
    ensures Visits(WordsOf(front + (Stream(ps, id, c, 4) + tail)), from, limit) == Positions(ps, |front| / 2)
  {
    hide Frame, Padded, Visits, Stream, WordAt;
    var s := Stream(ps, id, c, 4);
    var mem, at := front + (s + tail), |front| / 2;
    assert mem[2 * at..] == s + tail;
    StreamVisited(mem, at, limit, ps, id, c, tail);
    JunkSkipped(WordsOf(mem), from, at, limit);
    NothingBehind(WordsOf(mem), at + |s| / 2, limit);
  }
}

// What lies where in a channel's record and an encoded event, the numbers of
// the encoding types, and the headers the decoders refuse.
module Formats {
  import opened Bits
  import opened Fibonacci
  import opened CompUtils
  import opened Encoding
  import opened Records
  import opened CodeScan
  import opened WaveBinary
  import opened WaveFibonacci
  import opened WaveBinFib
  import opened WaveBinFibDecode
  import opened ComboRecovery
  import opened Pack12Bit
  import opened Checksum
  import opened Channel
  import opened ChannelCodec
  import opened ChannelTrip
  import opened EventFormat

  // ----- The header of a record

  /** A 16-bit number by its low and its high byte. */
  function TwoBytes(low: byte, high: byte): nat {
    low as nat + 256 * (high as nat)
  }

  /** Byte by byte: the raw header, then type, size and checksum, each with its low byte first. */
  lemma HeaderLayout(h: ChannelHeader)
    requires h.encType < 0x1_0000_0000 && h.numBytes < 65536 && h.crc < 65536
    ensures var s := HeaderBytes(h);
            && s[0] == h.rawHdr.chanId && s[1] == h.rawHdr.chipIdFlag
            && s[2] == h.rawHdr.firstHitbus && s[3] == h.rawHdr.lastHitbus
            && TwoBytes(s[4], s[5]) + 65536 * TwoBytes(s[6], s[7]) == h.encType
            && TwoBytes(s[8], s[9]) == h.numBytes
            && TwoBytes(s[10], s[11]) == h.crc
  {
    BytesOfWord(h.numBytes);
    BytesOfWord(h.crc);
    BytesOfLong(h.encType);
    hide LE16, LE32;
  }

  /** A word's low byte comes first. */
  lemma BytesOfWord(x: nat)
    requires x < 65536
    ensures TwoBytes(LE16(x)[0], LE16(x)[1]) == x
  {
  }

  lemma BytesOfLong(x: nat)
    requires x < 0x1_0000_0000
    ensures var s := LE32(x); TwoBytes(s[0], s[1]) + 65536 * TwoBytes(s[2], s[3]) == x
  {
    HalfSmall(x);
    BytesOfWord(x % 65536);
    BytesOfWord(x / 65536);
    LowWord(x);
    hide LE16;
  }

  lemma HalfSmall(x: nat)
    requires x < 0x1_0000_0000
    ensures x / 65536 < 65536 && x == x % 65536 + 65536 * (x / 65536)
  {
  }

  lemma LowWord(x: nat)
    ensures LE16(x) == LE16(x % 65536)
  {
  }

  // ----- Where an event's numbers lie

  /** A SURF's packet: the event's number and the pedestal run behind the generic header, then the records. */
  lemma PacketLayout(j: Job, s: nat)
    requires ValidJob(j) && s < ACTIVE_SURFS
    ensures var p := Packet(j, s);
            && |p| >= 24 && Word32(p) == 0x122
            && Word32(p[16..]) == j.event.eventNumber && Word32(p[20..]) == j.event.whichPeds
            && p[24..] == SurfRecords(j, s, 0)
  {
    hide SurfRecords, LE32, Word32, Encodable, WellFormed, Blank;
    var rest := Numbers(j) + SurfRecords(j, s, 0);
    var h, a, b, r := Filled(j, PACKET_ENC_SURF_PEDSUB, rest), LE32(j.event.eventNumber), LE32(j.event.whichPeds),
                      SurfRecords(j, s, 0);
    ThreeParts(h, a, b, r);
    Word32OfLE32(j.event.eventNumber, b + r);
    Word32OfLE32(j.event.whichPeds, r);
    WordInFront(h, rest);
  }

  lemma ThreeParts(h: seq<byte>, a: seq<byte>, b: seq<byte>, r: seq<byte>)
    requires |h| == 16 && |a| == |b| == 4
    ensures var p := h + (a + b + r);
            p[16..] == a + (b + r) && p[20..] == b + r && p[24..] == r
  {
  }

  lemma WordInFront(a: seq<byte>, b: seq<byte>)
    requires |a| >= 4
    ensures Word32(a + b) == Word32(a)
  {
  }

  /** The wrapper: the event's number, and the bytes of all that is behind the wrapper. */
  lemma WrapperLayout(j: Job)
    requires ValidJob(j) && |Packets(j, 0)| < 0x1_0000_0000
    ensures var r := EventRecord(j);
            && |r| >= 24 && Word32(r) == 0x126
            && Word32(r[16..]) == j.event.eventNumber && Word32(r[20..]) == |r| - 24
            && r[24..] == Packets(j, 0)
  {
    hide Packets, LE32, Word32, Encodable, WellFormed, Blank;
    var a, b, r := LE32(j.event.eventNumber), LE32(|Packets(j, 0)|), Packets(j, 0);
    var rest := a + b + r;
    var h := Filled(j, PACKET_ENC_PEDSUB_EVENT_WRAPPER, rest);
    ThreeParts(h, a, b, r);
    Word32OfLE32(j.event.eventNumber, b + r);
    Word32OfLE32(|Packets(j, 0)|, r);
    WordInFront(h, rest);
  }

  /** A packet's records are those of its SURF's nine channels, in order. */
  lemma {:induction false} SurfLayout(j: Job, s: nat, c: nat, k: nat)
    requires ValidJob(j) && s < ACTIVE_SURFS && c <= k < 9
    ensures 9 * s + k < CHANNELS
    ensures var all, r := SurfRecords(j, s, c), Record(j, 9 * s + k);
            var at := |all| - |SurfRecords(j, s, k)|;
            && 0 <= at && at + |r| + |SurfRecords(j, s, k + 1)| == |all| && all[at..at + |r|] == r
    decreases k - c
  {
    hide *;
    RecordsUnfold(j, s, c);
    RecordsUnfold(j, s, k);
    var r, rest := Record(j, ChanIndex(s, c)), SurfRecords(j, s, c + 1);
    if c < k {
      SurfLayout(j, s, c + 1, k);
      PieceBehind(r, rest, |rest| - |SurfRecords(j, s, k)|, |Record(j, 9 * s + k)|);
    } else {
      PieceInFront(r, rest);
    }
  }

  lemma RecordsUnfold(j: Job, s: nat, c: nat)
    requires ValidJob(j) && s < ACTIVE_SURFS && c < 9
    ensures ChanIndex(s, c) == 9 * s + c < CHANNELS && CHANNELS_PER_SURF == 9 && ACTIVE_SURFS == 12
    ensures SurfRecords(j, s, c) == Record(j, ChanIndex(s, c)) + SurfRecords(j, s, c + 1)
  {
    hide Record, ValidJob;
  }

  lemma PieceInFront(r: seq<byte>, rest: seq<byte>)
    ensures (r + rest)[0..|r|] == r
  {
  }

  lemma PieceBehind(r: seq<byte>, rest: seq<byte>, at: nat, n: nat)
    requires at + n <= |rest|
    ensures (r + rest)[|r| + at..|r| + at + n] == rest[at..at + n]
  {
  }

  // ----- The numbers of the types

  /** Each width has its own number, and the decoder reads it as that width. */
  lemma TypeNumbers()
    ensures BinaryEncType(11) == 0x102 && BinaryEncType(10) == 0x103 && BinaryEncType(9) == 0x104
    ensures BinaryEncType(8) == 0x105 && BinaryEncType(7) == 0x106 && BinaryEncType(6) == 0x107
    ensures BinaryEncType(5) == 0x108 && BinaryEncType(4) == 0x109 && BinaryEncType(3) == 0x10A
    ensures BinaryEncType(2) == 0x10B && BinaryEncType(1) == 0x10C
    ensures forall b :: b < 1 || b > 11 ==> BinaryEncType(b) == 0x100
    ensures BinFibEncType(10) == 0x201 && BinFibEncType(9) == 0x202 && BinFibEncType(8) == 0x203
    ensures BinFibEncType(7) == 0x204 && BinFibEncType(6) == 0x205 && BinFibEncType(5) == 0x206
    ensures BinFibEncType(4) == 0x207 && BinFibEncType(3) == 0x208 && BinFibEncType(2) == 0x209
    ensures BinFibEncType(1) == 0x20A
    ensures forall b :: b < 1 || b > 10 ==> BinFibEncType(b) == 0x201
    ensures forall t: nat :: t < 0x102 || t > 0x10C ==> BinaryBitSize(t) == 12
    ensures forall t: nat :: t < 0x201 || t > 0x20A ==> BinFibBitSize(t) == 10
  {
  }

  /** A type no encoder is asked for by is sent unencoded. */
  lemma OtherTypes(t: nat, w: seq<short>, st: Stats)
    requires Encodable(t, st) && |w| == SAMPLES && t != 0x100 && t != 0x101 && t != 0x10D && t != 0x200
    ensures ActualType(t, st) == 0 && Body(t, w, st) == NoneRecord(w)
  {
  }

  /** The header names what was asked for, or the width taken. */
  lemma TypesWritten(t: nat, st: Stats)
    requires Encodable(t, st)
    ensures t == 0x100 || t == 0x10D ==> ActualType(t, st) == t
    ensures t == 0x101 ==> ActualType(t, st) == 0x100 || 0x102 <= ActualType(t, st) <= 0x10C
    ensures t == 0x200 ==> 0x201 <= ActualType(t, st) <= 0x20A
  {
  }

  // ----- What the decoders refuse

  /** The types a decoder knows. */
  predicate KnownType(t: nat) {
    t == 0 || t == 0x100 || 0x102 <= t <= 0x10D || 0x200 <= t <= 0x20A || 0x307 <= t <= 0x320
  }

  /**
   * Bytes a wave of a fixed-size type takes: two a sample, three for two samples, or b bits a
   * sample behind the mean.
   */
  function LeastSize(t: nat): nat
    requires t == 0 || t == 0x100 || 0x102 <= t <= 0x10C
  {
    if t == 0 then 520 else if t == 0x100 then 390 else 2 + 260 * (11 - (t - 0x102)) / 8
  }

  /**
   * Exactly when the result is a code error or, for a type of fixed size, a size
   * error: another type, another size, or for the binary types a size too small.
   */
  lemma RefusedExactly(t: nat, n: nat, input: seq<byte>, prior: seq<short>, env: Surroundings)
    requires |prior| == SAMPLES && |input| >= n + BEHIND && Roomy(env)
    ensures !KnownType(t) ==> DecodedWave(t, n, input, prior, env).0 == BadCode
    ensures !KnownType(t) ==>
              DecodedWave(t, n, input, prior, env).1 == if n == 520 then NoneSamples(input, SAMPLES) else prior
    ensures t == 0 || t == 0x100 ==>
              DecodedWave(t, n, input, prior, env).0 == if n == LeastSize(t) then Ok else BadSize
    ensures (t == 0 || t == 0x100) && n != LeastSize(t) ==> DecodedWave(t, n, input, prior, env).1 == prior
    ensures 0x102 <= t <= 0x10C ==>
              DecodedWave(t, n, input, prior, env).0 == if n >= LeastSize(t) then Ok else BadSize
    ensures 0x200 <= t <= 0x20A ==> DecodedWave(t, n, input, prior, env).0 == Ok
    ensures 0x307 <= t <= 0x320 ==>
              DecodedWave(t, n, input, prior, env).0 == env.lossy(input, n, t, prior).0
  {
    hide Flat, Table, ComboSamples, Samples12, NoneSamples, FibRun, Span, DecodedSamples, SamplesStored, Flags,
         S8, HeadMean, Overlay, Reach, BinFibBitSize;
    if 0x102 <= t <= 0x10C {
      SpanOfWave(BinaryBitSize(t));
    }
  }

  /** A wrong checksum comes before everything else, and leaves the channel as it was. */
  lemma ChecksumFirst(h: ChannelHeader, input: seq<byte>, prior: ChannelValue, env: Surroundings)
    requires |prior.data| == SAMPLES && |input| >= h.numBytes + BEHIND && Roomy(env)
    ensures var (code, ch, _) := DecodedChannel(h, input, prior, env);
            && (Crc(input, h.numBytes / 2) != h.crc ==> code == BadCrc && ch == prior)
            && (Crc(input, h.numBytes / 2) == h.crc ==> ch.header == h.rawHdr)
            && (Crc(input, h.numBytes / 2) == h.crc && !KnownType(h.encType) ==> code == BadCode)
  {
    hide Crc, DecodedWave;
    RefusedExactly(h.encType, h.numBytes, input, prior.data, env);
  }

  // ----- Where a wave's samples lie

  /** Unencoded: sample k in bytes 2k and 2k+1, low byte first. */
  lemma {:induction false} NoneLayout(w: seq<short>, k: nat)
    requires k < |w|
    ensures TwoBytes(NoneRecord(w)[2 * k], NoneRecord(w)[2 * k + 1]) == (w[k] as int) % 65536
  {
    if k == |w| - 1 {
      BytesOfShort(w[k]);
      hide LE16;
      assert NoneRecord(w)[2 * k..] == LE16(w[k]);
      assert NoneRecord(w)[2 * k] == NoneRecord(w)[2 * k..][0] && NoneRecord(w)[2 * k + 1] == NoneRecord(w)[2 * k..][1];
    } else {
      NoneLayout(w[..|w| - 1], k);
    }
  }

  lemma BytesOfShort(x: int)
    ensures TwoBytes(LE16(x)[0], LE16(x)[1]) == x % 65536
  {
  }

  /**
   * Four values in three words: the low twelve bits of the first three, and the fourth's
   * nibbles above them, lowest first.
   */
  lemma PackedLayout(w: seq<ushort>)
    requires |w| == 4
    ensures var s := Packed(w);
            && Word16(s) % 4096 == w[0] % 4096 && Word16(s) / 4096 == w[3] % 16
            && Word16(s[2..]) % 4096 == w[1] % 4096 && Word16(s[2..]) / 4096 == w[3] / 16 % 16
            && Word16(s[4..]) % 4096 == w[2] % 4096 && Word16(s[4..]) / 4096 == w[3] / 256 % 16
  {
    var n0, n1, n2 := Nibble(w[3], 0), Nibble(w[3], 1), Nibble(w[3], 2);
    var a, b, c := Topped(w[0], n0), Topped(w[1], n1), Topped(w[2], n2);
    ToppedSplit(w[0], n0);
    ToppedSplit(w[1], n1);
    ToppedSplit(w[2], n2);
    hide LE16, Word16, Topped;
    assert Packed(w) == LE16(a) + (LE16(b) + LE16(c));
    assert Packed(w)[2..] == LE16(b) + LE16(c) && Packed(w)[4..] == LE16(c) + [];
    Word16OfLE16(a, LE16(b) + LE16(c));
    Word16OfLE16(b, LE16(c));
    Word16OfLE16(c, []);
  }

  lemma ToppedSplit(v: nat, n: nat)
    requires n < 16
    ensures Topped(v, n) % 4096 == v % 4096 && Topped(v, n) / 4096 == n && Topped(v, n) % 65536 == Topped(v, n)
  {
  }

  /** The binary record: the middle of the range in front, then sample k's zig-zag code in bits k b to k b + b - 1. */
  lemma BinaryLayout(w: seq<short>, mean: short, b: nat, tail: seq<byte>, k: nat)
    requires b <= 16 && k < |w|
    ensures var s := BinaryRecord(w, mean, b) + tail;
            && TwoBytes(s[0], s[1]) == (mean as int) % 65536
            && Span(k + 1, b) <= |Flat(s)[16..]|
            && FieldAt(Flat(s)[16..], b, k) == Bifurcate(Distance(w[k], mean)) % Pow2(b)
  {
    hide Flat, Pack, WordBits, Zeros, FieldAt, Bifurcate, Distance, Pow2;
    var codes := ZigZag(w, mean);
    RecordBits(LE16(mean), WordBits(codes, b), tail);
    FieldOfStream(codes, b, Zeros(Padding(|WordBits(codes, b)|)) + Flat(tail), k);
    BytesOfShort(mean);
  }

  /** The zig-zag map: 0 to 1, and from there outwards, odd numbers above and even ones below. */
  lemma ZigZagOrder(d: short)
    ensures Bifurcate(0) == 1
    ensures d > 0 ==> Bifurcate(d) == Bifurcate(d - 1) + 2
    ensures -32768 < d < 0 ==> Bifurcate(d) == if d == -1 then 2 else Bifurcate(d + 1) + 2
    ensures d == -32768 ==> Bifurcate(d) == 0
  {
  }

  // ----- Decoders on input no encoder wrote

  /** A short keeps the lowest 16 bits, as the one number of its range that differs by a multiple of 2^16. */
  lemma S16Exactly(x: int)
    ensures -32768 <= S16(x) < 32768 && (S16(x) - x) % 65536 == 0
  {
  }

  /** The binary decoder stores samples up to the first that ends behind the size in the header, and that one. */
  lemma {:induction false} StoredExactly(b: nat, numBytes: int, n: nat, k: nat)
    requires k <= n
    ensures var stored := SamplesStored(b, numBytes, n, k);
            && (forall i :: k < i < stored ==> 2 + i * b / 8 <= numBytes)
            && (stored == n || (stored > k && 2 + stored * b / 8 > numBytes))
    decreases n - k
  {
    if k < n {
      SpanIsProduct(k + 1, b);
      hide Span;
      StoredExactly(b, numBytes, n, k + 1);
    }
  }

  /** Where the window holds no two neighbouring ones, the Fibonacci decoder leaves the sample and stays where it is. */
  lemma NoPairNoSample(f: seq<bool>, pos: nat, prior: short, mean: int, hi: Bit32)
    requires WindowEnd(pos) <= |f| && NoPair(f[pos..WindowEnd(pos)] + [hi(pos)])
    ensures FibStep(f, pos, prior, mean, hi) == (prior, pos)
  {
    hide WordSample;
    var ws := f[pos..WindowEnd(pos)] + [hi(pos)];
    assert ws[..|ws|] == ws;
    PairEndBeyond(ws, |ws|);
  }

  /** A word whose low bits hold no two neighbouring ones is decoded as the sum of all its digits. */
  lemma NoPairAllDigits(m: nat, input: nat)
    requires NoPair(Field(input, m))
    ensures Unfib(m, input) == FibSum(Field(input, m)) % 65536
  {
    hide FibSum, Field;
    var bs := Field(input, m);
    assert bs[..|bs|] == bs;
    PairEndBeyond(bs, |bs|);
  }
}

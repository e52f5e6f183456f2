// The 16-bit checksum of a channel record and of a telemetry frame: the word
// that brings the sum of all words to 0 modulo 2^16.
module Checksum {
  import opened Bits
  import opened CompUtils
  import opened Records

  /** The i-th little-endian word of some bytes. */
  function WordAt(s: seq<byte>, i: nat): ushort
    requires 2 * i + 2 <= |s|
  {
    Word16(s[2 * i..])
  }

  /** The sum of the first n words. */
  function WordSum(s: seq<byte>, n: nat): nat
    requires 2 * n <= |s|
  {
    if n == 0 then 0 else WordSum(s, n - 1) + WordAt(s, n - 1)
  }

  function Negated(sum: nat): ushort {
    (65536 - sum % 65536) % 65536
  }

  function Crc(s: seq<byte>, n: nat): ushort
    requires 2 * n <= |s|
  {
    Negated(WordSum(s, n))
  }

  method SimpleCrcShort(s: seq<byte>, n: nat) returns (crc: ushort)
    requires 2 * n <= |s|
    ensures crc == Crc(s, n)
  {
    hide WordAt;
    var sum: ushort := 0;
    var i := 0;
    while i < n
      invariant 0 <= i <= n
      invariant sum == WordSum(s, i) % 65536
    {
      sum := (sum + WordAt(s, i)) % 65536;
      i := i + 1;
    }
    crc := (0xffff - sum + 1) % 65536;
  }

  /** The words and their checksum sum to 0. */
  lemma NegatedCloses(sum: nat)
    ensures (sum + Negated(sum)) % 65536 == 0
  {
  }

  /** Equal checksums mean equal sums modulo 2^16. */
  lemma NegatedInjective(a: nat, b: nat)
    ensures Negated(a) == Negated(b) <==> a % 65536 == b % 65536
  {
  }

  /** Only the first n words count. */
  lemma WordSumOfFront(s: seq<byte>, t: seq<byte>, n: nat)
    requires 2 * n <= |s| && s <= t
    ensures WordSum(t, n) == WordSum(s, n)
  {
  }

  /** A single changed word changes the sum by the difference. */
  lemma {:induction false} WordSumChange(s: seq<byte>, t: seq<byte>, n: nat, i: nat)
    requires 2 * n <= |s| == |t| && i < n
    requires forall j :: 0 <= j < n && j != i ==> WordAt(s, j) == WordAt(t, j)
    ensures WordSum(t, n) - WordSum(s, n) == WordAt(t, i) - WordAt(s, i)
  {
    if i < n - 1 {
      WordSumChange(s, t, n - 1, i);
    } else {
      WordSumSame(s, t, n - 1);
    }
  }

  lemma WordSumSame(s: seq<byte>, t: seq<byte>, n: nat)
    requires 2 * n <= |s| == |t|
    requires forall j :: 0 <= j < n ==> WordAt(s, j) == WordAt(t, j)
    ensures WordSum(t, n) == WordSum(s, n)
  {
  }

  /** Of the first n words, word i and no other differs. */
  ghost predicate OneAltered(s: seq<byte>, t: seq<byte>, n: nat, i: nat) {
    && 2 * n <= |s| == |t| && i < n
    && WordAt(s, i) != WordAt(t, i)
    && forall j :: 0 <= j < n && j != i ==> WordAt(s, j) == WordAt(t, j)
  }

  /** Altering any single word alters the checksum. */
  lemma CrcDetects(s: seq<byte>, t: seq<byte>, n: nat, i: nat)
    requires OneAltered(s, t, n, i)
    ensures Crc(s, n) != Crc(t, n)
  {
    WordSumChange(s, t, n, i);
    hide WordSum, WordAt;
    NegatedInjective(WordSum(s, n), WordSum(t, n));
    if Crc(s, n) == Crc(t, n) {
      CloseSums(WordSum(s, n), WordSum(t, n));
    }
  }

  lemma CloseSums(a: nat, b: nat)
    requires a % 65536 == b % 65536 && -65536 < a - b < 65536
    ensures a == b
  {
  }

  // ----- What it is the negative of

  /** One word's checksum is its negative. */
  lemma CrcOfWord(x: ushort)
    ensures Crc(LE16(x), 1) == (65536 - x) % 65536
  {
    Word16OfLE16(x, []);
    hide LE16, Word16;
    assert LE16(x) + [] == LE16(x) && LE16(x)[2 * 0..] == LE16(x);
    assert WordSum(LE16(x), 1) == WordSum(LE16(x), 0) + WordAt(LE16(x), 0);
  }

  /** Word sums of stretches one behind the other add up. */
  lemma {:induction false} WordSumJoin(a: seq<byte>, b: seq<byte>, n: nat)
    requires |a| % 2 == 0 && 2 * n <= |b|
    ensures WordSum(a + b, |a| / 2 + n) == WordSum(a, |a| / 2) + WordSum(b, n)
  {
    hide Word16;
    if n == 0 {
      WordSumOfFront(a, a + b, |a| / 2);
    } else {
      WordSumJoin(a, b, n - 1);
      var i := |a| / 2 + (n - 1);
      assert (a + b)[2 * i..] == b[2 * (n - 1)..];
    }
  }

  /** The checksum of two stretches of whole words is the sum of theirs, modulo 2^16. */
  lemma CrcJoin(a: seq<byte>, b: seq<byte>)
    requires |a| % 2 == 0 && |b| % 2 == 0
    ensures Crc(a + b, (|a| + |b|) / 2) == (Crc(a, |a| / 2) + Crc(b, |b| / 2)) % 65536
  {
    WordSumJoin(a, b, |b| / 2);
    hide WordSum;
    NegatedSum(WordSum(a, |a| / 2), WordSum(b, |b| / 2));
  }

  lemma NegatedSum(x: nat, y: nat)
    ensures Negated(x + y) == (Negated(x) + Negated(y)) % 65536
  {
    var a, b := x % 65536, y % 65536;
    var q := x / 65536 + y / 65536;
    if a + b < 65536 {
      ModUnique(x + y, 65536, q, a + b);
    } else {
      ModUnique(x + y, 65536, q + 1, a + b - 65536);
    }
    NegatedSmall(a, b);
  }

  lemma NegatedSmall(a: ushort, b: ushort)
    ensures var n := (65536 - a) % 65536 + (65536 - b) % 65536;
            n % 65536 == if a + b < 65536 then (65536 - (a + b)) % 65536 else (65536 - (a + b - 65536)) % 65536
  {
  }
}

// The C string routines the key/value store leans on: trimming, searching,
// printing integers and reading them back.
module KvpText {
  /** isspace in the C locale. */
  predicate Space(c: char) { c == ' ' || '\t' <= c <= '\r' }

  function TrimLeft(s: string): (r: string)
    ensures |r| <= |s|
  {
    if s != "" && Space(s[0]) then TrimLeft(s[1..]) else s
  }

  function TrimRight(s: string): (r: string)
    ensures |r| <= |s|
  {
    if s != "" && Space(s[|s| - 1]) then TrimRight(s[..|s| - 1]) else s
  }

  function Strip(s: string): (r: string)
    ensures |r| <= |s|
  {
    TrimRight(TrimLeft(s))
  }

  predicate Trimmed(s: string) {
    s == "" || (!Space(s[0]) && !Space(s[|s| - 1]))
  }

  lemma {:induction false} StripTrims(s: string)
    ensures Trimmed(Strip(s))
  {
    LeftTrims(s);
    RightTrims(TrimLeft(s));
  }

  lemma LeftTrims(s: string)
    ensures TrimLeft(s) == "" || !Space(TrimLeft(s)[0])
  {
  }

  lemma RightTrims(s: string)
    requires s == "" || !Space(s[0])
    ensures Trimmed(TrimRight(s))
  {
  }

  lemma StripTrimmed(s: string)
    requires Trimmed(s)
    ensures Strip(s) == s
  {
  }

  lemma StripAfterSpace(c: char, s: string)
    requires Space(c) && Trimmed(s)
    ensures Strip([c] + s) == s
  {
    var t := [c] + s;
    assert t[0] == c && t[1..] == s;
    assert TrimLeft(t) == TrimLeft(s);
    StripTrimmed(s);
  }

  /** Trimming adds no characters. */
  lemma {:induction false} StripNone(s: string, c: char)
    requires c !in s
    ensures c !in Strip(s)
  {
    LeftNone(s, c);
    RightNone(TrimLeft(s), c);
  }

  lemma LeftNone(s: string, c: char)
    requires c !in s
    ensures c !in TrimLeft(s)
  {
  }

  lemma RightNone(s: string, c: char)
    requires c !in s
    ensures c !in TrimRight(s)
  {
  }

  /** strchr: the first place of a character, or -1. */
  function Find(s: string, c: char): (i: int)
    ensures -1 <= i < |s|
    ensures i >= 0 ==> s[i] == c
    ensures forall k :: 0 <= k < (if i >= 0 then i else |s|) ==> s[k] != c
  {
    if s == "" then -1
    else if s[0] == c then 0
    else
      var i := Find(s[1..], c);
      if i < 0 then -1 else i + 1
  }

  lemma FindBehind(a: string, c: char, b: string)
    requires c !in a
    ensures Find(a + [c] + b, c) == |a|
  {
    var s := a + [c] + b;
    assert s[|a|] == c;
    forall k | 0 <= k < |a| ensures s[k] != c {
      assert s[k] == a[k];
    }
  }

  // ----- Digits

  /** The value of a digit or a letter in any base up to 36; 99 for anything else. */
  function DigitOf(c: char): (d: nat) {
    if '0' <= c <= '9' then (c - '0') as nat
    else if 'a' <= c <= 'z' then (c - 'a') as nat + 10
    else if 'A' <= c <= 'Z' then (c - 'A') as nat + 10
    else 99
  }

  function DigitChar(d: nat): (c: char)
    requires d < 16
    ensures DigitOf(c) == d
  {
    "0123456789abcdef"[d]
  }

  /** A natural number in a base up to 16. */
  function Printed(n: nat, base: nat): (s: string)
    requires 2 <= base <= 16
    ensures |s| >= 1
    decreases n
  {
    if n < base then [DigitChar(n)] else Printed(n / base, base) + [DigitChar(n % base)]
  }

  /** The number a digit string spells. */
  function Spelt(s: string, base: nat): nat {
    if s == "" then 0 else base * Spelt(s[..|s| - 1], base) + DigitOf(s[|s| - 1])
  }

  predicate AllDigits(s: string, base: nat) {
    forall k :: 0 <= k < |s| ==> DigitOf(s[k]) < base
  }

  /** How many digits of the base stand at the front. */
  function DigitRun(s: string, base: nat): (n: nat)
    ensures n <= |s| && AllDigits(s[..n], base)
    ensures n < |s| ==> DigitOf(s[n]) >= base
  {
    if s != "" && DigitOf(s[0]) < base then
      var n := DigitRun(s[1..], base);
      RunStep(s, n, base);
      n + 1
    else 0
  }

  lemma RunStep(s: string, n: nat, base: nat)
    requires s != "" && DigitOf(s[0]) < base && n <= |s| - 1 && AllDigits(s[1..][..n], base)
    ensures AllDigits(s[..n + 1], base)
  {
    var front := s[..n + 1];
    forall k | 0 <= k < n + 1 ensures DigitOf(front[k]) < base {
      if k > 0 {
        assert s[1..][..n][k - 1] == front[k];
      }
    }
  }

  lemma {:induction false} PrintedSpelt(n: nat, base: nat)
    requires 2 <= base <= 16
    ensures Spelt(Printed(n, base), base) == n && AllDigits(Printed(n, base), base)
    ensures n > 0 ==> Printed(n, base)[0] != '0'
    ensures n == 0 ==> Printed(n, base) == "0"
    decreases n
  {
    hide *;
    PrintedParts(n, base);
    if n >= base {
      PrintedSpelt(n / base, base);
      SpeltSnoc(Printed(n / base, base), DigitChar(n % base), base);
    } else {
      OneDigit(DigitChar(n), base);
    }
  }

  lemma PrintedParts(n: nat, base: nat)
    requires 2 <= base <= 16
    ensures n < base ==> Printed(n, base) == [DigitChar(n)]
    ensures n < base ==> (n > 0 ==> DigitChar(n) != '0') && (n == 0 ==> DigitChar(n) == '0')
    ensures n >= base ==> 0 < n / base < n && n % base < base && base * (n / base) + n % base == n
    ensures n >= base ==> Printed(n, base) == Printed(n / base, base) + [DigitChar(n % base)]
  {
    DivMod(n, base);
  }

  lemma OneDigit(c: char, base: nat)
    requires DigitOf(c) < base
    ensures Spelt([c], base) == DigitOf(c) && AllDigits([c], base)
  {
    assert [c][..0] == "";
  }

  lemma DivMod(n: nat, b: nat)
    requires b >= 1
    ensures b * (n / b) + n % b == n && (n >= b ==> n / b > 0)
  {
  }

  lemma SpeltSnoc(s: string, c: char, base: nat)
    requires AllDigits(s, base) && DigitOf(c) < base
    ensures Spelt(s + [c], base) == base * Spelt(s, base) + DigitOf(c) && AllDigits(s + [c], base)
  {
    assert (s + [c])[..|s|] == s;
  }

  /** A number below base^k takes at most k digits. */
  lemma {:induction false} PrintedLength(n: nat, base: nat, k: nat)
    requires 2 <= base <= 16 && k >= 1 && n < Power(base, k)
    ensures |Printed(n, base)| <= k
    decreases k
  {
    if n >= base {
      PowerStep(n, base, k);
      PrintedLength(n / base, base, k - 1);
    }
  }

  function Power(base: nat, k: nat): nat {
    if k == 0 then 1 else base * Power(base, k - 1)
  }

  lemma PowerStep(n: nat, base: nat, k: nat)
    requires base >= 2 && k >= 1 && base <= n < Power(base, k)
    ensures k >= 2 && n / base < Power(base, k - 1)
  {
    assert Power(base, 1) == base * Power(base, 0) == base;
    DivBelow(n, base, Power(base, k - 1));
  }

  lemma DivBelow(n: nat, b: nat, m: nat)
    requires b >= 1 && n < b * m
    ensures n / b < m
  {
    var q := n / b;
    assert b * q <= n;
    assert b * (q - m) == b * q - b * m;
  }

  lemma {:induction false} RunIs(s: string, n: nat, base: nat)
    requires n <= |s| && AllDigits(s[..n], base) && (n < |s| ==> DigitOf(s[n]) >= base)
    ensures DigitRun(s, base) == n
    decreases n
  {
    if n > 0 {
      assert DigitOf(s[..n][0]) < base;
      var rest := s[1..][..n - 1];
      forall k | 0 <= k < n - 1 ensures DigitOf(rest[k]) < base {
        assert rest[k] == s[..n][k + 1];
      }
      RunIs(s[1..], n - 1, base);
    }
  }

  /** A digit string with something that is no digit behind it. */
  lemma RunOf(a: string, b: string, base: nat)
    requires AllDigits(a, base) && (b == "" || DigitOf(b[0]) >= base)
    ensures DigitRun(a + b, base) == |a|
  {
    assert (a + b)[..|a|] == a;
    RunIs(a + b, |a|, base);
  }

  // ----- Printing and reading ints

  /** "%i" */
  function PrintedInt(v: int): string {
    if v < 0 then "-" + Printed(-v, 10) else Printed(v, 10)
  }

  /** "%#x" */
  function PrintedHex(u: nat): string {
    if u == 0 then "0" else "0x" + Printed(u, 16)
  }

  /** Conversion to a 32-bit signed integer. */
  function S32(x: int): int { (x + 0x8000_0000) % 0x1_0000_0000 - 0x8000_0000 }

  /** Conversion to a long of 64 bits, as strtol clamps. */
  function Long(x: int): int {
    if x > 0x7FFF_FFFF_FFFF_FFFF then 0x7FFF_FFFF_FFFF_FFFF
    else if x < -0x8000_0000_0000_0000 then -0x8000_0000_0000_0000
    else x
  }

  /** Base and prefix length for the text behind spaces and sign. */
  function Prefix(t: string, base: nat): (r: (nat, nat))
    ensures r.1 <= |t|
  {
    if (base == 0 || base == 16) && |t| >= 3 && t[0] == '0' && (t[1] == 'x' || t[1] == 'X') && DigitOf(t[2]) < 16
    then (16, 2)
    else if base == 0 then (if t != "" && t[0] == '0' then 8 else 10, 0)
    else (base, 0)
  }

  /** The number behind spaces and sign, and the characters it takes; none when there is none. */
  function Unsigned(u: string, base: nat): (r: (nat, nat))
    ensures r.1 <= |u|
  {
    var (b, skip) := Prefix(u, base);
    var n := DigitRun(u[skip..], b);
    if n == 0 then (0, 0) else (Spelt(u[skip..skip + n], b), skip + n)
  }

  /** strtol: the value, and how many characters it took. */
  function Strtol(s: string, base: nat): (r: (int, nat))
    ensures r.1 <= |s|
  {
    var t := TrimLeft(s);
    var lead := |s| - |t|;
    if t != "" && (t[0] == '-' || t[0] == '+') then
      var (m, used) := Unsigned(t[1..], base);
      if used == 0 then (0, 0) else (Long(if t[0] == '-' then -(m as int) else m), lead + 1 + used)
    else
      var (m, used) := Unsigned(t, base);
      if used == 0 then (0, 0) else (Long(m), lead + used)
  }

  /** What may follow a number without becoming part of it. */
  predicate Stops(rest: string) {
    rest == "" || DigitOf(rest[0]) == 99
  }

  lemma FirstDigit(n: nat, base: nat)
    requires 2 <= base <= 16
    ensures DigitOf(Printed(n, base)[0]) < base
    ensures !Space(Printed(n, base)[0]) && Printed(n, base)[0] != '-' && Printed(n, base)[0] != '+'
  {
    PrintedSpelt(n, base);
  }

  lemma NoTrim(s: string)
    requires s == "" || !Space(s[0])
    ensures TrimLeft(s) == s
  {
  }

  /** The digits are read back, in base 10 or in the base the text tells. */
  lemma UnsignedPrinted(n: nat, rest: string, base: nat)
    requires Stops(rest) && (base == 0 || base == 10)
    ensures Unsigned(Printed(n, 10) + rest, base) == (n, |Printed(n, 10)|)
  {
    var p := Printed(n, 10);
    var u := p + rest;
    PrintedSpelt(n, 10);
    assert u[..|p|] == p && u[0] == p[0] && u[0..] == u;
    hide Printed, DigitRun, AllDigits;
    if n == 0 {
      assert Spelt(p, 8) == 0 by {
        assert p[..0] == "";
      }
      RunOf(p, rest, 8) by {
        OneZero();
      }
    }
    RunOf(p, rest, 10);
  }

  lemma OneZero()
    ensures AllDigits("0", 8)
  {
  }

  /** strtol undoes "%i". */
  lemma StrtolPrinted(v: int, rest: string, base: nat)
    requires -0x8000_0000 <= v < 0x8000_0000 && Stops(rest) && (base == 0 || base == 10)
    ensures Strtol(PrintedInt(v) + rest, base) == (v, |PrintedInt(v)|)
  {
    hide Printed, Unsigned, DigitOf, TrimLeft, Stops, Space;
    var n := if v < 0 then -v else v;
    var s, u := PrintedInt(v) + rest, Printed(n, 10) + rest;
    UnsignedPrinted(n, rest, base);
    FirstDigit(n, 10);
    MinusIsNoSpace();
    assert u[0] == Printed(n, 10)[0];
    NoTrim(s);
    if v < 0 {
      assert s[1..] == u;
    }
  }

  lemma MinusIsNoSpace()
    ensures !Space('-') && !Space('0')
  {
  }

  lemma UnsignedHex(n: nat, rest: string)
    requires n > 0 && Stops(rest)
    ensures Unsigned(PrintedHex(n) + rest, 0) == (n, |PrintedHex(n)|)
  {
    var p := Printed(n, 16);
    PrintedSpelt(n, 16);
    FirstDigit(n, 16);
    hide Printed, DigitRun, AllDigits, Spelt, DigitOf, Stops;
    HexPrefix(p, rest);
    RunOf(p, rest, 16) by {
      NoHexDigit(rest);
    }
  }

  lemma NoHexDigit(rest: string)
    requires Stops(rest)
    ensures rest == "" || DigitOf(rest[0]) >= 16
  {
  }

  lemma HexPrefix(p: string, rest: string)
    requires p != "" && DigitOf(p[0]) < 16
    ensures var u := "0x" + p + rest;
            Prefix(u, 0) == (16, 2) && u[2..] == p + rest && u[2..2 + |p|] == p
  {
    assert ("0x" + p + rest)[2] == p[0];
  }

  /** ... and "%#x". */
  lemma StrtolHex(n: nat, rest: string)
    requires n < 0x1_0000_0000 && Stops(rest)
    ensures Strtol(PrintedHex(n) + rest, 0) == (n, |PrintedHex(n)|)
  {
    hide Strtol, Printed, PrintedInt, PrintedHex, Stops;
    if n == 0 {
      ZeroIsPrinted();
      StrtolPrinted(0, rest, 0);
    } else {
      StrtolPrefixed(n, rest);
    }
  }

  lemma ZeroIsPrinted()
    ensures PrintedHex(0) == PrintedInt(0) == "0"
  {
    assert Printed(0, 10) == "0";
  }

  lemma StrtolPrefixed(n: nat, rest: string)
    requires 0 < n < 0x1_0000_0000 && Stops(rest)
    ensures Strtol(PrintedHex(n) + rest, 0) == (n, |PrintedHex(n)|)
  {
    hide Printed, Unsigned, DigitOf, TrimLeft, Stops, Space;
    UnsignedHex(n, rest);
    MinusIsNoSpace();
    assert (PrintedHex(n) + rest)[0] == '0';
    NoTrim(PrintedHex(n) + rest);
  }
}

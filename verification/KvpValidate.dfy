// The scanner that counts the elements of a value and refuses bad numbers.
module KvpValidate {
  import opened KvpText

  datatype KeyType = KT_STRING | KT_FLOAT | KT_INT | KT_UINT | KT_INVALID

  predicate IsDigit(c: char) { DigitOf(c) < 10 }

  predicate IsHexDigit(c: char) { DigitOf(c) < 16 }

  predicate Sign(c: char) { c == '+' || c == '-' }

  predicate Separator(c: char) { c == ' ' || c == '\t' || c == ',' }

  /** The scanner's variables; `hex` is 1 after a leading 0, 2 after 0x. */
  datatype Scan = Scan(inNumber: bool, hex: nat, octal: bool, point: bool, exponent: bool, count: nat)

  datatype Next = Go(scan: Scan) | Bad

  /** One character of a value that is not a string. */
  function Step(s: Scan, c: char, kind: KeyType): Next {
    if s.hex != 2 && s.octal && c > '7' then Bad
    else if if s.hex == 2 then IsHexDigit(c) else IsDigit(c) then
      if !s.inNumber then
        Go(s.(count := s.count + 1, inNumber := true, hex := if c == '0' && kind == KT_INT then 1 else 0))
      else if s.hex == 1 then
        if c > '7' then Bad else Go(s.(hex := 0, octal := true))
      else Go(s)
    else if s.hex == 1 && (c == 'x' || c == 'X') then Go(s.(hex := 2))
    else if Sign(c) then
      if s.inNumber then (if s.exponent then Go(s) else Bad)
      else Go(s.(inNumber := true, count := s.count + 1))
    else if kind == KT_FLOAT && c == '.' then
      if s.point then Bad else Go(s.(point := true))
    else if kind == KT_FLOAT && (c == 'e' || c == 'E') then
      if s.exponent then Bad else Go(s.(exponent := true))
    else if Separator(c) then Go(Scan(false, 0, false, false, false, s.count))
    else Bad
  }

  const START: Scan := Scan(false, 0, false, false, false, 0)

  /** The elements counted in the end, or -1. */
  function ScanFrom(s: Scan, value: string, kind: KeyType): (count: int)
    ensures count == -1 || count >= s.count
    decreases |value|
  {
    if value == "" then s.count
    else match Step(s, value[0], kind)
      case Bad => -1
      case Go(next) => ScanFrom(next, value[1..], kind)
  }

  function Validate(value: string, kind: KeyType): (count: int)
    ensures count >= -1
  {
    if kind == KT_STRING then |value| else ScanFrom(START, value, kind)
  }

  method ValidateValue(value: string, kind: KeyType) returns (count: int)
    ensures count == Validate(value, kind)
  {
    hide DigitOf;
    var n: nat := 0;
    var inNumber, octalCandidate, decimalPoint, exponent := false, false, false, false;
    var hexCandidate: nat := 0;
    var i := 0;
    assert value[0..] == value;
    while i < |value|
      invariant 0 <= i <= |value|
      invariant kind == KT_STRING ==> n == i
      invariant kind != KT_STRING ==>
                  Validate(value, kind)
                  == ScanFrom(Scan(inNumber, hexCandidate, octalCandidate, decimalPoint, exponent, n), value[i..], kind)
    {
      var c := value[i];
      assert value[i..][0] == c && value[i..][1..] == value[i + 1..];
      if kind == KT_STRING {
        n := n + 1;
      } else {
        var digit;
        if hexCandidate == 2 {
          digit := IsHexDigit(c);
        } else {
          digit := IsDigit(c);
          if octalCandidate && c > '7' {
            return -1;
          }
        }
        if digit {
          if !inNumber {
            n := n + 1;
            inNumber := true;
            hexCandidate := if c == '0' && kind == KT_INT then 1 else 0;
          } else if hexCandidate == 1 {
            hexCandidate := 0;
            octalCandidate := true;
            if c > '7' {
              return -1;
            }
          }
        } else if hexCandidate == 1 && (c == 'x' || c == 'X') {
          hexCandidate := 2;
        } else if c == '+' || c == '-' {
          if inNumber {
            if !exponent {
              return -1;
            }
          } else {
            inNumber := true;
            n := n + 1;
          }
        } else if kind == KT_FLOAT && c == '.' {
          if decimalPoint {
            return -1;
          }
          decimalPoint := true;
        } else if kind == KT_FLOAT && (c == 'e' || c == 'E') {
          if exponent {
            return -1;
          }
          exponent := true;
        } else if c == ' ' || c == '\t' || c == ',' {
          inNumber, hexCandidate, octalCandidate, decimalPoint, exponent := false, 0, false, false, false;
        } else {
          return -1;
        }
      }
      i := i + 1;
    }
    count := n;
  }

  // ----- What it accepts as a list of integers

  /** The pieces between separators, the first one beginning with `cur`. */
  function Tokens(cur: string, s: string): (ts: seq<string>)
    decreases |s|
  {
    if s == "" then (if cur == "" then [] else [cur])
    else if Separator(s[0]) then (if cur == "" then [] else [cur]) + Tokens("", s[1..])
    else Tokens(cur + [s[0]], s[1..])
  }

  /**
   * A sign and digits, digits without a leading 0, or 0 with octal digits or x and hexadecimal
   * ones; no digit is needed after a sign or x.
   */
  predicate IntToken(t: string) {
    && t != ""
    && if Sign(t[0]) then AllDigits(t[1..], 10)
       else if t[0] != '0' then AllDigits(t, 10)
       else if |t| >= 2 && (t[1] == 'x' || t[1] == 'X') then AllDigits(t[2..], 16)
       else AllDigits(t, 8)
  }

  /** The scanner's variables after an unfinished piece. */
  function After(cur: string, count: nat): Scan {
    Scan(cur != "",
         if cur == "0" then 1 else if |cur| >= 2 && cur[0] == '0' && (cur[1] == 'x' || cur[1] == 'X') then 2 else 0,
         |cur| >= 2 && cur[0] == '0' && IsDigit(cur[1]), false, false, count)
  }

  lemma DigitsSnoc(s: string, c: char, base: nat)
    ensures AllDigits(s + [c], base) <==> AllDigits(s, base) && DigitOf(c) < base
  {
    if AllDigits(s + [c], base) {
      assert (s + [c])[|s|] == c;
      forall k | 0 <= k < |s| ensures DigitOf(s[k]) < base {
        assert (s + [c])[k] == s[k];
      }
    }
  }

  lemma Single(c: char, base: nat)
    ensures AllDigits([c], base) <==> DigitOf(c) < base
    ensures AllDigits("", base)
  {
    if AllDigits([c], base) {
      assert [c][0] == c;
    }
  }

  lemma NoDigits(base: nat)
    ensures AllDigits("", base)
  {
  }

  /** What characters are digits of base 8, 10 and 16. */
  lemma DigitClasses(c: char)
    ensures DigitOf(c) < 8 <==> '0' <= c <= '7'
    ensures DigitOf(c) < 10 <==> '0' <= c <= '9'
    ensures Separator(c) || Sign(c) ==> DigitOf(c) == 99 && c < '7'
    ensures c == 'x' || c == 'X' ==> DigitOf(c) == 33
  {
  }

  lemma FirstChar(c: char, n: nat)
    requires !Separator(c)
    ensures Step(After("", n), c, KT_INT) == if IntToken([c]) then Go(After([c], n + 1)) else Bad
  {
    var t := [c];
    DigitClasses(c);
    assert t[1..] == "" && t[2 - 1..] == "";
    Single(c, 8);
    Single(c, 10);
  }

  lemma LaterChar(cur: string, c: char, n: nat)
    requires IntToken(cur) && !Separator(c)
    ensures Step(After(cur, n), c, KT_INT) == if IntToken(cur + [c]) then Go(After(cur + [c], n)) else Bad
  {
    var t := cur + [c];
    DigitClasses(c);
    DigitClasses(cur[0]);
    hide AllDigits;
    if Sign(cur[0]) {
      DigitsSnoc(cur[1..], c, 10);
      assert t[1..] == cur[1..] + [c];
    } else if cur[0] != '0' {
      DigitsSnoc(cur, c, 10);
    } else if |cur| >= 2 && (cur[1] == 'x' || cur[1] == 'X') {
      DigitsSnoc(cur[2..], c, 16);
      assert t[2..] == cur[2..] + [c];
    } else {
      DigitsSnoc(cur, c, 8);
      if |cur| == 1 {
        assert cur == "0" && t[2..] == "";
        NoDigits(16);
      } else {
        OctalSecond(cur);
      }
    }
  }

  lemma OctalSecond(cur: string)
    requires |cur| >= 2 && AllDigits(cur, 8)
    ensures IsDigit(cur[1])
  {
  }

  ghost predicate AllTokens(ts: seq<string>) {
    forall i :: 0 <= i < |ts| ==> IntToken(ts[i])
  }

  /** Once a piece has gone wrong, it stays wrong. */
  lemma {:induction false} WrongStays(cur: string, s: string)
    requires cur != "" && !IntToken(cur)
    ensures !AllTokens(Tokens(cur, s))
    decreases |s|
  {
    hide IntToken;
    if s == "" || Separator(s[0]) {
      assert Tokens(cur, s)[0] == cur;
    } else {
      if IntToken(cur + [s[0]]) {
        FrontIsToken(cur, s[0]);
      }
      WrongStays(cur + [s[0]], s[1..]);
    }
  }

  lemma FrontIsToken(cur: string, c: char)
    requires cur != "" && IntToken(cur + [c])
    ensures IntToken(cur)
  {
    var t := cur + [c];
    assert t[0] == cur[0];
    DigitClasses(cur[0]);
    hide AllDigits;
    if Sign(cur[0]) {
      DigitsSnoc(cur[1..], c, 10);
      assert t[1..] == cur[1..] + [c];
    } else if cur[0] != '0' {
      DigitsSnoc(cur, c, 10);
    } else if |cur| == 1 {
      assert cur == [cur[0]];
      Single(cur[0], 8);
    } else {
      assert t[1] == cur[1] && t[2..] == cur[2..] + [c];
      DigitsSnoc(cur[2..], c, 16);
      DigitsSnoc(cur, c, 8);
    }
  }

  /** From the middle of a piece on. */
  lemma {:induction false} ScanTokens(cur: string, s: string, n: nat)
    requires cur == "" || (IntToken(cur) && n >= 1)
    ensures ScanFrom(After(cur, n), s, KT_INT)
         == if AllTokens(Tokens(cur, s)) then n - (if cur == "" then 0 else 1) + |Tokens(cur, s)| else -1
    decreases |s|
  {
    hide IntToken, Step, After;
    if s == "" {
      CountOf(cur, n);
    } else if Separator(s[0]) {
      SeparatorResets(cur, s[0], n);
      ScanTokens("", s[1..], n);
      TokensHead(cur, Tokens("", s[1..]));
    } else {
      if cur == "" {
        FirstChar(s[0], n);
        assert "" + [s[0]] == [s[0]];
      } else {
        LaterChar(cur, s[0], n);
      }
      var next := cur + [s[0]];
      if IntToken(next) {
        ScanTokens(next, s[1..], if cur == "" then n + 1 else n);
      } else {
        WrongStays(next, s[1..]);
      }
    }
  }

  lemma CountOf(cur: string, n: nat)
    ensures After(cur, n).count == n
  {
  }

  lemma SeparatorResets(cur: string, c: char, n: nat)
    requires Separator(c) && (cur == "" || IntToken(cur))
    ensures Step(After(cur, n), c, KT_INT) == Go(After("", n))
  {
    DigitClasses(c);
  }

  lemma TokensHead(cur: string, ts: seq<string>)
    requires cur == "" || IntToken(cur)
    ensures AllTokens((if cur == "" then [] else [cur]) + ts) <==> AllTokens(ts)
  {
    var all := (if cur == "" then [] else [cur]) + ts;
    var k := if cur == "" then 0 else 1;
    assert forall i :: 0 <= i < |ts| ==> all[k + i] == ts[i];
    if AllTokens(all) {
      forall i | 0 <= i < |ts| ensures IntToken(ts[i]) {
        assert IntToken(all[k + i]);
      }
    }
  }

  /**
   * What the scanner accepts as integers, exactly: a value all of whose pieces
   * between separators are integer tokens, and it counts the pieces.
   */
  lemma ValidInts(value: string)
    ensures Validate(value, KT_INT) == if AllTokens(Tokens("", value)) then |Tokens("", value)| else -1
  {
    ScanTokens("", value, 0);
  }

  // ----- Printed lists

  function Joined(ts: seq<string>): string {
    if ts == [] then "" else if |ts| == 1 then ts[0] else ts[0] + "," + Joined(ts[1..])
  }

  /** A token has no separator in it. */
  lemma TokenSolid(t: string, k: nat)
    requires IntToken(t) && k < |t|
    ensures !Separator(t[k])
  {
    DigitClasses(t[k]);
  }

  lemma {:induction false} TokensOfToken(cur: string, t: string, rest: string)
    requires forall k :: 0 <= k < |t| ==> !Separator(t[k])
    ensures Tokens(cur, t + rest) == Tokens(cur + t, rest)
    decreases |t|
  {
    if t == "" {
      assert t + rest == rest && cur + t == cur;
    } else {
      assert (t + rest)[1..] == t[1..] + rest && (t + rest)[0] == t[0];
      TokensOfToken(cur + [t[0]], t[1..], rest);
      assert cur + [t[0]] + t[1..] == cur + t;
    }
  }

  /** Splitting undoes joining. */
  lemma {:induction false} TokensOfJoined(ts: seq<string>)
    requires AllTokens(ts)
    ensures Tokens("", Joined(ts)) == ts
    decreases |ts|
  {
    hide *;
    JoinedParts(ts);
    if ts != [] {
      var t, more := ts[0], ts[1..];
      if |ts| == 1 {
        TokensOfToken("", t, "");
        TokensEnd(t);
      } else {
        TokensOfToken("", t, "," + Joined(more));
        TokensComma(t, Joined(more));
        TokensOfJoined(more);
      }
    }
  }

  lemma JoinedParts(ts: seq<string>)
    requires AllTokens(ts)
    ensures ts == [] ==> Tokens("", Joined(ts)) == []
    ensures |ts| == 1 ==> Joined(ts) == ts[0] + "" && ts == [ts[0]]
    ensures |ts| >= 2 ==> Joined(ts) == ts[0] + ("," + Joined(ts[1..])) && ts == [ts[0]] + ts[1..]
    ensures ts != [] ==> ts[0] != "" && "" + ts[0] == ts[0] && AllTokens(ts[1..])
    ensures ts != [] ==> forall k :: 0 <= k < |ts[0]| ==> !Separator(ts[0][k])
  {
    if ts != [] {
      var t := ts[0];
      forall k | 0 <= k < |t| ensures !Separator(t[k]) {
        TokenSolid(t, k);
      }
      assert t != "";
      hide IntToken, Separator;
      assert |ts| >= 2 ==> ts[0] + "," + Joined(ts[1..]) == ts[0] + ("," + Joined(ts[1..]));
    }
  }

  lemma TokensEnd(t: string)
    requires t != ""
    ensures Tokens(t, "") == [t]
  {
  }

  lemma TokensComma(t: string, rest: string)
    requires t != ""
    ensures Tokens(t, "," + rest) == [t] + Tokens("", rest)
  {
    assert ("," + rest)[1..] == rest;
  }

  lemma PrintedIsToken(n: nat)
    ensures IntToken(Printed(n, 10))
  {
    PrintedSpelt(n, 10);
    FirstDigit(n, 10);
    if n == 0 {
      Single('0', 8);
    }
  }

  lemma PrintedIntIsToken(v: int)
    ensures IntToken(PrintedInt(v))
  {
    if v >= 0 {
      PrintedIsToken(v);
    } else {
      PrintedSpelt(-v, 10);
      assert PrintedInt(v)[1..] == Printed(-v, 10);
    }
  }

  lemma PrintedHexIsToken(u: nat)
    ensures IntToken(PrintedHex(u))
  {
    if u == 0 {
      Single('0', 8);
    } else {
      PrintedSpelt(u, 16);
      assert PrintedHex(u)[2..] == Printed(u, 16);
    }
  }
}

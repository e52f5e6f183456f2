// What the scanner accepts as floats, and as the types no letter names.
module KvpFloats {
  import opened KvpText
  import opened KvpValidate

  predicate IsExponent(c: char) { c == 'e' || c == 'E' }

  /** A digit or a sign: what makes a piece an element. */
  predicate Numeral(c: char) { '0' <= c <= '9' || c == '+' || c == '-' }

  ghost predicate HasNumeral(t: string) {
    exists k :: 0 <= k < |t| && Numeral(t[k])
  }

  ghost predicate HasExponent(t: string) {
    exists k :: 0 <= k < |t| && IsExponent(t[k])
  }

  /**
   * Digits, signs, at most one point and at most one exponent; a sign is the
   * first of its piece's digits and signs, or stands somewhere behind the exponent.
   */
  ghost predicate FloatToken(t: string) {
    && (forall k :: 0 <= k < |t| ==> Numeral(t[k]) || t[k] == '.' || IsExponent(t[k]))
    && (forall i, k :: 0 <= i < k < |t| ==> !(t[i] == '.' && t[k] == '.') && !(IsExponent(t[i]) && IsExponent(t[k])))
    && (forall k :: 0 <= k < |t| && Sign(t[k]) ==> !HasNumeral(t[..k]) || HasExponent(t[..k]))
  }

  ghost predicate AllFloats(ts: seq<string>) {
    forall i :: 0 <= i < |ts| ==> FloatToken(ts[i])
  }

  /** The pieces that hold a digit or a sign. */
  ghost function Elements(ts: seq<string>): nat {
    if ts == [] then 0 else (if HasNumeral(ts[0]) then 1 else 0) + Elements(ts[1..])
  }

  /** The scanner's variables in the middle of a piece. */
  ghost function AfterFloat(cur: string, n: nat): Scan {
    Scan(HasNumeral(cur), 0, false, '.' in cur, HasExponent(cur), n)
  }

  lemma DigitIsDigit(c: char)
    ensures IsDigit(c) <==> '0' <= c <= '9'
    ensures Sign(c) || Separator(c) || c == '.' ==> !IsDigit(c)
    ensures IsExponent(c) ==> !IsDigit(c)
  {
  }

  lemma NumeralSnoc(cur: string, c: char)
    ensures HasNumeral(cur + [c]) <==> HasNumeral(cur) || Numeral(c)
    ensures HasExponent(cur + [c]) <==> HasExponent(cur) || IsExponent(c)
    ensures !HasNumeral("") && !HasExponent("")
  {
    var t := cur + [c];
    assert t[|cur|] == c;
    if HasNumeral(cur) {
      var k :| 0 <= k < |cur| && Numeral(cur[k]);
      assert t[k] == cur[k];
    }
    if HasExponent(cur) {
      var k :| 0 <= k < |cur| && IsExponent(cur[k]);
      assert t[k] == cur[k];
    }
    if HasNumeral(t) {
      var k :| 0 <= k < |t| && Numeral(t[k]);
      assert k < |cur| ==> t[k] == cur[k];
    }
    if HasExponent(t) {
      var k :| 0 <= k < |t| && IsExponent(t[k]);
      assert k < |cur| ==> t[k] == cur[k];
    }
  }

  /** What a piece may go on with. */
  ghost predicate Allowed(cur: string, c: char) {
    && (Numeral(c) || c == '.' || IsExponent(c))
    && (c == '.' ==> '.' !in cur)
    && (IsExponent(c) ==> !HasExponent(cur))
    && (Sign(c) ==> !HasNumeral(cur) || HasExponent(cur))
  }

  lemma FloatSnoc(cur: string, c: char)
    ensures FloatToken(cur + [c]) <==> FloatToken(cur) && Allowed(cur, c)
  {
    if FloatToken(cur + [c]) {
      FloatFront(cur, c);
    }
    if FloatToken(cur) && Allowed(cur, c) {
      FloatGrows(cur, c);
    }
  }

  lemma FloatFront(cur: string, c: char)
    requires FloatToken(cur + [c])
    ensures FloatToken(cur) && Allowed(cur, c)
  {
    hide Numeral, HasNumeral;
    var t := cur + [c];
    assert t[|cur|] == c && t[..|cur|] == cur;
    forall k | 0 <= k < |cur| ensures t[k] == cur[k] && t[..k] == cur[..k] {}
  }

  lemma FloatGrows(cur: string, c: char)
    requires FloatToken(cur) && Allowed(cur, c)
    ensures FloatToken(cur + [c])
  {
    hide Numeral, HasNumeral;
    var t := cur + [c];
    assert t[|cur|] == c && t[..|cur|] == cur;
    forall k | 0 <= k < |cur| ensures t[k] == cur[k] && t[..k] == cur[..k] {}
    forall i, k | 0 <= i < k < |t|
      ensures !(t[i] == '.' && t[k] == '.') && !(IsExponent(t[i]) && IsExponent(t[k]))
    {
      assert t[i] == cur[i];
      if k < |cur| {
        assert t[k] == cur[k];
      }
    }
  }

  /** A character inside a piece. */
  lemma FloatStep(cur: string, c: char, n: nat)
    requires !Separator(c)
    ensures Step(AfterFloat(cur, n), c, KT_FLOAT)
         == if Allowed(cur, c)
            then Go(AfterFloat(cur + [c], if !HasNumeral(cur) && Numeral(c) then n + 1 else n)) else Bad
  {
    hide IsDigit, HasNumeral, HasExponent;
    DigitIsDigit(c);
    NumeralSnoc(cur, c);
    PointSnoc(cur, c);
  }

  lemma PointSnoc(cur: string, c: char)
    ensures '.' in cur + [c] <==> '.' in cur || c == '.'
  {
  }

  lemma FloatSeparator(cur: string, c: char, n: nat)
    requires Separator(c)
    ensures Step(AfterFloat(cur, n), c, KT_FLOAT) == Go(AfterFloat("", n))
  {
    hide IsDigit, HasNumeral, HasExponent;
    DigitIsDigit(c);
    NumeralSnoc("", c);
  }

  /** Once a piece has gone wrong, it stays wrong. */
  lemma {:induction false} WrongFloat(cur: string, s: string)
    requires cur != "" && !FloatToken(cur)
    ensures !AllFloats(Tokens(cur, s))
    decreases |s|
  {
    hide FloatToken;
    if s == "" || Separator(s[0]) {
      assert Tokens(cur, s)[0] == cur;
    } else {
      FloatSnoc(cur, s[0]);
      WrongFloat(cur + [s[0]], s[1..]);
    }
  }

  lemma FloatsHead(cur: string, ts: seq<string>)
    requires FloatToken(cur)
    ensures var all := (if cur == "" then [] else [cur]) + ts;
            && (AllFloats(all) <==> AllFloats(ts))
            && Elements(all) == (if HasNumeral(cur) then 1 else 0) + Elements(ts)
  {
    hide FloatToken;
    NumeralSnoc("", 'e');
    if cur != "" {
      var all := [cur] + ts;
      assert all[0] == cur && all[1..] == ts;
      if AllFloats(ts) {
        forall i | 0 <= i < |all| ensures FloatToken(all[i]) {
          assert i > 0 ==> all[i] == ts[i - 1];
        }
      }
      if AllFloats(all) {
        forall i | 0 <= i < |ts| ensures FloatToken(ts[i]) {
          assert ts[i] == all[i + 1];
        }
      }
    } else {
      assert [] + ts == ts;
    }
  }

  lemma NoElements()
    ensures Elements([]) == 0 && AllFloats([])
  {
  }

  lemma {:induction false} ScanFloats(cur: string, s: string, n: nat)
    requires FloatToken(cur) && (HasNumeral(cur) ==> n >= 1)
    ensures ScanFrom(AfterFloat(cur, n), s, KT_FLOAT)
         == if AllFloats(Tokens(cur, s)) then n - (if HasNumeral(cur) then 1 else 0) + Elements(Tokens(cur, s)) else -1
    decreases |s|
  {
    hide FloatToken, Step, HasNumeral, Allowed, Elements, Numeral, HasExponent, AllFloats;
    NoElements();
    if s == "" {
      FloatsHead(cur, []);
      assert (if cur == "" then [] else [cur]) + [] == Tokens(cur, s);
    } else if Separator(s[0]) {
      FloatSeparator(cur, s[0], n);
      EmptyFloat();
      ScanFloats("", s[1..], n);
      FloatsHead(cur, Tokens("", s[1..]));
    } else {
      FloatStep(cur, s[0], n);
      FloatSnoc(cur, s[0]);
      NumeralSnoc(cur, s[0]);
      var next := cur + [s[0]];
      if Allowed(cur, s[0]) {
        ScanFloats(next, s[1..], if !HasNumeral(cur) && Numeral(s[0]) then n + 1 else n);
      } else {
        WrongFloat(next, s[1..]);
      }
    }
  }

  lemma EmptyFloat()
    ensures FloatToken("") && !HasNumeral("") && !HasExponent("")
  {
  }

  /**
   * What the scanner accepts as floats, exactly: a value all of whose pieces
   * between separators are float tokens; it counts those with a digit or a sign.
   */
  lemma ValidFloats(value: string)
    ensures Validate(value, KT_FLOAT) == if AllFloats(Tokens("", value)) then Elements(Tokens("", value)) else -1
  {
    EmptyFloat();
    ScanFloats("", value, 0);
  }

  // ----- The types no letter names

  /** A sign and digits, or digits. */
  predicate PlainToken(t: string) {
    t != "" && AllDigits(if Sign(t[0]) then t[1..] else t, 10)
  }

  ghost predicate AllPlain(ts: seq<string>) {
    forall i :: 0 <= i < |ts| ==> PlainToken(ts[i])
  }

  function AfterPlain(cur: string, n: nat): Scan {
    Scan(cur != "", 0, false, false, false, n)
  }

  lemma PlainSnoc(cur: string, c: char)
    requires !Separator(c)
    ensures cur == "" ==> (PlainToken(cur + [c]) <==> IsDigit(c) || Sign(c))
    ensures cur != "" ==> (PlainToken(cur + [c]) <==> PlainToken(cur) && IsDigit(c))
  {
    var t := cur + [c];
    DigitClasses(c);
    if cur == "" {
      assert t == [c] && t[1..] == "";
      Single(c, 10);
    } else {
      assert t[0] == cur[0] && t[1..] == cur[1..] + [c];
      DigitsSnoc(cur[1..], c, 10);
      DigitsSnoc(cur, c, 10);
    }
  }

  lemma PlainStep(cur: string, c: char, n: nat, kind: KeyType)
    requires (cur == "" || PlainToken(cur)) && (kind == KT_UINT || kind == KT_INVALID)
    ensures Step(AfterPlain(cur, n), c, kind)
         == if Separator(c) then Go(AfterPlain("", n))
            else if PlainToken(cur + [c]) then Go(AfterPlain(cur + [c], if cur == "" then n + 1 else n)) else Bad
  {
    DigitIsDigit(c);
    if !Separator(c) {
      PlainSnoc(cur, c);
      hide PlainToken, IsDigit;
    }
  }

  lemma {:induction false} WrongPlain(cur: string, s: string)
    requires cur != "" && !PlainToken(cur)
    ensures !AllPlain(Tokens(cur, s))
    decreases |s|
  {
    hide PlainToken;
    if s == "" || Separator(s[0]) {
      assert Tokens(cur, s)[0] == cur;
    } else {
      PlainSnoc(cur, s[0]);
      WrongPlain(cur + [s[0]], s[1..]);
    }
  }

  lemma PlainHead(cur: string, ts: seq<string>)
    requires cur == "" || PlainToken(cur)
    ensures AllPlain((if cur == "" then [] else [cur]) + ts) <==> AllPlain(ts)
  {
    hide PlainToken;
    var all := (if cur == "" then [] else [cur]) + ts;
    var k := if cur == "" then 0 else 1;
    assert forall i :: 0 <= i < |ts| ==> all[k + i] == ts[i];
    if AllPlain(all) {
      forall i | 0 <= i < |ts| ensures PlainToken(ts[i]) {
        assert PlainToken(all[k + i]);
      }
    }
  }

  lemma {:induction false} ScanPlain(cur: string, s: string, n: nat, kind: KeyType)
    requires (cur == "" || (PlainToken(cur) && n >= 1)) && (kind == KT_UINT || kind == KT_INVALID)
    ensures ScanFrom(AfterPlain(cur, n), s, kind)
         == if AllPlain(Tokens(cur, s)) then n - (if cur == "" then 0 else 1) + |Tokens(cur, s)| else -1
    decreases |s|
  {
    hide PlainToken, Step;
    if s != "" {
      PlainStep(cur, s[0], n, kind);
      if Separator(s[0]) {
        ScanPlain("", s[1..], n, kind);
        PlainHead(cur, Tokens("", s[1..]));
      } else {
        var next := cur + [s[0]];
        if PlainToken(next) {
          ScanPlain(next, s[1..], if cur == "" then n + 1 else n, kind);
        } else {
          WrongPlain(next, s[1..]);
        }
      }
    }
  }

  /** Under a type no letter names: pieces of a sign and digits, or digits, each counted. */
  lemma ValidPlain(value: string, kind: KeyType)
    requires kind == KT_UINT || kind == KT_INVALID
    ensures Validate(value, kind) == if AllPlain(Tokens("", value)) then |Tokens("", value)| else -1
  {
    ScanPlain("", value, 0, kind);
  }

  // ----- Separators

  /** Blanks, tabs and commas part two pieces, and nothing else of what a number may hold does. */
  lemma SeparatorsPart(a: string, c: char, b: string)
    requires IntToken(a) && IntToken(b) && (c == ' ' || c == '\t' || c == ',')
    ensures Validate(a + [c] + b, KT_INT) == 2
  {
    hide IntToken, AllTokens, Tokens;
    TwoTokens(a, c, b);
    ValidInts(a + [c] + b);
  }

  lemma TwoTokens(a: string, c: char, b: string)
    requires IntToken(a) && IntToken(b) && (c == ' ' || c == '\t' || c == ',')
    ensures Tokens("", a + [c] + b) == [a, b] && AllTokens([a, b])
  {
    hide IntToken, Tokens;
    forall k | 0 <= k < |a| ensures !Separator(a[k]) {
      TokenSolid(a, k);
    }
    forall k | 0 <= k < |b| ensures !Separator(b[k]) {
      TokenSolid(b, k);
    }
    assert a + [c] + b == a + ([c] + b) && "" + a == a && "" + b == b && b + "" == b;
    TokensOfToken("", a, [c] + b);
    TokenAt(a);
    TokenAt(b);
    TokenThen(a, c, b);
    TokensOfToken("", b, "");
    TokensEnd(b);
  }

  lemma TokenAt(t: string)
    requires IntToken(t)
    ensures t != ""
  {
  }

  lemma TokenThen(t: string, c: char, rest: string)
    requires t != "" && Separator(c)
    ensures Tokens(t, [c] + rest) == [t] + Tokens("", rest)
  {
    assert ([c] + rest)[1..] == rest;
  }
}

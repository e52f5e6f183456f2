// Which calls of the key/value store are refused, with which code, and what
// the letters, separators and lines of its texts are.
module KvpCodes {
  import opened KvpText
  import opened KvpValidate
  import opened KvpStore
  import opened KvpTrip
  import opened KvpInts

  // ----- Trimming

  /** What is stripped are spaces, at both ends, and all of them. */
  lemma StripExactly(s: string)
    ensures exists i, k ::
              && 0 <= i <= k <= |s| && Strip(s) == s[i..k]
              && (forall j :: 0 <= j < i || k <= j < |s| ==> s[j] == ' ' || 9 <= s[j] as int <= 13)
              && Trimmed(s[i..k])
  {
    LeftOnlySpaces(s);
    RightOnlySpaces(TrimLeft(s));
    StripTrims(s);
    hide TrimLeft, TrimRight, Trimmed;
    var i, n := |s| - |TrimLeft(s)|, |Strip(s)|;
    var k := i + n;
    assert s[i..][..n] == s[i..k];
    forall j | 0 <= j < i || k <= j < |s| ensures s[j] == ' ' || 9 <= s[j] as int <= 13 {
      if j < i {
        assert s[..i][j] == s[j];
      } else {
        assert s[i..][n..][j - k] == s[j];
      }
      SpaceSet(s[j]);
    }
  }

  lemma {:induction false} LeftOnlySpaces(s: string)
    ensures var i := |s| - |TrimLeft(s)|;
            TrimLeft(s) == s[i..] && forall j :: 0 <= j < i ==> Space(s[..i][j])
    decreases |s|
  {
    hide Space;
    if s != "" && Space(s[0]) {
      LeftOnlySpaces(s[1..]);
      var i := |s| - |TrimLeft(s)|;
      forall j | 0 <= j < i ensures Space(s[..i][j]) {
        assert j > 0 ==> s[1..][..i - 1][j - 1] == s[j];
      }
    }
  }

  lemma {:induction false} RightOnlySpaces(s: string)
    ensures var n := |TrimRight(s)|;
            TrimRight(s) == s[..n] && forall j :: 0 <= j < |s| - n ==> Space(s[n..][j])
    decreases |s|
  {
    hide Space;
    if s != "" && Space(s[|s| - 1]) {
      var front := s[..|s| - 1];
      RightOnlySpaces(front);
      var n := |TrimRight(s)|;
      forall j | 0 <= j < |s| - n ensures Space(s[n..][j]) {
        assert j < |front| - n ==> front[n..][j] == s[n..][j];
      }
    }
  }

  // ----- strtol

  lemma SpaceSet(c: char)
    ensures Space(c) <==> c == ' ' || 9 <= c as int <= 13
  {
  }

  /** Leading spaces are skipped, and counted if a number follows. */
  lemma StrtolSpace(c: char, s: string, base: nat)
    requires c == ' ' || 9 <= c as int <= 13
    ensures Strtol([c] + s, base) == var (v, used) := Strtol(s, base); (v, if used == 0 then 0 else used + 1)
  {
    hide Unsigned, Long;
    assert ([c] + s)[1..] == s && ([c] + s)[0] == c;
    SpaceSet(c);
    assert TrimLeft([c] + s) == TrimLeft(s);
  }

  /** Printed numbers of any size are read back, but held to what a long of 64 bits takes. */
  lemma StrtolHeld(v: int, rest: string, base: nat)
    requires Stops(rest) && (base == 0 || base == 10)
    ensures var max := 0x7FFF_FFFF_FFFF_FFFF;
            Strtol(PrintedInt(v) + rest, base)
            == (if v > max then max else if v < -max - 1 then -max - 1 else v, |PrintedInt(v)|)
  {
    hide Printed, Unsigned, DigitOf, TrimLeft, Stops, Space;
    var n := if v < 0 then -v else v;
    var s, u := PrintedInt(v) + rest, Printed(n, 10) + rest;
    UnsignedPrinted(n, rest, base);
    FirstDigit(n, 10);
    MinusIsNoSpace();
    assert u[0] == Printed(n, 10)[0];
    NoTrim(s);
    if v < 0 {
      assert s[1..] == u;
    }
  }

  lemma {:induction false} LeadingZero(p: string)
    requires AllDigits(p, 8)
    ensures Spelt("0" + p, 8) == Spelt(p, 8) && AllDigits("0" + p, 8)
    decreases |p|
  {
    if p == "" {
      assert "0" + p == "0" && "0"[..0] == "";
    } else {
      var front, last := p[..|p| - 1], p[|p| - 1];
      assert ("0" + p)[..|p|] == "0" + front && "0" + p == ("0" + front) + [last] && p == front + [last];
      LeadingZero(front);
      SpeltSnoc("0" + front, last, 8);
      SpeltSnoc(front, last, 8);
    }
  }

  lemma UnsignedOctal(p: string, rest: string)
    requires p != "" && AllDigits(p, 8) && Stops(rest)
    ensures Unsigned("0" + p + rest, 0) == (Spelt(p, 8), 1 + |p|)
  {
    hide DigitRun, AllDigits, Spelt, Prefix, DigitOf, Stops;
    var s := "0" + p + rest;
    LeadingZero(p);
    OctalPrefix(p, rest);
    NoOctalDigit(rest);
    RunOf("0" + p, rest, 8);
    assert s == ("0" + p) + rest && s[0..] == s && s[..1 + |p|] == "0" + p;
  }

  /** A leading 0 makes a number octal. */
  lemma StrtolOctal(n: nat, rest: string)
    requires n <= 0x7FFF_FFFF_FFFF_FFFF && Stops(rest)
    ensures Strtol("0" + Printed(n, 8) + rest, 0) == (n, 1 + |Printed(n, 8)|)
  {
    hide Printed, AllDigits, Spelt, TrimLeft, Space, Unsigned, Stops;
    var s := "0" + Printed(n, 8) + rest;
    PrintedSpelt(n, 8);
    UnsignedOctal(Printed(n, 8), rest);
    MinusIsNoSpace();
    NoTrim(s);
  }

  lemma NoOctalDigit(rest: string)
    requires Stops(rest)
    ensures rest == "" || DigitOf(rest[0]) >= 8
  {
  }

  lemma OctalPrefix(p: string, rest: string)
    requires p != "" && AllDigits(p, 8)
    ensures Prefix("0" + p + rest, 0) == (8, 0)
  {
    var t := "0" + p + rest;
    assert t[1] == p[0];
    DigitClasses(t[1]);
  }

  /** Digits are the decimal ones and the letters behind them, small when printed. */
  lemma DigitsSpelt(d: nat)
    requires d < 16
    ensures DigitChar(d) as int == if d < 10 then 48 + d else 87 + d
    ensures d >= 10 ==> DigitOf((55 + d) as char) == d
    ensures DigitOf('g') >= 16 && DigitOf('x') >= 16
  {
  }

  /** A plus sign, and 0X for a hexadecimal number, are read as well. */
  lemma StrtolSigned(n: nat, rest: string)
    requires n <= 0x7FFF_FFFF_FFFF_FFFF && Stops(rest)
    ensures Strtol("+" + Printed(n, 10) + rest, 10) == (n, 1 + |Printed(n, 10)|)
    ensures n > 0 ==> Strtol("0X" + Printed(n, 16) + rest, 0) == (n, 2 + |Printed(n, 16)|)
  {
    PlusRead(n, rest);
    if n > 0 {
      UpperRead(n, rest);
    }
  }

  lemma PlusRead(n: nat, rest: string)
    requires n <= 0x7FFF_FFFF_FFFF_FFFF && Stops(rest)
    ensures Strtol("+" + Printed(n, 10) + rest, 10) == (n, 1 + |Printed(n, 10)|)
  {
    hide Printed, Unsigned, DigitOf, TrimLeft, Stops, Space;
    var s, u := "+" + Printed(n, 10) + rest, Printed(n, 10) + rest;
    UnsignedPrinted(n, rest, 10);
    PlusIsNoSpace();
    NoTrim(s);
    assert s[1..] == u;
  }

  lemma PlusIsNoSpace()
    ensures !Space('+') && !Space('0')
  {
  }

  lemma UpperRead(n: nat, rest: string)
    requires 0 < n <= 0x7FFF_FFFF_FFFF_FFFF && Stops(rest)
    ensures Strtol("0X" + Printed(n, 16) + rest, 0) == (n, 2 + |Printed(n, 16)|)
  {
    hide Printed, AllDigits, Spelt, TrimLeft, Space, DigitRun, DigitOf;
    var p := Printed(n, 16);
    var s := "0X" + p + rest;
    PrintedSpelt(n, 16);
    RunOf(p, rest, 16);
    PlusIsNoSpace();
    NoTrim(s);
    assert s[2..] == p + rest && s[2..2 + |p|] == p && s[2] == p[0];
    FirstDigit(n, 16);
  }

  /** Text that begins with no number takes no characters and is read as 0. */
  lemma StrtolNothing(s: string, base: nat)
    requires s == "" || (!Space(s[0]) && DigitOf(s[0]) == 99)
    requires |s| > 1 && (s[0] == '+' || s[0] == '-') ==> DigitOf(s[1]) == 99
    requires base == 0 || base == 10
    ensures Strtol(s, base) == (0, 0)
  {
    assert TrimLeft(s) == s;
    NoNumber(s, base);
    if s != "" && (s[0] == '+' || s[0] == '-') {
      NoNumber(s[1..], base);
    }
    hide TrimLeft, Unsigned, Space, DigitOf;
  }

  lemma NoNumber(u: string, base: nat)
    requires u == "" || DigitOf(u[0]) == 99
    requires base == 0 || base == 10
    ensures Unsigned(u, base) == (0, 0)
  {
    assert DigitOf('0') == 0;
    hide DigitOf;
    assert u[0..] == u;
  }

  /** An int keeps the lowest 32 bits, as the one number of its range that differs by a multiple of 2^32. */
  lemma S32Exactly(x: int)
    ensures -0x8000_0000 <= S32(x) < 0x8000_0000 && (S32(x) - x) % 0x1_0000_0000 == 0
  {
  }

  // ----- Setting and updating

  /** Some entry, valid or not, has the key without its surrounding spaces. */
  predicate Has(s: Store, key: string) {
    exists i :: 0 <= i < |s.keys| && s.keys[i] == Strip(key)
  }

  lemma HasIsFound(s: Store, key: string)
    requires Formed(s)
    ensures Has(s, key) <==> FindKey(s, key) >= 0
    ensures FindKey(s, key) >= 0 ==>
              s.keys[FindKey(s, key)] == Strip(key) && forall k :: FindKey(s, key) < k < |s.keys| ==>
                s.keys[k] != Strip(key)
  {
    hide Strip;
    var i := LastIndex(s.keys, Strip(key));
  }

  /** kvpSet: each refusal and its cause, in this order, and what changes otherwise. */
  lemma SetCodes(s: Store, key: string, value: string, count: int, kind: KeyType)
    requires Formed(s)
    ensures var (code, r) := SetText(s, key, value, count, kind);
            && (code == KVP_E_DUPLICATE <==> Has(s, key))
            && (code == KVP_E_TOOMANY <==> !Has(s, key) && |s.keys| == 1000)
            && (code == KVP_E_BADTYPE <==>
                  !Has(s, key) && |s.keys| < 1000 && kind != KT_INT && kind != KT_FLOAT && kind != KT_STRING)
            && (code == KVP_E_BADKEY <==>
                  !Has(s, key) && |s.keys| < 1000 && (kind == KT_INT || kind == KT_FLOAT || kind == KT_STRING)
                  && exists i :: 0 <= i < |key| && key[i] in "=;,#")
            && (code == KVP_E_DUPLICATE || code == KVP_E_TOOMANY || code == KVP_E_BADTYPE || code == KVP_E_BADKEY
                || code == KVP_E_OK)
            && (code != KVP_E_OK ==> r == s)
            && (code == KVP_E_OK ==>
                  && r.keys == s.keys + [key] && r.values == s.values + [value] && r.counts == s.counts + [count]
                  && r.types == s.types[|s.keys| := kind])
  {
    HasIsFound(s, key);
    BadCharacters(key);
    hide FindKey, BadKey, Has;
  }

  lemma BadCharacters(key: string)
    ensures BadKey(key) <==> exists i :: 0 <= i < |key| && key[i] in "=;,#"
  {
    if BadKey(key) {
      var c :| c in key && (c == '=' || c == ';' || c == ',' || c == '#');
      var i :| 0 <= i < |key| && key[i] == c;
      assert key[i] in "=;,#";
    }
  }

  /** kvpUpdate likewise; the last entry of the key gets the value, and an unsigned value may replace an int's. */
  lemma UpdateCodes(s: Store, key: string, value: string, count: int, kind: KeyType)
    requires Formed(s)
    ensures var (code, r) := UpdateText(s, key, value, count, kind);
            var i := FindKey(s, key);
            && (code == KVP_E_NOTFOUND <==> !Has(s, key))
            && (Has(s, key) ==>
                  && s.keys[i] == Strip(key) && (forall k :: i < k < |s.keys| ==> s.keys[k] != Strip(key))
                  && (code == KVP_E_BADVALUE <==>
                        s.types[i] != kind && !(s.types[i] == KT_INT && kind == KT_UINT))
                  && (code == KVP_E_BADTYPE <==> s.types[i] == kind == KT_INVALID))
            && (code != KVP_E_OK ==> r == s)
            && (code == KVP_E_OK ==>
                  && Has(s, key) && r.keys == s.keys && r.types == s.types
                  && r.values == s.values[i := value] && r.counts == s.counts[i := count])
  {
    HasIsFound(s, key);
    hide FindKey, Has, Strip;
  }

  // ----- Reading arrays

  /** kvpGetIntArray's codes, and how many values it gives. */
  lemma GetCodes(s: Store, key: string, room: nat)
    requires Formed(s)
    ensures var (code, vs, n) := GetInts(s, key, room);
            var i := FindKey(s, key);
            && (code == KVP_E_NOTFOUND <==> !Has(s, key))
            && (Has(s, key) && s.types[i] != KT_INT ==> code == KVP_E_BADVALUE && vs == [])
            && (Has(s, key) && s.types[i] == KT_INT ==>
                  && (s.counts[i] >= 0 ==> n == if s.counts[i] <= room then s.counts[i] else room)
                  && (code == KVP_E_OK || code == KVP_E_TRUNCATE || code == KVP_E_BADVALUE)
                  && (code != KVP_E_BADVALUE ==> |vs| == n && (code == KVP_E_TRUNCATE <==> s.counts[i] > room)))
  {
    HasIsFound(s, key);
    var i := FindKey(s, key);
    if i >= 0 {
      ReadCount(s.values[i], if 0 <= s.counts[i] <= room then s.counts[i] else room);
    }
    hide FindKey, Has, Strip, ReadInts;
  }

  lemma {:induction false} ReadCount(s: string, n: nat)
    ensures ReadInts(s, n).1 ==> |ReadInts(s, n).0| == n
    ensures !ReadInts(s, n).1 ==> 0 < |ReadInts(s, n).0| <= n && ReadInts(s, n).0[|ReadInts(s, n).0| - 1] == 0
    decreases n
  {
    hide Strtol, S32;
    if n > 0 {
      var used := Strtol(s, 0).1;
      ReadCount(if used + 1 <= |s| then s[used + 1..] else "", n - 1);
    }
  }

  // ----- Parsing

  /** The type a letter stands for. */
  predicate LetterOf(letter: char, kind: KeyType) {
    (letter == 'I' && kind == KT_INT) || (letter == 'F' && kind == KT_FLOAT) || (letter == 'S' && kind == KT_STRING)
  }

  /**
   * One pair, its count stated or not: refused as a bad number if the scanner
   * refuses the value, as a wrong count if another than the real one is stated,
   * and otherwise an entry of the letter's type with the real count.
   */
  lemma PairCodes(s: Store, key: string, letter: char, kind: KeyType, stated: nat, value: string, rest: string)
    requires Formed(s) && |s.keys| < 1000 && LetterOf(letter, kind) && stated < 0x8000_0000
    requires Trimmed(key) && key != "" && '#' !in key && !(|key| >= 2 && key[0] == '/' && key[1] == '/')
    requires ';' !in value
    ensures var s1 := Superseded(s, key);
            var text := key + "#" + [letter] + PrintedInt(stated) + "=" + value + ";" + rest;
            var count := Validate(value, kind);
            TakePair(s, text)
            == if count < 0 then Fail(KVP_E_ILLNUMBER, s1.(types := s1.types[|s.keys| := kind]))
               else if stated != 0 && stated != count then
                 Fail(KVP_E_WRONGCOUNT, s1.(types := s1.types[|s.keys| := kind]))
               else More(Appended(s1, key, value, count, kind), rest)
  {
    hide Strip, Validate, PrintedInt, Find, TakeValue, Trimmed, Superseded, TypeOf, TakePair, Appended, CountField,
         Comment;
    var text := key + "#" + [letter] + PrintedInt(stated) + "=" + value + ";" + rest;
    var behind := [letter] + PrintedInt(stated) + "=" + (value + ";" + rest);
    assert text == key + ['#'] + behind;
    FindBehind(key, '#', behind);
    CutAt(key, '#', behind);
    StripTrimmed(key);
    PairUnfold(s, text);
    NoComment(key);
    LetterKind(letter, kind, s.types[|s.keys|]);
    assert text[|key| + 1..][0] == letter && text[|key| + 2..] == text[|key| + 1..][1..]
        == PrintedInt(stated) + "=" + (value + ";" + rest);
    StatedValue(Superseded(s, key), key, kind, stated, value, rest);
  }

  lemma NoComment(key: string)
    requires !(|key| >= 2 && key[0] == '/' && key[1] == '/')
    ensures !Comment(key)
  {
  }

  lemma LetterKind(letter: char, kind: KeyType, before: KeyType)
    requires LetterOf(letter, kind)
    ensures TypeOf(letter, before) == kind
  {
  }

  lemma StatedValue(t: Store, key: string, kind: KeyType, stated: nat, value: string, rest: string)
    requires Formed(t) && |t.keys| < MAXKEYS && stated < 0x8000_0000 && ';' !in value
    ensures var count, bad := Validate(value, kind), t.(types := t.types[|t.keys| := kind]);
            TakeValue(t, key, kind, PrintedInt(stated) + "=" + (value + ";" + rest))
            == if count < 0 then Fail(KVP_E_ILLNUMBER, bad)
               else if stated != 0 && stated != count then Fail(KVP_E_WRONGCOUNT, bad)
               else More(Appended(t, key, value, count, kind), rest)
  {
    var text := value + ";" + rest;
    CountAhead(stated, text);
    ValueAhead(value, rest);
    hide Validate, PrintedInt, Find, Value, CountField;
    assert ("=" + text)[1..] == text;
  }

  /** A pair with nothing between its letter and the '=' states no count. */
  lemma NoCountStated(t: Store, key: string, kind: KeyType, value: string, rest: string)
    requires Formed(t) && |t.keys| < MAXKEYS && ';' !in value
    ensures var count := Validate(value, kind);
            TakeValue(t, key, kind, "=" + (value + ";" + rest))
            == if count < 0 then Fail(KVP_E_ILLNUMBER, t.(types := t.types[|t.keys| := kind]))
               else More(Appended(t, key, value, count, kind), rest)
  {
    var text := value + ";" + rest;
    ValueAhead(value, rest);
    hide Validate, Find, Value;
    assert ("=" + text)[1..] == text;
  }

  /** A last pair without its semicolon is taken as well, its value ending with the record. */
  lemma OpenPair(s: Store, key: string, letter: char, kind: KeyType, value: string)
    requires Formed(s) && |s.keys| < 1000 && LetterOf(letter, kind) && ';' !in value
    requires Trimmed(key) && key != "" && '#' !in key && !(|key| >= 2 && key[0] == '/' && key[1] == '/')
    requires Validate(value, kind) >= 0
    ensures ParseFrom(s, key + "#" + [letter] + "=" + value)
         == Parsed(Appended(Superseded(s, key), key, value, Validate(value, kind), kind), true)
  {
    OpenTurn(s, key, letter, kind, value);
    hide Validate, Superseded, TakePair, Appended, Trimmed;
  }

  lemma OpenTurn(s: Store, key: string, letter: char, kind: KeyType, value: string)
    requires Formed(s) && |s.keys| < 1000 && LetterOf(letter, kind) && ';' !in value
    requires Trimmed(key) && key != "" && '#' !in key && !(|key| >= 2 && key[0] == '/' && key[1] == '/')
    requires Validate(value, kind) >= 0
    ensures TakePair(s, key + "#" + [letter] + "=" + value)
         == Last(Appended(Superseded(s, key), key, value, Validate(value, kind), kind))
  {
    hide Strip, Validate, Find, TakeValue, Trimmed, Superseded, TypeOf, TakePair, Appended, Comment;
    var text, behind := key + "#" + [letter] + "=" + value, [letter] + "=" + value;
    assert text == key + ['#'] + behind;
    FindBehind(key, '#', behind);
    CutAt(key, '#', behind);
    StripTrimmed(key);
    PairUnfold(s, text);
    NoComment(key);
    LetterKind(letter, kind, s.types[|s.keys|]);
    assert text[|key| + 1..][0] == letter && text[|key| + 2..] == text[|key| + 1..][1..] == "=" + value;
    OpenValue(Superseded(s, key), key, kind, value);
  }

  lemma OpenValue(t: Store, key: string, kind: KeyType, value: string)
    requires Formed(t) && |t.keys| < MAXKEYS && ';' !in value && Validate(value, kind) >= 0
    ensures TakeValue(t, key, kind, "=" + value) == Last(Appended(t, key, value, Validate(value, kind), kind))
  {
    assert Find(value, ';') < 0;
    hide Validate, Find;
    assert ("=" + value)[1..] == value;
  }

  /** A letter this parser does not know leaves the type the table held, and a record ends at a comment. */
  lemma OtherLetters(letter: char, before: KeyType)
    requires letter != 'I' && letter != 'F' && letter != 'S'
    ensures TypeOf(letter, before) == before
  {
  }

  /** From a key that begins with two slashes on a record is not read. */
  lemma CommentStops(s: Store, key: string, behind: string)
    requires Formed(s) && |s.keys| < 1000 && Trimmed(key) && |key| >= 2 && key[0] == '/' && key[1] == '/' && '#' !in key
    ensures TakePair(s, key + "#" + behind) == Stop
  {
    hide Strip, Find, TakeValue, Trimmed, Superseded, TypeOf, TakePair;
    assert key + "#" + behind == key + ['#'] + behind;
    FindBehind(key, '#', behind);
    CutAt(key, '#', behind);
    StripTrimmed(key);
    PairUnfold(s, key + "#" + behind);
  }

  /** A pair without its '=' is refused as bad input, and a full table refuses any pair. */
  lemma OtherRefusals(s: Store, key: string, kind: KeyType, rest: string, text: string)
    requires Formed(s)
    ensures |s.keys| < 1000 && (CountField(rest).1 == "" || CountField(rest).1[0] != '=') ==>
              TakeValue(s, key, kind, rest) == Fail(KVP_E_BADINPUT, s.(types := s.types[|s.keys| := kind]))
    ensures |s.keys| == 1000 && '#' in text ==> TakePair(s, text) == Fail(KVP_E_TOOMANY, s)
  {
    hide CountField, StoreValue, Strip, TakePair, Superseded;
    PairUnfold(s, text);
  }

  /** The elements of a string are its characters. */
  lemma StringElements(value: string)
    ensures Validate(value, KT_STRING) == |value|
  {
  }

  // ----- Printing

  /** The table's text, line by line: invalid entries leave none, and the last in the table no line's end. */
  lemma FormatLines(s: Store, i: nat)
    requires Formed(s) && i < |s.keys|
    ensures var letter := match s.types[i] case KT_INT => "I" case KT_FLOAT => "F" case _ => "S";
            var line := s.keys[i] + "#" + letter + PrintedInt(s.counts[i]) + "=" + s.values[i] + ";";
            FormatFrom(s, i)
            == if s.types[i] == KT_INVALID then FormatFrom(s, i + 1)
               else if i + 1 < |s.keys| then line + "\n" + FormatFrom(s, i + 1)
               else line
    ensures FormatFrom(s, |s.keys|) == ""
  {
    hide PrintedInt;
    if i + 1 == |s.keys| {
      assert EntryText(s, i) + "" == EntryText(s, i);
    }
  }
}

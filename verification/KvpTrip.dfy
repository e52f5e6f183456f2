// Printing the key/value table and parsing it back, and arrays of integers
// through the whole of it.
module KvpTrip {
  import opened KvpText
  import opened KvpValidate
  import opened KvpStore

  // ----- Printing

  function TypeLetter(kind: KeyType): string {
    if kind == KT_INT then "I" else if kind == KT_FLOAT then "F" else "S"
  }

  /** "%s#%s%d=%s;" */
  function PairText(key: string, kind: KeyType, count: int, value: string): string {
    key + "#" + TypeLetter(kind) + PrintedInt(count) + "=" + value + ";"
  }

  /** What entry i adds: nothing if it is invalid, and a newline unless it stands last in the table. */
  function EntryText(s: Store, i: nat): string
    requires Formed(s) && i < |s.keys|
  {
    if s.types[i] == KT_INVALID then ""
    else PairText(s.keys[i], s.types[i], s.counts[i], s.values[i]) + (if i < |s.keys| - 1 then "\n" else "")
  }

  /** The text of the entries from i on. */
  function FormatFrom(s: Store, i: nat): string
    requires Formed(s) && i <= |s.keys|
    decreases |s.keys| - i
  {
    if i == |s.keys| then "" else EntryText(s, i) + FormatFrom(s, i + 1)
  }

  // ----- Reading back

  /** What an entry needs to be read back from its text. */
  predicate Readable(key: string, kind: KeyType, count: int, value: string) {
    && Trimmed(key) && key != "" && !Comment(key) && '#' !in key
    && (kind == KT_INT || kind == KT_FLOAT || kind == KT_STRING)
    && ';' !in value
    && 0 <= count < 0x8000_0000 && Validate(value, kind) == count
  }

  predicate ReadableAt(s: Store, i: nat)
    requires Formed(s) && i < |s.keys|
  {
    s.types[i] == KT_INVALID || Readable(s.keys[i], s.types[i], s.counts[i], s.values[i])
  }

  predicate AllReadable(s: Store)
    requires Formed(s)
  {
    forall i :: 0 <= i < |s.keys| ==> ReadableAt(s, i)
  }

  /** The tables reset: no entries, the types still what they were. */
  predicate Empty(s: Store) {
    Formed(s) && s.keys == []
  }

  /** `t` with the valid entries of `s` from i on behind its own. */
  function WithValid(t: Store, s: Store, i: nat): (r: Store)
    requires Formed(t) && Formed(s) && i <= |s.keys| && |t.keys| <= i
    ensures Formed(r)
    decreases |s.keys| - i
  {
    if i == |s.keys| then t
    else if s.types[i] == KT_INVALID then WithValid(t, s, i + 1)
    else WithValid(Appended(t, s.keys[i], s.values[i], s.counts[i], s.types[i]), s, i + 1)
  }

  /** The fields of one pair's text, a newline in front or not. */
  lemma PairAhead(key: string, kind: KeyType, count: int, value: string, nl: string, rest: string)
    requires Readable(key, kind, count, value) && (nl == "" || nl == "\n")
    ensures var text := nl + PairText(key, kind, count, value) + rest;
            var hash := Find(text, '#');
            var behind := TypeLetter(kind) + PrintedInt(count) + "=" + value + ";" + rest;
            && hash == |nl| + |key| && hash < |text|
            && Strip(text[..hash]) == key && text[hash + 1..] == behind
  {
    hide *;
    var tail := TypeLetter(kind) + PrintedInt(count) + "=" + value + ";" + rest;
    PairShape(key, kind, count, value, nl, rest);
    FindBehind(nl + key, '#', tail);
    CutAt(nl + key, '#', tail);
    KeyBack(nl, key);
  }

  lemma PairShape(key: string, kind: KeyType, count: int, value: string, nl: string, rest: string)
    requires Readable(key, kind, count, value) && (nl == "" || nl == "\n")
    ensures nl + PairText(key, kind, count, value) + rest
         == (nl + key) + ['#'] + (TypeLetter(kind) + PrintedInt(count) + "=" + value + ";" + rest)
    ensures '#' !in nl + key && Trimmed(key)
  {
    hide PrintedInt, TypeLetter, Validate;
  }

  lemma CutAt(a: string, c: char, b: string)
    ensures (a + [c] + b)[..|a|] == a && (a + [c] + b)[|a| + 1..] == b
  {
  }

  lemma KeyBack(nl: string, key: string)
    requires Trimmed(key) && (nl == "" || nl == "\n")
    ensures Strip(nl + key) == key
  {
    if nl == "" {
      assert nl + key == key;
      StripTrimmed(key);
    } else {
      StripAfterSpace('\n', key);
    }
  }

  /** ... behind the type letter the count ... */
  lemma CountAhead(count: int, text: string)
    requires 0 <= count < 0x8000_0000
    ensures CountField(PrintedInt(count) + "=" + text) == (count, "=" + text)
  {
    hide *;
    var p := PrintedInt(count);
    assert p + "=" + text == p + ("=" + text);
    StopsAtEquals(text);
    StrtolPrinted(count, "=" + text, 10);
    FirstDigit(count, 10);
    CountFieldOf(count, "=" + text);
  }

  lemma StopsAtEquals(text: string)
    ensures Stops("=" + text)
  {
  }

  lemma CountFieldOf(count: int, rest: string)
    requires 0 <= count < 0x8000_0000
    requires Strtol(PrintedInt(count) + rest, 10) == (count, |PrintedInt(count)|)
    requires DigitOf(Printed(count, 10)[0]) < 10
    ensures CountField(PrintedInt(count) + rest) == (count, rest)
  {
    hide Strtol, Printed;
    var s := PrintedInt(count) + rest;
    assert s[0] == Printed(count, 10)[0];
    assert s[|PrintedInt(count)|..] == rest;
  }

  /** ... and behind the '=' the value and the rest. */
  lemma ValueAhead(value: string, rest: string)
    requires ';' !in value
    ensures var text := value + ";" + rest;
            Value(text) == value && Find(text, ';') == |value| && text[|value| + 1..] == rest
  {
    FindBehind(value, ';', rest);
    hide Find;
    var text := value + ";" + rest;
    assert text == value + [';'] + rest;
    assert text[..|value|] == value && text[|value| + 1..] == rest;
  }

  lemma ValueTaken(t: Store, key: string, kind: KeyType, count: int, value: string, rest: string)
    requires Formed(t) && |t.keys| < MAXKEYS
    requires 0 <= count < 0x8000_0000 && ';' !in value && Validate(value, kind) == count
    ensures TakeValue(t, key, kind, PrintedInt(count) + "=" + (value + ";" + rest))
         == More(Appended(t, key, value, count, kind), rest)
  {
    var text := value + ";" + rest;
    CountAhead(count, text);
    ValueAhead(value, rest);
    hide Validate, PrintedInt, Find, Value, CountField;
    assert ("=" + text)[1..] == text;
  }

  /** The parser's turn at a readable pair of a key not yet there. */
  lemma PairTaken(t: Store, key: string, kind: KeyType, count: int, value: string, nl: string, rest: string)
    requires Formed(t) && |t.keys| < MAXKEYS && key !in t.keys
    requires Readable(key, kind, count, value) && (nl == "" || nl == "\n")
    ensures TakePair(t, nl + PairText(key, kind, count, value) + rest)
         == More(Appended(t, key, value, count, kind), rest)
  {
    hide Strip, Validate, PrintedInt, Find, TakeValue, PairText, Trimmed, Superseded, TypeOf, TypeLetter, TakePair,
         Appended;
    var text := nl + PairText(key, kind, count, value) + rest;
    var behind := TypeLetter(kind) + PrintedInt(count) + "=" + value + ";" + rest;
    ValueTaken(t, key, kind, count, value, rest);
    PairAhead(key, kind, count, value, nl, rest);
    NotThere(t, key);
    LetterBack(kind, t.types[|t.keys|]);
    LetterAhead(kind, count, value, rest);
    PairUnfold(t, text);
    var hash := Find(text, '#');
    assert text[hash + 1] == behind[0];
    assert text[hash + 2..] == behind[1..];
  }

  lemma LetterBack(kind: KeyType, before: KeyType)
    requires kind == KT_INT || kind == KT_FLOAT || kind == KT_STRING
    ensures |TypeLetter(kind)| == 1 && TypeOf(TypeLetter(kind)[0], before) == kind
  {
  }

  lemma LetterAhead(kind: KeyType, count: int, value: string, rest: string)
    ensures var behind := TypeLetter(kind) + PrintedInt(count) + "=" + value + ";" + rest;
            && behind != "" && behind[0] == TypeLetter(kind)[0]
            && behind[1..] == PrintedInt(count) + "=" + (value + ";" + rest)
  {
    hide PrintedInt;
  }

  lemma NotThere(t: Store, key: string)
    requires Formed(t) && key !in t.keys && Trimmed(key)
    ensures Superseded(t, key) == t
  {
    StripTrimmed(key);
  }

  lemma NoPairAhead(t: Store, nl: string)
    requires Formed(t) && (nl == "" || nl == "\n")
    ensures TakePair(t, nl) == Stop
  {
  }

  /** The keys gathered so far do not come again among the valid entries from i on. */
  ghost predicate NewKeys(t: Store, s: Store, i: nat)
    requires Formed(s) && i <= |s.keys|
  {
    forall k :: i <= k < |s.keys| && s.types[k] != KT_INVALID ==> s.keys[k] !in t.keys
  }

  lemma NewKeysNext(t: Store, s: Store, i: nat)
    requires Formed(t) && Formed(s) && Unique(s) && i < |s.keys| && NewKeys(t, s, i) && |t.keys| <= i
    requires s.types[i] != KT_INVALID
    ensures NewKeys(Appended(t, s.keys[i], s.values[i], s.counts[i], s.types[i]), s, i + 1)
  {
    var r := Appended(t, s.keys[i], s.values[i], s.counts[i], s.types[i]);
    forall k | i + 1 <= k < |s.keys| && s.types[k] != KT_INVALID ensures s.keys[k] !in r.keys {
      assert s.keys[k] != s.keys[i];
    }
  }

  /** Parsing what was printed gives the valid entries, in order and unchanged. */
  lemma {:induction false} FormatParsed(t: Store, s: Store, i: nat, nl: string)
    requires Formed(t) && Formed(s) && Unique(s) && AllReadable(s)
    requires i <= |s.keys| && |t.keys| <= i && NewKeys(t, s, i) && (nl == "" || nl == "\n")
    ensures ParseFrom(t, nl + FormatFrom(s, i)) == Parsed(WithValid(t, s, i), false)
    decreases |s.keys| - i
  {
    hide TakePair, PairText, Readable, Unique, NewKeys;
    if i == |s.keys| {
      assert nl + "" == nl;
      NoPairAhead(t, nl);
    } else if s.types[i] == KT_INVALID {
      assert "" + FormatFrom(s, i + 1) == FormatFrom(s, i + 1);
      NewKeysSkip(t, s, i);
      FormatParsed(t, s, i + 1, nl);
    } else {
      assert ReadableAt(s, i);
      var pair := PairText(s.keys[i], s.types[i], s.counts[i], s.values[i]);
      var end := if i < |s.keys| - 1 then "\n" else "";
      var next := Appended(t, s.keys[i], s.values[i], s.counts[i], s.types[i]);
      assert nl + (pair + end + FormatFrom(s, i + 1)) == nl + pair + (end + FormatFrom(s, i + 1));
      NewKeysNow(t, s, i);
      PairTaken(t, s.keys[i], s.types[i], s.counts[i], s.values[i], nl, end + FormatFrom(s, i + 1));
      NewKeysNext(t, s, i);
      FormatParsed(next, s, i + 1, end);
    }
  }

  lemma NewKeysSkip(t: Store, s: Store, i: nat)
    requires Formed(s) && i < |s.keys| && NewKeys(t, s, i)
    ensures NewKeys(t, s, i + 1)
  {
  }

  lemma NewKeysNow(t: Store, s: Store, i: nat)
    requires Formed(s) && i < |s.keys| && NewKeys(t, s, i) && s.types[i] != KT_INVALID
    ensures s.keys[i] !in t.keys
  {
  }

  /**
   * The parser undoes the printer: parsed into an emptied table, the text
   * printed gives exactly the valid entries, in order, with key, type, count
   * and value.
   */
  lemma ParserUndoesPrinter(s: Store, empty: Store)
    requires Formed(s) && Unique(s) && AllReadable(s) && Empty(empty)
    ensures ParseFrom(empty, FormatFrom(s, 0)) == Parsed(WithValid(empty, s, 0), false)
  {
    hide Unique, AllReadable, FormatFrom, ParseFrom, WithValid;
    assert "" + FormatFrom(s, 0) == FormatFrom(s, 0);
    FormatParsed(empty, s, 0, "");
  }
}

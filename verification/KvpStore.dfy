// The key/value table: parsing records into it and printing it out again.
module KvpStore {
  import opened KvpText
  import opened KvpValidate

  const MAXKEYS: nat := 1000

  datatype KvpErrorCode = KVP_E_OK | KVP_E_DUPLICATE | KVP_E_NOTFOUND | KVP_E_SYSTEM | KVP_E_BADKEY | KVP_E_BADVALUE
                        | KVP_E_TOOMANY | KVP_E_TOOLONG | KVP_E_BADTYPE | KVP_E_BADINPUT | KVP_E_WRONGCOUNT
                        | KVP_E_TRUNCATE | KVP_E_ILLNUMBER | KVP_E_TERMINATOR

  /** The parallel tables; `types` keeps what it held beyond the entries in use. */
  datatype Store = Store(keys: seq<string>, values: seq<string>, counts: seq<int>, types: seq<KeyType>)

  predicate Formed(s: Store) {
    |s.keys| == |s.values| == |s.counts| <= MAXKEYS == |s.types|
  }

  /** The last place of a key, or -1. */
  function LastIndex(keys: seq<string>, key: string): (i: int)
    ensures -1 <= i < |keys|
    ensures i >= 0 ==> keys[i] == key
    ensures forall k :: i < k < |keys| ==> keys[k] != key
  {
    if keys == [] then -1
    else if keys[|keys| - 1] == key then |keys| - 1
    else LastIndex(keys[..|keys| - 1], key)
  }

  /** kvpFindKey: surrounding spaces of the argument do not count, and the last match wins. */
  function FindKey(s: Store, key: string): (i: int)
    requires Formed(s)
    ensures -1 <= i < |s.keys|
  {
    LastIndex(s.keys, Strip(key))
  }

  // ----- Parsing

  /** What one turn of the parser's loop comes to. */
  datatype Turn =
    | Stop                                       // no more pairs, or a comment
    | More(store: Store, rest: string)           // an entry, and text behind its semicolon
    | Last(store: Store)                         // an entry without a semicolon
    | Fail(code: KvpErrorCode, failed: Store)
    | Astray                                     // the record ends at a '#': the parser reads on behind it

  function Comment(key: string): bool {
    |key| >= 2 && key[0] == '/' && key[1] == '/'
  }

  function TypeOf(c: char, before: KeyType): KeyType {
    if c == 'I' then KT_INT else if c == 'F' then KT_FLOAT else if c == 'S' then KT_STRING else before
  }

  /** The table once the key is known: an older entry of the same key becomes invalid. */
  function Superseded(s: Store, key: string): (r: Store)
    requires Formed(s)
    ensures Formed(r) && r == s.(types := r.types)
  {
    var prior := FindKey(s, key);
    if prior >= 0 then s.(types := s.types[prior := KT_INVALID]) else s
  }

  /** The element count in front of the '=': 0 when it stands there at once. */
  function CountField(rest: string): (r: (int, string))
    ensures |r.1| <= |rest| && r.1 == rest[|rest| - |r.1|..]
  {
    if rest != "" && rest[0] == '=' then (0, rest)
    else
      var (n, used) := Strtol(rest, 10);
      (S32(n), rest[used..])
  }

  function Value(text: string): (value: string) {
    var e := Find(text, ';');
    if e < 0 then text else text[..e]
  }

  function Appended(s: Store, key: string, value: string, count: int, kind: KeyType): (r: Store)
    requires Formed(s) && |s.keys| < MAXKEYS
    ensures Formed(r)
  {
    Store(s.keys + [key], s.values + [value], s.counts + [count], s.types[|s.keys| := kind])
  }

  /** The value up to its semicolon, if it is valid and has the number of elements given. */
  function StoreValue(s: Store, key: string, kind: KeyType, given: int, text: string): (t: Turn)
    requires Formed(s) && |s.keys| < MAXKEYS
    ensures t.More? ==> Formed(t.store) && |t.rest| < |text|
    ensures t.Last? ==> Formed(t.store)
    ensures t.Fail? ==> Formed(t.failed)
    ensures !t.Stop? && !t.Astray?
  {
    var s1 := s.(types := s.types[|s.keys| := kind]);
    var value := Value(text);
    var count := Validate(value, kind);
    if count < 0 then Fail(KVP_E_ILLNUMBER, s1)
    else if given != 0 && given != count then Fail(KVP_E_WRONGCOUNT, s1)
    else if Find(text, ';') < 0 then Last(Appended(s, key, value, count, kind))
    else More(Appended(s, key, value, count, kind), text[Find(text, ';') + 1..])
  }

  /** The part of a turn behind the type character. */
  function TakeValue(s: Store, key: string, kind: KeyType, rest: string): (t: Turn)
    requires Formed(s) && |s.keys| < MAXKEYS
    ensures t.More? ==> Formed(t.store) && |t.rest| < |rest|
    ensures t.Last? ==> Formed(t.store)
    ensures t.Fail? ==> Formed(t.failed)
    ensures !t.Stop? && !t.Astray?
  {
    var (given, behind) := CountField(rest);
    if behind == "" || behind[0] != '=' then Fail(KVP_E_BADINPUT, s.(types := s.types[|s.keys| := kind]))
    else StoreValue(s, key, kind, given, behind[1..])
  }

  /** One key and its value at the front of `text`. */
  function TakePair(s: Store, text: string): (t: Turn)
    requires Formed(s)
    ensures t.More? ==> Formed(t.store) && |t.rest| < |text|
    ensures t.Last? ==> Formed(t.store)
    ensures t.Fail? ==> Formed(t.failed)
  {
    var hash := Find(text, '#');
    if hash < 0 then Stop
    else if |s.keys| >= MAXKEYS then Fail(KVP_E_TOOMANY, s)
    else
      var key := Strip(text[..hash]);
      var behind := text[hash + 1..];
      if Comment(key) then Stop
      else if behind == "" then Astray
      else
        // stripping an empty key writes a 0 over the type character
        var kind := TypeOf(if key == "" then '\0' else behind[0], s.types[|s.keys|]);
        TakeValue(Superseded(s, key), key, kind, behind[1..])
  }

  /** The turn by cases. */
  lemma PairUnfold(s: Store, text: string)
    requires Formed(s)
    ensures var r, hash := TakePair(s, text), Find(text, '#');
            if hash < 0 then r == Stop
            else if |s.keys| >= MAXKEYS then r == Fail(KVP_E_TOOMANY, s)
            else
              var key := Strip(text[..hash]);
              if Comment(key) then r == Stop
              else if hash + 1 == |text| then r == Astray
              else
                r == TakeValue(Superseded(s, key), key,
                               TypeOf(if key == "" then '\0' else text[hash + 1], s.types[|s.keys|]), text[hash + 2..])
  {
    hide Strip, TakeValue, TypeOf, Comment, Superseded;
    var hash := Find(text, '#');
    if hash >= 0 && hash + 1 < |text| {
      assert text[hash + 1..][1..] == text[hash + 2..];
    }
  }

  /** The outcome of a whole record; `open` tells that the last value had no semicolon. */
  datatype Outcome = Parsed(store: Store, open: bool) | Refused(code: KvpErrorCode, left: Store) | Lost

  function ParseFrom(s: Store, text: string): (r: Outcome)
    requires Formed(s)
    ensures r.Parsed? ==> Formed(r.store)
    ensures r.Refused? ==> Formed(r.left)
    decreases |text|
  {
    match TakePair(s, text)
    case Stop => Parsed(s, false)
    case More(next, rest) => ParseFrom(next, rest)
    case Last(next) => Parsed(next, true)
    case Fail(code, failed) => Refused(code, failed)
    case Astray => Lost
  }

  // ----- Latest definition wins

  /** An entry that is not invalid is the last of its key. */
  ghost predicate Unique(s: Store)
    requires Formed(s)
  {
    forall i, k :: 0 <= i < k < |s.keys| && s.types[i] != KT_INVALID ==> s.keys[k] != s.keys[i]
  }

  ghost predicate TrimmedKeys(s: Store) {
    forall i :: 0 <= i < |s.keys| ==> Trimmed(s.keys[i])
  }

  /** In such a table each valid entry is the one a lookup of its key finds. */
  lemma UniqueFound(s: Store, i: nat)
    requires Formed(s) && Unique(s) && TrimmedKeys(s) && i < |s.keys| && s.types[i] != KT_INVALID
    ensures FindKey(s, s.keys[i]) == i
  {
    StripTrimmed(s.keys[i]);
  }

  lemma AppendUnique(s: Store, key: string, value: string, count: int, kind: KeyType)
    requires Formed(s) && |s.keys| < MAXKEYS && Unique(s) && TrimmedKeys(s) && Trimmed(key)
    ensures Unique(Appended(Superseded(s, key), key, value, count, kind))
    ensures TrimmedKeys(Appended(Superseded(s, key), key, value, count, kind))
  {
    StripTrimmed(key);
    hide Strip;
    var prior := LastIndex(s.keys, key);
    var r := Appended(Superseded(s, key), key, value, count, kind);
    forall i, k | 0 <= i < k < |r.keys| && r.types[i] != KT_INVALID ensures r.keys[k] != r.keys[i] {}
  }

  /** One turn keeps it, whatever its outcome. */
  lemma TurnUnique(s: Store, text: string)
    requires Formed(s) && Unique(s) && TrimmedKeys(s)
    ensures var t := TakePair(s, text);
            && (t.More? || t.Last? ==> Unique(t.store) && TrimmedKeys(t.store))
            && (t.Fail? ==> Unique(t.failed) && TrimmedKeys(t.failed))
  {
    hide Strip, Validate, CountField, Trimmed, Superseded, Value, LastIndex;
    var hash := Find(text, '#');
    if hash >= 0 && |s.keys| < MAXKEYS {
      var key := Strip(text[..hash]);
      StripTrims(text[..hash]);
      forall value, count, kind
        ensures Unique(Appended(Superseded(s, key), key, value, count, kind))
             && TrimmedKeys(Appended(Superseded(s, key), key, value, count, kind))
      {
        AppendUnique(s, key, value, count, kind);
      }
      SupersededUnique(s, key);
    }
  }

  lemma SupersededUnique(s: Store, key: string)
    requires Formed(s) && Unique(s)
    ensures Unique(Superseded(s, key))
  {
  }

  /** A record keeps it, even one that is refused half-way. */
  lemma {:induction false} ParseUnique(s: Store, text: string)
    requires Formed(s) && Unique(s) && TrimmedKeys(s)
    ensures var r := ParseFrom(s, text);
            && (r.Parsed? ==> Unique(r.store) && TrimmedKeys(r.store))
            && (r.Refused? ==> Unique(r.left) && TrimmedKeys(r.left))
    decreases |text|
  {
    hide TakePair, Unique, TrimmedKeys;
    TurnUnique(s, text);
    var t := TakePair(s, text);
    if t.More? {
      ParseUnique(t.store, t.rest);
    }
  }

  // ----- Room for the texts

  /** Bytes the texts of the entries take, with a 0 behind each. */
  function Live(s: Store): (n: nat)
    requires |s.keys| == |s.values|
  {
    LiveTo(s, |s.keys|)
  }

  function LiveTo(s: Store, k: nat): nat
    requires k <= |s.keys| == |s.values|
  {
    if k == 0 then 0 else LiveTo(s, k - 1) + |s.keys[k - 1]| + 1 + |s.values[k - 1]| + 1
  }

  lemma LiveSame(s: Store, r: Store, k: nat)
    requires k <= |s.keys| == |s.values| && k <= |r.keys| == |r.values|
    requires s.keys[..k] == r.keys[..k] && s.values[..k] == r.values[..k]
    ensures LiveTo(s, k) == LiveTo(r, k)
  {
    if k > 0 {
      assert s.keys[..k][..k - 1] == s.keys[..k - 1] && r.keys[..k][..k - 1] == r.keys[..k - 1];
      assert s.values[..k][..k - 1] == s.values[..k - 1] && r.values[..k][..k - 1] == r.values[..k - 1];
      assert s.keys[k - 1] == s.keys[..k][k - 1] && s.values[k - 1] == s.values[..k][k - 1];
      LiveSame(s, r, k - 1);
    }
  }

  lemma LiveAppended(s: Store, key: string, value: string, count: int, kind: KeyType)
    requires Formed(s) && |s.keys| < MAXKEYS
    ensures Live(Appended(s, key, value, count, kind)) == Live(s) + |key| + |value| + 2
  {
    LiveSame(s, Appended(s, key, value, count, kind), |s.keys|);
  }

  lemma StoreRoom(s: Store, key: string, kind: KeyType, given: int, text: string)
    requires Formed(s) && |s.keys| < MAXKEYS
    ensures var t := StoreValue(s, key, kind, given, text);
            && (t.More? ==> Live(t.store) + |t.rest| <= Live(s) + |key| + |text| + 1)
            && (t.Last? ==> Live(t.store) <= Live(s) + |key| + |text| + 2)
            && (t.Fail? ==> Live(t.failed) == Live(s))
  {
    hide Validate, LiveTo;
    LiveAppended(s, key, Value(text), Validate(Value(text), kind), kind);
    LiveTypes(s, s.types[|s.keys| := kind]);
  }

  lemma LiveTypes(s: Store, types: seq<KeyType>)
    requires Formed(s) && |types| == MAXKEYS
    ensures Live(s.(types := types)) == Live(s)
  {
    LiveSame(s, s.(types := types), |s.keys|);
  }

  lemma ValueRoom(s: Store, key: string, kind: KeyType, rest: string)
    requires Formed(s) && |s.keys| < MAXKEYS
    ensures var t := TakeValue(s, key, kind, rest);
            && (t.More? ==> Live(t.store) + |t.rest| <= Live(s) + |key| + |rest|)
            && (t.Last? ==> Live(t.store) <= Live(s) + |key| + |rest| + 1)
            && (t.Fail? ==> Live(t.failed) == Live(s))
  {
    hide CountField, Live, StoreValue;
    var (given, behind) := CountField(rest);
    LiveTypes(s, s.types[|s.keys| := kind]);
    if behind != "" {
      StoreRoom(s, key, kind, given, behind[1..]);
    }
  }

  /** The texts of an entry take no more than the record spends on it. */
  lemma TurnRoom(s: Store, text: string)
    requires Formed(s)
    ensures var t := TakePair(s, text);
            && (t.More? ==> Live(t.store) + |t.rest| <= Live(s) + |text|)
            && (t.Last? ==> Live(t.store) <= Live(s) + |text|)
            && (t.Fail? ==> Live(t.failed) == Live(s))
  {
    hide TakeValue, Superseded, Live, TypeOf, Comment, TakePair, Strip;
    PairUnfold(s, text);
    var hash := Find(text, '#');
    if hash >= 0 && |s.keys| < MAXKEYS && hash + 1 < |text| {
      var key := Strip(text[..hash]);
      LiveTypes(s, Superseded(s, key).types);
      ValueRoom(Superseded(s, key), key, TypeOf(if key == "" then '\0' else text[hash + 1], s.types[|s.keys|]),
        text[hash + 2..]);
    }
  }

  lemma {:induction false} ParseRoom(s: Store, text: string)
    requires Formed(s)
    ensures var r := ParseFrom(s, text);
            && (r.Parsed? ==> Live(r.store) <= Live(s) + |text|)
            && (r.Refused? ==> Live(r.left) <= Live(s) + |text|)
    decreases |text|
  {
    hide TakePair;
    TurnRoom(s, text);
    var t := TakePair(s, text);
    if t.More? {
      ParseRoom(t.store, t.rest);
    }
  }
}

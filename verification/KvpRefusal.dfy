// What a refused record does to the keys that had a value.
module KvpRefusal {
  import opened KvpText
  import opened KvpValidate
  import opened KvpStore
  import opened KvpTrip

  /** A lookup of the key would find a valid entry. */
  ghost predicate HasValid(s: Store, key: string)
    requires Formed(s)
  {
    exists i :: 0 <= i < |s.keys| && s.keys[i] == key && s.types[i] != KT_INVALID
  }

  /** The key of the pair at which a record is refused, and the table as it was there. */
  function RefusedPair(s: Store, text: string): (r: (Store, string))
    requires Formed(s)
    ensures Formed(r.0)
    decreases |text|
  {
    match TakePair(s, text)
    case More(next, rest) => RefusedPair(next, rest)
    case _ => (s, if Find(text, '#') < 0 then "" else Strip(text[..Find(text, '#')]))
  }

  /** `b` is `s` with pairs added: entries whose key was not given again keep their types. */
  ghost predicate Extends(s: Store, b: Store)
    requires Formed(s) && Formed(b)
  {
    && |s.keys| <= |b.keys| && b.keys[..|s.keys|] == s.keys
    && forall i :: 0 <= i < |s.keys| && LastIndex(b.keys, s.keys[i]) == i ==> b.types[i] == s.types[i]
  }

  /** The types a refusal leaves: all as they were, but for the key at which it came, unless the table was full. */
  ghost predicate RefusedAt(b: Store, key: string, code: KvpErrorCode, left: Store)
    requires Formed(b) && Formed(left)
  {
    && left.keys == b.keys
    && forall i :: 0 <= i < |b.keys| ==>
         left.types[i] == if code != KVP_E_TOOMANY && i == LastIndex(b.keys, key) then KT_INVALID else b.types[i]
  }

  lemma LastIndexIs(keys: seq<string>, key: string, i: nat)
    requires i < |keys| && keys[i] == key && forall k :: i < k < |keys| ==> keys[k] != key
    ensures LastIndex(keys, key) == i
  {
  }

  lemma AppendExtends(s: Store, key: string, value: string, count: int, kind: KeyType)
    requires Formed(s) && |s.keys| < MAXKEYS && Trimmed(key)
    ensures Extends(s, Appended(Superseded(s, key), key, value, count, kind))
  {
    StripTrimmed(key);
    hide Strip, LastIndex;
    var b := Appended(Superseded(s, key), key, value, count, kind);
    forall i | 0 <= i < |s.keys| && LastIndex(b.keys, s.keys[i]) == i ensures b.types[i] == s.types[i] {
      assert b.keys[|s.keys|] == key;
    }
  }

  lemma ExtendsFurther(s: Store, m: Store, b: Store)
    requires Formed(s) && Formed(m) && Formed(b) && Extends(s, m) && Extends(m, b)
    ensures Extends(s, b)
  {
    assert b.keys[..|s.keys|] == m.keys[..|s.keys|];
    forall i | 0 <= i < |s.keys| && LastIndex(b.keys, s.keys[i]) == i ensures b.types[i] == s.types[i] {
      assert m.keys[i] == m.keys[..|s.keys|][i] == s.keys[i];
      forall k | i < k < |m.keys| ensures m.keys[k] != s.keys[i] {
        assert b.keys[k] == b.keys[..|m.keys|][k] == m.keys[k];
      }
      LastIndexIs(m.keys, s.keys[i], i);
    }
  }

  /** One turn: an accepted pair extends the table, a refused one touches its own key's entry only. */
  lemma TurnRefusal(s: Store, text: string)
    requires Formed(s)
    ensures var t := TakePair(s, text);
            && (t.More? ==> Extends(s, t.store))
            && (t.Fail? ==> Find(text, '#') >= 0 && Trimmed(Strip(text[..Find(text, '#')]))
                            && RefusedAt(s, Strip(text[..Find(text, '#')]), t.code, t.failed))
  {
    hide Strip, TakeValue, Trimmed, LastIndex, Extends, RefusedAt, TakePair, TypeOf, Comment, Superseded;
    PairUnfold(s, text);
    var hash := Find(text, '#');
    if hash >= 0 {
      var key := Strip(text[..hash]);
      StripTrims(text[..hash]);
      if |s.keys| < MAXKEYS && hash + 1 < |text| {
        ValueRefusal(s, key, TypeOf(if key == "" then '\0' else text[hash + 1], s.types[|s.keys|]), text[hash + 2..]);
      } else {
        FullTable(s, key);
      }
    }
  }

  lemma FullTable(s: Store, key: string)
    requires Formed(s)
    ensures RefusedAt(s, key, KVP_E_TOOMANY, s)
  {
  }

  lemma ValueRefusal(s: Store, key: string, kind: KeyType, rest: string)
    requires Formed(s) && |s.keys| < MAXKEYS && Trimmed(key)
    ensures var t := TakeValue(Superseded(s, key), key, kind, rest);
            && (t.More? ==> Extends(s, t.store))
            && (t.Fail? ==> RefusedAt(s, key, t.code, t.failed))
  {
    hide Validate, CountField, Value, Extends, Strip, LastIndex;
    StripTrimmed(key);
    forall value, count ensures Extends(s, Appended(Superseded(s, key), key, value, count, kind)) {
      AppendExtends(s, key, value, count, kind);
    }
  }

  lemma {:induction false} RefusalSteps(s: Store, text: string)
    requires Formed(s) && Unique(s) && TrimmedKeys(s) && ParseFrom(s, text).Refused?
    ensures var r := ParseFrom(s, text);
            var (b, key) := RefusedPair(s, text);
            && Extends(s, b) && Unique(b) && TrimmedKeys(b) && Trimmed(key)
            && RefusedAt(b, key, r.code, r.left)
    decreases |text|
  {
    hide TakePair, Unique, TrimmedKeys, Extends, RefusedAt, Find, Strip, Trimmed;
    TurnRefusal(s, text);
    TurnUnique(s, text);
    var t := TakePair(s, text);
    if t.More? {
      RefusalSteps(t.store, t.rest);
      ExtendsFurther(s, t.store, RefusedPair(t.store, t.rest).0);
    } else {
      ExtendsSelf(s);
    }
  }

  lemma ExtendsSelf(s: Store)
    requires Formed(s)
    ensures Extends(s, s)
  {
  }

  /** The record's last pair for the key, before the refusal, got no valid type. */
  ghost predicate Untyped(s: Store, b: Store, key: string)
    requires Formed(s) && Formed(b)
  {
    var j := LastIndex(b.keys, key);
    j >= |s.keys| && b.types[j] == KT_INVALID
  }

  /**
   * Which keys a refused record costs their value, exactly: the key of the pair
   * at which it is refused, unless that was because the table is full; and a
   * key whose last pair in the record has a type letter the parser does not
   * know where the type table still holds an invalid type.
   */
  lemma LostKeys(s: Store, text: string, key: string)
    requires Formed(s) && Unique(s) && TrimmedKeys(s) && ParseFrom(s, text).Refused?
    requires HasValid(s, key)
    ensures var r := ParseFrom(s, text);
            var (b, refused) := RefusedPair(s, text);
            !HasValid(r.left, key) <==> (r.code != KVP_E_TOOMANY && key == refused) || Untyped(s, b, key)
  {
    hide ParseFrom, RefusedPair, Trimmed;
    RefusalSteps(s, text);
    var r := ParseFrom(s, text);
    var (b, refused) := RefusedPair(s, text);
    var i :| 0 <= i < |s.keys| && s.keys[i] == key && s.types[i] != KT_INVALID;
    assert b.keys[i] == b.keys[..|s.keys|][i] == key;
    var j := LastIndex(b.keys, key);
    if j < |s.keys| {
      assert b.keys[j] == b.keys[..|s.keys|][j] == s.keys[j];
      assert j == i;
      assert LastIndex(b.keys, s.keys[i]) == i;
    }
    hide Extends;
    LastDecides(b, key);
    SameKeysLast(r.left, b, key);
  }

  /** With unique entries, a key has a valid entry just when its last one is valid. */
  lemma LastDecides(b: Store, key: string)
    requires Formed(b) && Unique(b)
    ensures HasValid(b, key) <==> LastIndex(b.keys, key) >= 0 && b.types[LastIndex(b.keys, key)] != KT_INVALID
  {
  }

  /** The same after some of the types became invalid. */
  lemma SameKeysLast(left: Store, b: Store, key: string)
    requires Formed(b) && Formed(left) && Unique(b) && left.keys == b.keys
    requires forall i :: 0 <= i < |b.keys| && b.types[i] == KT_INVALID ==> left.types[i] == KT_INVALID
    ensures HasValid(left, key) <==> LastIndex(b.keys, key) >= 0 && left.types[LastIndex(b.keys, key)] != KT_INVALID
  {
    assert Unique(left);
    LastDecides(left, key);
  }

  // ----- Records whose types are all known

  /** The unused part of the type table holds no invalid type, so no new entry can be born with one. */
  ghost predicate CleanTypes(s: Store)
    requires Formed(s)
  {
    forall k :: |s.keys| <= k < MAXKEYS ==> s.types[k] != KT_INVALID
  }

  lemma CleanTurn(s: Store, text: string)
    requires Formed(s) && CleanTypes(s)
    ensures var t := TakePair(s, text);
            t.More? ==> |t.store.keys| == |s.keys| + 1 && CleanTypes(t.store) && t.store.types[|s.keys|] != KT_INVALID
  {
    hide Strip, Validate, CountField, Value, LastIndex;
  }

  /** The last pair of a key in the record then has a valid type. */
  lemma {:induction false} CleanBirths(s: Store, text: string, key: string)
    requires Formed(s) && CleanTypes(s) && Unique(s) && TrimmedKeys(s) && ParseFrom(s, text).Refused?
    ensures !Untyped(s, RefusedPair(s, text).0, key)
    decreases |text|
  {
    hide TakePair, Unique, TrimmedKeys, Extends, RefusedAt, Find, Strip;
    CleanTurn(s, text);
    TurnUnique(s, text);
    var t := TakePair(s, text);
    if t.More? {
      CleanBirths(t.store, t.rest, key);
      RefusalSteps(t.store, t.rest);
      BornHere(s, t.store, RefusedPair(t.store, t.rest).0, key);
    }
  }

  lemma BornHere(s: Store, m: Store, b: Store, key: string)
    requires Formed(s) && Formed(m) && Formed(b) && Extends(m, b)
    requires |m.keys| == |s.keys| + 1 && m.types[|s.keys|] != KT_INVALID && !Untyped(m, b, key)
    ensures !Untyped(s, b, key)
  {
    var j := LastIndex(b.keys, key);
    if j == |s.keys| {
      assert b.keys[j] == b.keys[..|m.keys|][j] == m.keys[j];
    }
  }

  /** Then exactly the key of the refused pair is lost, and none if the table was full. */
  lemma LostKeysClean(s: Store, text: string, key: string)
    requires Formed(s) && Unique(s) && TrimmedKeys(s) && CleanTypes(s) && ParseFrom(s, text).Refused?
    requires HasValid(s, key)
    ensures var r := ParseFrom(s, text);
            !HasValid(r.left, key) <==> r.code != KVP_E_TOOMANY && key == RefusedPair(s, text).1
  {
    hide *;
    LostKeys(s, text, key);
    CleanBirths(s, text, key);
  }

  // ----- An input

  /** Refusing a record half-way invalidates the key it was at: the old value is gone, the new one is not there. */
  lemma RefusalLosesKey(s: Store)
    requires Empty(s)
    ensures var first := ParseFrom(s, TrimLeft("A#I=1;"));
            && first.Parsed? && HasValid(first.store, "A")
            && var r := ParseFrom(first.store, TrimLeft("A#I=x;"));
               r.Refused? && r.code == KVP_E_ILLNUMBER && !HasValid(r.left, "A")
  {
    var s1 := Appended(s, "A", "1", 1, KT_INT);
    FirstRecord(s);
    SecondRecord(s1);
    assert s1.keys[0] == "A" && s1.types[0] == KT_INT;
  }

  /** The parser at a record of one int under the key A. */
  lemma OneRecord(s: Store, value: string)
    requires Formed(s) && |s.keys| < MAXKEYS
    ensures var t := "A#I=" + value + ";";
            TrimLeft(t) == t && TakePair(s, t) == TakeValue(Superseded(s, "A"), "A", KT_INT, "=" + (value + ";"))
  {
    hide TakeValue, Superseded;
    var behind := "I=" + value + ";";
    FindBehind("A", '#', behind);
    assert "A#I=" + value + ";" == "A" + ['#'] + behind;
    assert ("A" + ['#'] + behind)[..1] == "A" && ("A" + ['#'] + behind)[2..] == behind;
    assert behind[1..] == "=" + (value + ";");
    assert "A"[..0] == "" && "A"[1..] == "";
  }

  lemma OneValue(s: Store, value: string)
    requires Formed(s) && |s.keys| < MAXKEYS && ';' !in value
    ensures var count := Validate(value, KT_INT);
            TakeValue(s, "A", KT_INT, "=" + (value + ";"))
            == if count < 0 then Fail(KVP_E_ILLNUMBER, s.(types := s.types[|s.keys| := KT_INT]))
               else More(Appended(s, "A", value, count, KT_INT), "")
  {
    hide Validate, Strtol;
    var text := value + ";";
    FindBehind(value, ';', "");
    assert text == value + [';'] + "";
    assert ("=" + text)[1..] == text && text[..|value|] == value && text[|value| + 1..] == "";
  }

  lemma FirstRecord(s: Store)
    requires Empty(s)
    ensures ParseFrom(s, TrimLeft("A#I=1;")) == Parsed(Appended(s, "A", "1", 1, KT_INT), false)
  {
    hide TakePair, TakeValue, TrimLeft;
    OneRecord(s, "1");
    assert "A#I=1;" == "A#I=" + "1" + ";";
    OneValue(s, "1");
    assert "1"[1..] == "" && Superseded(s, "A") == s;
    NothingLeft(Appended(s, "A", "1", 1, KT_INT));
  }

  lemma NothingLeft(s: Store)
    requires Formed(s)
    ensures TakePair(s, "") == Stop
  {
  }

  lemma SecondRecord(s: Store)
    requires Formed(s) && s.keys == ["A"]
    ensures ParseFrom(s, TrimLeft("A#I=x;"))
        == Refused(KVP_E_ILLNUMBER, s.(types := s.types[0 := KT_INVALID][1 := KT_INT]))
  {
    hide TakePair, TakeValue, TrimLeft, Superseded, DigitOf;
    OneRecord(s, "x");
    assert "A#I=x;" == "A#I=" + "x" + ";";
    OldOneInvalid(s);
    OneValue(Superseded(s, "A"), "x");
    NoNumber();
  }

  lemma NoNumber()
    ensures Validate("x", KT_INT) == -1
  {
  }

  lemma OldOneInvalid(s: Store)
    requires Formed(s) && s.keys == ["A"]
    ensures Superseded(s, "A") == s.(types := s.types[0 := KT_INVALID])
  {
    assert Strip("A") == "A";
  }
}

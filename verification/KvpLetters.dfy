// Which keys a refused record costs their value, told from the record's text
// and the type table as it was before.
module KvpLetters {
  import opened KvpText
  import opened KvpValidate
  import opened KvpStore
  import opened KvpTrip
  import opened KvpRefusal

  /** A pair's key and type letter; an empty key's letter has been overwritten by a 0 when it is read. */
  datatype Named = Named(key: string, letter: char)

  /** The text behind the first pair's semicolon; none if the pair lacks its '=' or its semicolon. */
  function BehindPair(text: string, hash: nat): (rest: string)
    requires hash + 1 < |text|
    ensures |rest| < |text|
  {
    var behind := CountField(text[hash + 2..]).1;
    if behind == "" || behind[0] != '=' then ""
    else
      var e := Find(behind[1..], ';');
      if e < 0 then "" else behind[1..][e + 1..]
  }

  function NameOf(text: string, hash: nat): Named
    requires hash + 1 < |text|
  {
    var key := Strip(text[..hash]);
    Named(key, if key == "" then '\0' else text[hash + 1])
  }

  /** The keys and letters of a record. */
  function PairsOf(text: string): (ps: seq<Named>)
    decreases |text|
  {
    var hash := Find(text, '#');
    if hash < 0 || hash + 1 == |text| then [] else [NameOf(text, hash)] + PairsOf(BehindPair(text, hash))
  }

  lemma PairsUnfold(text: string)
    requires var hash := Find(text, '#'); 0 <= hash && hash + 1 < |text|
    ensures var ps, hash := PairsOf(text), Find(text, '#');
            ps != [] && ps[0] == NameOf(text, hash) && ps[1..] == PairsOf(BehindPair(text, hash))
  {
    hide BehindPair, NameOf, Find;
  }

  /** A value that is accepted, and where it ends. */
  lemma ValueMore(s: Store, key: string, kind: KeyType, rest: string)
    requires Formed(s) && |s.keys| < MAXKEYS && TakeValue(s, key, kind, rest).More?
    ensures var t, behind := TakeValue(s, key, kind, rest), CountField(rest).1;
            && behind != "" && behind[0] == '=' && Find(behind[1..], ';') >= 0
            && t.rest == behind[1..][Find(behind[1..], ';') + 1..]
            && t.store.keys == s.keys + [key] && t.store.types == s.types[|s.keys| := kind]
  {
    hide Validate, CountField, Value;
  }

  /** An accepted pair is the record's first, and gives its entry the type of its letter, or the one the table held. */
  lemma FirstOfPairs(s: Store, text: string)
    requires Formed(s) && TakePair(s, text).More?
    ensures |s.keys| < MAXKEYS
    ensures var t, ps := TakePair(s, text), PairsOf(text);
            && ps != [] && ps[1..] == PairsOf(t.rest) && t.store.keys == s.keys + [ps[0].key]
            && t.store.types == Superseded(s, ps[0].key).types[|s.keys| := TypeOf(ps[0].letter, s.types[|s.keys|])]
  {
    hide Strip, Validate, CountField, Comment, TypeOf, Superseded, TakePair, TakeValue, PairsOf;
    PairUnfold(s, text);
    PairsUnfold(text);
    var hash := Find(text, '#');
    var key := Strip(text[..hash]);
    ValueMore(Superseded(s, key), key, TypeOf(if key == "" then '\0' else text[hash + 1], s.types[|s.keys|]),
              text[hash + 2..]);
  }

  lemma SupersededOlder(s: Store, key: string)
    requires Formed(s)
    ensures forall k :: |s.keys| <= k < MAXKEYS ==> Superseded(s, key).types[k] == s.types[k]
  {
    hide Strip;
  }

  /**
   * The entries a record has added before its refusal: keys in order, and the type of each that
   * is the last of its key.
   */
  lemma {:induction false} LettersTell(s: Store, text: string)
    requires Formed(s) && Unique(s) && TrimmedKeys(s) && ParseFrom(s, text).Refused?
    ensures var b, ps := RefusedPair(s, text).0, PairsOf(text);
            var n := |b.keys| - |s.keys|;
            && 0 <= n <= |ps| && b.keys[..|s.keys|] == s.keys
            && forall m :: 0 <= m < n ==>
                 && b.keys[|s.keys| + m] == ps[m].key
                 && (LastIndex(b.keys, ps[m].key) == |s.keys| + m ==>
                       b.types[|s.keys| + m] == TypeOf(ps[m].letter, s.types[|s.keys| + m]))
    decreases |text|
  {
    hide TakePair, Unique, TrimmedKeys, RefusedAt, Find, Strip, Trimmed, PairsOf, Superseded, LastIndex, TypeOf;
    TurnUnique(s, text);
    var t := TakePair(s, text);
    if t.More? {
      FirstOfPairs(s, text);
      LettersTell(t.store, t.rest);
      RefusalSteps(t.store, t.rest);
      var b, ps := RefusedPair(s, text).0, PairsOf(text);
      SupersededOlder(s, ps[0].key);
      LettersJoin(s, t.store, b, ps);
    }
  }

  lemma LettersJoin(s: Store, next: Store, b: Store, ps: seq<Named>)
    requires Formed(s) && |s.keys| < MAXKEYS && Formed(next) && Formed(b) && ps != [] && Extends(next, b)
    requires next.keys == s.keys + [ps[0].key]
    requires next.types[|s.keys|] == TypeOf(ps[0].letter, s.types[|s.keys|])
    requires forall k :: |s.keys| < k < MAXKEYS ==> next.types[k] == s.types[k]
    requires var n := |b.keys| - |next.keys|;
             && 0 <= n <= |ps[1..]|
             && forall m :: 0 <= m < n ==>
                  && b.keys[|next.keys| + m] == ps[1..][m].key
                  && (LastIndex(b.keys, ps[1..][m].key) == |next.keys| + m ==>
                        b.types[|next.keys| + m] == TypeOf(ps[1..][m].letter, next.types[|next.keys| + m]))
    ensures b.keys[..|s.keys|] == s.keys
    ensures forall m :: 0 <= m < |b.keys| - |s.keys| ==>
              && b.keys[|s.keys| + m] == ps[m].key
              && (LastIndex(b.keys, ps[m].key) == |s.keys| + m ==>
                    b.types[|s.keys| + m] == TypeOf(ps[m].letter, s.types[|s.keys| + m]))
  {
    hide LastIndex, TypeOf;
    assert b.keys[..|s.keys|] == b.keys[..|next.keys|][..|s.keys|] == s.keys;
    forall m | 0 <= m < |b.keys| - |s.keys|
      ensures b.keys[|s.keys| + m] == ps[m].key
      ensures LastIndex(b.keys, ps[m].key) == |s.keys| + m ==>
                b.types[|s.keys| + m] == TypeOf(ps[m].letter, s.types[|s.keys| + m])
    {
      if m == 0 {
        assert b.keys[|s.keys|] == b.keys[..|next.keys|][|s.keys|] == next.keys[|s.keys|];
      } else {
        assert ps[m] == ps[1..][m - 1] && |next.keys| + (m - 1) == |s.keys| + m;
      }
    }
  }

  predicate KnownLetter(c: char) { c == 'I' || c == 'F' || c == 'S' }

  /**
   * Of the first n pairs the last of the key has a letter the parser does not
   * know, where the old type table holds an invalid type.
   */
  ghost predicate BornInvalid(s: Store, ps: seq<Named>, n: nat, key: string)
    requires Formed(s) && n <= |ps| && |s.keys| + n <= MAXKEYS
  {
    exists m :: 0 <= m < n && ps[m].key == key && !KnownLetter(ps[m].letter) && s.types[|s.keys| + m] == KT_INVALID
                && forall k :: m < k < n ==> ps[k].key != key
  }

  /** The entries of b behind those of s are the first n pairs. */
  ghost predicate Spelled(s: Store, b: Store, ps: seq<Named>, n: nat)
    requires Formed(s) && Formed(b) && |b.keys| == |s.keys| + n && n <= |ps|
  {
    forall m :: 0 <= m < n ==>
      && b.keys[|s.keys| + m] == ps[m].key
      && (LastIndex(b.keys, ps[m].key) == |s.keys| + m ==>
            b.types[|s.keys| + m] == TypeOf(ps[m].letter, s.types[|s.keys| + m]))
  }

  /** An untyped entry comes from such a letter, */
  lemma UntypedIsBorn(s: Store, b: Store, ps: seq<Named>, n: nat, key: string)
    requires Formed(s) && Formed(b) && |b.keys| == |s.keys| + n && n <= |ps| && Spelled(s, b, ps, n)
    requires Untyped(s, b, key)
    ensures BornInvalid(s, ps, n, key)
  {
    hide LastIndex;
    var m := LastIndex(b.keys, key) - |s.keys|;
    assert b.keys[|s.keys| + m] == ps[m].key;
    forall k | m < k < n ensures ps[k].key != key {
      assert b.keys[|s.keys| + k] == ps[k].key;
    }
  }

  /** and such a letter leaves one. */
  lemma BornIsUntyped(s: Store, b: Store, ps: seq<Named>, n: nat, key: string)
    requires Formed(s) && Formed(b) && |b.keys| == |s.keys| + n && n <= |ps| && Spelled(s, b, ps, n)
    requires BornInvalid(s, ps, n, key)
    ensures Untyped(s, b, key)
  {
    hide LastIndex;
    var m :| 0 <= m < n && ps[m].key == key && !KnownLetter(ps[m].letter) && s.types[|s.keys| + m] == KT_INVALID
             && forall k :: m < k < n ==> ps[k].key != key;
    forall i | |s.keys| + m < i < |b.keys| ensures b.keys[i] != key {
      assert b.keys[|s.keys| + (i - |s.keys|)] == ps[i - |s.keys|].key;
    }
    LastIndexIs(b.keys, key, |s.keys| + m);
  }

  /**
   * Which keys a refused record costs their value, exactly and seen beforehand:
   * with n the number of pairs in front of the one refused, that one's key,
   * unless the table was full; and a key whose last pair of those n has an
   * unknown letter where the type table holds an invalid type.
   */
  lemma LostByLetters(s: Store, text: string, key: string)
    requires Formed(s) && Unique(s) && TrimmedKeys(s) && ParseFrom(s, text).Refused? && HasValid(s, key)
    ensures var r, ps := ParseFrom(s, text), PairsOf(text);
            var n := |r.left.keys| - |s.keys|;
            && 0 <= n <= |ps|
            && (r.code != KVP_E_TOOMANY ==> n < |ps| && RefusedPair(s, text).1 == ps[n].key)
            && (!HasValid(r.left, key) <==>
                  (r.code != KVP_E_TOOMANY && key == ps[n].key) || BornInvalid(s, ps, n, key))
  {
    hide ParseFrom, RefusedPair, PairsOf, HasValid, Unique, TrimmedKeys, Untyped, BornInvalid, LastIndex, Extends,
         TypeOf;
    LostKeys(s, text, key);
    LettersTell(s, text);
    RefusalSteps(s, text);
    RefusedName(s, text);
    var b := RefusedPair(s, text).0;
    var n := |b.keys| - |s.keys|;
    if Untyped(s, b, key) {
      UntypedIsBorn(s, b, PairsOf(text), n, key);
    }
    if BornInvalid(s, PairsOf(text), n, key) {
      BornIsUntyped(s, b, PairsOf(text), n, key);
    }
  }

  /** The refused pair is the next one of the record. */
  lemma {:induction false} RefusedName(s: Store, text: string)
    requires Formed(s) && ParseFrom(s, text).Refused?
    ensures var (b, key), ps := RefusedPair(s, text), PairsOf(text);
            var n := |b.keys| - |s.keys|;
            && 0 <= n <= |ps|
            && (ParseFrom(s, text).code != KVP_E_TOOMANY ==> n < |ps| && ps[n].key == key)
    decreases |text|
  {
    hide TakePair, PairsOf, Find, Strip, Superseded, TypeOf;
    var t := TakePair(s, text);
    if t.More? {
      FirstOfPairs(s, text);
      RefusedName(t.store, t.rest);
    } else {
      RefusedFirst(s, text);
    }
  }

  lemma RefusedFirst(s: Store, text: string)
    requires Formed(s) && TakePair(s, text).Fail?
    ensures TakePair(s, text).code != KVP_E_TOOMANY ==>
              PairsOf(text) != [] && Find(text, '#') >= 0 && PairsOf(text)[0].key == Strip(text[..Find(text, '#')])
  {
    hide Strip, Validate, CountField, Comment, TypeOf, Superseded, TakePair, TakeValue, PairsOf, BehindPair;
    PairUnfold(s, text);
    if Find(text, '#') >= 0 && Find(text, '#') + 1 < |text| {
      PairsUnfold(text);
    }
  }
}

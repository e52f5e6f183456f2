// After a refused record: exactly when the next one can be relied on.
module KvpExposed {
  import opened KvpText
  import opened KvpValidate
  import opened KvpStore
  import opened KvpMemory
  import opened KvpParser
  import opened KvpBuffer
  import opened KvpOps
  import opened KvpLatest
  import opened KvpPlaces

  /**
   * Keys that begin below the free space end below it, others leave room for a character, and
   * no valid key has a '#'.
   */
  ghost predicate Placed(t: Tab)
    requires Shaped(t)
  {
    forall k :: 0 <= k < |t.keyAt| ==>
      && (t.keyAt[k] < t.spare ==> Ends(t.mem, t.keyAt[k], t.spare))
      && (t.keyAt[k] >= t.spare ==> t.keyAt[k] + 2 <= |t.mem|)
      && (t.types[k] != KT_INVALID ==> '#' !in CStr(t.mem, t.keyAt[k]))
  }

  /** A record without a '#' is copied and counted, and that is all. */
  lemma PlainRecord(t: Tab, record: string, fill: Garbage)
    requires Shaped(t) && t.mem != "" && |record| + 1 <= SpaceLeft(t) && NUL !in record && '#' !in record
    ensures CanHold(t, |record| + 1)
    ensures ParseRecordIn(t, record, fill) == MParsed(Loaded(t, record).(spare := t.spare + |record| + 1), false)
  {
    hide StrLen, CStr, View, TrimLeft, Put, Grown;
    LoadedText(t, record);
    TrimLeftIs(record);
    var t2, p := Loaded(t, record), RecordStart(t, record);
    assert Find(TrimLeft(record), '#') < 0;
    InBuffer(t2.mem, p, t.spare + |record|);
    TurnUnfold(t2, p);
  }

  function Spaces(n: nat): (s: string)
    ensures |s| == n
  {
    seq(n, i => ' ')
  }

  /** A key reached by spaces and then text reads as that text. */
  lemma KeyOverwritten(t: Tab, k: nat, text: string)
    requires Shaped(t) && k < |t.keyAt| && t.spare <= t.keyAt[k] && NUL !in text
    requires t.keyAt[k] + |text| + 1 <= |t.mem|
    ensures var record := Spaces(t.keyAt[k] - t.spare) + text;
            && NUL !in record && |record| + 1 <= SpaceLeft(t)
            && CStr(Loaded(t, record).mem, t.keyAt[k]) == text
  {
    var o := t.keyAt[k] - t.spare;
    var record := Spaces(o) + text;
    PutText(t.mem, t.spare, record);
    var mem := Loaded(t, record).mem;
    CStrTail(mem, t.spare, o);
    assert record[o..] == text;
  }

  /** `text`, written into the free space, makes a valid entry one that a lookup of its key does not find. */
  ghost predicate Spoils(t: Tab, text: string)
    requires Shaped(t)
  {
    && NUL !in text && |text| + 1 <= SpaceLeft(t)
    && forall r: Tab :: Shaped(r) && r.mem == Loaded(t, text).mem && r.keyAt == t.keyAt && r.types == t.types ==>
         !Latest(r)
  }

  /** A valid entry in the free space: spaces up to one behind its key's beginning make the key a space. */
  lemma ValidLost(t: Tab, k: nat) returns (text: string)
    requires Shaped(t) && Placed(t) && k < |t.keyAt| && t.types[k] != KT_INVALID
    requires !Ends(t.mem, t.keyAt[k], t.spare)
    ensures Spoils(t, text) && '#' !in text
  {
    hide StrLen, CStr, Put;
    text := Spaces(t.keyAt[k] - t.spare) + " ";
    KeyOverwritten(t, k, " ");
    forall r: Tab | Shaped(r) && r.mem == Loaded(t, text).mem && r.keyAt == t.keyAt && r.types == t.types
      ensures !Latest(r)
    {
      KeysOf(r);
      assert View(r).keys[k] == " ";
      SpaceStripped();
      assert FindKey(View(r), " ") != k;
    }
  }

  lemma SpaceStripped()
    ensures Strip(" ") == ""
  {
  }

  /** An entry in the free space behind a valid one: spaces and the valid one's key hide it. */
  lemma ValidHidden(t: Tab, i: nat, k: nat) returns (text: string)
    requires Shaped(t) && Placed(t) && Latest(t) && i < k < |t.keyAt| && t.types[i] != KT_INVALID
    requires Ends(t.mem, t.keyAt[i], t.spare) && !Ends(t.mem, t.keyAt[k], t.spare)
    requires t.keyAt[k] + |CStr(t.mem, t.keyAt[i])| + 1 <= |t.mem|
    ensures Spoils(t, text) && '#' !in text
  {
    hide StrLen, CStr, Put;
    var key := CStr(t.mem, t.keyAt[i]);
    text := Spaces(t.keyAt[k] - t.spare) + key;
    KeyOverwritten(t, k, key);
    LoadedText(t, text);
    KeysOf(t);
    LatestMeans(t);
    StripTrimmed(key);
    forall r: Tab | Shaped(r) && r.mem == Loaded(t, text).mem && r.keyAt == t.keyAt && r.types == t.types
      ensures !Latest(r)
    {
      EndsKept(t.mem, r.mem, t.keyAt[i], t.spare);
      KeysOf(r);
      assert View(r).keys[i] == View(r).keys[k] == key;
      assert FindKey(View(r), key) >= k;
    }
  }

  /** Where something is exposed, there is such a text. */
  lemma SpoilingText(t: Tab) returns (text: string)
    requires Shaped(t) && Placed(t) && Consistent(t) && Exposed(t)
    ensures Spoils(t, text) && '#' !in text
  {
    hide StrLen, CStr, Latest, Spoils, Closing;
    var k :| 0 <= k < |t.keyAt| && !Ends(t.mem, t.keyAt[k], t.spare) && !Harmless(t, k);
    if t.types[k] != KT_INVALID {
      text := ValidLost(t, k);
    } else {
      var i :| 0 <= i < k && t.types[i] != KT_INVALID && t.keyAt[k] + |CStr(t.mem, t.keyAt[i])| + 1 <= |t.mem|;
      if Ends(t.mem, t.keyAt[i], t.spare) {
        text := ValidHidden(t, i, k);
      } else {
        text := ValidLost(t, i);
      }
    }
  }

  /** The record keeps it that the latest definition wins, or its outcome cannot be told. */
  ghost predicate KeepsLatest(t: Tab, record: string, fill: Garbage)
    requires Shaped(t) && NUL !in record && CanHold(t, |record| + 1)
  {
    var r := ParseRecordIn(t, record, fill);
    r.MParsed? || r.MRefused? ==> Latest(r.tab)
  }

  /**
   * Exactly when the next record can be relied on, whatever it is: no valid
   * entry's key lies in the free space, and where an invalid one's does, no
   * valid entry before it has a key that fits there.
   */
  lemma NextRecordExactly(t: Tab)
    requires Shaped(t) && Placed(t) && Consistent(t)
    ensures (forall record, fill | NUL !in record && CanHold(t, |record| + 1) :: KeepsLatest(t, record, fill))
        <==> !Exposed(t)
  {
    hide StrLen, CStr, ParseRecordIn, Latest, CanHold, Closing;
    if !Exposed(t) {
      forall record: string, fill: Garbage | NUL !in record && CanHold(t, |record| + 1)
          ensures KeepsLatest(t, record, fill) {
        RecordKept(t, record, fill);
      }
    } else {
      var record, fill := Breaking(t);
      assert !KeepsLatest(t, record, fill);
    }
  }

  lemma Breaking(t: Tab) returns (record: string, fill: Garbage)
    requires Shaped(t) && Placed(t) && Consistent(t) && Exposed(t)
    ensures NUL !in record && CanHold(t, |record| + 1) && !KeepsLatest(t, record, fill)
  {
    hide StrLen, CStr, ParseRecordIn, Latest, CanHold, Consistent, Exposed, Placed;
    fill := n => NUL;
    record := SpoilingText(t);
    PlainRecord(t, record, fill);
  }

  // ----- Behind a refused record

  /** No key has a '#'. */
  ghost predicate NoHash(s: Store)
    requires Formed(s)
  {
    forall i :: 0 <= i < |s.keys| ==> '#' !in s.keys[i]
  }

  /** The parser's keys have none. */
  lemma PairNoHash(s: Store, text: string)
    requires Formed(s) && NoHash(s)
    ensures match TakePair(s, text)
            case More(next, _) => NoHash(next)
            case Last(next) => NoHash(next)
            case Fail(_, next) => NoHash(next)
            case _ => true
  {
    hide Validate, CountField, Comment, TypeOf, TrimLeft, TrimRight, Value, FindKey, Strip;
    var hash := Find(text, '#');
    if hash >= 0 {
      StripNone(text[..hash], '#');
    }
  }

  lemma {:induction false} ParseNoHash(s: Store, text: string)
    requires Formed(s) && NoHash(s)
    ensures match ParseFrom(s, text)
            case Parsed(next, _) => NoHash(next)
            case Refused(_, next) => NoHash(next)
            case Lost => true
    decreases |text|
  {
    hide TakePair, NoHash;
    PairNoHash(s, text);
    var turn := TakePair(s, text);
    if turn.More? {
      ParseNoHash(turn.store, turn.rest);
    }
  }

  /** The entries that were there keep their texts below the free space, and those added lie in it. */
  lemma RefusedPlaced(t: Tab, record: string, fill: Garbage)
    requires Shaped(t) && Settled(t) && NoHash(View(t)) && NUL !in record && CanHold(t, |record| + 1)
    ensures var r := ParseRecordIn(t, record, fill);
            r.MRefused? ==>
              && Placed(r.tab) && |t.keyAt| <= |r.tab.keyAt|
              && forall k :: 0 <= k < |r.tab.keyAt| ==>
                 (Ends(r.tab.mem, r.tab.keyAt[k], r.tab.spare) <==> k < |t.keyAt|)
  {
    hide StrLen, CStr, View, LiveTo, TrimLeft, ParseAt, Ready, Grown, Put, Reaches, ParseRecordIn, NoHash;
    var n := |record| + 1;
    ReadyKeeps(t, n, n, fill);
    var t1 := Ready(t, n, n, fill);
    LoadedText(t1, record);
    var t2, p, z := Loaded(t1, record), RecordStart(t1, record), t1.spare + |record|;
    ParsePlaces(t2, p, z);
    RecordViews(t, record, fill);
    ParseNoHash(View(t), TrimLeft(record));
    LoadedParse(t, record, fill);
    var r := ParseRecordIn(t, record, fill);
    if r.MRefused? {
      RefusedKeys(t1, t2, r.tab, p);
      KeysOf(r.tab);
      HashFree(View(r.tab));
    }
  }

  lemma HashFree(s: Store)
    requires Formed(s) && NoHash(s)
    ensures forall i :: 0 <= i < |s.keys| ==> '#' !in s.keys[i]
  {
  }

  lemma LoadedParse(t: Tab, record: string, fill: Garbage)
    requires Shaped(t) && NUL !in record && CanHold(t, |record| + 1)
    ensures var t1, r := Ready(t, |record| + 1, |record| + 1, fill), ParseRecordIn(t, record, fill);
            Shaped(t1) && |record| + 1 <= SpaceLeft(t1)
            && var t2, p := Loaded(t1, record), RecordStart(t1, record);
               p <= |t2.mem| && p + StrLen(t2.mem, p) < |t2.mem| && (r.MRefused? ==> ParseAt(t2, p) == r)
  {
    hide StrLen, CStr, View, LiveTo, TrimLeft, ParseAt, Ready, Grown, Put;
    ReadyKeeps(t, |record| + 1, |record| + 1, fill);
    LoadedText(Ready(t, |record| + 1, |record| + 1, fill), record);
    InBuffer(Loaded(Ready(t, |record| + 1, |record| + 1, fill), record).mem,
             RecordStart(Ready(t, |record| + 1, |record| + 1, fill), record),
             Ready(t, |record| + 1, |record| + 1, fill).spare + |record|);
  }

  lemma RefusedKeys(t1: Tab, t2: Tab, r: Tab, p: nat)
    requires Shaped(t1) && Settled(t1) && t2 == t1.(mem := t2.mem) && SameBelow(t1.mem, t2.mem, t1.spare)
    requires AddedFrom(t2, r, p) && t1.spare <= p
    ensures forall k :: 0 <= k < |t1.keyAt| ==> Ends(r.mem, r.keyAt[k], r.spare) && r.keyAt[k] < r.spare
    ensures forall k :: |t1.keyAt| <= k < |r.keyAt| ==>
              !Ends(r.mem, r.keyAt[k], r.spare) && r.spare <= r.keyAt[k] && r.keyAt[k] + 2 <= |r.mem|
  {
    hide StrLen, CStr, View, LiveTo;
    forall k | 0 <= k < |t1.keyAt| ensures Ends(r.mem, r.keyAt[k], r.spare) && r.keyAt[k] < r.spare {
      assert Ends(t1.mem, t1.keyAt[k], t1.spare);
      EndsKept(t1.mem, r.mem, t1.keyAt[k], t1.spare);
    }
  }

  /** Older entries stay guarded, and an entry added does not end below the free space. */
  lemma GuardedAfter(t: Tab, t2: Tab, r: Tab, p: nat)
    requires Shaped(t) && Guarded(t, t.spare) && t2 == t.(mem := t2.mem) && SameBelow(t.mem, t2.mem, t.spare)
    requires AddedFrom(t2, r, p) && t.spare <= p
    ensures forall k :: 0 <= k < |t.keyAt| ==> Ends(r.mem, r.keyAt[k], r.spare) || Harmless(r, k)
    ensures forall k :: |t.keyAt| <= k < |r.keyAt| ==> !Ends(r.mem, r.keyAt[k], r.spare)
  {
    hide StrLen, CStr, View, LiveTo, Ends;
    forall k | 0 <= k < |t.keyAt| ensures Ends(r.mem, r.keyAt[k], r.spare) || Harmless(r, k) {
      GuardedSteady(t, r.mem, t.spare, k);
      assert Ends(t.mem, t.keyAt[k], t.spare) || Harmless(t, k);
      if !Ends(t.mem, t.keyAt[k], t.spare) {
        forall i | 0 <= i < k && r.types[i] != KT_INVALID
          ensures r.keyAt[k] + |CStr(r.mem, r.keyAt[i])| + 1 > |r.mem|
        {
          GuardedSteady(t, r.mem, t.spare, i);
        }
      }
    }
    forall k | |t.keyAt| <= k < |r.keyAt| ensures !Ends(r.mem, r.keyAt[k], r.spare) {
      NotBelow(r.mem, r.keyAt[k], r.spare);
    }
  }

  lemma NotBelow(mem: string, at: nat, p: nat)
    requires p <= at
    ensures !Ends(mem, at, p)
  {
  }

  /** What a refused record exposes: just the entries it added that can do harm. */
  lemma RefusedExposes(t: Tab, record: string, fill: Garbage)
    requires Shaped(t) && Consistent(t) && !Exposed(t) && NUL !in record && CanHold(t, |record| + 1)
    requires ParseRecordIn(t, record, fill).MRefused?
    ensures var r := ParseRecordIn(t, record, fill).tab;
            && Consistent(r) && |t.keyAt| <= |r.keyAt|
            && (Exposed(r) <==> exists k :: |t.keyAt| <= k < |r.keyAt| && !Harmless(r, k))
  {
    hide StrLen, CStr, View, LiveTo, TrimLeft, ParseAt, Ready, Grown, Put, Reaches, ParseRecordIn, Consistent, Harmless,
         Unique, ValidTrimmed, Ends, CanHold;
    var n := |record| + 1;
    ReadyKeeps(t, n, n, fill);
    ReadyKept(t, n, n, fill);
    RecordKept(t, record, fill);
    var t1 := Ready(t, n, n, fill);
    LoadedText(t1, record);
    var t2, p, z := Loaded(t1, record), RecordStart(t1, record), t1.spare + |record|;
    ParsePlaces(t2, p, z);
    LoadedParse(t, record, fill);
    GuardedAfter(t1, t2, ParseRecordIn(t, record, fill).tab, p);
  }

  /**
   * After a refused record on settled tables: whatever the next record is, the
   * latest definition wins, if and only if every entry the refused one added is
   * invalid and can hide none of the valid ones before it.
   */
  lemma AfterRefusal(t: Tab, record: string, fill: Garbage)
    requires Shaped(t) && Settled(t) && Consistent(t) && NoHash(View(t)) && NUL !in record && CanHold(t, |record| + 1)
    requires ParseRecordIn(t, record, fill).MRefused?
    ensures var r := ParseRecordIn(t, record, fill).tab;
            (forall next: string, fill2: Garbage | NUL !in next && CanHold(r, |next| + 1) ::
              KeepsLatest(r, next, fill2))
            <==> forall k :: |t.keyAt| <= k < |r.keyAt| ==> Harmless(r, k)
  {
    hide StrLen, CStr, View, LiveTo, ParseRecordIn, KeepsLatest, Consistent, Placed, Harmless, CanHold, Settled, NoHash;
    SettledGuarded(t);
    RecordKept(t, record, fill);
    RefusedPlaced(t, record, fill);
    NextRecordExactly(ParseRecordIn(t, record, fill).tab);
  }
}

// The latest definition wins, in memory: when the next record keeps that, and
// when it cannot be relied on.
module KvpLatest {
  import opened KvpText
  import opened KvpValidate
  import opened KvpStore
  import opened KvpMemory
  import opened KvpParser
  import opened KvpBuffer
  import opened KvpOps

  /** Every valid entry is the one a lookup of its key finds. */
  ghost predicate Latest(t: Tab)
    requires Shaped(t)
  {
    forall i :: 0 <= i < |t.keyAt| && t.types[i] != KT_INVALID ==> FindKey(View(t), View(t).keys[i]) == i
  }

  ghost predicate ValidTrimmed(t: Tab)
    requires Shaped(t)
  {
    forall i :: 0 <= i < |t.keyAt| && t.types[i] != KT_INVALID ==> Trimmed(CStr(t.mem, t.keyAt[i]))
  }

  lemma LatestMeans(t: Tab)
    requires Shaped(t)
    ensures Latest(t) <==> Unique(View(t)) && ValidTrimmed(t)
  {
    var s := View(t);
    forall i | 0 <= i < |t.keyAt| && t.types[i] != KT_INVALID
      ensures FindKey(s, s.keys[i]) == i
          <==> Trimmed(s.keys[i]) && forall k :: i < k < |s.keys| ==> s.keys[k] != s.keys[i]
    {
      StripTrims(s.keys[i]);
      if Trimmed(s.keys[i]) {
        StripTrimmed(s.keys[i]);
      }
    }
  }

  /**
   * No text that could come to stand at entry k, room for its 0 included, is the key of a valid
   * entry before it; and it is invalid itself.
   */
  ghost predicate Harmless(t: Tab, k: nat)
    requires Shaped(t) && k < |t.keyAt|
  {
    t.types[k] == KT_INVALID
    && forall i :: 0 <= i < k && t.types[i] != KT_INVALID ==> t.keyAt[k] + |CStr(t.mem, t.keyAt[i])| + 1 > |t.mem|
  }

  /** Every key either ends below p or can do no harm. */
  ghost predicate Guarded(t: Tab, p: nat)
    requires Shaped(t)
  {
    forall k :: 0 <= k < |t.keyAt| ==> Ends(t.mem, t.keyAt[k], p) || Harmless(t, k)
  }

  /** A final 0 stands at z, and every key begins there or before. */
  ghost predicate Closed(t: Tab, z: nat)
    requires Shaped(t)
  {
    z < |t.mem| && t.mem[z] == NUL && forall k :: 0 <= k < |t.keyAt| ==> t.keyAt[k] <= z
  }

  /** What every step of a run on guarded tables keeps. */
  ghost predicate Orderly(t: Tab, p: nat, z: nat)
    requires Shaped(t)
  {
    Unique(View(t)) && ValidTrimmed(t) && Guarded(t, p) && Closed(t, z)
  }

  lemma GuardedSteady(t: Tab, mem2: string, p: nat, i: nat)
    requires Shaped(t) && Guarded(t, p) && SameBelow(t.mem, mem2, p) && i < |t.keyAt|
    ensures Ends(t.mem, t.keyAt[i], p) ==>
        Ends(mem2, t.keyAt[i], p) && CStr(mem2, t.keyAt[i]) == CStr(t.mem, t.keyAt[i])
    ensures t.types[i] != KT_INVALID ==> Ends(t.mem, t.keyAt[i], p)
  {
    if Ends(t.mem, t.keyAt[i], p) {
      EndsKept(t.mem, mem2, t.keyAt[i], p);
    }
  }

  /** Whatever is written from p on, as long as a final 0 closes it. */
  lemma MemoryKept(t: Tab, mem2: string, p: nat, z2: nat)
    requires Shaped(t) && Unique(View(t)) && ValidTrimmed(t) && Guarded(t, p) && SameBelow(t.mem, mem2, p)
    requires z2 < |mem2| && mem2[z2] == NUL && forall k :: 0 <= k < |t.keyAt| ==> t.keyAt[k] <= z2
    ensures var r := t.(mem := mem2); Shaped(r) && Orderly(r, p, z2)
  {
    hide StrLen, CStr, Ends, Trimmed, Texts;
    var r := t.(mem := mem2);
    forall i | 0 <= i < |t.keyAt|
      ensures Ends(t.mem, t.keyAt[i], p) ==>
          Ends(mem2, t.keyAt[i], p) && CStr(mem2, t.keyAt[i]) == CStr(t.mem, t.keyAt[i])
      ensures t.types[i] != KT_INVALID ==> Ends(t.mem, t.keyAt[i], p)
      ensures t.keyAt[i] + |CStr(mem2, t.keyAt[i])| + 1 <= |t.mem|
    {
      GuardedSteady(t, mem2, p, i);
      BeforeNul(mem2, t.keyAt[i], z2);
    }
    KeysOf(t);
    KeysOf(r);
    forall i, k | 0 <= i < k < |t.keyAt| && t.types[i] != KT_INVALID
      ensures View(r).keys[k] != View(r).keys[i]
    {
      assert View(t).keys[k] != View(t).keys[i];
    }
  }

  lemma KeysOf(t: Tab)
    requires Shaped(t)
    ensures forall i :: 0 <= i < |t.keyAt| ==> View(t).keys[i] == CStr(t.mem, t.keyAt[i])
  {
  }

  lemma OrderlyMore(t: Tab, p: nat, q: nat, z: nat)
    requires Shaped(t) && Orderly(t, p, z) && p <= q
    ensures Orderly(t, q, z)
  {
    hide StrLen, CStr;
  }

  /** Making entries invalid does no harm, nor does the type of an entry not there yet. */
  lemma TypesKept(t: Tab, types: seq<KeyType>, p: nat, z: nat)
    requires Shaped(t) && Orderly(t, p, z) && |types| == MAXKEYS
    requires forall i :: 0 <= i < |t.keyAt| && types[i] != KT_INVALID ==> types[i] == t.types[i]
    ensures var r := t.(types := types); Shaped(r) && Orderly(r, p, z)
  {
    hide StrLen, CStr;
    var r := t.(types := types);
    assert View(r).keys == View(t).keys;
  }

  /** After an older entry of the key was made invalid, no valid one has it. */
  lemma NoneLeft(t: Tab, key: string, p: nat, z: nat)
    requires Shaped(t) && Orderly(t, p, z) && Trimmed(key)
    ensures var r := SupersededAt(t, key);
            && Orderly(r, p, z)
            && forall i :: 0 <= i < |r.keyAt| && r.types[i] != KT_INVALID ==> CStr(r.mem, r.keyAt[i]) != key
  {
    StripTrimmed(key);
    KeysOf(t);
    hide StrLen, CStr, Strip;
    var r := SupersededAt(t, key);
    SupersededParts(t, key);
    TypesKept(t, r.types, p, z);
    forall i | 0 <= i < |r.keyAt| && r.types[i] != KT_INVALID ensures CStr(r.mem, r.keyAt[i]) != key {
      assert View(t).keys[i] == CStr(t.mem, t.keyAt[i]);
    }
  }

  /** A new entry whose key no valid one has. */
  lemma EntryKept(t: Tab, keyAt: nat, valAt: nat, count: int, kind: KeyType, p: nat, q: nat, z: nat)
    requires Shaped(t) && Orderly(t, p, z) && |t.keyAt| < MAXKEYS && p <= q && valAt <= |t.mem| && keyAt <= z
    requires Ends(t.mem, keyAt, q) && Trimmed(CStr(t.mem, keyAt))
    requires forall i :: 0 <= i < |t.keyAt| && t.types[i] != KT_INVALID ==>
               CStr(t.mem, t.keyAt[i]) != CStr(t.mem, keyAt)
    ensures var r := Added(t, keyAt, valAt, count, kind);
            Shaped(r) && Orderly(r, q, z)
  {
    hide StrLen, CStr, Trimmed, Texts;
    var r := Added(t, keyAt, valAt, count, kind);
    AddedView(t, keyAt, valAt, count, kind);
    KeysOf(t);
    KeysOf(r);
    forall k | 0 <= k < |r.keyAt| ensures Ends(r.mem, r.keyAt[k], q) || Harmless(r, k) {
      if k < |t.keyAt| && Ends(t.mem, t.keyAt[k], p) {
        EndsMore(t.mem, t.keyAt[k], p, q);
      }
    }
    forall i, k | 0 <= i < k < |r.keyAt| && r.types[i] != KT_INVALID ensures View(r).keys[k] != View(r).keys[i] {
      if k < |t.keyAt| {
        assert View(t).keys[k] != View(t).keys[i];
      }
    }
  }

  // ----- A turn of the parser

  /** What a turn leaves: orderly tables, and what comes next within reach. */
  ghost predicate TurnKept(r: MTurn, p: nat, reach: nat, z: nat) {
    match r
    case MStop(t) => Shaped(t) && Orderly(t, p, z)
    case MMore(t, at) => Shaped(t) && Orderly(t, at, z) && Reaches(t.mem, at, reach) && p <= at
    case MLast(t) => Shaped(t) && Orderly(t, reach + 1, z)
    case MFail(_, t) => Shaped(t) && Orderly(t, p, z)
    case MAstray => true
  }

  lemma StoreKept(t: Tab, start: nat, kind: KeyType, given: int, q: nat, v: nat, p: nat, reach: nat, z: nat)
    requires Shaped(t) && Orderly(t, p, z) && |t.keyAt| < MAXKEYS && t.mem != "" && p <= q <= v
    requires Reaches(t.mem, v, reach) && reach <= z && start <= z
    requires Ends(t.mem, start, q) && Trimmed(CStr(t.mem, start))
    requires forall i :: 0 <= i < |t.keyAt| && t.types[i] != KT_INVALID ==>
               CStr(t.mem, t.keyAt[i]) != CStr(t.mem, start)
    ensures start <= |t.mem| && v <= |t.mem| && TurnKept(StoreAt(t, start, kind, given, v), p, reach, z)
  {
    hide StrLen, CStr, Validate, Trimmed, Find, Ends, View, Added, Orderly, Reaches;
    InBuffer(t.mem, v, reach);
    EndsInside(t.mem, start, q);
    StoreSteps(t, start, kind, q, v, p, reach, z);
    var e := Find(CStr(t.mem, v), ';');
    var mem := if e < 0 then t.mem else t.mem[v + e := NUL];
    var count := Validate(CStr(mem, v), kind);
    var r := Added(t.(mem := mem, types := t.types[|t.keyAt| := kind]), start, v, count, kind);
    assert Orderly(r, if e < 0 then reach + 1 else v + e + 1, z);
  }

  lemma StoreSteps(t: Tab, start: nat, kind: KeyType, q: nat, v: nat, p: nat, reach: nat, z: nat)
    requires Shaped(t) && Orderly(t, p, z) && |t.keyAt| < MAXKEYS && t.mem != "" && p <= q <= v
    requires Reaches(t.mem, v, reach) && reach <= z && start <= z
    requires Ends(t.mem, start, q) && Trimmed(CStr(t.mem, start))
    requires forall i :: 0 <= i < |t.keyAt| && t.types[i] != KT_INVALID ==>
               CStr(t.mem, t.keyAt[i]) != CStr(t.mem, start)
    ensures start <= |t.mem|
    ensures var e := Find(CStr(t.mem, v), ';');
            var mem := if e < 0 then t.mem else t.mem[v + e := NUL];
            var t2, end := t.(mem := mem, types := t.types[|t.keyAt| := kind]), if e < 0 then reach + 1 else v + e + 1;
            && Shaped(t2) && Orderly(t2, p, z)
            && (e >= 0 ==> Reaches(mem, end, reach))
            && forall count :: var r := Added(t2, start, v, count, kind); Shaped(r) && Orderly(r, end, z)
  {
    hide StrLen, CStr, Trimmed, Find, Ends, View, Added, Unique, ValidTrimmed, Guarded, Closed, SameBelow, OnlyCut,
         Reaches, Orderly;
    InBuffer(t.mem, v, reach);
    EndsInside(t.mem, start, q);
    var e := Find(CStr(t.mem, v), ';');
    var mem := if e < 0 then t.mem else t.mem[v + e := NUL];
    ValueCut(t.mem, v);
    CutClosed(t, mem, p, v, z);
    var t1 := t.(mem := mem);
    KeysBehind(t, mem, start, q, v, p, z);
    ValueEnds(t.mem, v, reach);
    var end := if e < 0 then reach + 1 else v + e + 1;
    if e >= 0 {
      ReachesIs(mem, end, reach);
    }
    EntriesKept(t1, start, kind, q, v, p, end, z);
  }

  /** Whatever the new entry's count. */
  lemma EntriesKept(t: Tab, start: nat, kind: KeyType, q: nat, v: nat, p: nat, end: nat, z: nat)
    requires Shaped(t) && Orderly(t, p, z) && |t.keyAt| < MAXKEYS && t.mem != "" && p <= q <= end && v <= |t.mem|
    requires Ends(t.mem, start, q) && Trimmed(CStr(t.mem, start)) && start <= z
    requires forall i :: 0 <= i < |t.keyAt| && t.types[i] != KT_INVALID ==>
               CStr(t.mem, t.keyAt[i]) != CStr(t.mem, start)
    ensures var t2 := t.(types := t.types[|t.keyAt| := kind]);
            && Shaped(t2) && Orderly(t2, p, z)
            && forall count :: var r := Added(t2, start, v, count, kind); Shaped(r) && Orderly(r, end, z)
  {
    hide StrLen, CStr, Trimmed, Ends, View, Added, Orderly;
    var t2 := t.(types := t.types[|t.keyAt| := kind]);
    TypesKept(t, t2.types, p, z);
    EndsMore(t.mem, start, q, end);
    forall count ensures var r := Added(t2, start, v, count, kind); Shaped(r) && Orderly(r, end, z) {
      EntryKept(t2, start, v, count, kind, p, end, z);
    }
  }

  lemma EndsInside(mem: string, at: nat, q: nat)
    requires Ends(mem, at, q)
    ensures at <= |mem|
  {
  }

  /** Cutting leaves the final 0 that closes the tables. */
  lemma CutClosed(t: Tab, mem2: string, p: nat, v: nat, z: nat)
    requires Shaped(t) && Orderly(t, p, z) && p <= v && SameBelow(t.mem, mem2, v) && OnlyCut(t.mem, mem2)
    ensures Shaped(t.(mem := mem2)) && Orderly(t.(mem := mem2), p, z)
  {
    MemoryKept(t, mem2, p, z);
  }

  /** The keys compared do not see what is cut behind them. */
  lemma KeysBehind(t: Tab, mem2: string, start: nat, q: nat, v: nat, p: nat, z: nat)
    requires Shaped(t) && Orderly(t, p, z) && p <= q <= v && SameBelow(t.mem, mem2, v) && Ends(t.mem, start, q)
    ensures Ends(mem2, start, q) && CStr(mem2, start) == CStr(t.mem, start)
    ensures forall i :: 0 <= i < |t.keyAt| && t.types[i] != KT_INVALID ==>
              CStr(mem2, t.keyAt[i]) == CStr(t.mem, t.keyAt[i])
  {
    hide StrLen, CStr, Ends;
    EndsKept(t.mem, mem2, start, q);
    forall i | 0 <= i < |t.keyAt| && t.types[i] != KT_INVALID
      ensures CStr(mem2, t.keyAt[i]) == CStr(t.mem, t.keyAt[i])
    {
      GuardedSteady(t, mem2, p, i);
    }
  }

  lemma ValueKept(t: Tab, start: nat, kind: KeyType, q: nat, p: nat, reach: nat, z: nat)
    requires Shaped(t) && Orderly(t, p, z) && |t.keyAt| < MAXKEYS && t.mem != "" && p <= q
    requires Reaches(t.mem, q, reach) && reach <= z && start <= z
    requires Ends(t.mem, start, q) && Trimmed(CStr(t.mem, start))
    requires forall i :: 0 <= i < |t.keyAt| && t.types[i] != KT_INVALID ==>
               CStr(t.mem, t.keyAt[i]) != CStr(t.mem, start)
    ensures start <= |t.mem| && q <= |t.mem| && TurnKept(ValueAt(t, start, kind, q), p, reach, z)
  {
    hide StrLen, CStr, CountField, Trimmed, Ends, View, Unique, ValidTrimmed, Guarded, Closed, StoreAt, Orderly,
         Reaches;
    InBuffer(t.mem, q, reach);
    EndsInside(t.mem, start, q);
    BehindCount(t.mem, q, reach);
    var rest := CStr(t.mem, q);
    var (given, behind) := CountField(rest);
    if behind == "" || behind[0] != '=' {
      TypesKept(t, t.types[|t.keyAt| := kind], p, z);
    } else {
      StoreKept(t, start, kind, given, q, q + (|rest| - |behind|) + 1, p, reach, z);
    }
  }

  lemma TurnAtKept(t: Tab, p: nat, reach: nat, z: nat)
    requires Shaped(t) && Orderly(t, p, z) && Reaches(t.mem, p, reach) && reach <= z
    ensures TurnKept(TurnAt(t, p), p, reach, z)
  {
    hide Strip, Find, StripAt, ValueAt, TypeOf, Comment, TrimLeft, StrLen, CStr, View, Superseded, TurnAt, Reaches,
         SupersededAt, SameBelow, OnlyCut, Orderly, Trimmed;
    InBuffer(t.mem, p, reach);
    TurnUnfold(t, p);
    var text := CStr(t.mem, p);
    var hash := Find(text, '#');
    if hash >= 0 && |t.keyAt| < MAXKEYS {
      var mem := StripAt(t.mem[p + hash := NUL], p).1;
      KeyLeft(t.mem, p, hash);
      CutClosed(t, mem, p, p, z);
      if !Comment(Strip(text[..hash])) && hash + 1 < |text| {
        PairKept(t, p, hash, reach, z);
      }
    }
  }

  /** ... where there is a pair. */
  lemma PairKept(t: Tab, p: nat, hash: nat, reach: nat, z: nat)
    requires Shaped(t) && Orderly(t, p, z) && Reaches(t.mem, p, reach) && reach <= z && |t.keyAt| < MAXKEYS
    requires hash + 1 < |CStr(t.mem, p)| && hash == Find(CStr(t.mem, p), '#')
    requires !Comment(Strip(CStr(t.mem, p)[..hash]))
    ensures TurnKept(TurnAt(t, p), p, reach, z)
  {
    hide Strip, Find, StripAt, ValueAt, TypeOf, Comment, TrimLeft, StrLen, CStr, View, Superseded, TurnAt, Reaches,
         SupersededAt, SameBelow, OnlyCut, Orderly, Trimmed, Ends, TurnKept;
    InBuffer(t.mem, p, reach);
    TurnUnfold(t, p);
    KeyCut(t.mem, p, hash);
    var text := CStr(t.mem, p);
    var (start, mem) := StripAt(t.mem[p + hash := NUL], p);
    var t1, key := t.(mem := mem), Strip(text[..hash]);
    CutClosed(t, mem, p, p, z);
    StripTrims(text[..hash]);
    SupersededParts(t1, key);
    NoneLeft(t1, key, p, z);
    var t2, q := SupersededAt(t1, key), p + hash + 2;
    NewKeyEnds(mem, start, |key|, q);
    ReachesIs(mem, q, reach);
    ValueKept(t2, start, TypeOf(mem[p + hash + 1], t2.types[|t.keyAt|]), q, p, reach, z);
  }

  /** A whole record, refused or not. */
  lemma {:induction false} ParseKept(t: Tab, p: nat, reach: nat, z: nat)
    requires Shaped(t) && Orderly(t, p, z) && Reaches(t.mem, p, reach) && reach <= z
    ensures var r := ParseAt(t, p);
            r.MParsed? || r.MRefused? ==> exists q: nat :: Orderly(r.tab, q, z) && (r.MParsed? ==> q <= reach + 1)
    decreases |t.mem| - p
  {
    hide TurnAt, StrLen, CStr, Orderly;
    InBuffer(t.mem, p, reach);
    TurnAtKept(t, p, reach, z);
    var m := TurnAt(t, p);
    if m.MMore? {
      ParseKept(m.tab, m.at, reach, z);
    }
  }

  // ----- A record, a new entry, a new value

  /** Some final 0 stands behind the beginnings of all keys. */
  ghost predicate Closing(t: Tab)
    requires Shaped(t)
  {
    t.keyAt == [] || exists z :: Closed(t, z)
  }

  /** The latest definition wins, and no key runs off the buffer. */
  ghost predicate Consistent(t: Tab)
    requires Shaped(t)
  {
    Latest(t) && Closing(t)
  }

  /** The next write may make a valid entry one that a lookup of its key does not find. */
  ghost predicate Exposed(t: Tab)
    requires Shaped(t)
  {
    !Guarded(t, t.spare)
  }

  lemma OrderlyConsistent(t: Tab, p: nat, z: nat, spare: nat)
    requires Shaped(t) && Orderly(t, p, z) && spare <= |t.mem| + 1 && t.mem != ""
    ensures var r := t.(spare := spare);
            Shaped(r) && Consistent(r) && (p <= spare ==> !Exposed(r))
  {
    var r := t.(spare := spare);
    hide StrLen, CStr, Trimmed, Unique;
    assert View(r) == View(t);
    LatestMeans(r);
    assert Closed(r, z);
    if p <= spare {
      OrderlyMore(t, p, spare, z);
    }
  }

  /** Getting or growing the buffer exposes nothing. */
  lemma ReadyKept(t: Tab, size: nat, need: nat, fill: Garbage)
    requires Shaped(t) && CanHold(t, need) && Consistent(t) && !Exposed(t)
    ensures var r := Ready(t, size, need, fill);
            && Shaped(r) && Unique(View(r)) && ValidTrimmed(r) && Guarded(r, r.spare)
            && View(r) == View(t) && r.mem != "" && SpaceLeft(r) >= need
            && ((r.mem == t.mem && r.keyAt == t.keyAt) || forall k :: 0 <= k < |r.keyAt| ==> r.keyAt[k] < r.spare)
  {
    hide StrLen, Trimmed, Unique, LiveTo, Grown;
    ReadyKeeps(t, size, need, fill);
    var r := Ready(t, size, need, fill);
    LatestMeans(t);
    SameKeysTrimmed(t, r);
    if !(t.mem != "" && need <= SpaceLeft(t)) {
      if t.keyAt == [] {
        NoKeys(r);
      } else {
        SettledGuarded(r);
      }
    }
  }

  lemma SameKeysTrimmed(t: Tab, r: Tab)
    requires Shaped(t) && Shaped(r) && View(t) == View(r) && ValidTrimmed(t)
    ensures ValidTrimmed(r)
  {
    KeysOf(t);
    KeysOf(r);
  }

  lemma NoKeys(t: Tab)
    requires Shaped(t) && |View(t).keys| == 0
    ensures Guarded(t, t.spare) && t.keyAt == []
  {
  }

  lemma SettledGuarded(t: Tab)
    requires Shaped(t) && Settled(t)
    ensures Guarded(t, t.spare) && forall k :: 0 <= k < |t.keyAt| ==> t.keyAt[k] < t.spare
  {
    forall k | 0 <= k < |t.keyAt| ensures Ends(t.mem, t.keyAt[k], t.spare) {}
  }

  /** Where a final 0 stands once characters have been written from `at` on, the last of them a 0. */
  lemma ClosingAfter(t: Tab, at: nat, s: string) returns (z: nat)
    requires Shaped(t) && at + |s| + 1 <= |t.mem|
    requires Closing(t) || forall k :: 0 <= k < |t.keyAt| ==> t.keyAt[k] <= at + |s|
    ensures at + |s| <= z < |t.mem| && Put(t.mem, at, s + [NUL])[z] == NUL
    ensures forall k :: 0 <= k < |t.keyAt| ==> t.keyAt[k] <= z
  {
    if forall k :: 0 <= k < |t.keyAt| ==> t.keyAt[k] <= at + |s| {
      z := at + |s|;
    } else {
      z :| Closed(t, z);
    }
  }

  lemma ReadyClosing(t: Tab, size: nat, need: nat, fill: Garbage, bound: nat)
    requires Shaped(t) && CanHold(t, need) && Consistent(t) && !Exposed(t)
    requires bound >= Ready(t, size, need, fill).spare
    ensures var r := Ready(t, size, need, fill);
            Shaped(r) && (Closing(r) || forall k :: 0 <= k < |r.keyAt| ==> r.keyAt[k] <= bound)
  {
    hide StrLen, CStr, LiveTo, Grown, Latest;
    ReadyKept(t, size, need, fill);
    var r := Ready(t, size, need, fill);
    if r.mem == t.mem && r.keyAt == t.keyAt && t.keyAt != [] {
      var z :| Closed(t, z);
      assert Closed(r, z);
    }
  }

  /** The next record, refused or not, keeps it where nothing is exposed; accepted, it exposes nothing either. */
  lemma RecordKept(t: Tab, record: string, fill: Garbage)
    requires Shaped(t) && NUL !in record && CanHold(t, |record| + 1) && Consistent(t) && !Exposed(t)
    ensures var r := ParseRecordIn(t, record, fill);
            (r.MParsed? || r.MRefused? ==> Consistent(r.tab)) && (r.MParsed? ==> !Exposed(r.tab))
  {
    hide StrLen, CStr, Trimmed, LiveTo, Grown, Ready, TrimLeft, ParseAt, View, Unique, ValidTrimmed, Guarded,
         Consistent, Exposed, Reaches, Orderly;
    var n := |record| + 1;
    ReadyKeeps(t, n, n, fill);
    ReadyKept(t, n, n, fill);
    var t1 := Ready(t, n, n, fill);
    ReadyClosing(t, n, n, fill, t1.spare + |record|);
    var z := ClosingAfter(t1, t1.spare, record);
    LoadedText(t1, record);
    var t2 := Loaded(t1, record);
    MemoryKept(t1, t2.mem, t1.spare, z);
    var p := RecordStart(t1, record);
    OrderlyMore(t2, t1.spare, p, z);
    ParseKept(t2, p, t1.spare + |record|, z);
    var r := ParseAt(t2, p);
    if r.MParsed? || r.MRefused? {
      var q: nat :| Orderly(r.tab, q, z) && (r.MParsed? ==> q <= t1.spare + |record| + 1);
      var spare := if r.MParsed? then t1.spare + |record| + (if r.open then 2 else 1) else r.tab.spare;
      OrderlyConsistent(r.tab, q, z, spare);
    }
  }
}

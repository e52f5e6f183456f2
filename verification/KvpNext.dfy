// On exposed tables: exactly when the next update, and the next set, can be
// relied on.
module KvpNext {
  import opened KvpText
  import opened KvpValidate
  import opened KvpStore
  import opened KvpTrip
  import opened KvpInts
  import opened KvpMemory
  import opened KvpParser
  import opened KvpBuffer
  import opened KvpOps
  import opened KvpSetters
  import opened KvpSteps
  import opened KvpLatest
  import opened KvpExposed
  import opened KvpRuns

  // ----- Updating

  /** However a key is updated, every valid entry stays the one found under its key. */
  ghost predicate UpdatesKeep(t: Tab)
    requires Shaped(t)
  {
    forall key: string, v: NewValue, kind: KeyType, fill: Garbage |
      NUL !in key && Proper(v) && OfKind(v, kind) && CanHold(t, Needed(v)) ::
      Latest(UpdateIn(t, key, v, kind, fill).1)
  }

  /** A string written over the free space of a string's entry. */
  lemma UpdateOver(t: Tab, e: nat, text: string, fill: Garbage)
    requires Shaped(t) && Consistent(t) && e < |t.keyAt| && t.types[e] == KT_STRING
    requires NUL !in text && |text| + 1 <= SpaceLeft(t)
    ensures CanHold(t, |text|)
    ensures var r := UpdateIn(t, View(t).keys[e], Characters(text), KT_STRING, fill).1;
            r.mem == Loaded(t, text).mem && r.keyAt == t.keyAt && r.types == t.types
  {
    hide StrLen, CStr, View, Put, Grown, LiveTo, Closing;
    UpdateSteps(t, View(t).keys[e], Characters(text), KT_STRING, fill);
  }

  /** Where there is a valid string to update, updates can be relied on if and only if nothing is exposed. */
  lemma NextUpdateExactly(t: Tab, e: nat)
    requires Shaped(t) && Placed(t) && Consistent(t) && e < |t.keyAt| && t.types[e] == KT_STRING
    ensures UpdatesKeep(t) <==> !Exposed(t)
  {
    hide StrLen, CStr, Put, UpdateIn, CanHold, Closing, Loaded, Latest, Exposed, Placed;
    if !Exposed(t) {
      forall key: string, v: NewValue, kind: KeyType, fill: Garbage |
        NUL !in key && Proper(v) && OfKind(v, kind) && CanHold(t, Needed(v))
        ensures Latest(UpdateIn(t, key, v, kind, fill).1)
      {
        UpdateKept(t, key, v, kind, fill);
      }
    } else {
      var fill := Held("");
      var text := SpoilingText(t);
      var key, v := View(t).keys[e], Characters(text);
      UpdateOver(t, e, text, fill);
      assert NUL !in key && Proper(v) && OfKind(v, KT_STRING) && CanHold(t, Needed(v));
      assert !Latest(UpdateIn(t, key, v, KT_STRING, fill).1);
    }
  }

  // ----- Setting

  /** However a trimmed key is set, every valid entry stays the one found under its key. */
  ghost predicate SetsKeep(t: Tab)
    requires Shaped(t)
  {
    forall key: string, v: NewValue, kind: KeyType, fill: Garbage |
      NUL !in key && Trimmed(key) && Proper(v) && OfKind(v, kind) && CanHold(t, Required(key, v)) ::
      Latest(SetIn(t, key, v, kind, fill).1)
  }

  /** A new key is no valid entry's, so an invalid entry that begins where it is written does no harm. */
  ghost predicate Overlaid(t: Tab, k: nat)
    requires Shaped(t) && k < |t.keyAt|
  {
    t.types[k] == KT_INVALID && t.keyAt[k] == t.spare
  }

  ghost predicate SetGuarded(t: Tab)
    requires Shaped(t)
  {
    forall k :: 0 <= k < |t.keyAt| ==> Ends(t.mem, t.keyAt[k], t.spare) || Harmless(t, k) || Overlaid(t, k)
  }

  /** What entry k reads once a key that no valid entry has is written: no key of a valid entry before it. */
  lemma OverlaidText(t: Tab, mem2: string, key: string, z: nat, k: nat)
    requires Shaped(t) && SetGuarded(t) && SameBelow(t.mem, mem2, t.spare) && t.spare <= |t.mem| && k < |t.keyAt|
    requires CStr(mem2, t.spare) == key && z < |mem2| && mem2[z] == NUL && t.keyAt[k] <= z
    ensures t.types[k] != KT_INVALID ==> CStr(mem2, t.keyAt[k]) == CStr(t.mem, t.keyAt[k])
    ensures forall i :: 0 <= i < k && t.types[i] != KT_INVALID
                        && CStr(t.mem, t.keyAt[i]) != CStr(t.mem, t.keyAt[k]) && CStr(t.mem, t.keyAt[i]) != key ==>
              CStr(mem2, t.keyAt[k]) != CStr(t.mem, t.keyAt[i])
  {
    hide StrLen, CStr, Ends;
    BeforeNul(mem2, t.keyAt[k], z);
    if Ends(t.mem, t.keyAt[k], t.spare) {
      EndsKept(t.mem, mem2, t.keyAt[k], t.spare);
    } else {
      assert Harmless(t, k) || Overlaid(t, k);
    }
  }

  /** Memory with a key that no valid entry has at the front of the free space. */
  lemma KeyOverlaid(t: Tab, mem2: string, key: string, z: nat)
    requires Shaped(t) && Latest(t) && SetGuarded(t) && SameBelow(t.mem, mem2, t.spare) && t.spare <= |t.mem|
    requires CStr(mem2, t.spare) == key && FindKey(View(t), key) < 0 && Trimmed(key)
    requires z < |mem2| && mem2[z] == NUL && forall k :: 0 <= k < |t.keyAt| ==> t.keyAt[k] <= z
    ensures var r := t.(mem := mem2);
            && Shaped(r) && Latest(r)
            && forall i :: 0 <= i < |t.keyAt| && t.types[i] != KT_INVALID ==> View(r).keys[i] != key
  {
    hide StrLen, CStr, Ends, Trimmed, Texts, Latest, SetGuarded, View, FindKey;
    var r := t.(mem := mem2);
    SameShape(t, mem2);
    LatestMeans(t);
    LatestMeans(r);
    KeysOf(t);
    KeysOf(r);
    NowhereKey(t, key);
    forall k | 0 <= k < |t.keyAt|
      ensures t.types[k] != KT_INVALID ==> CStr(mem2, t.keyAt[k]) == CStr(t.mem, t.keyAt[k])
      ensures forall i :: 0 <= i < k && t.types[i] != KT_INVALID ==> CStr(mem2, t.keyAt[k]) != CStr(t.mem, t.keyAt[i])
    {
      OverlaidText(t, mem2, key, z, k);
      assert forall i :: 0 <= i < k && t.types[i] != KT_INVALID ==> View(t).keys[k] != View(t).keys[i];
    }
  }

  lemma SameShape(t: Tab, mem2: string)
    requires Shaped(t) && |mem2| == |t.mem|
    ensures Shaped(t.(mem := mem2))
  {
  }

  lemma NowhereKey(t: Tab, key: string)
    requires Shaped(t) && FindKey(View(t), key) < 0 && Trimmed(key)
    ensures forall i :: 0 <= i < |t.keyAt| ==> View(t).keys[i] != key
  {
    hide StrLen, CStr, View;
    StripTrimmed(key);
  }

  /** The new entry, whose key no valid one has. */
  lemma NewLatest(t: Tab, keyAt: nat, valAt: nat, count: int, kind: KeyType, spare: nat)
    requires Shaped(t) && Latest(t) && |t.keyAt| < MAXKEYS && t.mem != "" && spare <= |t.mem| + 1
    requires keyAt <= |t.mem| && valAt <= |t.mem| && Trimmed(CStr(t.mem, keyAt))
    requires forall i :: 0 <= i < |t.keyAt| && t.types[i] != KT_INVALID ==> View(t).keys[i] != CStr(t.mem, keyAt)
    ensures var r := Added(t, keyAt, valAt, count, kind).(spare := spare); Shaped(r) && Latest(r)
  {
    hide StrLen, CStr, Trimmed, Texts, View;
    var r := Added(t, keyAt, valAt, count, kind);
    AddedView(t, keyAt, valAt, count, kind);
    LatestMeans(t);
    LatestMeans(r);
    KeysOf(t);
    KeysOf(r);
    SparePlays(r, spare);
  }

  lemma SparePlays(t: Tab, spare: nat)
    requires Shaped(t) && spare <= |t.mem| + 1 && t.mem != ""
    ensures var r := t.(spare := spare); Shaped(r) && (Latest(t) <==> Latest(r))
  {
    assert View(t.(spare := spare)) == View(t);
  }

  /** Setting on tables guarded so far. */
  lemma SetOverlaid(t: Tab, key: string, v: NewValue, kind: KeyType)
    requires Shaped(t) && Consistent(t) && SetGuarded(t) && t.keyAt != [] && |t.keyAt| < MAXKEYS && t.mem != ""
    requires NUL !in key && Trimmed(key) && Proper(v) && FindKey(View(t), key) < 0
    requires |key| + 1 + |Full(v)| <= SpaceLeft(t)
    ensures var r := t.(mem := Put(t.mem, t.spare, key + [NUL])); Shaped(r) && Latest(r)
    ensures Latest(SetAt(t, key, v, kind))
  {
    hide StrLen, CStr, Trimmed, LiveTo, View, Latest, SetGuarded, Written, FindKey, Full, Added, SetAt, Proper;
    var at, mem1 := t.spare + |key| + 1, Put(t.mem, t.spare, key + [NUL]);
    PutText(t.mem, t.spare, key);
    var z := ClosingAfter(t, t.spare, key);
    KeyOverlaid(t, mem1, key, z);
    var z2 := WrittenClosing(mem1, at, v, z);
    var mem2 := Written(mem1, at, v);
    TextEnds(mem1, t.spare, |key|, at);
    EndsKept(mem1, mem2, t.spare, at);
    KeyOverlaid(t, mem2, key, z2);
    var t3 := t.(mem := mem2);
    SetAtIs(t, t3, key, v, kind);
    NewLatest(t3, t.spare, at, Count(v), kind, at + |Full(v)| + 1);
  }

  /** Growing first settles everything. */
  lemma SetGrown(t: Tab, t2: Tab, key: string, v: NewValue, kind: KeyType)
    requires Shaped(t) && Latest(t) && Shaped(t2) && Settled(t2) && View(t2) == View(t) && |t.keyAt| < MAXKEYS
    requires t2.mem != "" && |t2.keyAt| == |t.keyAt| > 0
    requires NUL !in key && Trimmed(key) && Proper(v) && FindKey(View(t), key) < 0
    requires |key| + 1 + |Full(v)| <= SpaceLeft(t2)
    ensures var r := t2.(mem := Put(t2.mem, t2.spare, key + [NUL])); Shaped(r) && Latest(r)
    ensures Latest(SetAt(t2, key, v, kind))
  {
    hide StrLen, CStr, Trimmed, LiveTo, Written, FindKey, Full, Added, SetAt, Proper, Put, View, Harmless;
    SameLatest(t, t2);
    SettledGuarded(t2);
    var z := HighestEnd(t2, |t2.keyAt|);
    assert Closed(t2, z);
    SetOverlaid(t2, key, v, kind);
  }

  lemma SameLatest(t: Tab, r: Tab)
    requires Shaped(t) && Shaped(r) && View(t) == View(r) && Latest(t)
    ensures Latest(r)
  {
    assert t.types == View(t).types == r.types;
  }

  lemma SetLatest(t: Tab, key: string, v: NewValue, kind: KeyType, fill: Garbage)
    requires Shaped(t) && Consistent(t) && SetGuarded(t) && Exposed(t)
    requires NUL !in key && Trimmed(key) && Proper(v) && CanHold(t, Required(key, v))
    ensures Latest(SetIn(t, key, v, kind, fill).1)
  {
    hide StrLen, CStr, Trimmed, LiveTo, View, Latest, SetGuarded, Written, FindKey, Full, Added, SetAt, Proper,
         Ready, Put, SetIn, BadKey, Initial, Settled, CanHold, Closing, Needed, Required;
    SomeEntry(t);
    SetRefused(t, key, v, kind, fill);
    if Refusal(View(t), key, kind) == KVP_E_OK {
      SetAllowed(t, key, v, kind, fill);
      var t2 := Ready(t, 0, Required(key, v), fill);
      ReadyKeeps(t, 0, Required(key, v), fill);
      if Required(key, v) <= SpaceLeft(t) {
        SetOverlaid(t, key, v, kind);
      } else {
        SetGrown(t, t2, key, v, kind);
      }
    }
  }

  lemma SomeEntry(t: Tab)
    requires Shaped(t) && Exposed(t)
    ensures t.keyAt != [] && t.mem != ""
  {
  }

  /** The empty key, and behind its 0 a string that spoils an entry. */
  lemma SetOver(t: Tab, text: string, fill: Garbage)
    requires Shaped(t) && |t.keyAt| < MAXKEYS && t.mem != "" && FindKey(View(t), "") < 0
    requires NUL !in text && |text| + 2 <= SpaceLeft(t)
    ensures CanHold(t, Required("", Characters(text)))
    ensures var r, t1 := SetIn(t, "", Characters(text), KT_STRING, fill).1, AfterEmpty(t);
            && Shaped(t1) && |text| + 1 <= SpaceLeft(t1)
            && r.mem == Loaded(t1, text).mem && r.keyAt == t.keyAt + [t.spare]
               && r.types == t.types[|t.keyAt| := KT_STRING]
  {
    hide StrLen, CStr, View, Put, Grown, LiveTo, FindKey;
    SetRefused(t, "", Characters(text), KT_STRING, fill);
    SetAllowed(t, "", Characters(text), KT_STRING, fill);
  }

  /** Memory with the empty key at the front of the free space. */
  function AfterEmpty(t: Tab): Tab
    requires Shaped(t) && t.spare < |t.mem|
  {
    t.(mem := Put(t.mem, t.spare, "" + [NUL]), spare := t.spare + 1)
  }

  /** A valid entry where the empty key goes: the new entry hides it. */
  lemma HiddenByNew(t: Tab, k: nat, fill: Garbage)
    requires Shaped(t) && Placed(t) && |t.keyAt| < MAXKEYS && k < |t.keyAt| && FindKey(View(t), "") < 0
    requires t.types[k] != KT_INVALID && t.keyAt[k] == t.spare
    ensures CanHold(t, Required("", Characters("")))
    ensures !Latest(SetIn(t, "", Characters(""), KT_STRING, fill).1)
  {
    hide StrLen, CStr, Put, SetIn, CanHold;
    SetOver(t, "", fill);
    var r, t1 := SetIn(t, "", Characters(""), KT_STRING, fill).1, AfterEmpty(t);
    PutText(t.mem, t.spare, "");
    PutText(t1.mem, t1.spare, "");
    CStrIs(r.mem, t.spare, "");
    KeysOf(r);
    assert View(r).keys[k] == View(r).keys[|t.keyAt|] == "";
    assert Strip("") == "";
    assert FindKey(View(r), "") >= |t.keyAt|;
  }

  /** A valid entry further on. */
  lemma LostBehind(t: Tab, k: nat, fill: Garbage) returns (text: string)
    requires Shaped(t) && Placed(t) && |t.keyAt| < MAXKEYS && k < |t.keyAt| && FindKey(View(t), "") < 0
    requires t.types[k] != KT_INVALID && t.keyAt[k] > t.spare
    ensures NUL !in text && CanHold(t, Required("", Characters(text)))
    ensures !Latest(SetIn(t, "", Characters(text), KT_STRING, fill).1)
  {
    hide StrLen, CStr, Put, SetIn, CanHold;
    text := Spaces(t.keyAt[k] - t.spare - 1) + " ";
    SetOver(t, text, fill);
    var r, t1 := SetIn(t, "", Characters(text), KT_STRING, fill).1, AfterEmpty(t);
    KeyOverwritten(t1, k, " ");
    KeysOf(r);
    assert View(r).keys[k] == " ";
    SpaceStripped();
    assert FindKey(View(r), " ") != k;
  }

  /** An invalid entry further on, behind a valid one whose key fits there. */
  lemma HiddenBehind(t: Tab, i: nat, k: nat, fill: Garbage) returns (text: string)
    requires Shaped(t) && Latest(t) && |t.keyAt| < MAXKEYS && i < k < |t.keyAt| && FindKey(View(t), "") < 0
    requires t.types[i] != KT_INVALID && Ends(t.mem, t.keyAt[i], t.spare) && t.keyAt[k] > t.spare
    requires t.keyAt[k] + |CStr(t.mem, t.keyAt[i])| + 1 <= |t.mem|
    ensures NUL !in text && CanHold(t, Required("", Characters(text)))
    ensures !Latest(SetIn(t, "", Characters(text), KT_STRING, fill).1)
  {
    hide StrLen, CStr, Put, SetIn, CanHold;
    var key := CStr(t.mem, t.keyAt[i]);
    text := Spaces(t.keyAt[k] - t.spare - 1) + key;
    SetOver(t, text, fill);
    var r, t1 := SetIn(t, "", Characters(text), KT_STRING, fill).1, AfterEmpty(t);
    KeyOverwritten(t1, k, key);
    PutText(t.mem, t.spare, "");
    PutText(t1.mem, t1.spare, text);
    EndsKept(t.mem, r.mem, t.keyAt[i], t.spare);
    KeysOf(t);
    KeysOf(r);
    assert View(r).keys[i] == View(r).keys[k] == key;
    LatestMeans(t);
    StripTrimmed(key);
    assert FindKey(View(r), key) >= k;
  }

  lemma BreakingSet(t: Tab, fill: Garbage) returns (text: string)
    requires Shaped(t) && Placed(t) && Consistent(t) && !SetGuarded(t) && |t.keyAt| < MAXKEYS
        && FindKey(View(t), "") < 0
    ensures NUL !in text && CanHold(t, Required("", Characters(text)))
    ensures !Latest(SetIn(t, "", Characters(text), KT_STRING, fill).1)
  {
    hide StrLen, CStr, Put, SetIn, CanHold, Closing, FindKey, View, Latest;
    var k :| 0 <= k < |t.keyAt| && !Ends(t.mem, t.keyAt[k], t.spare) && !Harmless(t, k) && !Overlaid(t, k);
    if t.types[k] != KT_INVALID {
      text := ValidBroken(t, k, fill);
    } else {
      var i :| 0 <= i < k && t.types[i] != KT_INVALID && t.keyAt[k] + |CStr(t.mem, t.keyAt[i])| + 1 <= |t.mem|;
      if Ends(t.mem, t.keyAt[i], t.spare) {
        text := HiddenBehind(t, i, k, fill);
      } else {
        text := ValidBroken(t, i, fill);
      }
    }
  }

  lemma ValidBroken(t: Tab, k: nat, fill: Garbage) returns (text: string)
    requires Shaped(t) && Placed(t) && |t.keyAt| < MAXKEYS && k < |t.keyAt| && FindKey(View(t), "") < 0
    requires t.types[k] != KT_INVALID && !Ends(t.mem, t.keyAt[k], t.spare)
    ensures NUL !in text && CanHold(t, Required("", Characters(text)))
    ensures !Latest(SetIn(t, "", Characters(text), KT_STRING, fill).1)
  {
    hide StrLen, CStr, Put, SetIn, CanHold, FindKey, View, Latest;
    if t.keyAt[k] == t.spare {
      text := "";
      HiddenByNew(t, k, fill);
    } else {
      text := LostBehind(t, k, fill);
    }
  }

  /**
   * Where there is a free entry and no key is empty, sets of trimmed keys can
   * be relied on if and only if all that is exposed are invalid entries that
   * begin just where the free space does.
   */
  lemma NextSetExactly(t: Tab)
    requires Shaped(t) && Placed(t) && Consistent(t) && |t.keyAt| < MAXKEYS && FindKey(View(t), "") < 0
    ensures SetsKeep(t) <==> SetGuarded(t)
  {
    hide StrLen, CStr, Put, SetIn, CanHold, Closing, Latest, Exposed, Placed, SetGuarded, Trimmed, FindKey, View;
    if SetGuarded(t) {
      forall key: string, v: NewValue, kind: KeyType, fill: Garbage |
        NUL !in key && Trimmed(key) && Proper(v) && OfKind(v, kind) && CanHold(t, Required(key, v))
        ensures Latest(SetIn(t, key, v, kind, fill).1)
      {
        if Exposed(t) {
          SetLatest(t, key, v, kind, fill);
        } else {
          SetKept(t, key, v, kind, fill);
        }
      }
    } else {
      var fill := Held("");
      var text := BreakingSet(t, fill);
      var v := Characters(text);
      EmptyTrimmed();
      assert NUL !in "" && Proper(v) && OfKind(v, KT_STRING) && CanHold(t, Required("", v));
      assert !Latest(SetIn(t, "", v, KT_STRING, fill).1);
    }
  }

  lemma EmptyTrimmed()
    ensures Trimmed("")
  {
  }

  /** On a full table no set breaks anything: it writes nothing. */
  lemma FullTableKeeps(t: Tab)
    requires Shaped(t) && Consistent(t) && |t.keyAt| == MAXKEYS
    ensures SetsKeep(t)
  {
    hide StrLen, CStr, Put, SetIn, CanHold, Closing, Latest, Trimmed, FindKey, View, Proper;
    forall key: string, v: NewValue, kind: KeyType, fill: Garbage |
      NUL !in key && Trimmed(key) && Proper(v) && OfKind(v, kind) && CanHold(t, Required(key, v))
      ensures Latest(SetIn(t, key, v, kind, fill).1)
    {
      SetRefused(t, key, v, kind, fill);
    }
  }
}

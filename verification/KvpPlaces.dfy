// Where the parser puts what it adds: keys from the record's copy on, memory
// below the copy as it was, and the same final 0 in reach after every turn.
module KvpPlaces {
  import opened KvpText
  import opened KvpValidate
  import opened KvpStore
  import opened KvpMemory
  import opened KvpParser
  import opened KvpBuffer
  import opened KvpOps

  /**
   * The entries of t are there; those added have keys that begin at p or behind, with a
   * character more in the buffer.
   */
  ghost predicate AddedFrom(t: Tab, r: Tab, p: nat) {
    && Shaped(r) && r.spare == t.spare && SameBelow(t.mem, r.mem, p)
    && t.keyAt <= r.keyAt && t.valAt <= r.valAt && |t.types| == MAXKEYS
    && (forall k :: 0 <= k < |t.keyAt| ==> r.types[k] == t.types[k] || r.types[k] == KT_INVALID)
    && forall k :: |t.keyAt| <= k < |r.keyAt| ==> p <= r.keyAt[k] && r.keyAt[k] + 2 <= |r.mem|
  }

  /** What a turn from p on leaves of the tables and of the text up to z. */
  ghost predicate TurnPlaced(t: Tab, r: MTurn, p: nat, z: nat) {
    match r
    case MStop(next) => AddedFrom(t, next, p)
    case MMore(next, at) => AddedFrom(t, next, p) && p < at && Reaches(next.mem, at, z)
    case MLast(next) => AddedFrom(t, next, p)
    case MFail(_, next) => AddedFrom(t, next, p)
    case MAstray => true
  }

  lemma StorePlaced(t: Tab, start: nat, kind: KeyType, given: int, v: nat, p: nat, z: nat)
    requires Shaped(t) && |t.keyAt| < MAXKEYS && p <= start && start + 2 <= |t.mem| && p < v && Reaches(t.mem, v, z)
    ensures v <= |t.mem| && TurnPlaced(t, StoreAt(t, start, kind, given, v), p, z)
  {
    hide StrLen, CStr, Validate, Find, Value, AddedFrom, Added, SameBelow, OnlyCut, View, StoreAt;
    InBuffer(t.mem, v, z);
    StoreUnfold(t, start, kind, given, v);
    ValueCut(t.mem, v);
    ValueEnds(t.mem, v, z);
    var e := Find(CStr(t.mem, v), ';');
    var mem := if e < 0 then t.mem else t.mem[v + e := NUL];
    if e >= 0 {
      ReachesIs(mem, v + e + 1, z);
    }
    var t1, count := t.(mem := mem, types := t.types[|t.keyAt| := kind]), Validate(CStr(mem, v), kind);
    EntryPlaced(t, t1, start, v, count, kind, p);
  }

  lemma EntryPlaced(t: Tab, t1: Tab, start: nat, v: nat, count: int, kind: KeyType, p: nat)
    requires Shaped(t) && |t.keyAt| < MAXKEYS && p <= start && start + 2 <= |t.mem| && p < v <= |t.mem|
    requires t1 == t.(mem := t1.mem, types := t1.types) && |t1.types| == MAXKEYS && SameBelow(t.mem, t1.mem, v)
    requires forall k :: 0 <= k < |t.keyAt| ==> t1.types[k] == t.types[k]
    ensures Shaped(t1) && AddedFrom(t, t1, p) && AddedFrom(t, Added(t1, start, v, count, kind), p)
  {
    hide StrLen, CStr;
  }

  lemma ValuePlaced(t: Tab, start: nat, kind: KeyType, q: nat, p: nat, z: nat)
    requires Shaped(t) && |t.keyAt| < MAXKEYS && p <= start && start + 2 <= |t.mem| && p < q && Reaches(t.mem, q, z)
    ensures q <= |t.mem| && TurnPlaced(t, ValueAt(t, start, kind, q), p, z)
  {
    hide StrLen, CStr, CountField, StoreAt, Reaches;
    InBuffer(t.mem, q, z);
    BehindCount(t.mem, q, z);
    var rest := CStr(t.mem, q);
    var (given, behind) := CountField(rest);
    if behind != "" && behind[0] == '=' {
      StorePlaced(t, start, kind, given, q + (|rest| - |behind|) + 1, p, z);
    }
  }

  lemma Moved(t: Tab, t2: Tab, r: MTurn, p: nat, z: nat)
    requires t2 == t.(mem := t2.mem, types := t2.types) && SameBelow(t.mem, t2.mem, p) && TurnPlaced(t2, r, p, z)
    requires |t.types| == |t2.types| == MAXKEYS && |t.keyAt| <= MAXKEYS
    requires forall k :: 0 <= k < |t.keyAt| ==> t2.types[k] == t.types[k] || t2.types[k] == KT_INVALID
    ensures TurnPlaced(t, r, p, z)
  {
  }

  lemma TurnPlaces(t: Tab, p: nat, z: nat)
    requires Shaped(t) && Reaches(t.mem, p, z)
    ensures p + StrLen(t.mem, p) < |t.mem| && TurnPlaced(t, TurnAt(t, p), p, z)
  {
    hide Strip, Find, StripAt, ValueAt, TypeOf, Comment, TrimLeft, StrLen, CStr, View, Superseded, TurnAt, Reaches,
         SupersededAt, OnlyCut;
    InBuffer(t.mem, p, z);
    TurnUnfold(t, p);
    var text := CStr(t.mem, p);
    var hash := Find(text, '#');
    if hash >= 0 && |t.keyAt| < MAXKEYS {
      KeyLeft(t.mem, p, hash);
      var (start, mem) := StripAt(t.mem[p + hash := NUL], p);
      var key, t1 := CStr(mem, start), t.(mem := mem);
      if !Comment(key) && hash + 1 < |text| {
        KeyCut(t.mem, p, hash);
        var t2, q := SupersededAt(t1, key), p + hash + 2;
        SupersededParts(t1, key);
        ReachesIs(mem, q, z);
        ValuePlaced(t2, start, TypeOf(mem[p + hash + 1], t2.types[|t.keyAt|]), q, p, z);
        Moved(t, t2, TurnAt(t, p), p, z);
      }
    }
  }

  lemma AddedMore(t: Tab, t1: Tab, r: Tab, p: nat, at: nat)
    requires AddedFrom(t, t1, p) && AddedFrom(t1, r, at) && p <= at
    ensures AddedFrom(t, r, p)
  {
  }

  /** The whole loop. */
  lemma {:induction false} ParsePlaces(t: Tab, p: nat, z: nat)
    requires Shaped(t) && Reaches(t.mem, p, z)
    ensures p + StrLen(t.mem, p) < |t.mem|
    ensures var r := ParseAt(t, p);
            r.MParsed? || r.MRefused? ==> AddedFrom(t, r.tab, p)
    decreases |t.mem| - p
  {
    hide TurnAt, StrLen, CStr, AddedFrom;
    TurnPlaces(t, p, z);
    InBuffer(t.mem, p, z);
    var m := TurnAt(t, p);
    if m.MMore? {
      InBuffer(m.tab.mem, m.at, z);
      ParsePlaces(m.tab, m.at, z);
      var r := ParseAt(m.tab, m.at);
      if r.MParsed? || r.MRefused? {
        AddedMore(t, m.tab, r.tab, p, m.at);
      }
    }
  }
}

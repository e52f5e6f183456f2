// The parser as it works in the buffer: keys and values are cut out of the
// record's copy by zeros, and the tables point at them.
module KvpParser {
  import opened KvpText
  import opened KvpValidate
  import opened KvpStore
  import opened KvpMemory

  /** What one turn of the loop comes to, in memory. */
  datatype MTurn =
    | MStop(tab: Tab)
    | MMore(tab: Tab, at: nat)
    | MLast(tab: Tab)
    | MFail(code: KvpErrorCode, tab: Tab)
    | MAstray

  /**
   * stripSpaces in place: where the key begins, and the memory with a 0 behind it; an empty key
   * gets it one place too far.
   */
  function StripAt(mem: string, p: nat): (r: (nat, string))
    requires p <= |mem| && p + StrLen(mem, p) < |mem|
    ensures p <= r.0 <= |mem| && |r.1| == |mem|
  {
    var s := CStr(mem, p);
    var start := p + (|s| - |TrimLeft(s)|);
    if TrimLeft(s) != "" then (start, mem[start + |Strip(s)| := NUL])
    else (start, if start + 1 < |mem| then mem[start + 1 := NUL] else mem)
  }

  /** The value at `v` and its semicolon; the key stands at `start`. */
  function StoreAt(t: Tab, start: nat, kind: KeyType, given: int, v: nat): (r: MTurn)
    requires Shaped(t) && |t.keyAt| < MAXKEYS && t.mem != "" && start <= |t.mem| && v <= |t.mem|
    ensures r.MMore? ==> Shaped(r.tab) && v < r.at <= |t.mem| && |r.tab.mem| == |t.mem|
    ensures r.MLast? || r.MFail? ==> Shaped(r.tab) && |r.tab.mem| == |t.mem|
    ensures r.MMore? || r.MLast? ==> r.tab.keyAt == t.keyAt + [start]
    ensures r.MFail? ==> r.tab.keyAt == t.keyAt
    ensures !r.MStop? && !r.MAstray?
  {
    var e := Find(CStr(t.mem, v), ';');
    var mem := if e < 0 then t.mem else t.mem[v + e := NUL];
    var t1 := t.(mem := mem, types := t.types[|t.keyAt| := kind]);
    var count := Validate(CStr(mem, v), kind);
    if count < 0 then MFail(KVP_E_ILLNUMBER, t1)
    else if given != 0 && given != count then MFail(KVP_E_WRONGCOUNT, t1)
    else if e < 0 then MLast(Added(t1, start, v, count, kind))
    else MMore(Added(t1, start, v, count, kind), v + e + 1)
  }

  /** The value's cases. */
  lemma StoreUnfold(t: Tab, start: nat, kind: KeyType, given: int, v: nat)
    requires Shaped(t) && |t.keyAt| < MAXKEYS && t.mem != "" && start <= |t.mem| && v <= |t.mem|
    ensures var r, e := StoreAt(t, start, kind, given, v), Find(CStr(t.mem, v), ';');
            v + e < |t.mem|
            && var t1 := t.(mem := if e < 0 then t.mem else t.mem[v + e := NUL], types := t.types[|t.keyAt| := kind]);
               var count := Validate(CStr(t1.mem, v), kind);
               Shaped(t1)
               && r == if count < 0 then MFail(KVP_E_ILLNUMBER, t1)
                       else if given != 0 && given != count then MFail(KVP_E_WRONGCOUNT, t1)
                       else if e < 0 then MLast(Added(t1, start, v, count, kind))
                       else MMore(Added(t1, start, v, count, kind), v + e + 1)
  {
    hide StrLen, CStr, Find, Validate, Added;
  }

  /** Count, value and semicolon, from `q` on. */
  function ValueAt(t: Tab, start: nat, kind: KeyType, q: nat): (r: MTurn)
    requires Shaped(t) && |t.keyAt| < MAXKEYS && t.mem != "" && start <= |t.mem| && q <= |t.mem|
    ensures r.MMore? ==> Shaped(r.tab) && q < r.at <= |t.mem| && |r.tab.mem| == |t.mem|
    ensures r.MLast? || r.MFail? ==> Shaped(r.tab) && |r.tab.mem| == |t.mem|
    ensures r.MMore? || r.MLast? ==> r.tab.keyAt == t.keyAt + [start]
    ensures r.MFail? ==> r.tab.keyAt == t.keyAt
    ensures !r.MStop? && !r.MAstray?
  {
    var rest := CStr(t.mem, q);
    var (given, behind) := CountField(rest);
    if behind == "" || behind[0] != '=' then MFail(KVP_E_BADINPUT, t.(types := t.types[|t.keyAt| := kind]))
    else StoreAt(t, start, kind, given, q + (|rest| - |behind|) + 1)
  }

  /** An older entry of the key becomes invalid. */
  function SupersededAt(t: Tab, key: string): (r: Tab)
    requires Shaped(t)
    ensures Shaped(r) && r == t.(types := r.types) && View(r) == Superseded(View(t), key)
  {
    t.(types := Superseded(View(t), key).types)
  }

  /** One key and its value from `p` on. */
  function TurnAt(t: Tab, p: nat): (r: MTurn)
    requires Shaped(t) && p <= |t.mem| && p + StrLen(t.mem, p) < |t.mem|
    ensures r.MMore? ==> Shaped(r.tab) && p < r.at <= |t.mem| && |r.tab.mem| == |t.mem|
    ensures r.MStop? || r.MLast? || r.MFail? ==> Shaped(r.tab) && |r.tab.mem| == |t.mem|
  {
    var text := CStr(t.mem, p);
    var hash := Find(text, '#');
    if hash < 0 then MStop(t)
    else if |t.keyAt| >= MAXKEYS then MFail(KVP_E_TOOMANY, t)
    else
      CStrCut(t.mem, p, hash);
      var (start, mem) := StripAt(t.mem[p + hash := NUL], p);
      var key := CStr(mem, start);
      var t1 := t.(mem := mem);
      if Comment(key) then MStop(t1)
      else if hash + 1 == |text| then MAstray
      else
        var t2 := SupersededAt(t1, key);
        ValueAt(t2, start, TypeOf(mem[p + hash + 1], t2.types[|t.keyAt|]), p + hash + 2)
  }

  // ----- What a turn does to memory

  /** Nothing below p changes. */
  ghost predicate SameBelow(mem: string, mem2: string, p: nat) {
    |mem| == |mem2| && forall k :: 0 <= k < p && k < |mem| ==> mem2[k] == mem[k]
  }

  /** Characters are only ever replaced by 0. */
  ghost predicate OnlyCut(mem: string, mem2: string) {
    |mem| == |mem2| && forall k :: 0 <= k < |mem| ==> mem2[k] == mem[k] || mem2[k] == NUL
  }

  /** Stripping the text at p: the key it leaves, and the one place it writes to. */
  lemma StripCut(mem: string, p: nat)
    requires p <= |mem| && p + StrLen(mem, p) < |mem|
    ensures var (start, mem2) := StripAt(mem, p);
            var key, at := Strip(CStr(mem, p)), p + StrLen(mem, p);
            && SameBelow(mem, mem2, p) && OnlyCut(mem, mem2)
            && CStr(mem2, start) == key && start + |key| <= at && mem2[start + |key|] == NUL
            && (forall k :: at < k < |mem| ==> mem2[k] == if key == "" && k == at + 1 then NUL else mem[k])
  {
    hide TrimLeft, TrimRight;
    var s := CStr(mem, p);
    TrimLeftIs(s);
    if TrimLeft(s) != "" {
      StripCutText(mem, p);
    } else {
      StrLenIs(StripAt(mem, p).1, p + |s|, 0);
    }
  }

  lemma StripCutText(mem: string, p: nat)
    requires p <= |mem| && p + StrLen(mem, p) < |mem| && TrimLeft(CStr(mem, p)) != ""
    ensures var s := CStr(mem, p);
            var start, key := p + (|s| - |TrimLeft(s)|), Strip(s);
            && 1 <= |key| && start + |key| <= p + |s|
            && CStr(mem[start + |key| := NUL], start) == key
  {
    hide TrimLeft, TrimRight, StrLen, CStr;
    var s := CStr(mem, p);
    var left := TrimLeft(s);
    TrimLeftIs(s);
    LeftTrims(s);
    StripIs(left);
    CStrTail(mem, p, |s| - |left|);
    CStrCut(mem, p + |s| - |left|, |Strip(s)|);
  }

  /**
   * The cut key: it is the stripped text, stands between p and the '#', and what follows the
   * type letter is untouched.
   */
  lemma KeyCut(mem: string, p: nat, hash: nat)
    requires p <= |mem| && p + StrLen(mem, p) < |mem| && hash + 1 < StrLen(mem, p)
    ensures CStr(mem[p + hash := NUL], p) == CStr(mem, p)[..hash]
    ensures var (start, mem2) := StripAt(mem[p + hash := NUL], p);
            var key := Strip(CStr(mem, p)[..hash]);
            && SameBelow(mem, mem2, p) && OnlyCut(mem, mem2)
            && CStr(mem2, start) == key && start + |key| <= p + hash && mem2[start + |key|] == NUL
            && mem2[p + hash + 1] == (if key == "" then NUL else CStr(mem, p)[hash + 1])
            && CStr(mem2, p + hash + 2) == CStr(mem, p)[hash + 2..]
            && StrLen(mem2, p + hash + 2) == StrLen(mem, p) - hash - 2
  {
    hide Strip, StripAt, TrimLeft;
    CStrCut(mem, p, hash);
    StripCut(mem[p + hash := NUL], p);
    CStrTail(mem, p, hash + 2);
    CStrFrom(mem, StripAt(mem[p + hash := NUL], p).1, p + hash + 2);
  }

  lemma TrimLeftIs(s: string)
    ensures TrimLeft(s) == s[|s| - |TrimLeft(s)|..]
    ensures TrimLeft(s) == "" <==> Strip(s) == ""
  {
    LeftTrims(s);
    if TrimLeft(s) != "" {
      RightKeepsFirst(TrimLeft(s));
    }
  }

  lemma RightKeepsFirst(s: string)
    requires s != "" && !Space(s[0])
    ensures TrimRight(s) != "" && TrimRight(s)[0] == s[0] && TrimRight(s) == s[..|TrimRight(s)|]
  {
  }

  lemma StripIs(left: string)
    requires left != "" && !Space(left[0])
    ensures TrimRight(left) == left[..|TrimRight(left)|] && |TrimRight(left)| >= 1
  {
    RightKeepsFirst(left);
  }

  /** The cut value. */
  lemma ValueCut(mem: string, v: nat)
    requires v <= |mem| && v + StrLen(mem, v) < |mem|
    ensures var text := CStr(mem, v);
            var e := Find(text, ';');
            var mem2 := if e < 0 then mem else mem[v + e := NUL];
            && SameBelow(mem, mem2, v) && OnlyCut(mem, mem2)
            && CStr(mem2, v) == Value(text)
            && (e >= 0 ==> v + e + 1 <= |mem| && CStr(mem2, v + e + 1) == text[e + 1..]
                           && StrLen(mem2, v + e + 1) == StrLen(mem, v) - e - 1)
  {
    var text := CStr(mem, v);
    var e := Find(text, ';');
    if e >= 0 {
      CStrCut(mem, v, e);
      CStrTail(mem, v, e + 1);
      CStrFrom(mem, mem[v + e := NUL], v + e + 1);
    }
  }

  // ----- With all texts below, memory does what the table does

  /** The text from p on ends at z, within the buffer. */
  predicate Reaches(mem: string, p: nat, z: nat) {
    p <= z < |mem| && p + StrLen(mem, p) == z
  }

  lemma SteadyMore(t: Tab, p: nat, q: nat)
    requires Shaped(t) && Steady(t, p) && p <= q
    ensures Steady(t, q)
  {
  }

  /** An entry whose texts end below q joins those that do. */
  lemma SteadyAdded(t: Tab, keyAt: nat, valAt: nat, count: int, kind: KeyType, q: nat)
    requires Shaped(t) && |t.keyAt| < MAXKEYS && t.mem != "" && Steady(t, q)
    requires Ends(t.mem, keyAt, q) && Ends(t.mem, valAt, q)
    ensures Shaped(Added(t, keyAt, valAt, count, kind)) && Steady(Added(t, keyAt, valAt, count, kind), q)
  {
  }

  /** The part of the text behind the count. */
  lemma BehindCount(mem: string, q: nat, z: nat)
    requires Reaches(mem, q, z)
    ensures var rest := CStr(mem, q);
            var behind := CountField(rest).1;
            && |behind| <= |rest|
            && (behind != "" ==>
                  var v := q + (|rest| - |behind|) + 1;
                  q < v && Reaches(mem, v, z) && CStr(mem, v) == behind[1..])
  {
    hide CountField;
    var rest := CStr(mem, q);
    var behind := CountField(rest).1;
    if behind != "" {
      CStrTail(mem, q, |rest| - |behind| + 1);
    }
  }

  /** The turn in memory comes to what the turn on the table comes to; what follows lies between p and z. */
  ghost predicate Mirrors(turn: Turn, r: MTurn, s: Store, spare: nat, p: nat, z: nat)
    requires Formed(s)
  {
    match turn
    case Stop =>
      r.MStop? && Shaped(r.tab) && View(r.tab) == s && r.tab.spare == spare && Steady(r.tab, p)
    case More(next, rest) =>
      r.MMore? && Shaped(r.tab) && View(r.tab) == next && r.tab.spare == spare && p < r.at
      && Reaches(r.tab.mem, r.at, z) && CStr(r.tab.mem, r.at) == rest && Steady(r.tab, r.at)
    case Last(next) =>
      r.MLast? && Shaped(r.tab) && View(r.tab) == next && r.tab.spare == spare && Steady(r.tab, z + 1)
    case Fail(code, next) =>
      r.MFail? && r.code == code && Shaped(r.tab) && View(r.tab) == next && r.tab.spare == spare && Steady(r.tab, z + 1)
    case Astray => r.MAstray?
  }

  lemma MirrorsFail(r: MTurn, s: Store, spare: nat, p: nat, z: nat, code: KvpErrorCode, next: Store)
    requires Formed(s) && r.MFail? && r.code == code && Shaped(r.tab) && View(r.tab) == next && r.tab.spare == spare
    requires Steady(r.tab, p) && p <= z + 1
    ensures Mirrors(Fail(code, next), r, s, spare, p, z)
  {
  }

  lemma MirrorsMore(r: MTurn, s: Store, spare: nat, p: nat, z: nat, next: Store, rest: string)
    requires Formed(s) && r.MMore? && Shaped(r.tab) && View(r.tab) == next && r.tab.spare == spare && p < r.at
    requires Reaches(r.tab.mem, r.at, z) && CStr(r.tab.mem, r.at) == rest && Steady(r.tab, r.at)
    ensures Mirrors(More(next, rest), r, s, spare, p, z)
  {
  }

  lemma MirrorsLast(r: MTurn, s: Store, spare: nat, p: nat, z: nat, next: Store)
    requires Formed(s) && r.MLast? && Shaped(r.tab) && View(r.tab) == next && r.tab.spare == spare
        && Steady(r.tab, z + 1)
    ensures Mirrors(Last(next), r, s, spare, p, z)
  {
  }

  lemma StoreViews(t: Tab, start: nat, key: string, kind: KeyType, given: int, q: nat, v: nat, p: nat, z: nat)
    requires Shaped(t) && |t.keyAt| < MAXKEYS && t.mem != "" && start <= |t.mem| && p <= q <= v && Steady(t, p)
    requires Reaches(t.mem, v, z) && v <= z < |t.mem| && Ends(t.mem, start, q) && CStr(t.mem, start) == key
    ensures Mirrors(StoreValue(View(t), key, kind, given, CStr(t.mem, v)), StoreAt(t, start, kind, given, v),
                    View(t), t.spare, p, z)
  {
    hide Validate, StrLen, CStr, Find, Value, Live, Ends, Steady, Texts, View, Appended, Added, Mirrors, Reaches;
    var s, r, text := View(t), StoreAt(t, start, kind, given, v), CStr(t.mem, v);
    ValueStored(t, start, key, kind, q, p, v, z);
    var e, count := Find(text, ';'), Validate(Value(text), kind);
    var t2 := t.(mem := if e < 0 then t.mem else t.mem[v + e := NUL], types := t.types[|t.keyAt| := kind]);
    if count < 0 {
      MirrorsFail(r, s, t.spare, p, z, KVP_E_ILLNUMBER, View(t2));
    } else if given != 0 && given != count {
      MirrorsFail(r, s, t.spare, p, z, KVP_E_WRONGCOUNT, View(t2));
    } else if e < 0 {
      MirrorsLast(r, s, t.spare, p, z, Appended(s, key, Value(text), count, kind));
    } else {
      MirrorsMore(r, s, t.spare, p, z, Appended(s, key, Value(text), count, kind), text[e + 1..]);
    }
  }

  lemma ValueViews(t: Tab, start: nat, key: string, kind: KeyType, q: nat, p: nat, z: nat)
    requires Shaped(t) && |t.keyAt| < MAXKEYS && t.mem != "" && start <= |t.mem| && p <= q && Steady(t, p)
    requires Reaches(t.mem, q, z) && q <= z < |t.mem| && Ends(t.mem, start, q) && CStr(t.mem, start) == key
    ensures Mirrors(TakeValue(View(t), key, kind, CStr(t.mem, q)), ValueAt(t, start, kind, q), View(t), t.spare, p, z)
  {
    hide CountField, StrLen, CStr, Find, Value, Live, Ends, Steady, StoreValue, StoreAt, Texts, View, Mirrors, Reaches;
    var rest := CStr(t.mem, q);
    BehindCount(t.mem, q, z);
    var (given, behind) := CountField(rest);
    var t1 := t.(types := t.types[|t.keyAt| := kind]);
    TypesOnly(t, t1, p);
    if behind == "" || behind[0] != '=' {
      MirrorsFail(ValueAt(t, start, kind, q), View(t), t.spare, p, z, KVP_E_BADINPUT, View(t1));
    } else {
      var v := q + (|rest| - |behind|) + 1;
      InBuffer(t.mem, v, z);
      StoreViews(t, start, key, kind, given, q, v, p, z);
    }
  }

  /** Once the value is cut, the tables show it, and all texts end below what comes next. */
  lemma ValueStored(t: Tab, start: nat, key: string, kind: KeyType, q: nat, p: nat, v: nat, z: nat)
    requires Shaped(t) && |t.keyAt| < MAXKEYS && p <= q <= v && Steady(t, p)
    requires Reaches(t.mem, v, z) && Ends(t.mem, start, q) && CStr(t.mem, start) == key
    ensures var text := CStr(t.mem, v);
            var e := Find(text, ';');
            var t2 := t.(mem := if e < 0 then t.mem else t.mem[v + e := NUL], types := t.types[|t.keyAt| := kind]);
            var end := if e < 0 then z + 1 else v + e + 1;
            && Shaped(t2) && Steady(t2, p) && View(t2) == View(t).(types := t2.types)
            && CStr(t2.mem, v) == Value(text)
            && (e >= 0 ==> Reaches(t2.mem, end, z) && CStr(t2.mem, end) == text[e + 1..])
            && forall count ::
                 var r := Added(t2, start, v, count, kind);
                 Shaped(r) && Steady(r, end) && View(r) == Appended(View(t), key, Value(text), count, kind)
  {
    hide StrLen, CStr, Find, Value, Ends, Steady, Texts, View, Appended, Added, SameBelow, OnlyCut;
    var e := Find(CStr(t.mem, v), ';');
    var t1 := t.(types := t.types[|t.keyAt| := kind]);
    TypesOnly(t, t1, p);
    InBuffer(t.mem, v, z);
    var t2 := t1.(mem := if e < 0 then t.mem else t.mem[v + e := NUL]);
    ValueCut(t.mem, v);
    var end := if e < 0 then z + 1 else v + e + 1;
    CutKept(t1, t2.mem, p, v);
    ValueEnds(t.mem, v, z);
    CutEnds(t.mem, t2.mem, start, q, v);
    SteadyMore(t2, p, end);
    EndsMore(t2.mem, start, q, end);
    forall count
      ensures var r := Added(t2, start, v, count, kind);
              Shaped(r) && Steady(r, end) && View(r) == Appended(View(t), key, Value(CStr(t.mem, v)), count, kind)
    {
      AddedFacts(t2, start, v, count, kind, end);
      SameAppended(View(t), View(t2), key, Value(CStr(t.mem, v)), count, kind);
    }
  }

  lemma InBuffer(mem: string, v: nat, z: nat)
    requires Reaches(mem, v, z)
    ensures v <= z < |mem| && v + StrLen(mem, v) == z && mem != ""
    ensures |CStr(mem, v)| == z - v
  {
  }

  lemma CutKept(t: Tab, mem2: string, p: nat, v: nat)
    requires Shaped(t) && Steady(t, p) && p <= v && SameBelow(t.mem, mem2, v)
    ensures Shaped(t.(mem := mem2)) && Steady(t.(mem := mem2), p) && View(t.(mem := mem2)) == View(t)
  {
    SteadyKept(t, mem2, p);
  }

  lemma CutEnds(mem: string, mem2: string, at: nat, q: nat, v: nat)
    requires Ends(mem, at, q) && q <= v && SameBelow(mem, mem2, v)
    ensures Ends(mem2, at, q) && CStr(mem2, at) == CStr(mem, at)
  {
    EndsKept(mem, mem2, at, q);
  }

  lemma AddedFacts(t: Tab, keyAt: nat, valAt: nat, count: int, kind: KeyType, q: nat)
    requires Shaped(t) && |t.keyAt| < MAXKEYS && Steady(t, q) && t.mem != ""
    requires Ends(t.mem, keyAt, q) && Ends(t.mem, valAt, q)
    ensures var r := Added(t, keyAt, valAt, count, kind);
            && Shaped(r) && Steady(r, q)
            && View(r) == Appended(View(t), CStr(t.mem, keyAt), CStr(t.mem, valAt), count, kind)
  {
    hide StrLen, View, Appended, Added;
    AddedView(t, keyAt, valAt, count, kind);
    SteadyAdded(t, keyAt, valAt, count, kind, q);
  }

  lemma SameAppended(s: Store, s2: Store, key: string, value: string, count: int, kind: KeyType)
    requires Formed(s) && |s.keys| < MAXKEYS && s2 == s.(types := s.types[|s.keys| := kind])
    ensures Formed(s2) && Appended(s2, key, value, count, kind) == Appended(s, key, value, count, kind)
  {
  }

  lemma EndsMore(mem: string, at: nat, p: nat, q: nat)
    requires Ends(mem, at, p) && p <= q
    ensures Ends(mem, at, q)
  {
  }

  /** Types do not touch texts. */
  lemma TypesOnly(t: Tab, t1: Tab, p: nat)
    requires Shaped(t) && Steady(t, p) && |t1.types| == MAXKEYS && t1 == t.(types := t1.types)
    ensures Shaped(t1) && Steady(t1, p) && View(t1) == View(t).(types := t1.types)
  {
  }

  lemma ValueEnds(mem: string, v: nat, z: nat)
    requires Reaches(mem, v, z)
    ensures var e := Find(CStr(mem, v), ';');
            if e < 0 then Ends(mem, v, z + 1) else Ends(mem[v + e := NUL], v, v + e + 1)
    ensures Find(CStr(mem, v), ';') < 0 || v + Find(CStr(mem, v), ';') + 1 <= z
  {
    var e := Find(CStr(mem, v), ';');
    if e >= 0 {
      CStrCut(mem, v, e);
    }
  }

  // ----- A whole turn

  /** Where the '#' may stand last of all: the key, and everything below it. */
  lemma KeyLeft(mem: string, p: nat, hash: nat)
    requires p <= |mem| && p + StrLen(mem, p) < |mem| && hash < StrLen(mem, p)
    ensures CStr(mem[p + hash := NUL], p) == CStr(mem, p)[..hash]
    ensures var (start, mem2) := StripAt(mem[p + hash := NUL], p);
            SameBelow(mem, mem2, p) && OnlyCut(mem, mem2) && CStr(mem2, start) == Strip(CStr(mem, p)[..hash])
  {
    hide Strip, StripAt, TrimLeft;
    CStrCut(mem, p, hash);
    StripCut(mem[p + hash := NUL], p);
  }

  lemma TurnUnfold(t: Tab, p: nat)
    requires Shaped(t) && p <= |t.mem| && p + StrLen(t.mem, p) < |t.mem|
    ensures var r, text := TurnAt(t, p), CStr(t.mem, p);
            var hash := Find(text, '#');
            if hash < 0 then r == MStop(t)
            else if |t.keyAt| >= MAXKEYS then r == MFail(KVP_E_TOOMANY, t)
            else
              p + hash < |t.mem| && hash < StrLen(t.mem, p)
              && CStr(t.mem[p + hash := NUL], p) == text[..hash]
              && var (start, mem) := StripAt(t.mem[p + hash := NUL], p);
                 var key, t1 := CStr(mem, start), t.(mem := mem);
                 Shaped(t1)
                 && if Comment(key) then r == MStop(t1)
                    else if hash + 1 == |text| then r == MAstray
                    else
                      var t2 := SupersededAt(t1, key);
                      r == ValueAt(t2, start, TypeOf(mem[p + hash + 1], t2.types[|t.keyAt|]), p + hash + 2)
  {
    hide Strip, Find, StripAt, ValueAt, TypeOf, Comment, TrimLeft, SupersededAt, StrLen, CStr;
    var hash := Find(CStr(t.mem, p), '#');
    if hash >= 0 {
      CStrCut(t.mem, p, hash);
    }
  }

  lemma MirrorsStop(r: MTurn, s: Store, spare: nat, p: nat, z: nat)
    requires Formed(s) && r.MStop? && Shaped(r.tab) && View(r.tab) == s && r.tab.spare == spare && Steady(r.tab, p)
    ensures Mirrors(Stop, r, s, spare, p, z)
  {
  }

  lemma MirrorsAstray(s: Store, spare: nat, p: nat, z: nat)
    requires Formed(s)
    ensures Mirrors(Astray, MAstray, s, spare, p, z)
  {
  }

  lemma MirrorsMoved(turn: Turn, r: MTurn, s: Store, s2: Store, spare: nat, p: nat, z: nat)
    requires Formed(s) && Formed(s2) && !turn.Stop? && Mirrors(turn, r, s2, spare, p, z)
    ensures Mirrors(turn, r, s, spare, p, z)
  {
  }

  lemma TurnViews(t: Tab, p: nat, z: nat)
    requires Shaped(t) && Reaches(t.mem, p, z) && Steady(t, p)
    ensures Mirrors(TakePair(View(t), CStr(t.mem, p)), TurnAt(t, p), View(t), t.spare, p, z)
  {
    hide Strip, Find, StripAt, ValueAt, TakeValue, TypeOf, Comment, TrimLeft, StrLen, CStr, Live, View, Steady,
         Superseded, TakePair, TurnAt, Mirrors, Reaches, SupersededAt, SameBelow, Texts;
    InBuffer(t.mem, p, z);
    TurnUnfold(t, p);
    PairUnfold(View(t), CStr(t.mem, p));
    var text := CStr(t.mem, p);
    var hash := Find(text, '#');
    if hash < 0 {
      MirrorsStop(TurnAt(t, p), View(t), t.spare, p, z);
    } else if |t.keyAt| >= MAXKEYS {
      MirrorsFail(TurnAt(t, p), View(t), t.spare, p, z, KVP_E_TOOMANY, View(t));
    } else {
      KeyLeft(t.mem, p, hash);
      var (start, mem) := StripAt(t.mem[p + hash := NUL], p);
      var t1 := t.(mem := mem);
      var key := Strip(text[..hash]);
      CutKept(t, mem, p, p);
      if Comment(key) {
        MirrorsStop(TurnAt(t, p), View(t), t.spare, p, z);
      } else if hash + 1 == |text| {
        MirrorsAstray(View(t), t.spare, p, z);
      } else {
        TurnAtPair(t, p, z, hash);
      }
    }
  }

  /** ... where there is a pair. */
  lemma TurnAtPair(t: Tab, p: nat, z: nat, hash: nat)
    requires Shaped(t) && Reaches(t.mem, p, z) && Steady(t, p) && |t.keyAt| < MAXKEYS
    requires hash + 1 < |CStr(t.mem, p)| && hash == Find(CStr(t.mem, p), '#')
    requires !Comment(Strip(CStr(t.mem, p)[..hash]))
    ensures Mirrors(TakePair(View(t), CStr(t.mem, p)), TurnAt(t, p), View(t), t.spare, p, z)
  {
    hide Strip, Find, StripAt, ValueAt, TakeValue, TypeOf, Comment, TrimLeft, StrLen, CStr, Live, View, Steady,
         Superseded, TakePair, TurnAt, Mirrors, Reaches, SupersededAt, Ends, OnlyCut, SameBelow, Texts;
    InBuffer(t.mem, p, z);
    TurnUnfold(t, p);
    PairUnfold(View(t), CStr(t.mem, p));
    KeyCut(t.mem, p, hash);
    var text := CStr(t.mem, p);
    var (start, mem) := StripAt(t.mem[p + hash := NUL], p);
    var t1, key := t.(mem := mem), Strip(text[..hash]);
    CutKept(t, mem, p, p);
    var t2 := SupersededAt(t1, key);
    SupersededParts(t1, key);
    TypesOnly(t1, t2, p);
    var q, kind := p + hash + 2, TypeOf(mem[p + hash + 1], t2.types[|t.keyAt|]);
    NewKeyEnds(mem, start, |key|, q);
    ReachesIs(mem, q, z);
    ValueViews(t2, start, key, kind, q, p, z);
    MirrorsMoved(TakeValue(View(t2), key, kind, CStr(mem, q)), ValueAt(t2, start, kind, q), View(t), View(t2),
      t.spare, p, z);
  }

  lemma SupersededParts(t: Tab, key: string)
    requires Shaped(t)
    ensures var r := SupersededAt(t, key);
            && r == t.(types := r.types) && |r.types| == MAXKEYS && View(r) == Superseded(View(t), key)
            && (forall k :: |t.keyAt| <= k < MAXKEYS ==> r.types[k] == t.types[k])
            && forall k :: 0 <= k < MAXKEYS ==> r.types[k] == t.types[k] || r.types[k] == KT_INVALID
  {
    hide View;
  }

  lemma NewKeyEnds(mem: string, start: nat, n: nat, q: nat)
    requires start + n < q && start + n < |mem| && |CStr(mem, start)| == n
    ensures Ends(mem, start, q)
  {
  }

  lemma ReachesIs(mem: string, q: nat, z: nat)
    requires q <= z < |mem| && StrLen(mem, q) == z - q
    ensures Reaches(mem, q, z)
  {
  }
}

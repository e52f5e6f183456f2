// Setting and updating values in memory, and what they do to the table.
module KvpSetters {
  import opened KvpText
  import opened KvpValidate
  import opened KvpStore
  import opened KvpInts
  import opened KvpMemory
  import opened KvpParser
  import opened KvpBuffer

  const MAX_INT_LENGTH: nat := 12
  const MAX_FLOAT_LENGTH: nat := 14

  /** A value to store: what snprintf makes of each number, with the characters reserved for one, or a string. */
  datatype NewValue = Numbers(ts: seq<string>, width: nat) | Characters(text: string)

  /** snprintf's texts of numbers are shorter than what is reserved for them, and C strings have no 0 in them. */
  ghost predicate Proper(v: NewValue) {
    match v
    case Numbers(ts, width) =>
      (width == MAX_INT_LENGTH || width == MAX_FLOAT_LENGTH)
      && forall i :: 0 <= i < |ts| ==> 0 < |ts[i]| < width && NUL !in ts[i]
    case Characters(text) => NUL !in text
  }

  /** The value is what a call with this type is given. */
  predicate OfKind(v: NewValue, kind: KeyType) {
    match kind
    case KT_INT => v.Numbers? && v.width == MAX_INT_LENGTH
    case KT_UINT => v.Numbers? && v.width == MAX_INT_LENGTH
    case KT_FLOAT => v.Numbers? && v.width == MAX_FLOAT_LENGTH
    case KT_STRING => v.Characters?
    case KT_INVALID => true
  }

  function Full(v: NewValue): string {
    match v
    case Numbers(ts, _) => Joined(ts)
    case Characters(text) => text
  }

  function Count(v: NewValue): nat {
    match v
    case Numbers(ts, _) => |ts|
    case Characters(text) => |text|
  }

  /** The value has no elements to print. */
  predicate Nothing(v: NewValue) {
    v.Numbers? && v.ts == []
  }

  /** The characters asked for: so many a number, and a string's without its final 0. */
  function Needed(v: NewValue): nat {
    match v
    case Numbers(ts, width) => |ts| * width
    case Characters(text) => |text|
  }

  /** What snprintf leaves of a text when there is room for `room` characters and the last is the final 0. */
  function Cut(s: string, room: nat): (r: string)
    requires room > 0
    ensures |r| < room && r <= s
  {
    if |s| < room then s else s[..room - 1]
  }

  /** The value written at `at`: nothing for an empty list, nor where no character is free. */
  function Written(mem: string, at: nat, v: NewValue): (r: string)
    ensures |r| == |mem|
  {
    if Nothing(v) || at >= |mem| then mem
    else Put(mem, at, Cut(Full(v), |mem| - at) + [NUL])
  }

  lemma {:induction false} JoinedNoNul(ts: seq<string>)
    requires forall i :: 0 <= i < |ts| ==> NUL !in ts[i]
    ensures NUL !in Joined(ts)
  {
    if ts != [] {
      JoinedNoNul(ts[1..]);
    }
  }

  lemma FullFits(v: NewValue)
    requires Proper(v)
    ensures NUL !in Full(v) && |Full(v)| <= Needed(v)
    ensures v.Numbers? && v.ts != [] ==> |Full(v)| < Needed(v)
  {
    if v.Numbers? {
      JoinedNoNul(v.ts);
      if v.ts != [] {
        JoinedSize(v.ts, v.width);
      }
    }
  }

  /** Twelve characters an int, fourteen a float, and a string's own. */
  lemma NeededExactly(v: NewValue, kind: KeyType)
    requires OfKind(v, kind) && kind != KT_INVALID
    ensures kind == KT_INT || kind == KT_UINT ==> Needed(v) == 12 * Count(v)
    ensures kind == KT_FLOAT ==> Needed(v) == 14 * Count(v)
    ensures kind == KT_STRING ==> Needed(v) == Count(v) == |v.text|
  {
  }

  /** What kvpSet reserves for a key and a value. */
  function Required(key: string, v: NewValue): nat {
    |key| + 1 + Needed(v)
  }

  /** The new entry in memory, key and value at the front of the free space. */
  function SetAt(t: Tab, key: string, v: NewValue, kind: KeyType): (r: Tab)
    requires Shaped(t) && |t.keyAt| < MAXKEYS && t.mem != "" && |key| + 1 + |Full(v)| <= SpaceLeft(t)
    ensures Shaped(r) && |r.mem| == |t.mem|
  {
    var at := t.spare + |key| + 1;
    var mem := Written(Put(t.mem, t.spare, key + [NUL]), at, v);
    Tab(mem, t.keyAt + [t.spare], t.valAt + [at], t.counts + [Count(v)], t.types[|t.keyAt| := kind], at + |Full(v)| + 1)
  }

  /** kvpSet. */
  function SetIn(t: Tab, key: string, v: NewValue, kind: KeyType, fill: Garbage): (r: (KvpErrorCode, Tab))
    requires Shaped(t) && Proper(v) && CanHold(t, Required(key, v))
    ensures Shaped(r.1)
  {
    FullFits(v);
    ReadyKeeps(t, 0, Required(key, v), fill);
    var t1 := if t.mem == "" then Initial(t, 0, fill) else t;
    if FindKey(View(t1), key) >= 0 then (KVP_E_DUPLICATE, t1)
    else if |t.keyAt| >= MAXKEYS then (KVP_E_TOOMANY, t1)
    else if kind == KT_UINT || kind == KT_INVALID then (KVP_E_BADTYPE, t1)
    else
      var t2 := Ready(t, 0, Required(key, v), fill);
      if BadKey(key) then (KVP_E_BADKEY, t2.(mem := Put(t2.mem, t2.spare, key + [NUL])))
      else (KVP_E_OK, SetAt(t2, key, v, kind))
  }

  /** The entry's new value in memory. */
  function UpdateAt(t: Tab, entry: nat, v: NewValue): (r: Tab)
    requires Shaped(t) && entry < |t.keyAt| && |Full(v)| <= SpaceLeft(t)
    ensures Shaped(r) && |r.mem| == |t.mem|
  {
    Tab(Written(t.mem, t.spare, v), t.keyAt, t.valAt[entry := t.spare], t.counts[entry := Count(v)], t.types,
        t.spare + |Full(v)| + 1)
  }

  /** kvpUpdate. */
  function UpdateIn(t: Tab, key: string, v: NewValue, kind: KeyType, fill: Garbage): (r: (KvpErrorCode, Tab))
    requires Shaped(t) && Proper(v) && CanHold(t, Needed(v))
    ensures Shaped(r.1)
  {
    FullFits(v);
    ReadyKeeps(t, 0, Needed(v), fill);
    var entry := FindKey(View(t), key);
    if entry < 0 then (KVP_E_NOTFOUND, t)
    else if t.types[entry] != kind && !(t.types[entry] == KT_INT && kind == KT_UINT) then (KVP_E_BADVALUE, t)
    else if kind == KT_INVALID then (KVP_E_BADTYPE, t)
    else (KVP_E_OK, UpdateAt(Ready(t, 0, Needed(v), fill), entry, v))
  }

  // ----- In settled tables

  /** A value that is written with its final 0: not an empty list, nor an empty string where nothing is free. */
  predicate Terminated(v: NewValue, room: int) {
    !Nothing(v) && room > 0
  }

  lemma WrittenText(mem: string, at: nat, v: NewValue)
    requires at <= |mem| && NUL !in Full(v) && Terminated(v, |mem| - at)
    ensures var r, s := Written(mem, at, v), Cut(Full(v), |mem| - at);
            && CStr(r, at) == s && at + |s| < |mem| && r[at + |s|] == NUL
            && (forall k :: 0 <= k < at ==> r[k] == mem[k])
  {
    hide StrLen, CStr, Joined;
    PutText(mem, at, Cut(Full(v), |mem| - at));
  }

  /** The new entry is added to what was written. */
  lemma SetAtIs(t: Tab, t3: Tab, key: string, v: NewValue, kind: KeyType)
    requires Shaped(t) && Shaped(t3) && |t.keyAt| < MAXKEYS && t.mem != "" && |key| + 1 + |Full(v)| <= SpaceLeft(t)
    requires t3 == t.(mem := Written(Put(t.mem, t.spare, key + [NUL]), t.spare + |key| + 1, v))
    ensures var at := t.spare + |key| + 1;
            SetAt(t, key, v, kind) == Added(t3, t.spare, at, Count(v), kind).(spare := at + |Full(v)| + 1)
  {
    hide Full, Written;
  }

  lemma SetAtViews(t: Tab, key: string, v: NewValue, kind: KeyType)
    requires Shaped(t) && Settled(t) && |t.keyAt| < MAXKEYS && t.mem != ""
    requires NUL !in key && NUL !in Full(v) && |key| + 1 + |Full(v)| <= SpaceLeft(t)
    requires Terminated(v, SpaceLeft(t) - |key| - 1)
    ensures var r := SetAt(t, key, v, kind);
            && View(r) == Appended(View(t), key, Cut(Full(v), SpaceLeft(t) - |key| - 1), Count(v), kind)
            && Settled(r)
  {
    hide StrLen, CStr, Texts, LiveTo, Joined, Put, Written, View, Appended, Cut, SetAt, Added, Steady, Ends, Full;
    var at := t.spare + |key| + 1;
    var mem1 := Put(t.mem, t.spare, key + [NUL]);
    var mem2 := Written(mem1, at, v);
    var s := Cut(Full(v), |t.mem| - at);
    PutText(t.mem, t.spare, key);
    WrittenText(mem1, at, v);
    TextEnds(mem1, t.spare, |key|, at);
    EndsKept(mem1, mem2, t.spare, at);
    CutKept(t, mem2, t.spare, t.spare);
    var t1 := t.(mem := mem2);
    TextEnds(mem2, at, |s|, at + |s| + 1);
    SteadyMore(t1, t.spare, at + |s| + 1);
    EndsMore(mem2, t.spare, at, at + |s| + 1);
    AddedFacts(t1, t.spare, at, Count(v), kind, at + |s| + 1);
    LiveAppended(View(t), key, s, Count(v), kind);
    Respared(Added(t1, t.spare, at, Count(v), kind), at + |s| + 1, at + |Full(v)| + 1);
    SetAtIs(t, t1, key, v, kind);
  }

  lemma TextEnds(mem: string, at: nat, n: nat, q: nat)
    requires at <= |mem| && |CStr(mem, at)| == n && at + n < |mem| && at + n < q
    ensures Ends(mem, at, q)
  {
  }

  /** Free space may begin anywhere behind the texts. */
  lemma Respared(t: Tab, q: nat, spare: nat)
    requires Shaped(t) && Steady(t, q) && q <= spare <= |t.mem| + 1 && t.mem != ""
    requires Live(View(t)) <= q && Live(View(t)) <= |t.mem|
    ensures var r := t.(spare := spare);
            Shaped(r) && View(r) == View(t) && Settled(r)
  {
  }

  lemma UpdateAtViews(t: Tab, entry: nat, v: NewValue)
    requires Shaped(t) && Settled(t) && entry < |t.keyAt| && NUL !in Full(v) && |Full(v)| <= SpaceLeft(t)
    requires Terminated(v, SpaceLeft(t))
    ensures var r, s := UpdateAt(t, entry, v), View(t);
            && View(r) == s.(values := s.values[entry := Cut(Full(v), SpaceLeft(t))],
               counts := s.counts[entry := Count(v)])
            && Settled(r)
  {
    hide StrLen, CStr, Texts, LiveTo, Joined, Put, Written, View, Cut;
    var mem2, s := Written(t.mem, t.spare, v), Cut(Full(v), SpaceLeft(t));
    WrittenText(t.mem, t.spare, v);
    CutKept(t, mem2, t.spare, t.spare);
    var t1, q := t.(mem := mem2), t.spare + |s| + 1;
    TextEnds(mem2, t.spare, |s|, q);
    SteadyMore(t1, t.spare, q);
    Repointed(t1, entry, t.spare, Count(v), q);
    var t2 := t1.(valAt := t1.valAt[entry := t.spare], counts := t1.counts[entry := Count(v)]);
    LiveValue(View(t), entry, s, Count(v));
    Respared(t2, q, t.spare + |Full(v)| + 1);
  }

  lemma Repointed(t: Tab, entry: nat, at: nat, count: int, q: nat)
    requires Shaped(t) && Steady(t, q) && entry < |t.keyAt| && Ends(t.mem, at, q)
    ensures var r := t.(valAt := t.valAt[entry := at], counts := t.counts[entry := count]);
            && Shaped(r) && Steady(r, q)
            && View(r) == View(t).(values := View(t).values[entry := CStr(t.mem, at)],
               counts := t.counts[entry := count])
  {
    hide StrLen, CStr;
    var r := t.(valAt := t.valAt[entry := at], counts := t.counts[entry := count]);
    assert Texts(r.mem, r.valAt) == Texts(t.mem, t.valAt)[entry := CStr(t.mem, at)];
  }

  lemma LiveValue(s: Store, entry: nat, value: string, count: int)
    requires Formed(s) && entry < |s.keys|
    ensures Live(s.(values := s.values[entry := value], counts := s.counts[entry := count])) <= Live(s) + |value|
  {
    LiveChanged(s, s.(values := s.values[entry := value], counts := s.counts[entry := count]), entry, |s.keys|);
  }

  lemma LiveChanged(s: Store, r: Store, i: nat, k: nat)
    requires Formed(s) && Formed(r) && i < |s.keys| == |r.keys| && k <= |s.keys| && r.keys == s.keys
    requires r.values == s.values[i := r.values[i]]
    ensures LiveTo(r, k) == LiveTo(s, k) + (if k > i then |r.values[i]| - |s.values[i]| else 0)
  {
    if k > 0 {
      LiveChanged(s, r, i, k - 1);
    }
  }

  // ----- The byte not asked for

  /** Seen before the call: just `need` characters will be free, growing included. */
  predicate JustEnough(t: Tab, need: nat)
    requires Shaped(t)
  {
    var size := if t.mem == "" then KVP_MIN_BUFFER_SIZE else |t.mem|;
    var space := if t.mem == "" then KVP_MIN_BUFFER_SIZE else SpaceLeft(t);
    space == need || (space < need && need >= KVP_MIN_BUFFER_SIZE && Live(View(t)) == size)
  }

  /** It is so just when the operation then works with no character to spare. */
  lemma JustEnoughExactly(t: Tab, need: nat, fill: Garbage)
    requires Shaped(t) && Live(View(t)) <= |t.mem| && CanHold(t, need)
    ensures SpaceLeft(Ready(t, 0, need, fill)) == need <==> JustEnough(t, need)
  {
    hide LiveTo, StrLen, CStr, Texts;
    var t1 := if t.mem == "" then Initial(t, 0, fill) else t;
    if t.mem == "" {
      EmptyView(t, t1);
    }
    if SpaceLeft(t1) < need {
      GrownKeeps(t1, need, fill);
    }
  }

  /** A string loses its last character then; numbers never do. */
  predicate Shortened(t: Tab, need: nat, v: NewValue)
    requires Shaped(t)
  {
    v.Characters? && JustEnough(t, need)
  }

  /** The text that is stored. */
  function Kept(v: NewValue, short: bool): string
    requires short ==> Full(v) != ""
  {
    if short then Full(v)[..|Full(v)| - 1] else Full(v)
  }

  lemma CutIsKept(v: NewValue, room: int)
    requires Proper(v) && !Nothing(v) && room >= Needed(v)
    requires Full(v) != "" || room > 0
    ensures Terminated(v, room) && (Full(v) == "" ==> v.Characters?)
    ensures Cut(Full(v), room) == Kept(v, v.Characters? && room == Needed(v))
  {
    FullFits(v);
  }

  /**
   * Setting, exactly: the result on the table, with the whole value, or without
   * its last character if and only if it is a string and just enough is free.
   */
  lemma SetViews(t: Tab, key: string, v: NewValue, kind: KeyType, fill: Garbage)
    requires Shaped(t) && Settled(t) && NUL !in key && Proper(v) && !Nothing(v)
    requires Full(v) != "" || !JustEnough(t, Required(key, v))
    ensures CanHold(t, Required(key, v))
    ensures var (code, r) := SetIn(t, key, v, kind, fill);
            && code == SetText(View(t), key, Full(v), Count(v), kind).0
            && View(r) == SetText(View(t), key, Kept(v, Shortened(t, Required(key, v), v)), Count(v), kind).1
            && Settled(r)
  {
    hide Steady, LiveTo, View, Cut, Kept, SetAt, Joined, FindKey, Put, Grown, JustEnough, BadKey;
    var need := Required(key, v);
    FullFits(v);
    ReadyKeeps(t, 0, need, fill);
    JustEnoughExactly(t, need, fill);
    var t1 := if t.mem == "" then Initial(t, 0, fill) else t;
    if t.mem == "" {
      EmptyView(t, t1);
    }
    var t2 := Ready(t, 0, need, fill);
    CutIsKept(v, SpaceLeft(t2) - |key| - 1);
    KeyWritten(t2, key);
    if |t.keyAt| < MAXKEYS {
      SetAtViews(t2, key, v, kind);
    }
  }

  /** A key that is refused has been written, but behind all texts. */
  lemma KeyWritten(t: Tab, key: string)
    requires Shaped(t) && Settled(t) && |key| + 1 <= SpaceLeft(t) && NUL !in key
    ensures var r := t.(mem := Put(t.mem, t.spare, key + [NUL]));
            Shaped(r) && View(r) == View(t) && Settled(r)
  {
    PutText(t.mem, t.spare, key);
    SteadyKept(t, Put(t.mem, t.spare, key + [NUL]), t.spare);
  }

  /** Updating likewise. */
  lemma UpdateViews(t: Tab, key: string, v: NewValue, kind: KeyType, fill: Garbage)
    requires Shaped(t) && Settled(t) && Proper(v) && !Nothing(v)
    requires Full(v) != "" || !JustEnough(t, Needed(v))
    ensures CanHold(t, Needed(v))
    ensures var (code, r) := UpdateIn(t, key, v, kind, fill);
            && code == UpdateText(View(t), key, Full(v), Count(v), kind).0
            && View(r) == UpdateText(View(t), key, Kept(v, Shortened(t, Needed(v), v)), Count(v), kind).1
            && Settled(r)
  {
    hide Steady, LiveTo, View, Cut, Kept, UpdateAt, Joined, FindKey, Put, Grown, JustEnough;
    var entry := FindKey(View(t), key);
    FullFits(v);
    if entry >= 0 {
      ReadyKeeps(t, 0, Needed(v), fill);
      JustEnoughExactly(t, Needed(v), fill);
      var t2 := Ready(t, 0, Needed(v), fill);
      CutIsKept(v, SpaceLeft(t2));
      UpdateAtViews(t2, entry, v);
    }
  }

  /** The first string set in fresh tables is shortened when key and string take 20479 characters. */
  lemma FirstStringShort(t: Tab, key: string, text: string, fill: Garbage)
    requires Shaped(t) && t.mem == "" && GoodKey(key) && NUL !in key && NUL !in text
    requires text != "" && |key| + |text| == KVP_MIN_BUFFER_SIZE - 1
    ensures CanHold(t, Required(key, Characters(text)))
    ensures var (code, r) := SetIn(t, key, Characters(text), KT_STRING, fill);
            && code == KVP_E_OK && |View(r).values| == 1 && View(r).values[0] == text[..|text| - 1]
               && r.counts[0] == |text|
  {
    hide LiveTo, StrLen, CStr;
    EmptySettled(t);
    assert View(t).keys == [];
    SetViews(t, key, Characters(text), KT_STRING, fill);
    NotFound(View(t), key);
  }

  lemma EmptySettled(t: Tab)
    requires Shaped(t) && t.keyAt == []
    ensures Settled(t)
  {
  }

  lemma NotFound(s: Store, key: string)
    requires Formed(s) && s.keys == []
    ensures FindKey(s, key) == -1
  {
  }
}

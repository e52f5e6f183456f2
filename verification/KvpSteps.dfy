// What the methods on the key/value tables come to, step by step: the cases of
// each operation, copied texts, printed lists and searches in the buffer.
module KvpSteps {
  import opened KvpText
  import opened KvpValidate
  import opened KvpStore
  import opened KvpTrip
  import opened KvpInts
  import opened KvpMemory
  import opened KvpParser
  import opened KvpBuffer
  import opened KvpOps
  import opened KvpPlaces
  import opened KvpSetters

  /** How a turn of the parser's loop ends. */
  datatype Status = Stopped | Found(at: nat) | Ended | Failed(code: KvpErrorCode) | Wild

  /** The turn in place comes to what the turn on the tables' value comes to. */
  ghost predicate Comes(r: MTurn, st: Status, now: Tab) {
    match r
    case MStop(t) => st == Stopped && now == t
    case MMore(t, at) => st == Found(at) && now == t
    case MLast(t) => st == Ended && now == t
    case MFail(code, t) => st == Failed(code) && now == t
    case MAstray => st == Wild
  }

  lemma Outright(t: Tab)
    ensures forall at :: Comes(MMore(t, at), Found(at), t)
    ensures Comes(MLast(t), Ended, t)
    ensures Comes(MStop(t), Stopped, t) && Comes(MAstray, Wild, t)
    ensures forall code :: Comes(MFail(code, t), Failed(code), t)
  {
  }

  // ----- Buffers

  /** Memory that holds just this. */
  ghost function Held(s: string): Garbage {
    (n: nat) => if n < |s| then s[n] else NUL
  }

  lemma HeldFresh(s: string)
    ensures Fresh(|s|, Held(s)) == s
  {
  }

  /** The copies of the first entries, at the front of the new buffer of n characters. */
  ghost predicate CopiedTo(s: Store, i: nat, was: string, now: string, spare: nat, spaceLeft: int, n: nat)
    requires Formed(s) && i <= |s.keys|
  {
    && |was| == |now| == n && spare == |Copies(s, i)| <= n && spaceLeft == n - spare
    && now == Put(was, 0, Copies(s, i))
  }

  lemma CopiesNone(s: Store, was: string)
    requires Formed(s)
    ensures CopiedTo(s, 0, was, was, 0, |was|, |was|)
  {
  }

  lemma CopiedToIs(s: Store, i: nat, was: string, now: string, spare: nat, spaceLeft: int, n: nat)
    requires Formed(s) && i <= |s.keys| && CopiedTo(s, i, was, now, spare, spaceLeft, n)
    ensures |was| == |now| == n && spare == |Copies(s, i)| <= n && spaceLeft == n - spare
    ensures now == Put(was, 0, Copies(s, i))
  {
  }

  /** One more entry's copies behind those that are there. */
  lemma CopiesNext(t: Tab, i: nat, was: string)
    requires Shaped(t) && i < |t.keyAt| && Live(View(t)) <= |was|
    ensures var s := View(t);
            var c, key, value := Copies(s, i), s.keys[i], s.values[i];
            && |key| == StrLen(t.mem, t.keyAt[i]) && key == CStr(t.mem, t.keyAt[i])
            && |value| == StrLen(t.mem, t.valAt[i]) && value == CStr(t.mem, t.valAt[i])
            && |c| + |key| + 1 + |value| + 1 == |Copies(s, i + 1)| <= |was|
            && Put(Put(Put(was, 0, c), |c|, key + [NUL]), |c| + |key| + 1, value + [NUL])
               == Put(was, 0, Copies(s, i + 1))
  {
    hide StrLen, CStr, LiveTo;
    var s := View(t);
    CopyFacts(s, i);
    var c, key, value := Copies(s, i), s.keys[i], s.values[i];
    PutPut(was, c, key + [NUL]);
    PutPut(was, c + (key + [NUL]), value + [NUL]);
    assert c + (key + [NUL]) + (value + [NUL]) == Copies(s, i + 1);
  }

  lemma PutIs(was: string, now: string, at: nat, s: string)
    requires |now| == |was| && at + |s| <= |was|
    requires forall k :: at <= k < at + |s| ==> now[k] == s[k - at]
    requires forall k :: 0 <= k < |was| && !(at <= k < at + |s|) ==> now[k] == was[k]
    ensures now == Put(was, at, s)
  {
  }

  lemma PutPut(was: string, a: string, b: string)
    requires |a| + |b| <= |was|
    ensures Put(Put(was, 0, a), |a|, b) == Put(was, 0, a + b)
  {
  }

  /** Text and final 0 behind a text whose final 0 has become a comma. */
  lemma PutBehind(was: string, before: string, at: nat, a: string, comma: bool, b: string)
    requires |before| == |was| && at + |a| + (if comma then 1 else 0) + |b| < |was|
    requires if comma then before == Put(was, at, a + [NUL]) else before == was && a == ""
    ensures var n := at + |a| + (if comma then 1 else 0);
            var mid := if comma then before[at + |a| := ','] else before;
            Put(mid, n, b + [NUL]) == Put(was, at, (if comma then a + "," + b else b) + [NUL])
  {
  }

  /** What getting and growing the buffer come to, of which the second fill counts. */
  lemma ReadyIs(t: Tab, size: nat, need: nat, first: Garbage, fill: Garbage)
    requires Shaped(t) && CanHold(t, need)
    ensures var t1 := if t.mem == "" then Initial(t, size, first) else t;
            && (SpaceLeft(t1) < need ==>
               Fits(t1, need) && Grown(t1, need, fill) == Ready(t, size, need, fill))
            && (SpaceLeft(t1) >= need ==> t1 == Ready(t, size, need, first))
    ensures var r := Ready(t, size, need, fill);
            Shaped(r) && r.mem != "" && SpaceLeft(r) >= need && |r.keyAt| == |t.keyAt| && r.types == t.types
  {
    hide StrLen, CStr, LiveTo, Copies;
    if t.mem == "" {
      EmptyView(t, Initial(t, size, first));
      InitialGrown(t, size, need, first, fill);
    }
    ReadyKeeps(t, size, need, fill);
  }

  lemma NoBuffer(t: Tab)
    requires Shaped(t) && t.mem == ""
    ensures t.keyAt == []
  {
  }

  /** Why kvpSet writes nothing. */
  function Refusal(s: Store, key: string, kind: KeyType): KvpErrorCode
    requires Formed(s)
  {
    if FindKey(s, key) >= 0 then KVP_E_DUPLICATE
    else if |s.keys| >= MAXKEYS then KVP_E_TOOMANY
    else if kind == KT_UINT || kind == KT_INVALID then KVP_E_BADTYPE
    else KVP_E_OK
  }

  /** kvpSet's refusals. */
  lemma SetRefused(t: Tab, key: string, v: NewValue, kind: KeyType, fill: Garbage)
    requires Shaped(t) && Proper(v) && CanHold(t, Required(key, v))
    ensures var t1 := if t.mem == "" then Initial(t, 0, fill) else t;
            && Shaped(t1) && View(t1) == View(t) && |View(t).keys| == |t.keyAt| == |t1.keyAt|
            && var code := Refusal(View(t), key, kind);
               code != KVP_E_OK ==> SetIn(t, key, v, kind, fill) == (code, t1)
  {
    hide StrLen, CStr, LiveTo, Joined, FindKey, BadKey, Put, Grown, Ready, SetAt;
    if t.mem == "" {
      EmptyView(t, Initial(t, 0, fill));
    }
  }

  /** ... and what it writes otherwise. */
  lemma SetAllowed(t: Tab, key: string, v: NewValue, kind: KeyType, fill: Garbage)
    requires Shaped(t) && Proper(v) && CanHold(t, Required(key, v)) && Refusal(View(t), key, kind) == KVP_E_OK
    ensures |Full(v)| <= Needed(v) && Required(key, v) == |key| + 1 + Needed(v) && |t.keyAt| < MAXKEYS
    ensures var t2 := Ready(t, 0, Required(key, v), fill);
            && Shaped(t2) && t2.mem != "" && Required(key, v) <= SpaceLeft(t2) && |t2.keyAt| == |t.keyAt|
            && SetIn(t, key, v, kind, fill)
               == if BadKey(key) then (KVP_E_BADKEY, t2.(mem := Put(t2.mem, t2.spare, key + [NUL])))
                  else (KVP_E_OK, SetAt(t2, key, v, kind))
  {
    hide StrLen, CStr, LiveTo, Joined, FindKey, BadKey, Put, Grown, Ready, SetAt;
    FullFits(v);
    ReadyKeeps(t, 0, Required(key, v), fill);
    if t.mem == "" {
      EmptyView(t, Initial(t, 0, fill));
    }
  }

  /** kvpUpdate's. */
  lemma UpdateSteps(t: Tab, key: string, v: NewValue, kind: KeyType, fill: Garbage)
    requires Shaped(t) && Proper(v) && CanHold(t, Needed(v))
    ensures var entry, r := FindKey(View(t), key), UpdateIn(t, key, v, kind, fill);
            && (entry >= 0 ==> t.mem != "")
            && if entry < 0 then r == (KVP_E_NOTFOUND, t)
               else if t.types[entry] != kind && !(t.types[entry] == KT_INT && kind == KT_UINT)
                 then r == (KVP_E_BADVALUE, t)
               else if kind == KT_INVALID then r == (KVP_E_BADTYPE, t)
               else
                 var t2 := Ready(t, 0, Needed(v), fill);
                 Shaped(t2) && t2.mem != "" && Needed(v) <= SpaceLeft(t2) && |t2.keyAt| == |t.keyAt|
                   && entry < |t.keyAt|
                 && r == (KVP_E_OK, UpdateAt(t2, entry, v))
    ensures |Full(v)| <= Needed(v)
  {
    hide StrLen, CStr, LiveTo, Joined, FindKey, Put, Grown, Ready, UpdateAt;
    FullFits(v);
    ReadyKeeps(t, 0, Needed(v), fill);
  }

  /** One turn of the loop. */
  lemma ParseStep(t: Tab, p: nat, z: nat)
    requires Shaped(t) && Reaches(t.mem, p, z)
    ensures p <= |t.mem| && p + StrLen(t.mem, p) < |t.mem|
    ensures match TurnAt(t, p)
            case MStop(next) => ParseAt(t, p) == MParsed(next, false)
            case MMore(next, at) =>
              Shaped(next) && p < at <= |next.mem| && Reaches(next.mem, at, z) && at + StrLen(next.mem, at) < |next.mem|
              && ParseAt(t, p) == ParseAt(next, at)
            case MLast(next) => ParseAt(t, p) == MParsed(next, true)
            case MFail(code, next) => ParseAt(t, p) == MRefused(code, next)
            case MAstray => ParseAt(t, p) == MLost
  {
    hide StrLen, CStr, TurnAt, AddedFrom;
    InBuffer(t.mem, p, z);
    TurnPlaces(t, p, z);
    var m := TurnAt(t, p);
    if m.MMore? {
      InBuffer(m.tab.mem, m.at, z);
    }
  }

  /** kvpParse's. */
  lemma ParseSteps(t: Tab, record: string, fill: Garbage)
    requires Shaped(t) && NUL !in record && CanHold(t, |record| + 1)
    ensures var t1 := Ready(t, |record| + 1, |record| + 1, fill);
            && Shaped(t1) && |record| + 1 <= SpaceLeft(t1)
            && var t2, p := Loaded(t1, record), t1.spare + (|record| - |TrimLeft(record)|);
               Shaped(t2) && p <= |t2.mem| && p + StrLen(t2.mem, p) < |t2.mem|
               && var r := ParseRecordIn(t, record, fill);
                  match ParseAt(t2, p)
                  case MParsed(next, open) =>
                    Shaped(next) && |next.mem| == |t1.mem|
                    && r == MParsed(next.(spare := t1.spare + |record| + (if open then 2 else 1)), open)
                  case MRefused(code, next) => Shaped(next) && r == MRefused(code, next)
                  case MLost => r == MLost
  {
    hide StrLen, CStr, View, LiveTo, Put, ParseAt, TrimLeft, Ready;
    ReadyKeeps(t, |record| + 1, |record| + 1, fill);
    var t1 := Ready(t, |record| + 1, |record| + 1, fill);
    LoadedText(t1, record);
    InBuffer(Loaded(t1, record).mem, RecordStart(t1, record), t1.spare + |record|);
  }

  // ----- Texts

  /** Where the search stops. */
  lemma FindRun(mem: string, at: nat, c: char, n: nat)
    requires at + n <= |mem| && forall k :: at <= k < at + n ==> mem[k] != NUL && mem[k] != c
    requires at + n == |mem| || mem[at + n] == NUL || mem[at + n] == c
    ensures Find(CStr(mem, at), c) == if at + n == |mem| || mem[at + n] == NUL then -1 else n
  {
    if at + n == |mem| || mem[at + n] == NUL {
      StrLenIs(mem, at, n);
    } else {
      StrLenMore(mem, at, n);
      FindIs(CStr(mem, at), c, n);
    }
  }

  lemma StrLenMore(mem: string, at: nat, n: nat)
    requires at + n < |mem| && forall k :: at <= k <= at + n ==> mem[k] != NUL
    ensures n < StrLen(mem, at)
  {
  }

  /** Where the comparison stops. */
  lemma SameRun(mem: string, at: nat, wanted: string, n: nat)
    requires NUL !in wanted && n <= |wanted| && at + n <= |mem| && forall k :: 0 <= k < n ==> mem[at + k] == wanted[k]
    requires n == |wanted| || at + n == |mem| || mem[at + n] != wanted[n]
    ensures n == |wanted| && (at + n == |mem| || mem[at + n] == NUL) <==> CStr(mem, at) == wanted
  {
    if n == |wanted| && (at + n == |mem| || mem[at + n] == NUL) {
      forall k | at <= k < at + n ensures mem[k] != NUL {
        assert mem[at + (k - at)] == wanted[k - at];
      }
      StrLenIs(mem, at, n);
    }
    if CStr(mem, at) == wanted {
      assert forall k :: 0 <= k < |wanted| ==> mem[at + k] == CStr(mem, at)[k];
    }
  }

  lemma FindIs(s: string, c: char, n: nat)
    requires n < |s| && s[n] == c && forall k :: 0 <= k < n ==> s[k] != c
    ensures Find(s, c) == n
  {
  }

  /** A character of a text, or its final 0. */
  lemma CharAt(mem: string, p: nat, n: nat)
    requires p <= |mem| && p + StrLen(mem, p) < |mem| && n <= |CStr(mem, p)|
    ensures |CStr(mem, p)| == StrLen(mem, p) && p + n < |mem|
    ensures mem[p + n] == if n < |CStr(mem, p)| then CStr(mem, p)[n] else NUL
  {
  }

  lemma TrimLeftStep(s: string)
    ensures TrimLeft(s) == if s != "" && Space(s[0]) then TrimLeft(s[1..]) else s
  {
  }

  lemma TrimNothing()
    ensures TrimRight("") == ""
  {
  }

  lemma FirstPrints(s: string)
    ensures TrimLeft(s) != "" ==> !Space(TrimLeft(s)[0])
  {
    LeftTrims(s);
  }

  lemma TrimRightStep(s: string, n: nat)
    requires n < |s|
    ensures TrimRight(s[..n + 1]) == if Space(s[n]) then TrimRight(s[..n]) else s[..n + 1]
  {
    assert s[..n + 1][..n] == s[..n];
  }

  /** What follows the '#' is in the buffer. */
  lemma HashInside(mem: string, p: nat, hash: nat)
    requires p <= |mem| && p + StrLen(mem, p) < |mem| && hash < |CStr(mem, p)|
    ensures p + hash + 1 < |mem| && (mem[p + hash + 1] == NUL <==> hash + 1 == |CStr(mem, p)|)
    ensures CStr(mem[p + hash := NUL], p) == CStr(mem, p)[..hash]
    ensures StrLen(mem[p + hash := NUL], p) == hash
  {
    CStrCut(mem, p, hash);
  }

  /** The list's first n elements, with commas between them, at `at`. */
  ghost predicate ListDone(ts: seq<string>, width: nat, n: nat, nchars: nat, at: nat, was: string, now: string)
    requires n <= |ts|
  {
    && nchars == |Joined(ts[..n])| && |now| == |was|
    && if n == 0 then now == was
       else nchars + 1 <= n * width && at + nchars < |was| && now == Put(was, at, Joined(ts[..n]) + [NUL])
  }

  lemma ListNone(ts: seq<string>, width: nat, at: nat, was: string)
    ensures ListDone(ts, width, 0, 0, at, was, was)
  {
  }

  lemma ListAll(ts: seq<string>, width: nat, nchars: nat, at: nat, was: string, now: string)
    requires ListDone(ts, width, |ts|, nchars, at, was, now)
    ensures nchars == |Joined(ts)| && now == Written(was, at, Numbers(ts, width))
  {
    hide Joined, Put;
    assert ts[..|ts|] == ts;
    if ts != [] {
      assert Cut(Joined(ts), |was| - at) == Joined(ts);
    }
  }

  /** The list up to one more element: its text, and its size. */
  lemma ListStep(ts: seq<string>, width: nat, n: nat)
    requires n < |ts| && forall i :: 0 <= i < |ts| ==> |ts[i]| < width
    ensures ts[..n + 1] == ts[..n] + [ts[n]]
    ensures Joined(ts[..n + 1]) == if n == 0 then ts[n] else Joined(ts[..n]) + "," + ts[n]
    ensures |Joined(ts[..n + 1])| + 1 <= (n + 1) * width <= |ts| * width
    ensures n > 0 ==> |Joined(ts[..n])| + 1 <= n * width
    ensures n == 0 ==> Joined(ts[..n]) == ""
    ensures (n + 1) * width == n * width + width
  {
    hide Joined;
    assert ts[..n + 1] == ts[..n] + [ts[n]];
    JoinedSnoc(ts[..n], ts[n]);
    JoinedSize(ts[..n + 1], width);
    JoinedNone();
    if n > 0 {
      JoinedSize(ts[..n], width);
    }
    Times(n + 1, |ts|, width);
  }

  lemma JoinedNone()
    ensures Joined([]) == ""
  {
  }

  lemma Times(a: nat, b: nat, width: nat)
    requires a <= b
    ensures a * width <= b * width
  {
  }

  /** How much of a text a buffer shows. */
  function Shown(length: nat, size: nat): nat {
    if length < size then length else if size == 0 then 0 else size - 1
  }

  /** The text, as far as it fits with a final 0. */
  ghost predicate ShownIn(buffer: string, text: string, size: nat) {
    var n := Shown(|text|, size);
    n < |buffer| && n <= |text| && buffer[..n] == text[..n] && buffer[n] == '\0'
  }

  /** A text shorter than the buffer is there whole, and of another all but the last character of the buffer. */
  lemma ShownExactly(buffer: string, text: string, size: nat)
    requires ShownIn(buffer, text, size) && size > 0
    ensures var n := if |text| < size then |text| else size - 1;
            n < |buffer| && n <= |text| && buffer[..n] == text[..n] && buffer[n] == '\0'
  {
  }

  /** The text up to an entry, and behind it. */
  lemma FormatStep(s: Store, i: nat, done: string)
    requires Formed(s) && i < |s.keys|
    ensures done + FormatFrom(s, i) == (done + EntryText(s, i)) + FormatFrom(s, i + 1)
    ensures s.types[i] == KT_INVALID ==> done + FormatFrom(s, i) == done + FormatFrom(s, i + 1)
    ensures |done + FormatFrom(s, i)| >= |done| + |EntryText(s, i)|
  {
    hide PairText;
    Assoc3(done, EntryText(s, i), FormatFrom(s, i + 1));
    assert done + "" == done;
  }

  lemma FormatEnd(s: Store, done: string)
    requires Formed(s)
    ensures done + FormatFrom(s, |s.keys|) == done
  {
  }

  /** What is printed of an entry in memory. */
  lemma EntryOf(t: Tab, i: nat)
    requires Shaped(t) && i < |t.keyAt|
    ensures t.mem != "" && |View(t).keys| == |t.keyAt| && t.keyAt[i] <= |t.mem| && t.valAt[i] <= |t.mem|
    ensures t.types[i] != KT_INVALID ==>
              var piece := PairText(CStr(t.mem, t.keyAt[i]), t.types[i], t.counts[i], CStr(t.mem, t.valAt[i]))
                           + (if i < |t.keyAt| - 1 then "\n" else "");
              piece == EntryText(View(t), i) && piece != ""
  {
    hide StrLen, CStr;
    PieceNotEmpty(CStr(t.mem, t.keyAt[i]), t.types[i], t.counts[i], CStr(t.mem, t.valAt[i]));
  }

  lemma Assoc3(a: string, b: string, c: string)
    ensures a + (b + c) == a + b + c
  {
  }

  lemma PieceNotEmpty(key: string, kind: KeyType, count: int, value: string)
    ensures PairText(key, kind, count, value) != ""
  {
  }

  lemma {:induction false} JoinedSnoc(ts: seq<string>, t: string)
    ensures Joined(ts + [t]) == if ts == [] then t else Joined(ts) + "," + t
  {
    if |ts| >= 1 {
      assert (ts + [t])[1..] == ts[1..] + [t] && (ts + [t])[0] == ts[0];
      JoinedSnoc(ts[1..], t);
      if |ts| > 1 {
        assert ts[0] + "," + (Joined(ts[1..]) + "," + t) == ts[0] + "," + Joined(ts[1..]) + "," + t;
      }
    }
  }

  lemma ReadNext(values: seq<int>, v: int, s: string, n: nat)
    requires n > 0 && Strtol(s, 0).1 > 0 && v == S32(Strtol(s, 0).0)
    ensures var used := Strtol(s, 0).1;
            var rest := ReadInts(if used + 1 <= |s| then s[used + 1..] else "", n - 1);
            values + ReadInts(s, n).0 == values + [v] + rest.0 && ReadInts(s, n).1 == rest.1
  {
    hide Strtol, S32;
  }

  // ----- What the callers hand to the setters

  function IntTexts(values: seq<int>): NewValue {
    Numbers(PrintedInts(values), MAX_INT_LENGTH)
  }

  function HexTexts(values: seq<nat>): NewValue {
    Numbers(PrintedHexes(values), MAX_INT_LENGTH)
  }

  lemma DigitNotNul(d: nat)
    requires d < 16
    ensures DigitChar(d) != NUL
  {
  }

  lemma {:induction false} PrintedNoNul(n: nat, base: nat)
    requires 2 <= base <= 16
    ensures NUL !in Printed(n, base)
  {
    hide DigitOf;
    DigitNotNul(n % base);
    if n >= base {
      PrintedNoNul(n / base, base);
    }
  }

  lemma IntTextsProper(values: seq<int>)
    requires forall i :: 0 <= i < |values| ==> Int32(values[i])
    ensures var v := IntTexts(values);
            && Proper(v) && OfKind(v, KT_INT) && Count(v) == |values| && (values != [] ==> Full(v) != "")
            && Needed(v) == |values| * MAX_INT_LENGTH && Nothing(v) == (values == [])
  {
    hide Printed, Joined;
    forall i | 0 <= i < |values|
      ensures 0 < |PrintedInts(values)[i]| < MAX_INT_LENGTH && NUL !in PrintedInts(values)[i]
    {
      PrintedSize(values[i]);
      PrintedNoNul(if values[i] < 0 then -values[i] else values[i], 10);
    }
    JoinedSome(PrintedInts(values));
  }

  lemma HexTextsProper(values: seq<nat>)
    requires forall i :: 0 <= i < |values| ==> values[i] < 0x1_0000_0000
    ensures var v := HexTexts(values);
            && Proper(v) && OfKind(v, KT_UINT) && Count(v) == |values| && (values != [] ==> Full(v) != "")
            && Needed(v) == |values| * MAX_INT_LENGTH && Nothing(v) == (values == [])
  {
    hide Printed, Joined;
    forall i | 0 <= i < |values|
      ensures 0 < |PrintedHexes(values)[i]| < MAX_INT_LENGTH && NUL !in PrintedHexes(values)[i]
    {
      PrintedHexSize(values[i]);
      PrintedNoNul(values[i], 16);
    }
    JoinedSome(PrintedHexes(values));
  }

  lemma JoinedSome(ts: seq<string>)
    ensures ts != [] && ts[0] != "" ==> Joined(ts) != ""
  {
  }

  /** A string set: stored whole, or without its last character if and only if just enough was free before. */
  ghost predicate SetStringViews(t: Tab, key: string, value: string, code: KvpErrorCode, r: Tab)
    requires Shaped(t) && Shaped(r)
  {
    var v := Characters(value);
    var short := JustEnough(t, Required(key, v));
    value != "" || !short ==>
      && Settled(r)
      && code == SetText(View(t), key, value, |value|, KT_STRING).0
      && View(r) == SetText(View(t), key, if short then value[..|value| - 1] else value, |value|, KT_STRING).1
  }

  ghost predicate UpdateStringViews(t: Tab, key: string, value: string, code: KvpErrorCode, r: Tab)
    requires Shaped(t) && Shaped(r)
  {
    var v := Characters(value);
    var short := JustEnough(t, Needed(v));
    value != "" || !short ==>
      && Settled(r)
      && code == UpdateText(View(t), key, value, |value|, KT_STRING).0
      && View(r) == UpdateText(View(t), key, if short then value[..|value| - 1] else value, |value|, KT_STRING).1
  }

  lemma StringSet(t: Tab, key: string, value: string, fill: Garbage)
    requires Shaped(t) && Settled(t) && NUL !in key && NUL !in value && CanHold(t, Required(key, Characters(value)))
    ensures var (code, r) := SetIn(t, key, Characters(value), KT_STRING, fill);
            SetStringViews(t, key, value, code, r)
  {
    hide Settled, SetIn, JustEnough, SetText, CanHold, View;
    if value != "" || !JustEnough(t, Required(key, Characters(value))) {
      SetViews(t, key, Characters(value), KT_STRING, fill);
    }
  }

  lemma StringUpdated(t: Tab, key: string, value: string, fill: Garbage)
    requires Shaped(t) && Settled(t) && NUL !in value && CanHold(t, Needed(Characters(value)))
    ensures var (code, r) := UpdateIn(t, key, Characters(value), KT_STRING, fill);
            UpdateStringViews(t, key, value, code, r)
  {
    hide Settled, UpdateIn, JustEnough, UpdateText, CanHold, View;
    if value != "" || !JustEnough(t, Needed(Characters(value))) {
      UpdateViews(t, key, Characters(value), KT_STRING, fill);
    }
  }

  lemma IntsSet(t: Tab, key: string, values: seq<int>, fill: Garbage)
    requires Shaped(t) && Settled(t) && NUL !in key && values != []
    requires forall i :: 0 <= i < |values| ==> Int32(values[i])
    requires Proper(IntTexts(values)) && CanHold(t, Required(key, IntTexts(values)))
    ensures var (code, r) := SetIn(t, key, IntTexts(values), KT_INT, fill);
            && Settled(r)
            && (code, View(r)) == SetText(View(t), key, Joined(PrintedInts(values)), |values|, KT_INT)
  {
    hide Settled, SetIn, JustEnough, SetText, CanHold, View, PrintedInts, Joined, Proper;
    IntTextsProper(values);
    SetViews(t, key, IntTexts(values), KT_INT, fill);
  }

  lemma HexesUpdated(t: Tab, key: string, values: seq<nat>, fill: Garbage)
    requires Shaped(t) && Settled(t) && values != []
    requires forall i :: 0 <= i < |values| ==> values[i] < 0x1_0000_0000
    requires Proper(HexTexts(values)) && CanHold(t, Needed(HexTexts(values)))
    ensures var (code, r) := UpdateIn(t, key, HexTexts(values), KT_UINT, fill);
            && Settled(r)
            && (code, View(r)) == UpdateText(View(t), key, Joined(PrintedHexes(values)), |values|, KT_UINT)
  {
    hide Settled, UpdateIn, JustEnough, UpdateText, CanHold, View, PrintedHexes, Joined, Proper;
    HexTextsProper(values);
    UpdateViews(t, key, HexTexts(values), KT_UINT, fill);
  }
}

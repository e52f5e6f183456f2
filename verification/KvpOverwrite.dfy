// An input after which two valid entries have one key: a record refused behind
// its second pair, and one laid over the texts of the pairs it had added.
module KvpOverwrite {
  import opened KvpText
  import opened KvpValidate
  import opened KvpStore
  import opened KvpTrip
  import opened KvpMemory
  import opened KvpParser
  import opened KvpBuffer
  import opened KvpOps
  import opened KvpLatest
  import opened KvpRuns

  /** A text that lies within the front of memory. */
  lemma CStrFront(mem: string, front: string, at: nat, text: string)
    requires front <= mem && at + |text| < |front| && front[at + |text|] == NUL && NUL !in text
    requires front[at..at + |text|] == text
    ensures CStr(mem, at) == text
  {
    assert mem[at..at + |text|] == front[at..at + |text|];
    CStrIs(mem, at, text);
  }

  lemma CutFront(mem: string, front: string, i: nat)
    requires front <= mem && i < |front|
    ensures front[i := NUL] <= mem[i := NUL]
  {
  }

  /** A turn at an int's pair, key and value already trimmed: the two cuts, the older entry, the new one. */
  lemma IntPairTurn(t: Tab, p: nat, z: nat, key: string, value: string, rest: string)
    requires Shaped(t) && Reaches(t.mem, p, z) && |t.keyAt| < MAXKEYS
    requires CStr(t.mem, p) == key + "#I=" + value + ";" + rest
    requires Trimmed(key) && key != "" && !Comment(key) && '#' !in key && ';' !in value
    ensures var mem1 := t.mem[p + |key| := NUL];
            var v, count := p + |key| + 3, Validate(value, KT_INT);
            && v + |value| < |t.mem|
            && var t1 := SupersededAt(t.(mem := mem1), key);
               var t2 := t1.(mem := mem1[v + |value| := NUL], types := t1.types[|t.keyAt| := KT_INT]);
               TurnAt(t, p)
               == if count < 0 then MFail(KVP_E_ILLNUMBER, t2)
                   else MMore(Added(t2, p, v, count, KT_INT), v + |value| + 1)
  {
    hide Validate, StrLen, CStr, Find, SupersededAt, View, Trimmed, Added, Comment, TurnAt, ValueAt, StoreAt, Value,
         Reaches;
    IntKeyTurn(t, p, z, key, value, rest);
    var mem1 := t.mem[p + |key| := NUL];
    var t1 := SupersededAt(t.(mem := mem1), key);
    IntValueTurn(t1, p, p + |key| + 2, z, value, rest);
  }

  /** ... to the type letter ... */
  lemma IntKeyTurn(t: Tab, p: nat, z: nat, key: string, value: string, rest: string)
    requires Shaped(t) && Reaches(t.mem, p, z) && |t.keyAt| < MAXKEYS
    requires CStr(t.mem, p) == key + "#I=" + value + ";" + rest
    requires Trimmed(key) && key != "" && !Comment(key) && '#' !in key && ';' !in value
    ensures p + |key| + 2 <= z < |t.mem|
    ensures var mem1 := t.mem[p + |key| := NUL];
            var t1 := SupersededAt(t.(mem := mem1), key);
            && TurnAt(t, p) == ValueAt(t1, p, KT_INT, p + |key| + 2)
            && Reaches(mem1, p + |key| + 2, z) && CStr(mem1, p + |key| + 2) == "=" + value + ";" + rest
  {
    hide Validate, StrLen, CStr, Find, SupersededAt, View, TrimLeft, TrimRight, Added, Comment, ValueAt, TurnAt,
         Strip, StripAt;
    var hash := |key|;
    PairText1(key, value, rest);
    TurnUnfold(t, p);
    KeyCut(t.mem, p, hash);
    StripTrimmed(key);
    TrimmedCut(t.mem, p, hash);
    SupersededParts(t.(mem := t.mem[p + hash := NUL]), key);
  }

  /** ... and from there. */
  lemma IntValueTurn(t: Tab, start: nat, q: nat, z: nat, value: string, rest: string)
    requires Shaped(t) && Reaches(t.mem, q, z) && |t.keyAt| < MAXKEYS && start <= |t.mem| && ';' !in value
    requires CStr(t.mem, q) == "=" + value + ";" + rest
    ensures var v, count := q + 1, Validate(value, KT_INT);
            && t.mem != "" && q <= |t.mem| && v + |value| < |t.mem|
            && var t2 := t.(mem := t.mem[v + |value| := NUL], types := t.types[|t.keyAt| := KT_INT]);
               ValueAt(t, start, KT_INT, q)
               == if count < 0 then MFail(KVP_E_ILLNUMBER, t2)
                   else MMore(Added(t2, start, v, count, KT_INT), v + |value| + 1)
  {
    hide Validate, StrLen, Find, Added, Value, CountField, StoreAt, CStr;
    CStrTail(t.mem, q, 1);
    ValueText(value, rest);
    assert CStr(t.mem, q + 1) == value + ";" + rest;
    ReachesIs(t.mem, q + 1, z);
    IntStoreTurn(t, start, q + 1, z, value, rest);
  }

  lemma IntStoreTurn(t: Tab, start: nat, v: nat, z: nat, value: string, rest: string)
    requires Shaped(t) && Reaches(t.mem, v, z) && |t.keyAt| < MAXKEYS && start <= |t.mem| && ';' !in value
    requires CStr(t.mem, v) == value + ";" + rest
    ensures var count := Validate(value, KT_INT);
            && t.mem != "" && v + |value| < |t.mem|
            && var t2 := t.(mem := t.mem[v + |value| := NUL], types := t.types[|t.keyAt| := KT_INT]);
               StoreAt(t, start, KT_INT, 0, v)
               == if count < 0 then MFail(KVP_E_ILLNUMBER, t2)
                   else MMore(Added(t2, start, v, count, KT_INT), v + |value| + 1)
  {
    hide Validate, StrLen, Find, Added, Value, CStr;
    ValueText(value, rest);
    ValueCut(t.mem, v);
  }

  lemma PairText1(key: string, value: string, rest: string)
    requires '#' !in key
    ensures var text := key + "#I=" + value + ";" + rest;
            && Find(text, '#') == |key| && |key| + 1 < |text| && text[..|key|] == key && text[|key| + 1] == 'I'
            && text[|key| + 2..] == "=" + value + ";" + rest
  {
    var behind := "I=" + value + ";" + rest;
    assert key + "#I=" + value + ";" + rest == key + ['#'] + behind;
    FindBehind(key, '#', behind);
  }

  lemma ValueText(value: string, rest: string)
    requires ';' !in value
    ensures var text := value + ";" + rest;
            && Find(text, ';') == |value| && Value(text) == value
            && ("=" + value + ";" + rest)[1..] == text
               && CountField("=" + value + ";" + rest) == (0, "=" + value + ";" + rest)
  {
    assert value + ";" + rest == value + [';'] + rest;
    FindBehind(value, ';', rest);
  }

  /** A trimmed key ends where the '#' was. */
  lemma TrimmedCut(mem: string, p: nat, hash: nat)
    requires p <= |mem| && p + StrLen(mem, p) < |mem| && 0 < hash < StrLen(mem, p)
    requires Trimmed(CStr(mem, p)[..hash])
    ensures CStr(mem[p + hash := NUL], p) == CStr(mem, p)[..hash]
    ensures StripAt(mem[p + hash := NUL], p) == (p, mem[p + hash := NUL])
  {
    CStrCut(mem, p, hash);
    StripTrimmed(CStr(mem, p)[..hash]);
    NoTrim(CStr(mem, p)[..hash]);
    assert mem[p + hash := NUL][p + hash := NUL] == mem[p + hash := NUL];
  }

  // ----- The input

  const FIRST: string := "A#I=1;B#I=2;C#I=x;"
  const SECOND: string := "B#I=1;B#I=2;"

  /** Fresh tables with their first buffer. */
  function FreshTab(types: seq<KeyType>, fill: Garbage): (t: Tab)
    requires |types| == MAXKEYS
    ensures Shaped(t)
  {
    Tab(Fresh(KVP_MIN_BUFFER_SIZE, fill), [], [], [], types, 0)
  }

  lemma Digits()
    ensures Validate("1", KT_INT) == 1 && Validate("2", KT_INT) == 1 && Validate("x", KT_INT) == -1
  {
    hide IntToken, Tokens;
    One("1");
    One("2");
    NotOne();
  }

  lemma One(s: string)
    requires s == "1" || s == "2"
    ensures Validate(s, KT_INT) == 1
  {
    if s == "1" {
      assert "1"[1..] == "";
    } else {
      assert "2"[1..] == "";
    }
  }

  lemma NotOne()
    ensures Validate("x", KT_INT) == -1
  {
  }

  /** The front of memory after the cuts of one pair. */
  function CutPair(front: string, p: nat, n: nat): (r: string)
    requires p + n + 4 < |front|
    ensures |r| == |front|
  {
    front[p + n := NUL][p + n + 4 := NUL]
  }

  /** The types after a turn at a key that stood last at `prior`. */
  function TypesAfter(types: seq<KeyType>, prior: int, n: nat): seq<KeyType>
    requires |types| == MAXKEYS && prior < n < MAXKEYS
  {
    (if prior >= 0 then types[prior := KT_INVALID] else types)[n := KT_INT]
  }

  /** One turn at a pair of one-character key and value; `ks` are the keys as they read once the new key is cut. */
  lemma PairStep(t: Tab, front: string, p: nat, z: nat, key: string, value: string, rest: string, ks: seq<string>)
    requires Shaped(t) && Reaches(t.mem, p, z) && |t.keyAt| < MAXKEYS && front <= t.mem && p + 5 < |front|
    requires CStr(t.mem, p) == key + "#I=" + value + ";" + rest
    requires |key| == |value| == 1 && Trimmed(key) && '#' !in key && ';' !in value
    requires |ks| == |t.keyAt| && forall i :: 0 <= i < |ks| ==> CStr(t.mem[p + 1 := NUL], t.keyAt[i]) == ks[i]
    ensures var r, types := TurnAt(t, p), TypesAfter(t.types, LastIndex(ks, key), |ks|);
            if Validate(value, KT_INT) == 1 then
              r.MMore? && r.at == p + 6 && CutPair(front, p, 1) <= r.tab.mem && |r.tab.mem| == |t.mem|
              && r.tab == Tab(r.tab.mem, t.keyAt + [p], t.valAt + [p + 4], t.counts + [1], types, t.spare)
            else if Validate(value, KT_INT) < 0 then
              r.MFail? && CutPair(front, p, 1) <= r.tab.mem && |r.tab.mem| == |t.mem|
              && r.tab == t.(mem := r.tab.mem, types := types)
            else true
  {
    hide Validate, StrLen, CStr, TurnAt, Reaches;
    IntPairTurn(t, p, z, key, value, rest);
    var mem1 := t.mem[p + 1 := NUL];
    CutFront(t.mem, front, p + 1);
    CutFront(mem1, front[p + 1 := NUL], p + 5);
    assert View(t.(mem := mem1)).keys == ks;
    StripTrimmed(key);
  }

  /** Where what follows a pair reaches, and reads. */
  lemma NextText(mem: string, front: string, at: nat, text: string)
    requires front <= mem && at + |text| < |front| && front[at + |text|] == NUL && NUL !in text
    requires front[at..at + |text|] == text
    ensures Reaches(mem, at, at + |text|) && CStr(mem, at) == text
  {
    CStrFront(mem, front, at, text);
  }

  // The front of memory, step by step.
  const F0: string := "A#I=1;B#I=2;C#I=x;\0"
  const F1: string := "A\0I=1\0B#I=2;C#I=x;\0"
  const F2: string := "A\0I=1\0B\0I=2\0C#I=x;\0"
  const F3: string := "A\0I=1\0B\0I=2\0C\0I=x\0\0"
  const G0: string := "B#I=1;B#I=2;\0\0I=x\0\0"
  const G1: string := "B\0I=1\0B#I=2;\0\0I=x\0\0"
  const G2: string := "B\0I=1\0B\0I=2\0\0\0I=x\0\0"

  lemma Fronts()
    ensures CutPair(F0, 0, 1) == F1 && CutPair(F1, 6, 1) == F2 && CutPair(F2, 12, 1) == F3
    ensures CutPair(G0, 0, 1) == G1 && CutPair(G1, 6, 1) == G2
  {
  }

  /** Key i, as it reads in the front of memory. */
  predicate KeyIn(front: string, at: nat, key: string) {
    && at + |key| < |front| && front[at..at + |key|] == key && front[at + |key|] == NUL && NUL !in key
  }

  /** A turn at a pair that lies, with all that is left of the record, in the front of memory. */
  lemma FrontTurn(t: Tab, front: string, p: nat, key: string, value: string, rest: string, ks: seq<string>)
    requires Shaped(t) && |t.keyAt| < MAXKEYS && front <= t.mem && p + 5 < |front|
    requires KeyIn(front, p, key + "#I=" + value + ";" + rest)
    requires |key| == |value| == 1 && Trimmed(key) && '#' !in key && ';' !in value
    requires |ks| == |t.keyAt| && forall i :: 0 <= i < |ks| ==> KeyIn(front[p + 1 := NUL], t.keyAt[i], ks[i])
    ensures p + StrLen(t.mem, p) < |t.mem|
    ensures var r, types := TurnAt(t, p), TypesAfter(t.types, LastIndex(ks, key), |ks|);
            if Validate(value, KT_INT) == 1 then
              r.MMore? && r.at == p + 6 && CutPair(front, p, 1) <= r.tab.mem && |r.tab.mem| == |t.mem|
              && r.tab == Tab(r.tab.mem, t.keyAt + [p], t.valAt + [p + 4], t.counts + [1], types, t.spare)
            else if Validate(value, KT_INT) < 0 then
              r.MFail? && CutPair(front, p, 1) <= r.tab.mem && |r.tab.mem| == |t.mem|
              && r.tab == t.(mem := r.tab.mem, types := types)
            else true
  {
    hide Validate, StrLen, CStr, TurnAt, CutPair, TypesAfter, Trimmed, LastIndex, Reaches;
    var text := key + "#I=" + value + ";" + rest;
    NextText(t.mem, front, p, text);
    CutFront(t.mem, front, p + 1);
    forall i | 0 <= i < |ks| ensures CStr(t.mem[p + 1 := NUL], t.keyAt[i]) == ks[i] {
      assert KeyIn(front[p + 1 := NUL], t.keyAt[i], ks[i]);
      CStrFront(t.mem[p + 1 := NUL], front[p + 1 := NUL], t.keyAt[i], ks[i]);
    }
    InBuffer(t.mem, p, p + |text|);
    PairStep(t, front, p, p + |text|, key, value, rest, ks);
  }

  /** Tables of ints only whose offsets are given and whose memory begins with `front`. */
  predicate Stage(t: Tab, front: string, keyAt: seq<nat>, valAt: seq<nat>, counts: seq<int>, types: seq<KeyType>) {
    t == Tab(t.mem, keyAt, valAt, counts, types, 0) && front <= t.mem && |t.mem| == KVP_MIN_BUFFER_SIZE
      && |types| == MAXKEYS
  }

  lemma FirstTurns(t: Tab, types: seq<KeyType>)
    requires Stage(t, F0, [], [], [], types)
    ensures 0 + StrLen(t.mem, 0) < |t.mem|
    ensures var r := TurnAt(t, 0);
            r.MMore? && r.at == 6 && Stage(r.tab, F1, [0], [4], [1], types[0 := KT_INT])
  {
    hide StrLen, CStr, TurnAt, Validate, KeyIn, CutPair;
    Fronts();
    Digits();
    FirstReads();
    FrontTurn(t, F0, 0, "A", "1", "B#I=2;C#I=x;", []);
  }

  lemma FirstReads()
    ensures KeyIn(F0, 0, "A" + "#I=" + "1" + ";" + "B#I=2;C#I=x;")
  {
  }

  lemma SecondTurns(t: Tab, types: seq<KeyType>)
    requires Stage(t, F1, [0], [4], [1], types)
    ensures 6 + StrLen(t.mem, 6) < |t.mem|
    ensures var r := TurnAt(t, 6);
            r.MMore? && r.at == 12 && Stage(r.tab, F2, [0, 6], [4, 10], [1, 1], types[1 := KT_INT])
  {
    hide StrLen, CStr, TurnAt, Validate, KeyIn, CutPair;
    Fronts();
    Digits();
    SecondReads();
    FrontTurn(t, F1, 6, "B", "2", "C#I=x;", ["A"]);
  }

  lemma SecondReads()
    ensures KeyIn(F1, 6, "B" + "#I=" + "2" + ";" + "C#I=x;") && KeyIn(F1[7 := NUL], 0, "A")
  {
  }

  lemma ThirdTurns(t: Tab, types: seq<KeyType>)
    requires Stage(t, F2, [0, 6], [4, 10], [1, 1], types)
    ensures 12 + StrLen(t.mem, 12) < |t.mem|
    ensures var r := TurnAt(t, 12);
            r.MFail? && Stage(r.tab, F3, [0, 6], [4, 10], [1, 1], types[2 := KT_INT])
  {
    hide StrLen, CStr, TurnAt, Validate, KeyIn, CutPair;
    Fronts();
    Digits();
    ThirdReads();
    FrontTurn(t, F2, 12, "C", "x", "", ["A", "B"]);
  }

  lemma ThirdReads()
    ensures KeyIn(F2, 12, "C" + "#I=" + "x" + ";" + "") && KeyIn(F2[13 := NUL], 0, "A") && KeyIn(F2[13 := NUL], 6, "B")
  {
  }

  lemma ThreeTurns(t: Tab, types: seq<KeyType>)
    requires Stage(t, F0, [], [], [], types)
    ensures 0 + StrLen(t.mem, 0) < |t.mem|
    ensures var r := ParseAt(t, 0);
            r.MRefused? && Stage(r.tab, F3, [0, 6], [4, 10], [1, 1], types[0 := KT_INT][1 := KT_INT][2 := KT_INT])
  {
    hide StrLen, CStr, TurnAt;
    FirstTurns(t, types);
    var t1 := TurnAt(t, 0).tab;
    SecondTurns(t1, types[0 := KT_INT]);
    var t2 := TurnAt(t1, 6).tab;
    ThirdTurns(t2, types[0 := KT_INT][1 := KT_INT]);
    assert ParseAt(t2, 12).MRefused?;
    assert ParseAt(t1, 6) == ParseAt(t2, 12);
    assert ParseAt(t, 0) == ParseAt(t1, 6);
  }

  /** Where there is room, a record that starts without a space is parsed from where it is copied to. */
  lemma ParsedInPlace(t: Tab, record: string, fill: Garbage)
    requires Shaped(t) && t.mem != "" && |record| + 1 <= SpaceLeft(t) && NUL !in record
    requires record != "" && !Space(record[0])
    ensures CanHold(t, |record| + 1) && RecordStart(t, record) == t.spare
    ensures var mem := Loaded(t, record).mem;
            t.spare + StrLen(mem, t.spare) < |mem|
    ensures ParseRecordIn(t, record, fill) == Counted(ParseAt(Loaded(t, record), t.spare), t.spare + |record| + 1)
  {
    hide StrLen, CStr, View, Put, Grown, ParseAt, Reaches;
    LoadedText(t, record);
    InBuffer(Loaded(t, record).mem, t.spare, t.spare + |record|);
  }

  /** The first record is refused at its third pair; two entries have been added in the free space. */
  lemma FirstRefused(types: seq<KeyType>, fill: Garbage)
    requires |types| == MAXKEYS
    ensures NUL !in FIRST && CanHold(FreshTab(types, fill), |FIRST| + 1)
    ensures var r := ParseRecordIn(FreshTab(types, fill), FIRST, fill);
            r.MRefused? && Stage(r.tab, F3, [0, 6], [4, 10], [1, 1], types[0 := KT_INT][1 := KT_INT][2 := KT_INT])
  {
    hide StrLen, CStr, View, Fresh, Put, Grown, ParseAt, ParseRecordIn, CanHold;
    var t := FreshTab(types, fill);
    ParsedInPlace(t, FIRST, fill);
    LoadedFront(t, FIRST, F0);
    ThreeTurns(Loaded(t, FIRST), types);
  }

  lemma FourthTurns(t: Tab, types: seq<KeyType>)
    requires Stage(t, G0, [0, 6], [4, 10], [1, 1], types)
    ensures 0 + StrLen(t.mem, 0) < |t.mem|
    ensures var r := TurnAt(t, 0);
            r.MMore? && r.at == 6
            && Stage(r.tab, G1, [0, 6, 0], [4, 10, 4], [1, 1, 1], types[0 := KT_INVALID][2 := KT_INT])
  {
    hide StrLen, CStr, TurnAt, Validate, KeyIn, CutPair;
    Fronts();
    Digits();
    FourthReads();
    FrontTurn(t, G0, 0, "B", "1", "B#I=2;", ["B", "B#I=2;"]);
  }

  lemma FourthReads()
    ensures KeyIn(G0, 0, "B" + "#I=" + "1" + ";" + "B#I=2;") && KeyIn(G0[1 := NUL], 0, "B")
        && KeyIn(G0[1 := NUL], 6, "B#I=2;")
  {
  }

  lemma FifthTurns(t: Tab, types: seq<KeyType>)
    requires Stage(t, G1, [0, 6, 0], [4, 10, 4], [1, 1, 1], types)
    ensures 6 + StrLen(t.mem, 6) < |t.mem|
    ensures var r := TurnAt(t, 6);
            r.MMore? && r.at == 12
            && Stage(r.tab, G2, [0, 6, 0, 6], [4, 10, 4, 10], [1, 1, 1, 1], types[2 := KT_INVALID][3 := KT_INT])
  {
    hide StrLen, CStr, TurnAt, Validate, KeyIn, CutPair;
    Fronts();
    Digits();
    FifthReads();
    FrontTurn(t, G1, 6, "B", "2", "", ["B", "B", "B"]);
  }

  lemma FifthReads()
    ensures KeyIn(G1, 6, "B" + "#I=" + "2" + ";" + "") && KeyIn(G1[7 := NUL], 0, "B") && KeyIn(G1[7 := NUL], 6, "B")
  {
  }

  lemma LastTurn(t: Tab)
    requires Shaped(t) && G2 <= t.mem
    ensures 12 + StrLen(t.mem, 12) < |t.mem| && TurnAt(t, 12) == MStop(t)
  {
    hide StrLen, CStr;
    NextText(t.mem, G2, 12, "");
    InBuffer(t.mem, 12, 12);
    TurnUnfold(t, 12);
  }

  lemma TwoTurns(t: Tab, types: seq<KeyType>)
    requires Stage(t, G0, [0, 6], [4, 10], [1, 1], types)
    ensures 0 + StrLen(t.mem, 0) < |t.mem|
    ensures var r := ParseAt(t, 0);
            r.MParsed? && !r.open
            && Stage(r.tab, G2, [0, 6, 0, 6], [4, 10, 4, 10], [1, 1, 1, 1],
                     types[0 := KT_INVALID][2 := KT_INVALID][3 := KT_INT])
  {
    hide StrLen, CStr, TurnAt;
    FourthTurns(t, types);
    var t1, types1 := TurnAt(t, 0).tab, types[0 := KT_INVALID][2 := KT_INT];
    FifthTurns(t1, types1);
    var t2 := TurnAt(t1, 6).tab;
    LastTurn(t2);
    assert types1[2 := KT_INVALID] == types[0 := KT_INVALID][2 := KT_INVALID];
    assert ParseAt(t2, 12) == MParsed(t2, false);
    assert ParseAt(t1, 6) == ParseAt(t2, 12);
    assert ParseAt(t, 0) == ParseAt(t1, 6);
  }

  /** The second one is accepted, and laid over the texts of the entries added. */
  lemma SecondAccepted(t: Tab, types: seq<KeyType>, fill: Garbage)
    requires Stage(t, F3, [0, 6], [4, 10], [1, 1], types)
    ensures NUL !in SECOND && CanHold(t, |SECOND| + 1)
    ensures var r := ParseRecordIn(t, SECOND, fill);
            r.MParsed? && Stage(r.tab.(spare := 0), G2, [0, 6, 0, 6], [4, 10, 4, 10], [1, 1, 1, 1],
                                types[0 := KT_INVALID][2 := KT_INVALID][3 := KT_INT])
  {
    hide StrLen, CStr, View, Fresh, Put, Grown, ParseAt, ParseRecordIn, CanHold;
    ParsedInPlace(t, SECOND, fill);
    LoadedFront(t, SECOND, G0);
    TwoTurns(Loaded(t, SECOND), types);
  }

  lemma FinalKeys(t: Tab)
    requires Shaped(t) && G2 <= t.mem && t.keyAt == [0, 6, 0, 6]
    ensures View(t).keys == ["B", "B", "B", "B"]
  {
    hide StrLen, CStr;
    LastKeys();
    CStrFront(t.mem, G2, 0, "B");
    CStrFront(t.mem, G2, 6, "B");
  }

  lemma LastKeys()
    ensures KeyIn(G2, 0, "B") && KeyIn(G2, 6, "B")
  {
    assert G2[0..1] == [G2[0]] && G2[6..7] == [G2[6]];
  }

  lemma FirstBuffer(types: seq<KeyType>, fill: Garbage)
    requires |types| == MAXKEYS
    ensures CanHold(Emptied(types), |FIRST| + 1) && CanHold(FreshTab(types, fill), |FIRST| + 1) && NUL !in FIRST
    ensures ParseRecordIn(Emptied(types), FIRST, fill) == ParseRecordIn(FreshTab(types, fill), FIRST, fill)
  {
    hide StrLen, CStr, ParseLoaded, LiveTo, View, Grown;
    EmptyLive(Emptied(types));
  }

  /**
   * A record refused at its third pair, and then one that is accepted: of the
   * four entries the second and the fourth are valid, both have the key "B" and
   * are printed, and "A", which the refused record defined, is gone.
   */
  lemma TwoValid(types: seq<KeyType>, fill: Garbage)
    requires |types| == MAXKEYS
    ensures CanHold(Emptied(types), |FIRST| + 1)
    ensures var r := ParseRecordIn(Emptied(types), FIRST, fill);
            && r.MRefused? && CanHold(r.tab, |SECOND| + 1)
            && View(r.tab).keys == ["A", "B"] && r.tab.types[0] == r.tab.types[1] == KT_INT && Exposed(r.tab)
            && var r2 := ParseRecordIn(r.tab, SECOND, fill);
               && r2.MParsed? && View(r2.tab).keys == ["B", "B", "B", "B"]
               && r2.tab.types[0] == r2.tab.types[2] == KT_INVALID && r2.tab.types[1] == r2.tab.types[3] == KT_INT
               && Shows(r2.tab, 1) && Shows(r2.tab, 3) && !Latest(r2.tab)
  {
    hide StrLen, CStr, ParseRecordIn, CanHold, View, Fresh, PairText, Ends, Latest;
    FirstBuffer(types, fill);
    FirstRefused(types, fill);
    var t1 := ParseRecordIn(FreshTab(types, fill), FIRST, fill).tab;
    MiddleKeys(t1);
    SecondAccepted(t1, t1.types, fill);
    var t2 := ParseRecordIn(t1, SECOND, fill).tab;
    FinalKeys(t2);
    BothShown(t2);
  }

  lemma MiddleKeys(t: Tab)
    requires Shaped(t) && F3 <= t.mem && t.keyAt == [0, 6] && t.spare == 0 && t.types[0] == KT_INT
    ensures View(t).keys == ["A", "B"] && Exposed(t)
  {
    hide StrLen, CStr;
    CStrFront(t.mem, F3, 0, "A");
    CStrFront(t.mem, F3, 6, "B");
    assert !Ends(t.mem, t.keyAt[0], t.spare);
  }

  lemma BothShown(t: Tab)
    requires Shaped(t) && View(t).keys == ["B", "B", "B", "B"] && t.types[1] == t.types[3] == KT_INT
    ensures Shows(t, 1) && Shows(t, 3) && !Latest(t)
  {
    hide StrLen, CStr, View;
    LatestMeans(t);
    assert View(t).keys[1] == View(t).keys[3];
  }

  lemma LoadedFront(t: Tab, record: string, front: string)
    requires Shaped(t) && |record| + 1 <= SpaceLeft(t) && t.spare == 0 && |front| <= |t.mem|
    requires forall i :: 0 <= i < |front| ==>
               front[i] == if i < |record| then record[i] else if i == |record| then NUL else t.mem[i]
    ensures front <= Loaded(t, record).mem
  {
  }
}

// Parsing, setting and updating, in memory, and what they do to the table.
module KvpOps {
  import opened KvpText
  import opened KvpValidate
  import opened KvpStore
  import opened KvpInts
  import opened KvpMemory
  import opened KvpParser
  import opened KvpBuffer

  // ----- Parsing a record

  datatype MOutcome = MParsed(tab: Tab, open: bool) | MRefused(code: KvpErrorCode, tab: Tab) | MLost

  /** The loop from p on. */
  function ParseAt(t: Tab, p: nat): (r: MOutcome)
    requires Shaped(t) && p <= |t.mem| && p + StrLen(t.mem, p) < |t.mem|
    ensures r.MParsed? || r.MRefused? ==> Shaped(r.tab) && |r.tab.mem| == |t.mem|
    decreases |t.mem| - p
  {
    match TurnAt(t, p)
    case MStop(next) => MParsed(next, false)
    case MMore(next, at) => if at + StrLen(next.mem, at) < |next.mem| then ParseAt(next, at) else MLost
    case MLast(next) => MParsed(next, true)
    case MFail(code, next) => MRefused(code, next)
    case MAstray => MLost
  }

  /** The outcome in memory is the outcome on the table, all texts ending up to z. */
  ghost predicate OutcomeMirrors(r: Outcome, m: MOutcome, spare: nat, size: nat, z: nat) {
    match r
    case Parsed(s, open) =>
      m.MParsed? && m.open == open && Shaped(m.tab) && View(m.tab) == s && m.tab.spare == spare
      && |m.tab.mem| == size && Steady(m.tab, z + 1)
    case Refused(code, s) =>
      m.MRefused? && m.code == code && Shaped(m.tab) && View(m.tab) == s && m.tab.spare == spare
      && |m.tab.mem| == size && Steady(m.tab, z + 1)
    case Lost => m.MLost?
  }

  lemma {:induction false} ParseViews(t: Tab, p: nat, z: nat)
    requires Shaped(t) && Reaches(t.mem, p, z) && Steady(t, p)
    ensures OutcomeMirrors(ParseFrom(View(t), CStr(t.mem, p)), ParseAt(t, p), t.spare, |t.mem|, z)
    decreases |t.mem| - p
  {
    hide TakePair, TurnAt, CStr, StrLen, Steady, View, Live;
    TurnViews(t, p, z);
    var turn, m := TakePair(View(t), CStr(t.mem, p)), TurnAt(t, p);
    if turn.More? {
      ParseViews(m.tab, m.at, z);
    } else if turn.Stop? {
      SteadyMore(m.tab, p, z + 1);
    }
  }

  /** The record's copy at the front of the free space. */
  function Loaded(t: Tab, record: string): (r: Tab)
    requires Shaped(t) && |record| + 1 <= SpaceLeft(t)
    ensures Shaped(r) && |r.mem| == |t.mem|
  {
    t.(mem := Put(t.mem, t.spare, record + [NUL]))
  }

  lemma LoadedText(t: Tab, record: string)
    requires Shaped(t) && |record| + 1 <= SpaceLeft(t) && NUL !in record
    ensures var p := RecordStart(t, record);
            var mem := Loaded(t, record).mem;
            && Reaches(mem, p, t.spare + |record|) && CStr(mem, p) == TrimLeft(record)
            && mem != "" && (forall k :: 0 <= k < t.spare ==> mem[k] == t.mem[k])
  {
    hide TrimLeft, Strip, StrLen, CStr, Put, View;
    PutText(t.mem, t.spare, record);
    TrimLeftIs(record);
    var mem, k := Loaded(t, record).mem, |record| - |TrimLeft(record)|;
    assert CStr(mem, t.spare) == record;
    CStrTail(mem, t.spare, k);
    ReachesIs(mem, t.spare + k, t.spare + |record|);
  }

  /** Where the parser starts in the record's copy: behind its leading spaces. */
  function RecordStart(t: Tab, record: string): nat
  {
    t.spare + (|record| - |TrimLeft(record)|)
  }

  /** The record counts as used up, unless it was refused. */
  function Counted(m: MOutcome, spare: nat): MOutcome {
    if m.MParsed? then MParsed(m.tab.(spare := if m.open then spare + 1 else spare), m.open) else m
  }

  /** kvpParse, once there is room. */
  function ParseLoaded(t: Tab, record: string): (r: MOutcome)
    requires Shaped(t) && |record| + 1 <= SpaceLeft(t) && NUL !in record
    ensures r.MParsed? || r.MRefused? ==> Shaped(r.tab) && |r.tab.mem| == |t.mem|
  {
    LoadedText(t, record);
    Counted(ParseAt(Loaded(t, record), RecordStart(t, record)), t.spare + |record| + 1)
  }

  /** kvpParse. */
  function ParseRecordIn(t: Tab, record: string, fill: Garbage): (r: MOutcome)
    requires Shaped(t) && NUL !in record && CanHold(t, |record| + 1)
    ensures r.MParsed? || r.MRefused? ==> Shaped(r.tab)
  {
    ReadyKeeps(t, |record| + 1, |record| + 1, fill);
    ParseLoaded(Ready(t, |record| + 1, |record| + 1, fill), record)
  }

  /** In settled tables the parser does in memory what it does to the table, and leaves them settled. */
  lemma RecordViews(t: Tab, record: string, fill: Garbage)
    requires Shaped(t) && NUL !in record && CanHold(t, |record| + 1)
    requires Settled(t) || |record| + 1 > SpaceLeft(t)
    ensures var m := ParseRecordIn(t, record, fill);
            match ParseFrom(View(t), TrimLeft(record))
            case Parsed(s, open) =>
              m.MParsed? && m.open == open && View(m.tab) == s && Settled(m.tab)
              && SpaceLeft(m.tab) >= if open then -1 else 0
            case Refused(code, s) =>
              m.MRefused? && m.code == code && View(m.tab) == s && Live(View(m.tab)) <= |m.tab.mem|
            case Lost => m.MLost?
  {
    hide TrimLeft, ParseAt, ParseFrom, CStr, StrLen, View, Live, Ready, Grown, Loaded, Reaches;
    ReadyKeeps(t, |record| + 1, |record| + 1, fill);
    var t1 := Ready(t, |record| + 1, |record| + 1, fill);
    var text := TrimLeft(record);
    var p, z := RecordStart(t1, record), t1.spare + |record|;
    LoadedText(t1, record);
    LoadedSteady(t1, record);
    var t2 := Loaded(t1, record);
    SteadyMore(t2, t1.spare, p);
    ParseViews(t2, p, z);
    ParseRoom(View(t), text);
    ParseAfter(ParseFrom(View(t), text), ParseAt(t2, p), t1, Live(View(t)), |record|, z);
  }

  lemma LoadedSteady(t: Tab, record: string)
    requires Shaped(t) && |record| + 1 <= SpaceLeft(t) && Settled(t)
    ensures Steady(Loaded(t, record), t.spare) && View(Loaded(t, record)) == View(t)
    ensures Loaded(t, record).spare == t.spare
  {
    SteadyKept(t, Loaded(t, record).mem, t.spare);
  }

  /** Counting the record as used up settles the tables again. */
  lemma ParseAfter(r: Outcome, m: MOutcome, t: Tab, live: nat, n: nat, z: nat)
    requires Shaped(t) && n + 1 <= SpaceLeft(t) && z == t.spare + n && live <= t.spare && live <= |t.mem|
    requires OutcomeMirrors(r, m, t.spare, |t.mem|, z)
    requires r.Parsed? ==> Formed(r.store) && Live(r.store) <= live + n
    requires r.Refused? ==> Formed(r.left) && Live(r.left) <= live + n
    ensures r.Parsed? ==>
              var t2 := m.tab.(spare := t.spare + n + (if r.open then 2 else 1));
              Shaped(t2) && View(t2) == r.store && Settled(t2) && SpaceLeft(t2) >= if r.open then -1 else 0
    ensures r.Refused? ==> Live(View(m.tab)) <= |m.tab.mem|
  {
    hide CStr, StrLen, Live;
    if r.Parsed? {
      var t2 := m.tab.(spare := t.spare + n + (if r.open then 2 else 1));
      assert View(t2) == View(m.tab);
    }
  }
}

// Any run of the operations that change the key/value tables, in memory.
module KvpRuns {
  import opened KvpText
  import opened KvpValidate
  import opened KvpStore
  import opened KvpTrip
  import opened KvpInts
  import opened KvpMemory
  import opened KvpParser
  import opened KvpBuffer
  import opened KvpOps
  import opened KvpSetters
  import opened KvpLatest
  import opened KvpExposed

  // ----- Setting and updating keep it too

  /** What is written from `at` on ends in a 0, or nothing is written. */
  lemma WrittenClosing(mem: string, at: nat, v: NewValue, z: nat) returns (z2: nat)
    requires at <= |mem| && z < |mem| && mem[z] == NUL && Proper(v)
    ensures z <= z2 < |mem| && Written(mem, at, v)[z2] == NUL
    ensures forall k :: 0 <= k < at ==> Written(mem, at, v)[k] == mem[k]
  {
    z2 := z;
    if !Nothing(v) && at < |mem| && z >= at {
      var s := Cut(Full(v), |mem| - at);
      if z <= at + |s| {
        z2 := at + |s|;
      }
    }
  }

  lemma SetKept(t: Tab, key: string, v: NewValue, kind: KeyType, fill: Garbage)
    requires Shaped(t) && Proper(v) && CanHold(t, Required(key, v)) && Consistent(t) && !Exposed(t)
    requires NUL !in key && Trimmed(key)
    ensures Consistent(SetIn(t, key, v, kind, fill).1) && !Exposed(SetIn(t, key, v, kind, fill).1)
  {
    hide StrLen, CStr, Trimmed, LiveTo, Grown, Ready, View, Unique, ValidTrimmed, Guarded, Consistent, Exposed,
         SetAt, Initial, Written, Put, Orderly, FindKey, Full;
    FullFits(v);
    ReadyKeeps(t, 0, Required(key, v), fill);
    var t1 := if t.mem == "" then Initial(t, 0, fill) else t;
    InitialConsistent(t, fill);
    var (code, r) := SetIn(t, key, v, kind, fill);
    if code == KVP_E_BADKEY || code == KVP_E_OK {
      SetWritten(t, key, v, kind, fill);
    }
  }

  lemma InitialConsistent(t: Tab, fill: Garbage)
    requires Shaped(t) && Consistent(t)
    ensures var r := if t.mem == "" then Initial(t, 0, fill) else t;
            Shaped(r) && Consistent(r) && View(r) == View(t) && (!Exposed(t) ==> !Exposed(r))
  {
    hide StrLen, CStr;
    if t.mem == "" {
      EmptyView(t, Initial(t, 0, fill));
    }
  }

  /** Once the key is written: the tables with it, and with the whole entry. */
  lemma SetWritten(t: Tab, key: string, v: NewValue, kind: KeyType, fill: Garbage)
    requires Shaped(t) && Proper(v) && CanHold(t, Required(key, v)) && Consistent(t) && !Exposed(t)
    requires NUL !in key && Trimmed(key) && FindKey(View(t), key) < 0 && |t.keyAt| < MAXKEYS
    ensures |key| + 1 + |Full(v)| <= SpaceLeft(Ready(t, 0, Required(key, v), fill))
    ensures var t2 := Ready(t, 0, Required(key, v), fill);
            && Shaped(t2) && t2.mem != "" && |t2.keyAt| < MAXKEYS
            && Consistent(t2.(mem := Put(t2.mem, t2.spare, key + [NUL])))
            && !Exposed(t2.(mem := Put(t2.mem, t2.spare, key + [NUL])))
            && Consistent(SetAt(t2, key, v, kind)) && !Exposed(SetAt(t2, key, v, kind))
  {
    hide StrLen, CStr, Trimmed, LiveTo, Grown, Ready, View, Unique, ValidTrimmed, Guarded, Consistent, Exposed,
         Written, Put, Orderly, FindKey, Full, Added;
    FullFits(v);
    ReadyKeeps(t, 0, Required(key, v), fill);
    ReadyKept(t, 0, Required(key, v), fill);
    var t2 := Ready(t, 0, Required(key, v), fill);
    ReadyClosing(t, 0, Required(key, v), fill, t2.spare + |key|);
    var z := ClosingAfter(t2, t2.spare, key);
    var mem1, at := Put(t2.mem, t2.spare, key + [NUL]), t2.spare + |key| + 1;
    PutText(t2.mem, t2.spare, key);
    MemoryKept(t2, mem1, t2.spare, z);
    OrderlyConsistent(t2.(mem := mem1), t2.spare, z, t2.spare);
    ValueWritten(t2, mem1, key, v, kind, z);
  }

  /** The value behind the key, and the entry's fields. */
  lemma ValueWritten(t: Tab, mem1: string, key: string, v: NewValue, kind: KeyType, z: nat)
    requires Shaped(t) && Proper(v) && |t.keyAt| < MAXKEYS && t.mem != "" && |key| + 1 + |Full(v)| <= SpaceLeft(t)
    requires Unique(View(t)) && ValidTrimmed(t) && Guarded(t, t.spare)
    requires NUL !in key && Trimmed(key) && FindKey(View(t), key) < 0 && mem1 == Put(t.mem, t.spare, key + [NUL])
    requires t.spare + |key| <= z < |mem1| && mem1[z] == NUL && forall k :: 0 <= k < |t.keyAt| ==> t.keyAt[k] <= z
    ensures Consistent(SetAt(t, key, v, kind)) && !Exposed(SetAt(t, key, v, kind))
  {
    hide StrLen, CStr, Trimmed, LiveTo, View, Unique, ValidTrimmed, Guarded, Consistent, Exposed, Written, Put,
         Orderly, FindKey, Full, Added, SetAt, Proper;
    var at := t.spare + |key| + 1;
    PutText(t.mem, t.spare, key);
    var z2 := WrittenClosing(mem1, at, v, z);
    var mem2 := Written(mem1, at, v);
    MemoryKept(t, mem2, t.spare, z2);
    var t3 := t.(mem := mem2);
    TextEnds(mem1, t.spare, |key|, at);
    EndsKept(mem1, mem2, t.spare, at);
    NewKeyFree(t, t3, key, t.spare, z2);
    EntryKept(t3, t.spare, at, Count(v), kind, t.spare, at, z2);
    OrderlyConsistent(Added(t3, t.spare, at, Count(v), kind), at, z2, at + |Full(v)| + 1);
    SetAtIs(t, t3, key, v, kind);
  }

  /** No valid entry has a key that a lookup does not find. */
  lemma NewKeyFree(t: Tab, t3: Tab, key: string, p: nat, z: nat)
    requires Shaped(t) && Shaped(t3) && t3 == t.(mem := t3.mem) && Guarded(t, p) && SameBelow(t.mem, t3.mem, p)
    requires Trimmed(key) && FindKey(View(t), key) < 0
    ensures forall i :: 0 <= i < |t3.keyAt| && t3.types[i] != KT_INVALID ==> CStr(t3.mem, t3.keyAt[i]) != key
  {
    hide StrLen, CStr, Trimmed, Strip;
    StripTrimmed(key);
    KeysOf(t);
    forall i | 0 <= i < |t3.keyAt| && t3.types[i] != KT_INVALID ensures CStr(t3.mem, t3.keyAt[i]) != key {
      GuardedSteady(t, t3.mem, p, i);
      assert View(t).keys[i] != key;
    }
  }

  lemma UpdateKept(t: Tab, key: string, v: NewValue, kind: KeyType, fill: Garbage)
    requires Shaped(t) && Proper(v) && CanHold(t, Needed(v)) && Consistent(t) && !Exposed(t)
    ensures Consistent(UpdateIn(t, key, v, kind, fill).1) && !Exposed(UpdateIn(t, key, v, kind, fill).1)
  {
    hide StrLen, CStr, Trimmed, LiveTo, Grown, Ready, View, Unique, ValidTrimmed, Guarded, Consistent, Exposed,
         Written, Orderly, FindKey, Full, UpdateAt;
    FullFits(v);
    ReadyKeeps(t, 0, Needed(v), fill);
    var entry := FindKey(View(t), key);
    var (code, r) := UpdateIn(t, key, v, kind, fill);
    if code == KVP_E_OK {
      UpdateWritten(t, entry, v, fill);
    }
  }

  lemma UpdateWritten(t: Tab, entry: nat, v: NewValue, fill: Garbage)
    requires Shaped(t) && Proper(v) && CanHold(t, Needed(v)) && Consistent(t) && !Exposed(t) && entry < |t.keyAt|
    ensures |Full(v)| <= SpaceLeft(Ready(t, 0, Needed(v), fill))
    ensures var t2 := Ready(t, 0, Needed(v), fill);
            Shaped(t2) && entry < |t2.keyAt| && Consistent(UpdateAt(t2, entry, v)) && !Exposed(UpdateAt(t2, entry, v))
  {
    hide StrLen, CStr, Trimmed, LiveTo, Grown, Ready, View, Unique, ValidTrimmed, Guarded, Consistent, Exposed,
         Written, Orderly, Full;
    FullFits(v);
    ReadyKeeps(t, 0, Needed(v), fill);
    ReadyKept(t, 0, Needed(v), fill);
    var t2 := Ready(t, 0, Needed(v), fill);
    var z := UpdateClosing(t, t2, v, fill);
    MemoryKept(t2, Written(t2.mem, t2.spare, v), t2.spare, z);
    KeysOnly(t2.(mem := Written(t2.mem, t2.spare, v)), UpdateAt(t2, entry, v), t2.spare, z);
  }

  /** Values, counts and free space have no part in it. */
  lemma KeysOnly(t: Tab, r: Tab, p: nat, z: nat)
    requires Shaped(t) && Shaped(r) && Orderly(t, p, z) && r.mem == t.mem && r.keyAt == t.keyAt && r.types == t.types
    ensures Consistent(r) && (p <= r.spare ==> !Exposed(r))
  {
    hide StrLen, CStr, Trimmed;
    KeysOf(t);
    KeysOf(r);
    if p <= r.spare {
      OrderlyMore(t, p, r.spare, z);
    }
    LatestMeans(r);
    assert View(r).keys == View(t).keys;
    assert Closed(r, z);
  }

  /** Where the 0 stands that closes the tables after an update. */
  lemma UpdateClosing(t: Tab, t2: Tab, v: NewValue, fill: Garbage) returns (z: nat)
    requires Shaped(t) && Proper(v) && CanHold(t, Needed(v)) && Consistent(t) && !Exposed(t) && t.keyAt != []
    requires t2 == Ready(t, 0, Needed(v), fill)
    ensures Shaped(t2) && z < |t2.mem| && Written(t2.mem, t2.spare, v)[z] == NUL
    ensures forall k :: 0 <= k < |t2.keyAt| ==> t2.keyAt[k] <= z
    ensures forall k :: 0 <= k < t2.spare && k < |t2.mem| ==> Written(t2.mem, t2.spare, v)[k] == t2.mem[k]
  {
    hide StrLen, CStr, Trimmed, LiveTo, Grown, Ready, View, Latest, Guarded, Full, Written;
    ReadyKeeps(t, 0, Needed(v), fill);
    ReadyKept(t, 0, Needed(v), fill);
    var z0 := FirstClosing(t, t2);
    z := WrittenClosing(t2.mem, t2.spare, v, z0);
  }

  lemma FirstClosing(t: Tab, t2: Tab) returns (z: nat)
    requires Shaped(t) && Shaped(t2) && Closing(t) && t.keyAt != [] && |t2.keyAt| == |t.keyAt|
    requires (t2.mem == t.mem && t2.keyAt == t.keyAt) || Settled(t2)
    ensures Closed(t2, z)
  {
    if t2.mem == t.mem && t2.keyAt == t.keyAt {
      z :| Closed(t, z);
      assert Closed(t2, z);
    } else {
      z := HighestEnd(t2, |t2.keyAt|);
    }
  }

  /** Of settled keys, the final 0 furthest back. */
  lemma HighestEnd(t: Tab, n: nat) returns (z: nat)
    requires Shaped(t) && Settled(t) && 0 < n <= |t.keyAt|
    ensures z < |t.mem| && t.mem[z] == NUL && forall k :: 0 <= k < n ==> t.keyAt[k] <= z
  {
    assert Ends(t.mem, t.keyAt[n - 1], t.spare);
    z := t.keyAt[n - 1] + StrLen(t.mem, t.keyAt[n - 1]);
    if n > 1 {
      var y := HighestEnd(t, n - 1);
      if y > z {
        z := y;
      }
    }
  }

  // ----- Runs

  /** The calls that change the tables, with what malloc's memory holds should they need more of it. */
  datatype Op =
    | ParseRecord(record: string, fill: Garbage)
    | Set(key: string, value: NewValue, kind: KeyType, fill: Garbage)
    | Update(key: string, value: NewValue, kind: KeyType, fill: Garbage)
    | Reset(spoilt: seq<KeyType>)  // the type table, should what it holds not be known

  /** The tables, or nothing that can be told: the parser has read on behind a record, or texts do not fit a copy. */
  datatype State = Known(tab: Tab) | Unknown

  /** C strings have no 0 in them, and snprintf's numbers at most eleven characters. */
  ghost predicate ProperOp(op: Op) {
    match op
    case ParseRecord(record, _) => NUL !in record
    case Set(key, value, kind, _) => NUL !in key && Proper(value) && OfKind(value, kind)
    case Update(key, value, kind, _) => NUL !in key && Proper(value) && OfKind(value, kind)
    case Reset(spoilt) => |spoilt| == MAXKEYS
  }

  function Apply(t: Tab, op: Op): (r: State)
    requires Shaped(t) && ProperOp(op)
    ensures r.Known? ==> Shaped(r.tab)
  {
    match op
    case ParseRecord(record, fill) =>
      if !CanHold(t, |record| + 1) then Unknown
      else
        (match ParseRecordIn(t, record, fill)
         case MParsed(next, _) => Known(next)
         case MRefused(_, next) => Known(next)
         case MLost => Unknown)
    case Set(key, value, kind, fill) =>
      if CanHold(t, Required(key, value)) then Known(SetIn(t, key, value, kind, fill).1) else Unknown
    case Update(key, value, kind, fill) =>
      if CanHold(t, Needed(value)) then Known(UpdateIn(t, key, value, kind, fill).1) else Unknown
    case Reset(_) => Known(Emptied(t.types))
  }

  ghost predicate ProperOps(ops: seq<Op>) {
    forall i :: 0 <= i < |ops| ==> ProperOp(ops[i])
  }

  function Run(t: Tab, ops: seq<Op>): (r: State)
    requires Shaped(t) && ProperOps(ops)
    ensures r.Known? ==> Shaped(r.tab)
    decreases |ops|
  {
    if ops == [] then Known(t)
    else
      match Run(t, ops[..|ops| - 1])
      case Known(now) => Apply(now, ops[|ops| - 1])
      case Unknown => if ops[|ops| - 1].Reset? then Known(Emptied(ops[|ops| - 1].spoilt)) else Unknown
  }

  /** Every call but a reset is made while nothing is exposed, and keys are set trimmed. */
  ghost predicate Careful(t: Tab, ops: seq<Op>)
    requires Shaped(t) && ProperOps(ops)
    decreases |ops|
  {
    ops != [] ==>
      && Careful(t, ops[..|ops| - 1])
      && var now, op := Run(t, ops[..|ops| - 1]), ops[|ops| - 1];
         && (now.Known? && !op.Reset? ==> !Exposed(now.tab))
         && (op.Set? ==> Trimmed(op.key))
  }

  /** One call. */
  lemma ApplyKept(t: Tab, op: Op)
    requires Shaped(t) && ProperOp(op) && Consistent(t) && (op.Reset? || !Exposed(t)) && (op.Set? ==> Trimmed(op.key))
    ensures Apply(t, op).Known? ==> Consistent(Apply(t, op).tab)
  {
    hide Exposed, Consistent, CanHold, ParseRecordIn, SetIn, UpdateIn, Trimmed, Emptied, Proper;
    match op {
      case ParseRecord(record, fill) =>
        if CanHold(t, |record| + 1) {
          RecordKept(t, record, fill);
        }
      case Set(key, value, kind, fill) =>
        if CanHold(t, Required(key, value)) {
          SetKept(t, key, value, kind, fill);
        }
      case Update(key, value, kind, fill) =>
        if CanHold(t, Needed(value)) {
          UpdateKept(t, key, value, kind, fill);
        }
      case Reset(_) =>
        EmptiedConsistent(t.types);
    }
  }

  lemma EmptiedConsistent(types: seq<KeyType>)
    requires |types| == MAXKEYS
    ensures Consistent(Emptied(types)) && !Exposed(Emptied(types))
  {
  }

  /** A careful run keeps the tables consistent. */
  lemma {:induction false} CarefulKept(t: Tab, ops: seq<Op>)
    requires Shaped(t) && ProperOps(ops) && Consistent(t) && Careful(t, ops)
    ensures Run(t, ops).Known? ==> Consistent(Run(t, ops).tab)
    decreases |ops|
  {
    hide Exposed, Apply, Trimmed, Emptied, FindKey, View, Consistent, Proper, OfKind;
    if ops != [] {
      var front := ops[..|ops| - 1];
      CarefulKept(t, front);
      var now := Run(t, front);
      if now.Known? {
        ApplyKept(now.tab, ops[|ops| - 1]);
      } else if ops[|ops| - 1].Reset? {
        EmptiedConsistent(ops[|ops| - 1].spoilt);
      }
    }
  }

  // ----- Which runs are careful

  /** A record that is refused and leaves an entry that could do harm. */
  ghost predicate LeavesHarm(t: Tab, op: Op)
    requires Shaped(t) && ProperOp(op)
  {
    && op.ParseRecord? && CanHold(t, |op.record| + 1)
    && var r := ParseRecordIn(t, op.record, op.fill);
       r.MRefused? && exists k :: |t.keyAt| <= k < |r.tab.keyAt| && !Harmless(r.tab, k)
  }

  /**
   * Keys are set trimmed, and a record that is refused, unless it added no
   * entry or only such as can do no harm, is directly followed by a reset.
   */
  ghost predicate Heeded(t: Tab, ops: seq<Op>)
    requires Shaped(t) && ProperOps(ops)
    decreases |ops|
  {
    ops != [] ==>
      && Heeded(t, ops[..|ops| - 1])
      && (ops[|ops| - 1].Set? ==> Trimmed(ops[|ops| - 1].key))
      && (ops[|ops| - 1].Reset? || !EndsInHarm(t, ops[..|ops| - 1]))
  }

  ghost predicate EndsInHarm(t: Tab, ops: seq<Op>)
    requires Shaped(t) && ProperOps(ops)
  {
    && ops != [] && Run(t, ops[..|ops| - 1]).Known?
    && LeavesHarm(Run(t, ops[..|ops| - 1]).tab, ops[|ops| - 1])
  }

  /** One call on tables that expose nothing exposes nothing, but for a record that leaves harm. */
  lemma ApplyExposes(t: Tab, op: Op)
    requires Shaped(t) && ProperOp(op) && Consistent(t) && !Exposed(t) && (op.Set? ==> Trimmed(op.key))
    ensures Apply(t, op).Known? ==> Consistent(Apply(t, op).tab) && (Exposed(Apply(t, op).tab) <==> LeavesHarm(t, op))
  {
    hide Exposed, Consistent, CanHold, ParseRecordIn, SetIn, UpdateIn, Trimmed, Emptied, Proper, OfKind, Harmless;
    match op {
      case ParseRecord(record, fill) =>
        if CanHold(t, |record| + 1) {
          RecordKept(t, record, fill);
          if ParseRecordIn(t, record, fill).MRefused? {
            RefusedExposes(t, record, fill);
          }
        }
      case Set(key, value, kind, fill) =>
        if CanHold(t, Required(key, value)) {
          SetKept(t, key, value, kind, fill);
        }
      case Update(key, value, kind, fill) =>
        if CanHold(t, Needed(value)) {
          UpdateKept(t, key, value, kind, fill);
        }
      case Reset(_) =>
        EmptiedConsistent(t.types);
    }
  }

  /** Such a run is careful; it ends with something exposed just when its last call leaves harm. */
  lemma {:induction false} HeededIsCareful(t: Tab, ops: seq<Op>)
    requires Shaped(t) && ProperOps(ops) && Consistent(t) && !Exposed(t) && Heeded(t, ops)
    ensures Careful(t, ops)
    ensures Run(t, ops).Known? ==>
              Consistent(Run(t, ops).tab) && (Exposed(Run(t, ops).tab) <==> EndsInHarm(t, ops))
    decreases |ops|
  {
    hide Exposed, Apply, Trimmed, Emptied, FindKey, View, Consistent, Proper, OfKind, LeavesHarm;
    if ops != [] {
      var front, last := ops[..|ops| - 1], ops[|ops| - 1];
      HeededIsCareful(t, front);
      var now := Run(t, front);
      if now.Unknown? {
        if last.Reset? {
          EmptiedConsistent(last.spoilt);
        }
      } else if last.Reset? {
        ResetOnly(now.tab, last);
      } else {
        ApplyExposes(now.tab, last);
      }
    }
  }

  lemma ResetOnly(t: Tab, op: Op)
    requires Shaped(t) && ProperOp(op) && op.Reset?
    ensures var r := Apply(t, op); r.Known? && Consistent(r.tab) && !Exposed(r.tab) && !LeavesHarm(t, op)
  {
    EmptiedConsistent(t.types);
  }

  /**
   * The latest definition wins: after any such run from reset tables, every
   * valid entry is the one a lookup of its key finds.
   */
  lemma LatestWins(types: seq<KeyType>, ops: seq<Op>)
    requires |types| == MAXKEYS && ProperOps(ops) && Heeded(Emptied(types), ops)
    ensures var r := Run(Emptied(types), ops);
            r.Known? ==>
              forall i :: 0 <= i < |r.tab.keyAt| && r.tab.types[i] != KT_INVALID ==>
                FindKey(View(r.tab), View(r.tab).keys[i]) == i
  {
    hide Exposed, Run, Heeded, Careful, Closing, FindKey, View, EndsInHarm;
    EmptiedConsistent(types);
    HeededIsCareful(Emptied(types), ops);
  }

  /** The printer prints entry i. */
  predicate Shows(t: Tab, i: nat)
    requires Shaped(t) && i < |t.keyAt|
  {
    EntryText(View(t), i) != ""
  }

  /** ... and so the printer prints no key twice. */
  lemma PrintedOnce(types: seq<KeyType>, ops: seq<Op>)
    requires |types| == MAXKEYS && ProperOps(ops) && Heeded(Emptied(types), ops)
    ensures var r := Run(Emptied(types), ops);
            r.Known? ==>
              forall i, k :: 0 <= i < k < |r.tab.keyAt| && Shows(r.tab, i) && Shows(r.tab, k) ==>
                View(r.tab).keys[i] != View(r.tab).keys[k]
  {
    hide Exposed, Run, Heeded, Careful, Shows, View, EndsInHarm;
    EmptiedConsistent(types);
    HeededIsCareful(Emptied(types), ops);
    var r := Run(Emptied(types), ops);
    if r.Known? {
      ShownOnce(r.tab);
    }
  }

  lemma ShownOnce(t: Tab)
    requires Shaped(t) && Latest(t)
    ensures forall i, k :: 0 <= i < k < |t.keyAt| && Shows(t, i) && Shows(t, k) ==>
              View(t).keys[i] != View(t).keys[k]
  {
    hide StrLen, CStr, PairText, Texts;
    LatestMeans(t);
  }

  /** Tables whose texts all lie below the free space expose nothing. */
  lemma SettledNotExposed(t: Tab)
    requires Shaped(t) && Settled(t)
    ensures !Exposed(t)
  {
    SettledGuarded(t);
  }
}

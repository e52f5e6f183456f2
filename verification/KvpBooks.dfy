// Keeping the books: what the size of the buffer, the free space and the texts
// come to over a run, told from the calls alone.
module KvpBooks {
  import opened KvpText
  import opened KvpValidate
  import opened KvpStore
  import opened KvpTrip
  import opened KvpInts
  import opened KvpMemory
  import opened KvpParser
  import opened KvpBuffer
  import opened KvpOps
  import opened KvpPlaces
  import opened KvpSetters
  import opened KvpSteps
  import opened KvpLatest
  import opened KvpExposed
  import opened KvpRuns

  /** The texts, the size of the buffer (0 without one), and the characters in front of the free space. */
  datatype Book = Book(store: Store, size: nat, used: nat)

  /**
   * What the calls so far have come to: the book; or a record was refused
   * behind entries it had added, and a reset is due; or what the tables hold
   * cannot be told from the calls.
   */
  datatype Ledger = Open(book: Book) | Shut(types: seq<KeyType>) | Untold

  function Booked(t: Tab): (b: Book)
    requires Shaped(t)
    ensures Formed(b.store)
  {
    Book(View(t), |t.mem|, t.spare)
  }

  predicate WellKept(l: Ledger) {
    match l
    case Open(b) => Formed(b.store)
    case Shut(types) => |types| == MAXKEYS
    case Untold => true
  }

  /** The buffer, made or grown for so many characters. */
  function Extended(b: Book, size: nat, need: nat): (r: Book)
    requires Formed(b.store)
    ensures r.store == b.store
  {
    var b1 := Started(b, size);
    if b1.size - b1.used < need then Book(b1.store, b1.size + AtLeast(need), Live(b1.store)) else b1
  }

  function Started(b: Book, size: nat): Book {
    if b.size == 0 then Book(b.store, AtLeast(size), 0) else b
  }

  function Cleared(types: seq<KeyType>): (b: Book)
    requires |types| == MAXKEYS
    ensures Formed(b.store)
  {
    Book(Store([], [], [], types), 0, 0)
  }

  function ParseBook(b: Book, record: string): (r: Ledger)
    requires Formed(b.store)
    ensures WellKept(r)
  {
    var b1 := Extended(b, |record| + 1, |record| + 1);
    match ParseFrom(b.store, TrimLeft(record))
    case Parsed(s, open) => Open(Book(s, b1.size, b1.used + |record| + (if open then 2 else 1)))
    case Refused(_, left) =>
      if |left.keys| == |b.store.keys| then Open(Book(left, b1.size, b1.used)) else Shut(left.types)
    case Lost => Untold
  }

  /** A string that takes just what is asked for is shortened; an empty one, or an empty list, may not even end. */
  function SetBook(b: Book, key: string, v: NewValue, kind: KeyType): (r: Ledger)
    requires Formed(b.store)
    ensures WellKept(r)
  {
    var b1 := Extended(b, 0, Required(key, v));
    var short := v.Characters? && b1.size - b1.used == Required(key, v);
    if Nothing(v) || (Full(v) == "" && short) then Untold
    else
      var (code, s) := SetText(b.store, key, Kept(v, short), Count(v), kind);
      if code == KVP_E_OK then Open(Book(s, b1.size, b1.used + |key| + |Full(v)| + 2))
      else if code == KVP_E_BADKEY then Open(b1)
      else Open(Started(b, 0))
  }

  function UpdateBook(b: Book, key: string, v: NewValue, kind: KeyType): (r: Ledger)
    requires Formed(b.store)
    ensures WellKept(r)
  {
    var b1 := Extended(b, 0, Needed(v));
    var short := v.Characters? && b1.size - b1.used == Needed(v);
    if Nothing(v) || (Full(v) == "" && short) then Untold
    else
      var (code, s) := UpdateText(b.store, key, Kept(v, short), Count(v), kind);
      if code == KVP_E_OK then Open(Book(s, b1.size, b1.used + |Full(v)| + 1)) else Open(b)
  }

  function Enter(l: Ledger, op: Op): (r: Ledger)
    requires WellKept(l)
    ensures WellKept(r)
  {
    match l
    case Open(b) =>
      (match op
       case ParseRecord(record, _) => ParseBook(b, record)
       case Set(key, value, kind, _) => SetBook(b, key, value, kind)
       case Update(key, value, kind, _) => UpdateBook(b, key, value, kind)
       case Reset(_) => Open(Cleared(b.store.types)))
    case Shut(types) => if op.Reset? then Open(Cleared(types)) else Untold
    case Untold => Untold
  }

  function Entered(l: Ledger, ops: seq<Op>): (r: Ledger)
    requires WellKept(l)
    ensures WellKept(r)
    decreases |ops|
  {
    if ops == [] then l else Enter(Entered(l, ops[..|ops| - 1]), ops[|ops| - 1])
  }

  // ----- The books agree with memory

  lemma SettledHolds(t: Tab, need: nat)
    requires Shaped(t) && Settled(t)
    ensures CanHold(t, need)
  {
    hide LiveTo, StrLen, CStr;
  }

  lemma ReadyBooked(t: Tab, size: nat, need: nat, fill: Garbage)
    requires Shaped(t) && CanHold(t, need)
    ensures var r := Ready(t, size, need, fill);
            Shaped(r) && Booked(r) == Extended(Booked(t), size, need)
  {
    hide StrLen, CStr, LiveTo, Texts, Copies;
    ReadyKeeps(t, size, need, fill);
    var t1 := if t.mem == "" then Initial(t, size, fill) else t;
    if t.mem == "" {
      EmptyView(t, t1);
    }
    if SpaceLeft(t1) < need {
      GrownParts(t1, need, fill);
    }
  }

  lemma StartedBooked(t: Tab, size: nat, fill: Garbage)
    requires Shaped(t)
    ensures var r := if t.mem == "" then Initial(t, size, fill) else t;
            Shaped(r) && Booked(r) == Started(Booked(t), size)
  {
    hide StrLen, CStr;
    if t.mem == "" {
      EmptyView(t, Initial(t, size, fill));
    }
  }

  /** A refused record that added nothing leaves settled tables settled. */
  lemma NothingAdded(t: Tab, t2: Tab, r: Tab, p: nat)
    requires Shaped(t) && Settled(t) && t2 == t.(mem := t2.mem) && SameBelow(t.mem, t2.mem, t.spare)
    requires AddedFrom(t2, r, p) && t.spare <= p && |r.keyAt| == |t.keyAt|
    ensures Settled(r) && |r.mem| == |t.mem| && r.spare == t.spare
  {
    hide StrLen, CStr, LiveTo;
    SteadyKept(t, r.mem, t.spare);
    var t1 := t.(mem := r.mem);
    assert r.keyAt == t.keyAt && r.valAt == t.valAt;
    assert View(r).keys == View(t1).keys && View(r).values == View(t1).values;
    LiveSame(View(r), View(t1), |r.keyAt|);
    assert Steady(r, r.spare);
  }

  /** Parsing. */
  lemma ParseBooked(t: Tab, record: string, fill: Garbage)
    requires Shaped(t) && Settled(t) && NUL !in record
    ensures CanHold(t, |record| + 1)
    ensures var m := ParseRecordIn(t, record, fill);
            match ParseBook(Booked(t), record)
            case Open(b) => (m.MParsed? || m.MRefused?) && Settled(m.tab) && Booked(m.tab) == b
            case Shut(types) => m.MRefused? && m.tab.types == types
            case Untold => true
  {
    hide StrLen, CStr, View, LiveTo, TrimLeft, ParseAt, ParseFrom, Ready, Grown, Put, Reaches, ParseRecordIn, Settled,
         Extended, CanHold;
    SettledHolds(t, |record| + 1);
    RecordViews(t, record, fill);
    var n := |record| + 1;
    ReadyKeeps(t, n, n, fill);
    ReadyBooked(t, n, n, fill);
    ParseSizes(t, record, fill);
    var m := ParseRecordIn(t, record, fill);
    if m.MRefused? && |m.tab.keyAt| == |t.keyAt| {
      RefusedSettled(t, record, fill);
    }
  }

  lemma RefusedSettled(t: Tab, record: string, fill: Garbage)
    requires Shaped(t) && Settled(t) && NUL !in record && CanHold(t, |record| + 1)
    requires var m := ParseRecordIn(t, record, fill); m.MRefused? && |m.tab.keyAt| == |t.keyAt|
    ensures Settled(ParseRecordIn(t, record, fill).tab)
  {
    hide StrLen, CStr, View, LiveTo, TrimLeft, ParseAt, Ready, Grown, Put, Reaches, ParseRecordIn, Settled, CanHold;
    var n := |record| + 1;
    ReadyKeeps(t, n, n, fill);
    var t1 := Ready(t, n, n, fill);
    LoadedText(t1, record);
    var t2, p := Loaded(t1, record), RecordStart(t1, record);
    ParsePlaces(t2, p, t1.spare + |record|);
    LoadedParse(t, record, fill);
    NothingAdded(t1, t2, ParseRecordIn(t, record, fill).tab, p);
  }

  /** The buffer and the free space after a record. */
  lemma ParseSizes(t: Tab, record: string, fill: Garbage)
    requires Shaped(t) && NUL !in record && CanHold(t, |record| + 1)
    ensures var t1, m := Ready(t, |record| + 1, |record| + 1, fill), ParseRecordIn(t, record, fill);
            && (m.MParsed? ==>
                  |m.tab.mem| == |t1.mem| && m.tab.spare == t1.spare + |record| + (if m.open then 2 else 1))
            && (m.MRefused? ==> |m.tab.mem| == |t1.mem| && m.tab.spare == t1.spare)
  {
    hide StrLen, CStr, View, LiveTo, TrimLeft, ParseAt, Ready, Grown, Put, Reaches, ParseRecordIn, CanHold, AddedFrom;
    var n := |record| + 1;
    ReadyKeeps(t, n, n, fill);
    var t1 := Ready(t, n, n, fill);
    LoadedText(t1, record);
    ParseSteps(t, record, fill);
    var t2, p := Loaded(t1, record), RecordStart(t1, record);
    ParsePlaces(t2, p, t1.spare + |record|);
    var r := ParseAt(t2, p);
    if r.MRefused? {
      SpareSame(t2, r.tab, p);
    }
  }

  lemma SpareSame(t: Tab, r: Tab, p: nat)
    requires AddedFrom(t, r, p)
    ensures r.spare == t.spare
  {
  }

  /** Setting. */
  lemma SetBooked(t: Tab, key: string, v: NewValue, kind: KeyType, fill: Garbage)
    requires Shaped(t) && Settled(t) && NUL !in key && Proper(v)
    ensures CanHold(t, Required(key, v))
    ensures var r := SetIn(t, key, v, kind, fill).1;
            match SetBook(Booked(t), key, v, kind)
            case Open(b) => Settled(r) && Booked(r) == b
            case Shut(_) => false
            case Untold => true
  {
    hide StrLen, CStr, View, LiveTo, Ready, Grown, Put, Settled, Extended, CanHold, Full, Proper, SetIn, FindKey,
         BadKey, Written, Initial, Started;
    var need := Required(key, v);
    SettledHolds(t, need);
    SettledLive(t);
    JustEnoughExactly(t, need, fill);
    ReadyBooked(t, 0, need, fill);
    StartedBooked(t, 0, fill);
    SetSizes(t, key, v, kind, fill);
    if !SetBook(Booked(t), key, v, kind).Untold? {
      if Full(v) == "" {
        EmptyIsString(v);
      }
      SetViews(t, key, v, kind, fill);
    }
  }

  /** The buffer and the free space after setting. */
  lemma SetSizes(t: Tab, key: string, v: NewValue, kind: KeyType, fill: Garbage)
    requires Shaped(t) && Proper(v) && CanHold(t, Required(key, v))
    ensures var t1, t2 := if t.mem == "" then Initial(t, 0, fill) else t, Ready(t, 0, Required(key, v), fill);
            var (code, r) := SetIn(t, key, v, kind, fill);
            if code == KVP_E_OK then |r.mem| == |t2.mem| && r.spare == t2.spare + |key| + |Full(v)| + 2
            else if code == KVP_E_BADKEY then |r.mem| == |t2.mem| && r.spare == t2.spare
            else r == t1
  {
    hide StrLen, CStr, View, LiveTo, Ready, Grown, Put, CanHold, Full, Proper, SetIn, FindKey, BadKey, Written, Initial;
    SetRefused(t, key, v, kind, fill);
    if Refusal(View(t), key, kind) == KVP_E_OK {
      SetAllowed(t, key, v, kind, fill);
    }
  }

  lemma EmptyIsString(v: NewValue)
    requires Proper(v) && !Nothing(v) && Full(v) == ""
    ensures v.Characters?
  {
    if v.Numbers? {
      JoinedSome(v.ts);
    }
  }

  lemma SettledLive(t: Tab)
    requires Shaped(t) && Settled(t)
    ensures Live(View(t)) <= |t.mem|
  {
  }

  /** Updating. */
  lemma UpdateBooked(t: Tab, key: string, v: NewValue, kind: KeyType, fill: Garbage)
    requires Shaped(t) && Settled(t) && NUL !in key && Proper(v)
    ensures CanHold(t, Needed(v))
    ensures var r := UpdateIn(t, key, v, kind, fill).1;
            match UpdateBook(Booked(t), key, v, kind)
            case Open(b) => Settled(r) && Booked(r) == b
            case Shut(_) => false
            case Untold => true
  {
    hide StrLen, CStr, View, LiveTo, Ready, Grown, Put, Settled, Extended, CanHold, Full, Proper, UpdateIn, FindKey,
         Written, Initial, Started;
    var need := Needed(v);
    SettledHolds(t, need);
    SettledLive(t);
    JustEnoughExactly(t, need, fill);
    ReadyBooked(t, 0, need, fill);
    if !UpdateBook(Booked(t), key, v, kind).Untold? {
      if Full(v) == "" {
        EmptyIsString(v);
      }
      UpdateViews(t, key, v, kind, fill);
      UpdateSteps(t, key, v, kind, fill);
    }
  }

  // ----- Runs

  /** The tables the books stand for. */
  ghost predicate Agrees(l: Ledger, s: State)
    requires s.Known? ==> Shaped(s.tab)
  {
    match l
    case Open(b) => s.Known? && Settled(s.tab) && Booked(s.tab) == b
    case Shut(types) => s.Known? && s.tab.types == types
    case Untold => true
  }

  /** There is room for the call, growing included. */
  ghost predicate RoomFor(s: State, op: Op)
    requires (s.Known? ==> Shaped(s.tab)) && ProperOp(op)
  {
    && s.Known?
    && match op
       case ParseRecord(record, _) => CanHold(s.tab, |record| + 1)
       case Set(key, value, _, _) => CanHold(s.tab, Required(key, value))
       case Update(_, value, _, _) => CanHold(s.tab, Needed(value))
       case Reset(_) => true
  }

  lemma EmptiedBooked(types: seq<KeyType>)
    requires |types| == MAXKEYS
    ensures Settled(Emptied(types)) && Booked(Emptied(types)) == Cleared(types)
  {
  }

  lemma EnterAgrees(l: Ledger, t: Tab, op: Op)
    requires WellKept(l) && Shaped(t) && ProperOp(op) && Agrees(l, Known(t))
    ensures Agrees(Enter(l, op), Apply(t, op))
    ensures !Enter(l, op).Untold? ==> RoomFor(Known(t), op)
  {
    hide Settled, Booked, ParseBook, SetBook, UpdateBook, Proper, OfKind, CanHold, ParseRecordIn, SetIn, UpdateIn,
         Emptied, Cleared;
    if op.Reset? {
      EmptiedBooked(t.types);
      TypesBooked(t);
    } else if l.Open? {
      match op {
        case ParseRecord(record, fill) => ParseBooked(t, record, fill);
        case Set(key, value, kind, fill) => SetBooked(t, key, value, kind, fill);
        case Update(key, value, kind, fill) => UpdateBooked(t, key, value, kind, fill);
        case Reset(_) =>
      }
    }
  }

  lemma TypesBooked(t: Tab)
    requires Shaped(t)
    ensures Booked(t).store.types == t.types
  {
  }

  /**
   * Over any run from settled tables, the books tell the texts, the size of the
   * buffer and the free space: all texts stay below it, and there was room for
   * every call.
   */
  lemma {:induction false} BooksKept(t: Tab, ops: seq<Op>)
    requires Shaped(t) && Settled(t) && ProperOps(ops)
    ensures Agrees(Entered(Open(Booked(t)), ops), Run(t, ops))
    ensures ops != [] && !Entered(Open(Booked(t)), ops).Untold? ==>
              RoomFor(Run(t, ops[..|ops| - 1]), ops[|ops| - 1])
    decreases |ops|
  {
    hide Settled, Booked, Enter, Apply, ProperOp, Agrees, RoomFor;
    var l := Open(Booked(t));
    if ops == [] {
      StartAgrees(t);
    } else {
      var front, last := ops[..|ops| - 1], ops[|ops| - 1];
      BooksKept(t, front);
      AgreeingKnown(Entered(l, front), Run(t, front), last);
      if !Entered(l, front).Untold? {
        EnterAgrees(Entered(l, front), Run(t, front).tab, last);
      }
    }
  }

  lemma StartAgrees(t: Tab)
    requires Shaped(t) && Settled(t)
    ensures Agrees(Open(Booked(t)), Known(t))
  {
  }

  lemma AgreeingKnown(l: Ledger, s: State, op: Op)
    requires (s.Known? ==> Shaped(s.tab)) && WellKept(l) && Agrees(l, s)
    ensures !l.Untold? ==> s.Known?
    ensures l.Untold? ==> Enter(l, op).Untold? && forall r: State :: (r.Known? ==> Shaped(r.tab)) ==>
        Agrees(Enter(l, op), r)
  {
  }

  /** What cannot be told stays so. */
  lemma {:induction false} ToldBefore(l: Ledger, ops: seq<Op>, i: nat)
    requires WellKept(l) && i <= |ops| && !Entered(l, ops).Untold?
    ensures !Entered(l, ops[..i]).Untold?
    decreases |ops|
  {
    hide ParseBook, SetBook, UpdateBook, Cleared;
    if i == |ops| {
      assert ops[..i] == ops;
    } else {
      var front := ops[..|ops| - 1];
      assert front[..i] == ops[..i];
      ToldBefore(l, front, i);
    }
  }

  /** So no call of the run has to do without room. */
  lemma RoomThroughout(t: Tab, ops: seq<Op>)
    requires Shaped(t) && Settled(t) && ProperOps(ops) && !Entered(Open(Booked(t)), ops).Untold?
    ensures forall i :: 0 <= i < |ops| ==> RoomFor(Run(t, ops[..i]), ops[i])
  {
    hide Settled, Booked, Enter, Entered, Run, ProperOp, RoomFor;
    forall i | 0 <= i < |ops| ensures RoomFor(Run(t, ops[..i]), ops[i]) {
      RoomAt(t, ops, i);
    }
  }

  lemma RoomAt(t: Tab, ops: seq<Op>, i: nat)
    requires Shaped(t) && Settled(t) && ProperOps(ops) && !Entered(Open(Booked(t)), ops).Untold? && i < |ops|
    ensures RoomFor(Run(t, ops[..i]), ops[i])
  {
    hide Settled, Booked, Enter, Entered, Run, ProperOp, RoomFor, Agrees;
    var front := ops[..i + 1];
    ToldBefore(Open(Booked(t)), ops, i + 1);
    assert front[..|front| - 1] == ops[..i];
    BooksKept(t, front);
  }

  // ----- Runs the books tell are careful

  ghost predicate SetsTrimmed(ops: seq<Op>) {
    forall i :: 0 <= i < |ops| && ops[i].Set? ==> Trimmed(ops[i].key)
  }

  lemma {:induction false} BooksCareful(t: Tab, ops: seq<Op>)
    requires Shaped(t) && Settled(t) && ProperOps(ops) && SetsTrimmed(ops)
    requires !Entered(Open(Booked(t)), ops).Untold?
    ensures Careful(t, ops)
    decreases |ops|
  {
    hide Settled, Booked, Run, ProperOp, ParseBook, SetBook, UpdateBook, Cleared, Exposed, Trimmed;
    if ops != [] {
      var front := ops[..|ops| - 1];
      ToldBefore(Open(Booked(t)), ops, |ops| - 1);
      BooksCareful(t, front);
      BooksKept(t, front);
      if Entered(Open(Booked(t)), front).Open? {
        SettledNotExposed(Run(t, front).tab);
      }
    }
  }

  /**
   * For a caller: a run from reset tables that the books tell leaves tables
   * that are known, in which the latest definition wins, and if the books stand
   * open they say what the tables are.
   */
  lemma BooksWin(types: seq<KeyType>, ops: seq<Op>)
    requires |types| == MAXKEYS && ProperOps(ops) && SetsTrimmed(ops)
    requires !Entered(Open(Cleared(types)), ops).Untold?
    ensures Agrees(Entered(Open(Cleared(types)), ops), Run(Emptied(types), ops))
    ensures forall i :: 0 <= i < |ops| ==> RoomFor(Run(Emptied(types), ops[..i]), ops[i])
    ensures var r := Run(Emptied(types), ops); r.Known? && Consistent(r.tab)
  {
    hide Settled, Booked, Run, Entered, ProperOp, RoomFor, Careful, SetsTrimmed, Consistent;
    EmptiedBooked(types);
    EmptiedConsistent(types);
    BooksKept(Emptied(types), ops);
    RoomThroughout(Emptied(types), ops);
    BooksCareful(Emptied(types), ops);
    CarefulKept(Emptied(types), ops);
    KnownBooks(Entered(Open(Cleared(types)), ops), Run(Emptied(types), ops));
  }

  lemma KnownBooks(l: Ledger, s: State)
    requires (s.Known? ==> Shaped(s.tab)) && Agrees(l, s) && !l.Untold?
    ensures s.Known?
  {
  }

  // ----- The same run on the table of texts

  /** The texts alone: there; shut until a reset; or not to be told. */
  datatype Told = Up(store: Store) | Down(types: seq<KeyType>) | Gone

  predicate WellTold(s: Told) {
    match s
    case Up(store) => Formed(store)
    case Down(types) => |types| == MAXKEYS
    case Gone => true
  }

  function Tell(s: Told, op: Op): (r: Told)
    requires WellTold(s)
    ensures WellTold(r)
  {
    match s
    case Up(store) =>
      (match op
       case ParseRecord(record, _) =>
         (match ParseFrom(store, TrimLeft(record))
          case Parsed(next, _) => Up(next)
          case Refused(_, left) => if |left.keys| == |store.keys| then Up(left) else Down(left.types)
          case Lost => Gone)
       case Set(key, v, kind, _) =>
         if Nothing(v) then Gone else Up(SetText(store, key, Full(v), Count(v), kind).1)
       case Update(key, v, kind, _) =>
         if Nothing(v) then Gone else Up(UpdateText(store, key, Full(v), Count(v), kind).1)
       case Reset(_) => Up(Cleared(store.types).store))
    case Down(types) => if op.Reset? then Up(Cleared(types).store) else Gone
    case Gone => Gone
  }

  function ToldRun(s: Told, ops: seq<Op>): (r: Told)
    requires WellTold(s)
    ensures WellTold(r)
    decreases |ops|
  {
    if ops == [] then s else Tell(ToldRun(s, ops[..|ops| - 1]), ops[|ops| - 1])
  }

  /** A book without its numbers. */
  function TextsOf(l: Ledger): Told {
    match l
    case Open(b) => Up(b.store)
    case Shut(types) => Down(types)
    case Untold => Gone
  }

  /** Calls that store no string: records, lists of numbers, resets. */
  ghost predicate NoStrings(ops: seq<Op>) {
    forall i :: 0 <= i < |ops| ==>
      && (ops[i].Set? ==> ops[i].value.Numbers?)
      && (ops[i].Update? ==> ops[i].value.Numbers?)
  }

  lemma {:induction false} TextsTold(l: Ledger, ops: seq<Op>)
    requires WellKept(l) && NoStrings(ops)
    ensures WellTold(TextsOf(l)) && ToldRun(TextsOf(l), ops) == TextsOf(Entered(l, ops))
    decreases |ops|
  {
    hide Tell, Enter, TextsOf;
    ToldWell(l);
    if ops != [] {
      TextsTold(l, ops[..|ops| - 1]);
      CallTold(Entered(l, ops[..|ops| - 1]), ops[|ops| - 1]);
    }
  }

  lemma ToldWell(l: Ledger)
    requires WellKept(l)
    ensures WellTold(TextsOf(l))
  {
  }

  lemma CallTold(l: Ledger, op: Op)
    requires WellKept(l) && (op.Set? ==> op.value.Numbers?) && (op.Update? ==> op.value.Numbers?)
    ensures WellTold(TextsOf(l)) && Tell(TextsOf(l), op) == TextsOf(Enter(l, op))
  {
    hide ParseFrom, SetText, UpdateText, TrimLeft, Required, Needed, Live, Full;
  }

  /**
   * Over any run of records, lists of numbers and resets from settled tables,
   * memory holds just the texts of the same run on the table of texts, all below
   * the free space, with room for every call.
   */
  lemma RunTold(t: Tab, ops: seq<Op>)
    requires Shaped(t) && Settled(t) && ProperOps(ops) && NoStrings(ops)
    ensures var r := Run(t, ops);
            match ToldRun(Up(View(t)), ops)
            case Up(s) => r.Known? && Settled(r.tab) && View(r.tab) == s
            case Down(types) => r.Known? && r.tab.types == types
            case Gone => true
    ensures !ToldRun(Up(View(t)), ops).Gone? ==> forall i :: 0 <= i < |ops| ==> RoomFor(Run(t, ops[..i]), ops[i])
  {
    hide Settled, View, Run, Entered, ToldRun, ProperOp, RoomFor;
    var l := Open(Booked(t));
    BooksKept(t, ops);
    TextsTold(l, ops);
    if !Entered(l, ops).Untold? {
      RoomThroughout(t, ops);
    }
  }
}

// The lookup of a watch's index by its descriptor, with its one-entry cache.
module WatchCache {
  /** Registered descriptors in order, and the two static variables of the lookup. */
  datatype Cache = Cache(watches: seq<int>, index: int, wd: int)

  const EMPTY: Cache := Cache([], -1, 0)

  /** First place of a descriptor, or -1. */
  function FirstIndex(watches: seq<int>, wd: int): (i: int)
    ensures -1 <= i < |watches|
    ensures i >= 0 ==> watches[i] == wd
    ensures forall k :: 0 <= k < (if i >= 0 then i else |watches|) ==> watches[k] != wd
  {
    FirstFrom(watches, wd, 0)
  }

  function FirstFrom(watches: seq<int>, wd: int, k: nat): (i: int)
    requires k <= |watches|
    ensures i == -1 || k <= i < |watches|
    ensures i >= 0 ==> watches[i] == wd
    ensures forall j :: k <= j < (if i >= 0 then i else |watches|) ==> watches[j] != wd
    decreases |watches| - k
  {
    if k == |watches| then -1 else if watches[k] == wd then k else FirstFrom(watches, wd, k + 1)
  }

  lemma FirstIs(watches: seq<int>, wd: int, i: nat)
    requires i < |watches| && watches[i] == wd && forall k :: 0 <= k < i ==> watches[k] != wd
    ensures FirstIndex(watches, wd) == i
  {
  }

  /** A lookup: the answer, and what the static variables hold afterwards. */
  function Lookup(c: Cache, n: int): (r: (int, Cache)) {
    if c.wd == n then (c.index, c)
    else
      var i := FirstIndex(c.watches, n);
      if i >= 0 then (i, c.(index := i, wd := n))
      else (-1, c.(index := |c.watches|))
  }

  datatype Op = Register(wd: int) | Ask(n: int)

  function Apply(c: Cache, op: Op): Cache {
    match op
    case Register(wd) => c.(watches := c.watches + [wd])
    case Ask(n) => Lookup(c, n).1
  }

  function Run(c: Cache, ops: seq<Op>): Cache {
    if ops == [] then c else Apply(Run(c, ops[..|ops| - 1]), ops[|ops| - 1])
  }

  /** Whether the last search that was really made came to nothing. */
  function LastSearchMissed(ops: seq<Op>): bool {
    if ops == [] then false
    else
      var before := ops[..|ops| - 1];
      var c := Run(EMPTY, before);
      match ops[|ops| - 1]
      case Register(_) => LastSearchMissed(before)
      case Ask(n) => if c.wd == n then LastSearchMissed(before) else FirstIndex(c.watches, n) < 0
  }

  /** inotify's descriptors are positive. */
  ghost predicate Positive(ops: seq<Op>) {
    forall k :: 0 <= k < |ops| ==> match ops[k] case Register(wd) => wd >= 1 case Ask(n) => n >= 1
  }

  /** What the static variables hold: nothing yet, the first place of wd, or an index past that place. */
  lemma {:induction false} CacheState(ops: seq<Op>)
    requires Positive(ops)
    ensures var c := Run(EMPTY, ops);
            if c.wd == 0 then FirstIndex(c.watches, 0) == -1
            else if LastSearchMissed(ops) then 0 <= FirstIndex(c.watches, c.wd) < c.index
            else c.index == FirstIndex(c.watches, c.wd) >= 0
    ensures Run(EMPTY, ops).wd >= 0 && |Run(EMPTY, ops).watches| <= |ops|
    decreases |ops|
  {
    if ops != [] {
      var before := ops[..|ops| - 1];
      CacheState(before);
      var c := Run(EMPTY, before);
      match ops[|ops| - 1] {
        case Register(wd) =>
          if c.wd != 0 {
            FirstIs(c.watches + [wd], c.wd, FirstIndex(c.watches, c.wd));
          }
        case Ask(n) =>
      }
    }
  }

  /**
   * Exactly when a lookup is right: on any run of registrations and lookups,
   * for any descriptor, the answer is the first matching index (or -1) unless
   * the descriptor is the cached one and the last search came to nothing.
   */
  lemma LookupExact(ops: seq<Op>, n: int)
    requires Positive(ops) && n >= 1
    ensures var c := Run(EMPTY, ops);
            Lookup(c, n).0 == FirstIndex(c.watches, n) <==> !(LastSearchMissed(ops) && c.wd == n)
  {
    CacheState(ops);
  }

  /** Every lookup so far was for a registered descriptor. */
  ghost predicate NoMiss(ops: seq<Op>) {
    forall k :: 0 <= k < |ops| && ops[k].Ask? ==> FirstIndex(Run(EMPTY, ops[..k]).watches, ops[k].n) >= 0
  }

  /** Without a miss in the run, every lookup is right. */
  lemma {:induction false} LookupsAgree(ops: seq<Op>, n: int)
    requires Positive(ops) && n >= 1 && NoMiss(ops)
    ensures var c := Run(EMPTY, ops);
            Lookup(c, n).0 == FirstIndex(c.watches, n)
  {
    NeverMissed(ops);
    LookupExact(ops, n);
  }

  lemma {:induction false} NeverMissed(ops: seq<Op>)
    requires NoMiss(ops)
    ensures !LastSearchMissed(ops)
    decreases |ops|
  {
    if ops != [] {
      var before := ops[..|ops| - 1];
      forall k | 0 <= k < |before| && before[k].Ask?
        ensures FirstIndex(Run(EMPTY, before[..k]).watches, before[k].n) >= 0
      {
        assert before[..k] == ops[..k] && before[k] == ops[k];
      }
      NeverMissed(before);
    }
  }

  /** Three calls that go wrong: look up a watch, then one that is not there, then the first again. */
  lemma MissSpoils()
    ensures var ops := [Register(7), Ask(7), Ask(8)];
            Lookup(Run(EMPTY, ops), 7).0 == 1 && FirstIndex(Run(EMPTY, ops).watches, 7) == 0
  {
    var r := [Register(7)];
    var a := [Register(7), Ask(7)];
    var ops := [Register(7), Ask(7), Ask(8)];
    assert ops[..2] == a && a[..1] == r && r[..0] == [];
    assert Run(EMPTY, r) == Cache([7], -1, 0);
    FirstIs([7], 7, 0);
    assert Run(EMPTY, a) == Cache([7], 0, 7);
    assert Run(EMPTY, ops) == Cache([7], 1, 7);
  }
}

// The key/value tables as they lie in memory: offsets into one buffer of
// characters, where every text runs to its final 0.
module KvpMemory {
  import opened KvpText
  import opened KvpValidate
  import opened KvpStore

  const NUL: char := '\0'

  // ----- Texts in memory

  /** strlen; a text without a final 0 runs to the end of the buffer. */
  function StrLen(mem: string, at: nat): (n: nat)
    requires at <= |mem|
    ensures at + n <= |mem|
    ensures forall k :: at <= k < at + n ==> mem[k] != NUL
    ensures at + n < |mem| ==> mem[at + n] == NUL
    decreases |mem| - at
  {
    if at == |mem| || mem[at] == NUL then 0 else 1 + StrLen(mem, at + 1)
  }

  function CStr(mem: string, at: nat): (s: string)
    requires at <= |mem|
    ensures |s| == StrLen(mem, at) && NUL !in s
  {
    mem[at..at + StrLen(mem, at)]
  }

  lemma StrLenIs(mem: string, at: nat, n: nat)
    requires at + n <= |mem| && (at + n < |mem| ==> mem[at + n] == NUL)
    requires forall k :: at <= k < at + n ==> mem[k] != NUL
    ensures StrLen(mem, at) == n
  {
  }

  lemma CStrIs(mem: string, at: nat, s: string)
    requires at + |s| < |mem| && mem[at..at + |s|] == s && mem[at + |s|] == NUL && NUL !in s
    ensures CStr(mem, at) == s
  {
    forall k | at <= k < at + |s| ensures mem[k] != NUL {
      assert mem[k] == s[k - at];
    }
    StrLenIs(mem, at, |s|);
  }

  /** The text at `at` has its final 0 below `p`. */
  predicate Ends(mem: string, at: nat, p: nat) {
    at <= |mem| && at + StrLen(mem, at) < p && at + StrLen(mem, at) < |mem|
  }

  /** Such a text does not see what happens from `p` on. */
  lemma EndsKept(mem: string, mem2: string, at: nat, p: nat)
    requires Ends(mem, at, p) && |mem| == |mem2|
    requires forall k :: 0 <= k < p && k < |mem| ==> mem2[k] == mem[k]
    ensures Ends(mem2, at, p) && CStr(mem2, at) == CStr(mem, at)
  {
    StrLenIs(mem2, at, StrLen(mem, at));
  }

  /** A text sees only what lies from its start on. */
  lemma CStrFrom(mem: string, mem2: string, at: nat)
    requires |mem| == |mem2| && at <= |mem|
    requires forall k :: at <= k < |mem| ==> mem2[k] == mem[k]
    ensures CStr(mem2, at) == CStr(mem, at)
  {
    StrLenIs(mem2, at, StrLen(mem, at));
  }

  lemma CStrTail(mem: string, at: nat, k: nat)
    requires at <= |mem| && k <= StrLen(mem, at)
    ensures StrLen(mem, at + k) == StrLen(mem, at) - k && CStr(mem, at + k) == CStr(mem, at)[k..]
  {
    StrLenIs(mem, at + k, StrLen(mem, at) - k);
  }

  /** Cutting a text at its k-th character. */
  lemma CStrCut(mem: string, at: nat, k: nat)
    requires at <= |mem| && k <= StrLen(mem, at) && at + k < |mem|
    ensures CStr(mem[at + k := NUL], at) == CStr(mem, at)[..k]
  {
    StrLenIs(mem[at + k := NUL], at, k);
  }

  /** Characters written over others. */
  function Put(mem: string, at: nat, s: string): (r: string)
    requires at + |s| <= |mem|
    ensures |r| == |mem|
  {
    mem[..at] + s + mem[at + |s|..]
  }

  lemma PutText(mem: string, at: nat, s: string)
    requires at + |s| + 1 <= |mem| && NUL !in s
    ensures var r := Put(mem, at, s + [NUL]);
            && CStr(r, at) == s
            && r[at + |s|] == NUL
            && (forall k :: 0 <= k < at ==> r[k] == mem[k])
            && (forall k :: at + |s| < k < |mem| ==> r[k] == mem[k])
  {
    CStrIs(Put(mem, at, s + [NUL]), at, s);
  }

  /** Some final 0 stands at or behind every place up to z. */
  lemma BeforeNul(mem: string, at: nat, z: nat)
    requires at <= z < |mem| && mem[z] == NUL
    ensures at + StrLen(mem, at) <= z
  {
  }

  // ----- The tables

  /** The static tables: the buffer, offsets of keys and values, counts, types, and where free space begins. */
  datatype Tab = Tab(mem: string, keyAt: seq<nat>, valAt: seq<nat>, counts: seq<int>, types: seq<KeyType>, spare: nat)

  predicate Shaped(t: Tab) {
    && |t.keyAt| == |t.valAt| == |t.counts| <= MAXKEYS == |t.types|
    && t.spare <= |t.mem| + 1
    && (forall i :: 0 <= i < |t.keyAt| ==> t.keyAt[i] <= |t.mem| && t.valAt[i] <= |t.mem|)
    && (t.mem == "" ==> t.keyAt == [] && t.spare == 0)
  }

  function Texts(mem: string, at: seq<nat>): (ts: seq<string>)
    requires forall i :: 0 <= i < |at| ==> at[i] <= |mem|
    ensures |ts| == |at|
  {
    seq(|at|, i requires 0 <= i < |at| => CStr(mem, at[i]))
  }

  /** The table the texts in memory make up. */
  function View(t: Tab): (s: Store)
    requires Shaped(t)
    ensures Formed(s) && |s.keys| == |t.keyAt| && s.counts == t.counts && s.types == t.types
  {
    Store(Texts(t.mem, t.keyAt), Texts(t.mem, t.valAt), t.counts, t.types)
  }

  /** Every text ends below `p`. */
  ghost predicate Steady(t: Tab, p: nat)
    requires Shaped(t)
  {
    forall i :: 0 <= i < |t.keyAt| ==> Ends(t.mem, t.keyAt[i], p) && Ends(t.mem, t.valAt[i], p)
  }

  /** Every text lies below the free space, and together they take no more than what lies below it. */
  ghost predicate Settled(t: Tab)
    requires Shaped(t)
  {
    Steady(t, t.spare) && Live(View(t)) <= t.spare && Live(View(t)) <= |t.mem|
  }

  /** Texts below `p` do not see what happens behind it. */
  lemma SteadyKept(t: Tab, mem2: string, p: nat)
    requires Shaped(t) && Steady(t, p) && |mem2| == |t.mem|
    requires forall k :: 0 <= k < p && k < |t.mem| ==> mem2[k] == t.mem[k]
    ensures Shaped(t.(mem := mem2)) && Steady(t.(mem := mem2), p) && View(t.(mem := mem2)) == View(t)
  {
    var t2 := t.(mem := mem2);
    forall i | 0 <= i < |t.keyAt|
      ensures Ends(mem2, t.keyAt[i], p) && CStr(mem2, t.keyAt[i]) == CStr(t.mem, t.keyAt[i])
      ensures Ends(mem2, t.valAt[i], p) && CStr(mem2, t.valAt[i]) == CStr(t.mem, t.valAt[i])
    {
      EndsKept(t.mem, mem2, t.keyAt[i], p);
      EndsKept(t.mem, mem2, t.valAt[i], p);
    }
    assert Texts(mem2, t.keyAt) == Texts(t.mem, t.keyAt);
    assert Texts(mem2, t.valAt) == Texts(t.mem, t.valAt);
  }

  function Added(t: Tab, keyAt: nat, valAt: nat, count: int, kind: KeyType): (r: Tab)
    requires Shaped(t) && |t.keyAt| < MAXKEYS
    ensures r.spare == t.spare && r.mem == t.mem
  {
    Tab(t.mem, t.keyAt + [keyAt], t.valAt + [valAt], t.counts + [count], t.types[|t.keyAt| := kind], t.spare)
  }

  lemma AddedView(t: Tab, keyAt: nat, valAt: nat, count: int, kind: KeyType)
    requires Shaped(t) && |t.keyAt| < MAXKEYS && t.mem != "" && keyAt <= |t.mem| && valAt <= |t.mem|
    ensures var r := Added(t, keyAt, valAt, count, kind);
            && Shaped(r)
            && View(r) == Appended(View(t), CStr(t.mem, keyAt), CStr(t.mem, valAt), count, kind)
  {
    var r := Added(t, keyAt, valAt, count, kind);
    assert Texts(r.mem, r.keyAt) == Texts(t.mem, t.keyAt) + [CStr(t.mem, keyAt)];
    assert Texts(r.mem, r.valAt) == Texts(t.mem, t.valAt) + [CStr(t.mem, valAt)];
  }
}

// The buffer behind the key/value tables: getting it, growing it, and the
// operations that write texts into its free space.
module KvpBuffer {
  import opened KvpText
  import opened KvpValidate
  import opened KvpStore
  import opened KvpInts
  import opened KvpMemory
  import opened KvpParser

  const KVP_MIN_BUFFER_SIZE: nat := 20480

  /** What malloc's memory happens to hold. */
  type Garbage = nat -> char

  function Fresh(n: nat, fill: Garbage): (mem: string)
    ensures |mem| == n
  {
    seq(n, i requires 0 <= i < n => fill(i))
  }

  function AtLeast(n: nat): (m: nat)
    ensures m >= n && m >= KVP_MIN_BUFFER_SIZE
  {
    if n < KVP_MIN_BUFFER_SIZE then KVP_MIN_BUFFER_SIZE else n
  }

  /** Free characters; -1 when the last text's final 0 had no room. */
  function SpaceLeft(t: Tab): int { |t.mem| - t.spare }

  /** kvpReset: no entries and no buffer; the types stay. */
  function Emptied(types: seq<KeyType>): (t: Tab)
    requires |types| == MAXKEYS
    ensures Shaped(t)
  {
    Tab("", [], [], [], types, 0)
  }

  /** kvpInit. */
  function Initial(t: Tab, size: nat, fill: Garbage): (r: Tab)
    requires Shaped(t) && t.keyAt == []
    ensures Shaped(r) && r.keyAt == [] && SpaceLeft(r) == AtLeast(size)
  {
    t.(mem := Fresh(AtLeast(size), fill), spare := 0)
  }

  // ----- Growing

  /** The first k entries' texts one behind the other, each with its 0. */
  function Copies(s: Store, k: nat): (c: string)
    requires Formed(s) && k <= |s.keys|
    ensures |c| == LiveTo(s, k)
  {
    if k == 0 then "" else Copies(s, k - 1) + s.keys[k - 1] + [NUL] + s.values[k - 1] + [NUL]
  }

  /** kvpRealloc: a larger buffer with all texts copied to its front. */
  function Grown(t: Tab, minExtension: nat, fill: Garbage): (r: Tab)
    requires Shaped(t) && Live(View(t)) <= |t.mem| + AtLeast(minExtension)
    ensures |r.mem| == |t.mem| + AtLeast(minExtension) && r.types == t.types && |r.keyAt| == |t.keyAt|
  {
    var s, n := View(t), |t.keyAt|;
    Tab(Put(Fresh(|t.mem| + AtLeast(minExtension), fill), 0, Copies(s, n)),
        seq(n, i requires 0 <= i < n => |Copies(s, i)|),
        seq(n, i requires 0 <= i < n => |Copies(s, i)| + |s.keys[i]| + 1),
        t.counts, t.types, |Copies(s, n)|)
  }

  /** The texts fit the larger buffer together with what is asked for. */
  predicate Fits(t: Tab, minExtension: nat)
    requires Shaped(t)
  {
    Live(View(t)) + minExtension <= |t.mem| + AtLeast(minExtension)
  }

  lemma {:induction false} CopiesFront(s: Store, i: nat, k: nat)
    requires Formed(s) && i < k <= |s.keys|
    ensures Copies(s, i + 1) <= Copies(s, k)
    decreases k
  {
    if i + 1 < k {
      CopiesFront(s, i, k - 1);
      PrefixOf(Copies(s, i + 1), Copies(s, k - 1), s.keys[k - 1], s.values[k - 1]);
    }
  }

  lemma PrefixOf(a: string, b: string, key: string, value: string)
    requires a <= b
    ensures a <= b + key + [NUL] + value + [NUL]
  {
  }

  /** A copied key and value, found where the offsets point. */
  lemma CopyThere(mem: string, front: string, key: string, value: string)
    requires front + key + [NUL] + value + [NUL] <= mem && NUL !in key && NUL !in value
    ensures CStr(mem, |front|) == key && Ends(mem, |front|, |front| + |key| + 1)
    ensures var v := |front| + |key| + 1;
            CStr(mem, v) == value && Ends(mem, v, v + |value| + 1)
  {
    var c := front + key + [NUL] + value + [NUL];
    var v := |front| + |key| + 1;
    assert forall i :: 0 <= i < |c| ==> mem[i] == c[i];
    assert mem[|front|..|front| + |key|] == key;
    assert mem[v..v + |value|] == value;
    CStrIs(mem, |front|, key);
    CStrIs(mem, v, value);
  }

  /**
   * Growing keeps every entry's text, wherever it stood, and leaves all texts
   * below the free space, of which there is as much as was asked for.
   */
  lemma GrownKeeps(t: Tab, minExtension: nat, fill: Garbage)
    requires Shaped(t) && t.mem != "" && Fits(t, minExtension)
    ensures var r := Grown(t, minExtension, fill);
            && Shaped(r) && View(r) == View(t) && Settled(r)
            && r.spare == Live(View(t)) && SpaceLeft(r) >= minExtension
  {
    hide *;
    FitsRoom(t, minExtension);
    var s, r := View(t), Grown(t, minExtension, fill);
    GrownParts(t, minExtension, fill);
    forall i | 0 <= i < |s.keys| ensures EntryAt(r, s, i) {
      GrownEntry(t, minExtension, fill, i);
    }
    EntriesMakeView(r, s);
  }

  lemma FitsRoom(t: Tab, minExtension: nat)
    requires Shaped(t) && Fits(t, minExtension)
    ensures Live(View(t)) <= |t.mem| + AtLeast(minExtension)
  {
  }

  lemma GrownParts(t: Tab, minExtension: nat, fill: Garbage)
    requires Shaped(t) && t.mem != "" && Fits(t, minExtension)
    ensures var r, s := Grown(t, minExtension, fill), View(t);
            && |r.keyAt| == |r.valAt| == |s.keys| && r.counts == s.counts && r.types == s.types
            && r.mem != "" && r.spare <= |r.mem| && r.spare == Live(s) && SpaceLeft(r) >= minExtension
  {
    hide Copies, LiveTo, CStr, StrLen, Texts;
  }

  lemma GrownEntry(t: Tab, minExtension: nat, fill: Garbage, i: nat)
    requires Shaped(t) && t.mem != "" && Fits(t, minExtension) && i < |t.keyAt|
    ensures var r := Grown(t, minExtension, fill);
            |r.keyAt| == |r.valAt| == |View(t).keys| && EntryAt(r, View(t), i)
  {
    hide Copies, LiveTo, CStr, StrLen, Ends, View;
    var s, r := View(t), Grown(t, minExtension, fill);
    ViewNoNuls(t);
    assert Copies(s, |s.keys|) <= r.mem;
    EntryCopied(s, i, r.mem);
  }

  lemma ViewNoNuls(t: Tab)
    requires Shaped(t)
    ensures NoNuls(View(t))
  {
  }

  /** Entry i of the tables is entry i of the store, below the free space. */
  ghost predicate EntryAt(r: Tab, s: Store, i: nat)
    requires Formed(s) && i < |s.keys| && |r.keyAt| == |r.valAt| == |s.keys|
  {
    && r.keyAt[i] <= |r.mem| && r.valAt[i] <= |r.mem|
    && CStr(r.mem, r.keyAt[i]) == s.keys[i] && CStr(r.mem, r.valAt[i]) == s.values[i]
    && Ends(r.mem, r.keyAt[i], r.spare) && Ends(r.mem, r.valAt[i], r.spare)
  }

  lemma EntriesMakeView(r: Tab, s: Store)
    requires Formed(s) && |r.keyAt| == |r.valAt| == |s.keys| && r.counts == s.counts && r.types == s.types
    requires r.mem != "" && r.spare <= |r.mem| && r.spare == Live(s)
    requires forall i :: 0 <= i < |s.keys| ==> EntryAt(r, s, i)
    ensures Shaped(r) && View(r) == s && Settled(r)
  {
    hide CStr, StrLen, Ends, LiveTo;
    forall i | 0 <= i < |s.keys|
      ensures r.keyAt[i] <= |r.mem| && r.valAt[i] <= |r.mem|
      ensures CStr(r.mem, r.keyAt[i]) == s.keys[i] && CStr(r.mem, r.valAt[i]) == s.values[i]
      ensures Ends(r.mem, r.keyAt[i], r.spare) && Ends(r.mem, r.valAt[i], r.spare)
    {
      assert EntryAt(r, s, i);
    }
    assert Texts(r.mem, r.keyAt) == s.keys;
    assert Texts(r.mem, r.valAt) == s.values;
  }

  /** No text of the store has a 0 in it. */
  ghost predicate NoNuls(s: Store)
    requires Formed(s)
  {
    forall i :: 0 <= i < |s.keys| ==> NUL !in s.keys[i] && NUL !in s.values[i]
  }

  lemma CopyFacts(s: Store, i: nat)
    requires Formed(s) && i < |s.keys|
    ensures |Copies(s, i)| + |s.keys[i]| + |s.values[i]| + 2 <= |Copies(s, |s.keys|)|
    ensures Copies(s, i) + s.keys[i] + [NUL] + s.values[i] + [NUL] <= Copies(s, |s.keys|)
  {
    CopiesFront(s, i, |s.keys|);
  }

  lemma EntryCopied(s: Store, i: nat, mem: string)
    requires Formed(s) && i < |s.keys| && NoNuls(s) && Copies(s, |s.keys|) <= mem
    ensures var k, n := |Copies(s, i)|, |Copies(s, |s.keys|)|;
            var v := k + |s.keys[i]| + 1;
            && v <= n <= |mem|
            && CStr(mem, k) == s.keys[i] && Ends(mem, k, n)
            && CStr(mem, v) == s.values[i] && Ends(mem, v, n)
  {
    hide Copies, LiveTo, CStr, StrLen, Ends;
    CopyFacts(s, i);
    var all, one := Copies(s, |s.keys|), Copies(s, i) + s.keys[i] + [NUL] + s.values[i] + [NUL];
    PrefixThrough(one, all, mem);
    CopyThere(mem, Copies(s, i), s.keys[i], s.values[i]);
    var k := |Copies(s, i)|;
    var v := k + |s.keys[i]| + 1;
    EndsMore(mem, k, v, |all|);
    EndsMore(mem, v, v + |s.values[i]| + 1, |all|);
  }

  lemma PrefixThrough(a: string, b: string, c: string)
    requires a <= b <= c
    ensures a <= c
  {
  }

  /** The buffer an operation that needs `need` characters works in. */
  function Ready(t: Tab, size: nat, need: nat, fill: Garbage): (r: Tab)
    requires Shaped(t) && CanHold(t, need)
  {
    var t1 := if t.mem == "" then Initial(t, size, fill) else t;
    if SpaceLeft(t1) < need then Grown(t1, need, fill) else t1
  }

  /** Nothing has to be copied, or all texts fit the buffer together. */
  predicate CanHold(t: Tab, need: nat)
    requires Shaped(t)
  {
    need <= SpaceLeft(t) || Fits(t, need)
  }

  lemma EmptyLive(t: Tab)
    requires Shaped(t) && t.keyAt == []
    ensures Live(View(t)) == 0
  {
  }

  lemma ReadyKeeps(t: Tab, size: nat, need: nat, fill: Garbage)
    requires Shaped(t) && CanHold(t, need)
    ensures var r := Ready(t, size, need, fill);
            && Shaped(r) && View(r) == View(t) && r.mem != "" && SpaceLeft(r) >= need && |r.keyAt| == |t.keyAt|
            && (Settled(t) ==> Settled(r))
            && (need > SpaceLeft(t) ==> Settled(r))
            && (t.mem != "" && need <= SpaceLeft(t) ==> r == t)
  {
    hide Steady, LiveTo;
    var t1 := if t.mem == "" then Initial(t, size, fill) else t;
    if t.mem == "" {
      EmptyView(t, t1);
    }
    if SpaceLeft(t1) < need {
      GrownKeeps(t1, need, fill);
    }
  }

  /** Of a buffer that is replaced at once, what it held does not matter. */
  lemma InitialGrown(t: Tab, size: nat, need: nat, f: Garbage, g: Garbage)
    requires Shaped(t) && t.keyAt == []
    ensures Live(View(Initial(t, size, f))) == Live(View(Initial(t, size, g))) == 0
    ensures Grown(Initial(t, size, f), need, g) == Grown(Initial(t, size, g), need, g)
  {
    EmptyView(t, Initial(t, size, f));
    EmptyView(t, Initial(t, size, g));
  }

  lemma EmptyView(t: Tab, r: Tab)
    requires Shaped(t) && Shaped(r) && t.keyAt == [] && r == t.(mem := r.mem, spare := 0)
    ensures View(r) == View(t) && Settled(r) && Live(View(r)) == 0
  {
  }
}

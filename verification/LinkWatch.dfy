// The queues of links, one per watched directory: doubly linked lists of heap
// items with a head, a tail and a length each.
module LinkWatch {
  import opened WatchCache

  const MAX_WATCHES: nat := 100
  const NAME_KEPT: nat := 99  // strncpy(linkName, ..., 99)

  class ListItem {
    var watchIndex: nat
    var linkName: string
    var prev: ListItem?
    var next: ListItem?

    constructor ()
      ensures linkName == "" && prev == null && next == null && watchIndex == 0
    {
      linkName, prev, next, watchIndex := "", null, null, 0;
    }
  }

  function Kept(name: string): string {
    if |name| <= NAME_KEPT then name else name[..NAME_KEPT]
  }

  ghost function Before(items: seq<ListItem>, k: nat): ListItem? {
    if 0 < k <= |items| then items[k - 1] else null
  }

  ghost function After(items: seq<ListItem>, k: nat): ListItem? {
    if k + 1 < |items| then items[k + 1] else null
  }

  /** Item k is the watch's, and its pointers lead to its neighbours. */
  ghost predicate InPlace(items: seq<ListItem>, k: nat, w: nat)
    requires k < |items|
    reads items[k]
  {
    items[k].watchIndex == w && items[k].prev == Before(items, k) && items[k].next == After(items, k)
  }

  ghost predicate AllDifferent(items: seq<ListItem>) {
    forall k, j :: 0 <= k < j < |items| ==> items[k] != items[j]
  }

  /** The items form a chain from `first` to `last`, each the neighbour's neighbour. */
  ghost predicate Chain(first: ListItem?, last: ListItem?, items: seq<ListItem>, w: nat)
    reads items
  {
    && first == (if items == [] then null else items[0])
    && last == (if items == [] then null else items[|items| - 1])
    && (forall k :: 0 <= k < |items| ==> InPlace(items, k, w))
    && AllDifferent(items)
  }

  ghost function Names(items: seq<ListItem>): (ns: seq<string>)
    reads items
    ensures |ns| == |items|
  {
    seq(|items|, k requires 0 <= k < |items| reads items => items[k].linkName)
  }

  // ----- One queue

  /** A new item behind the last. */
  method Append(first: ListItem?, last: ListItem?, w: nat, linkName: string, ghost items: seq<ListItem>)
    returns (first1: ListItem?, last1: ListItem?, ghost added: ListItem)
    requires Chain(first, last, items, w)
    modifies items
    ensures fresh(added) && Chain(first1, last1, items + [added], w)
    ensures Names(items + [added]) == old(Names(items)) + [Kept(linkName)]
  {
    var newLink := new ListItem();
    added := newLink;
    first1 := first;
    ghost var n := |items|;
    ghost var all := items + [added];
    Ending(first, last, items, w);
    if last == null {
      first1 := newLink;
      last1 := newLink;
    } else {
      last.next := newLink;
      newLink.prev := last;
      last1 := newLink;
    }
    last1.watchIndex := w;
    last1.linkName := Kept(linkName);
    last1.next := null;
    forall k | 0 <= k <= n ensures InPlace(all, k, w) {
      if k < n {
        assert old(InPlace(items, k, w));
      }
    }
  }

  /** What the ends of a chain are. */
  lemma Ending(first: ListItem?, last: ListItem?, items: seq<ListItem>, w: nat)
    requires Chain(first, last, items, w)
    ensures (first == null) == (last == null) == (items == [])
    ensures items != [] ==>
              var n := |items|;
              && first == items[0] && last == items[n - 1] && first in items && last in items
              && last.prev == Before(items, n - 1) && first.next == After(items, 0)
              && (n >= 2 ==> items[n - 2] in items && items[1] in items)
  {
    if items != [] {
      assert InPlace(items, 0, w) && InPlace(items, |items| - 1, w);
    }
  }

  /** The last item goes, the one before it becomes the last. */
  method DropLast(first: ListItem?, last: ListItem, w: nat, ghost items: seq<ListItem>)
    returns (first1: ListItem?, last1: ListItem?)
    requires items != [] && Chain(first, last, items, w)
    modifies items
    ensures Chain(first1, last1, items[..|items| - 1], w)
    ensures Names(items[..|items| - 1]) == old(Names(items))[..|items| - 1]
  {
    ghost var n := |items|;
    ghost var front := items[..n - 1];
    Ending(first, last, items, w);
    var nextToLast := last.prev;
    if nextToLast != null {
      nextToLast.next := null;
      first1, last1 := first, nextToLast;
    } else {
      first1, last1 := null, null;
    }
    forall k | 0 <= k < n - 1 ensures InPlace(front, k, w) {
      assert old(InPlace(items, k, w)) && front[k] == items[k];
    }
  }

  /** The first item goes, the one behind it becomes the first. */
  method DropFirst(first: ListItem, last: ListItem?, w: nat, ghost items: seq<ListItem>)
    returns (first1: ListItem?, last1: ListItem?)
    requires items != [] && Chain(first, last, items, w)
    modifies items
    ensures Chain(first1, last1, items[1..], w)
    ensures Names(items[1..]) == old(Names(items))[1..]
  {
    ghost var n := |items|;
    ghost var rest := items[1..];
    Ending(first, last, items, w);
    var nextToFirst := first.next;
    if nextToFirst != null {
      nextToFirst.prev := null;
      first1, last1 := nextToFirst, last;
    } else {
      first1, last1 := null, null;
    }
    forall k | 0 <= k < n - 1 ensures InPlace(rest, k, w) {
      assert old(InPlace(items, k + 1, w)) && rest[k] == items[k + 1];
    }
  }

  class Links {
    var numWatches: nat
    const wdArray: array<int>
    const numLinkArray: array<int>
    const firstLink: array<ListItem?>
    const lastLink: array<ListItem?>
    var index: int  // the lookup's static i
    var wd: int     // ... and its static wd
    ghost var items: seq<seq<ListItem>>

    constructor ()
      ensures Valid() && fresh(Repr()) && Cached() == EMPTY
      ensures forall w :: 0 <= w < MAX_WATCHES ==> Queue(w) == []
    {
      numWatches, index, wd := 0, -1, 0;
      wdArray := new int[MAX_WATCHES](i => 0);
      numLinkArray := new int[MAX_WATCHES](i => 0);
      firstLink := new ListItem?[MAX_WATCHES](i => null);
      lastLink := new ListItem?[MAX_WATCHES](i => null);
      items := seq(MAX_WATCHES, i => []);
    }

    ghost predicate Arrays() {
      && wdArray.Length == numLinkArray.Length == firstLink.Length == lastLink.Length == MAX_WATCHES
      && wdArray != numLinkArray && firstLink != lastLink
    }

    ghost predicate Valid()
      reads this, wdArray, numLinkArray, firstLink, lastLink, set w, k | 0 <= w < |items| && 0 <= k < |items[w]| ::
        items[w][k]
    {
      && Arrays() && numWatches <= MAX_WATCHES && |items| == MAX_WATCHES
      && (forall w :: 0 <= w < MAX_WATCHES ==> Good(w))
    }

    /** Queue w: its two ends, its items and its length. */
    ghost predicate Good(w: nat)
      requires Arrays() && |items| == MAX_WATCHES && w < MAX_WATCHES
      reads this`items, numLinkArray, firstLink, lastLink, items[w]
    {
      Chain(firstLink[w], lastLink[w], items[w], w) && numLinkArray[w] == |items[w]|
    }

    ghost function Repr(): set<object>
      reads this
    {
      {this, wdArray, numLinkArray, firstLink, lastLink}
      + set w, k | 0 <= w < |items| && 0 <= k < |items[w]| :: items[w][k] as object
    }

    /** The names waiting for watch w, oldest first. */
    ghost function Queue(w: nat): seq<string>
      requires w < |items|
      reads this`items, items[w]
    {
      Names(items[w])
    }

    function Cached(): Cache
      requires wdArray.Length >= numWatches
      reads this`numWatches, this`index, this`wd, wdArray
    {
      Cache(wdArray[..numWatches], index, wd)
    }

    method GetWatchIndex(watchNumber: int) returns (i: int)
      requires Valid()
      modifies this`index, this`wd
      ensures Valid()
      ensures (i, Cached()) == Lookup(old(Cached()), watchNumber)
    {
      if wd == watchNumber {
        return index;
      }
      ghost var watches := wdArray[..numWatches];
      index := 0;
      while index < numWatches
        invariant 0 <= index <= numWatches && wd == old(wd)
        invariant forall k :: 0 <= k < index ==> watches[k] != watchNumber
        decreases numWatches - index
      {
        if watchNumber == wdArray[index] {
          FirstIs(watches, watchNumber, index);
          wd := wdArray[index];
          return index;
        }
        index := index + 1;
      }
      return -1;
    }

    /** Items of different queues differ: they carry their watch's index. */
    lemma Apart(v: nat, w: nat)
      requires Valid() && v < MAX_WATCHES && w < MAX_WATCHES && v != w
      ensures forall k :: 0 <= k < |items[v]| ==> items[v][k] !in items[w]
    {
      assert Good(v) && Good(w);
      forall k | 0 <= k < |items[v]| ensures items[v][k] !in items[w] {
        assert InPlace(items[v], k, v);
        forall j | 0 <= j < |items[w]| ensures items[w][j] != items[v][k] {
          assert InPlace(items[w], j, w);
        }
      }
    }

    lemma Shapes()
      requires Valid()
      ensures wdArray.Length == numLinkArray.Length == firstLink.Length == lastLink.Length == MAX_WATCHES == |items|
      ensures wdArray != numLinkArray && firstLink != lastLink && numWatches <= wdArray.Length
    {
    }

    /** What an operation on queue w starts from ... */
    lemma Opened(w: nat)
      requires Valid() && w < MAX_WATCHES
      ensures Arrays() && |items| == MAX_WATCHES && numLinkArray[w] == |items[w]|
      ensures wdArray.Length == numLinkArray.Length == firstLink.Length == lastLink.Length == MAX_WATCHES
      ensures wdArray != numLinkArray && firstLink != lastLink
      ensures Chain(firstLink[w], lastLink[w], items[w], w) && Queue(w) == Names(items[w])
    {
      assert Good(w);
    }

    /** ... and what it leaves. */
    lemma Closed(w: nat)
      requires Arrays() && |items| == MAX_WATCHES && w < MAX_WATCHES
      requires Chain(firstLink[w], lastLink[w], items[w], w) && numLinkArray[w] == |items[w]|
      ensures Good(w) && Queue(w) == Names(items[w])
    {
    }

    lemma AllApart(w: nat)
      requires Valid() && w < MAX_WATCHES
      ensures forall v, k :: 0 <= v < MAX_WATCHES && v != w && 0 <= k < |items[v]| ==> items[v][k] !in items[w]
      ensures Good(w)
    {
      forall v | 0 <= v < MAX_WATCHES && v != w
        ensures forall k :: 0 <= k < |items[v]| ==> items[v][k] !in items[w]
      {
        Apart(v, w);
      }
    }

    /** A queue none of whose items was touched. */
    twostate lemma Untouched(v: nat)
      requires Arrays() && |old(items)| == |items| == MAX_WATCHES && v < MAX_WATCHES && items[v] == old(items[v])
      requires old(Good(v))
      requires firstLink[v] == old(firstLink[v]) && lastLink[v] == old(lastLink[v])
      requires numLinkArray[v] == old(numLinkArray[v])
      requires forall k :: 0 <= k < |items[v]| ==> unchanged(items[v][k])
      ensures Good(v) && Queue(v) == old(Queue(v))
    {
    }

    /** All queues but w as they were, and w in order: then everything is. */
    twostate lemma OneChanged(w: nat)
      requires old(Valid()) && w < MAX_WATCHES && |items| == MAX_WATCHES && numWatches == old(numWatches)
      requires Good(w)
      requires forall v :: 0 <= v < MAX_WATCHES && v != w ==>
                 items[v] == old(items[v]) && firstLink[v] == old(firstLink[v]) && lastLink[v] == old(lastLink[v])
                 && numLinkArray[v] == old(numLinkArray[v])
      requires forall v, k :: 0 <= v < MAX_WATCHES && v != w && 0 <= k < |items[v]| ==> unchanged(items[v][k])
      ensures Valid()
      ensures forall v :: 0 <= v < MAX_WATCHES && v != w ==> items[v] == old(items[v]) && Queue(v) == old(Queue(v))
    {
      hide Chain, Names;
      forall v | 0 <= v < MAX_WATCHES && v != w ensures Good(v) && Queue(v) == old(Queue(v)) {
        Untouched(v);
      }
    }

    method AddLink(w: nat, linkName: string)
      requires Valid() && w < MAX_WATCHES
      modifies this`items, numLinkArray, firstLink, lastLink, items[w]
      ensures Valid() && |items[w]| == old(|items[w]|) + 1
      ensures forall k :: 0 <= k < |items[w]| ==> items[w][k] in old(items[w]) || fresh(items[w][k])
      ensures Queue(w) == old(Queue(w)) + [Kept(linkName)] == Serve(old(Queue(w)), AddOne(linkName)).0
      ensures forall v :: 0 <= v < MAX_WATCHES && v != w ==> items[v] == old(items[v]) && Queue(v) == old(Queue(v))
    {
      hide *;
      Opened(w);
      AllApart(w);
      Served(Queue(w), linkName);
      ghost var q := items[w];
      var first, last;
      ghost var added;
      first, last, added := Append(firstLink[w], lastLink[w], w, linkName, q);
      firstLink[w], lastLink[w] := first, last;
      numLinkArray[w] := numLinkArray[w] + 1;
      items := items[w := q + [added]];
      Closed(w);
      OneChanged(w);
    }

    /** The newest link of the watch looked up, which is taken off its queue; none when the queue is empty. */
    method GetLastLink(watchNumber: int) returns (found: bool, linkName: string)
      requires Valid() && 0 <= Lookup(Cached(), watchNumber).0 < MAX_WATCHES
      modifies this`index, this`wd, this`items, numLinkArray, firstLink, lastLink,
        items[Lookup(Cached(), watchNumber).0]
      ensures Valid() && Cached() == old(Lookup(Cached(), watchNumber).1)
      ensures var w, n := old(Lookup(Cached(), watchNumber).0), |old(Queue(Lookup(Cached(), watchNumber).0))|;
              && found == (n > 0)
              && (found ==> linkName == old(Queue(Lookup(Cached(), watchNumber).0))[n - 1])
              && Queue(w) == (if found then old(Queue(Lookup(Cached(), watchNumber).0))[..n - 1] else [])
              && items[w] == (if found then old(items[Lookup(Cached(), watchNumber).0])[..n - 1] else [])
              && forall v :: 0 <= v < MAX_WATCHES && v != w ==> items[v] == old(items[v]) && Queue(v) == old(Queue(v))
      ensures var w := old(Lookup(Cached(), watchNumber).0);
              (Queue(w), if found then Given(linkName) else NoneLeft)
              == Serve(old(Queue(Lookup(Cached(), watchNumber).0)), FromBack)
    {
      hide *;
      Shapes();
      Served(Queue(Lookup(Cached(), watchNumber).0), "");
      var w := GetWatchIndex(watchNumber);
      found, linkName := PopLast(w);
    }

    method PopLast(w: nat) returns (found: bool, linkName: string)
      requires Valid() && w < MAX_WATCHES
      modifies this`items, numLinkArray, firstLink, lastLink, items[w]
      ensures Valid()
      ensures var n := |old(Queue(w))|;
              && found == (n > 0)
              && (found ==> linkName == old(Queue(w))[n - 1])
              && Queue(w) == (if found then old(Queue(w))[..n - 1] else [])
              && items[w] == (if found then old(items[w])[..n - 1] else [])
      ensures forall v :: 0 <= v < MAX_WATCHES && v != w ==> items[v] == old(items[v]) && Queue(v) == old(Queue(v))
    {
      hide *;
      Opened(w);
      AllApart(w);
      ghost var q := items[w];
      Ends(w);
      if lastLink[w] == null {
        return false, "";
      }
      linkName := lastLink[w].linkName;
      var first, last := DropLast(firstLink[w], lastLink[w], w, q);
      firstLink[w], lastLink[w] := first, last;
      numLinkArray[w] := numLinkArray[w] - 1;
      items := items[w := q[..|q| - 1]];
      Closed(w);
      OneChanged(w);
      found := true;
    }

    /** The oldest link likewise. */
    method GetFirstLink(watchNumber: int) returns (found: bool, linkName: string)
      requires Valid() && 0 <= Lookup(Cached(), watchNumber).0 < MAX_WATCHES
      modifies this`index, this`wd, this`items, numLinkArray, firstLink, lastLink,
        items[Lookup(Cached(), watchNumber).0]
      ensures Valid() && Cached() == old(Lookup(Cached(), watchNumber).1)
      ensures var w, n := old(Lookup(Cached(), watchNumber).0), |old(Queue(Lookup(Cached(), watchNumber).0))|;
              && found == (n > 0)
              && (found ==> linkName == old(Queue(Lookup(Cached(), watchNumber).0))[0])
              && Queue(w) == (if found then old(Queue(Lookup(Cached(), watchNumber).0))[1..] else [])
              && forall v :: 0 <= v < MAX_WATCHES && v != w ==> items[v] == old(items[v]) && Queue(v) == old(Queue(v))
      ensures var w := old(Lookup(Cached(), watchNumber).0);
              (Queue(w), if found then Given(linkName) else NoneLeft)
              == Serve(old(Queue(Lookup(Cached(), watchNumber).0)), FromFront)
    {
      hide *;
      Shapes();
      Served(Queue(Lookup(Cached(), watchNumber).0), "");
      var w := GetWatchIndex(watchNumber);
      found, linkName := PopFirst(w);
    }

    method PopFirst(w: nat) returns (found: bool, linkName: string)
      requires Valid() && w < MAX_WATCHES
      modifies this`items, numLinkArray, firstLink, lastLink, items[w]
      ensures Valid()
      ensures var n := |old(Queue(w))|;
              && found == (n > 0)
              && (found ==> linkName == old(Queue(w))[0])
              && Queue(w) == (if found then old(Queue(w))[1..] else [])
      ensures forall v :: 0 <= v < MAX_WATCHES && v != w ==> items[v] == old(items[v]) && Queue(v) == old(Queue(v))
    {
      hide *;
      Opened(w);
      AllApart(w);
      ghost var q := items[w];
      Ends(w);
      if firstLink[w] == null {
        return false, "";
      }
      linkName := firstLink[w].linkName;
      var first, last := DropFirst(firstLink[w], lastLink[w], w, q);
      firstLink[w], lastLink[w] := first, last;
      numLinkArray[w] := numLinkArray[w] - 1;
      items := items[w := q[1..]];
      Closed(w);
      OneChanged(w);
      found := true;
    }

    lemma Ends(w: nat)
      requires Valid() && w < MAX_WATCHES
      ensures lastLink.Length == firstLink.Length == MAX_WATCHES == |items|
      ensures (lastLink[w] == null) == (firstLink[w] == null) == (items[w] == [])
      ensures items[w] != [] ==>
                var n := |items[w]|;
                && lastLink[w] == items[w][n - 1] && firstLink[w] == items[w][0]
                && lastLink[w] in items[w] && firstLink[w] in items[w]
                && lastLink[w].linkName == Queue(w)[n - 1] && firstLink[w].linkName == Queue(w)[0]
    {
      assert Good(w);
    }

    /** Links waiting for a descriptor, -1 when it is not watched. */
    method GetNumLinks(wd0: int) returns (n: int)
      requires Valid()
      ensures var f := FirstIndex(wdArray[..numWatches], wd0);
              n == if f >= 0 then |Queue(f)| else -1
    {
      ghost var watches := wdArray[..numWatches];
      var i := 0;
      while i < numWatches
        invariant 0 <= i <= numWatches
        invariant forall k :: 0 <= k < i ==> watches[k] != wd0
      {
        if wd0 == wdArray[i] {
          FirstIs(watches, wd0, i);
          Opened(i);
          return numLinkArray[i];
        }
        i := i + 1;
      }
      return -1;
    }

    /** The queues are these. */
    ghost predicate Holds(qs: seq<seq<string>>)
      reads this`items, set w, k | 0 <= w < |items| && 0 <= k < |items[w]| :: items[w][k]
    {
      |qs| == |items| == MAX_WATCHES && forall w :: 0 <= w < MAX_WATCHES ==> Queue(w) == qs[w]
    }

    /** Draining: `do ... while` a link comes; each turn takes one, so it ends. */
    method Drain(watchNumber: int, ghost qs: seq<seq<string>>, ghost f: nat)
      requires Valid() && Holds(qs) && f < MAX_WATCHES && Lookup(Cached(), watchNumber).0 == f
      modifies this`index, this`wd, this`items, numLinkArray, firstLink, lastLink, items[f]
      ensures Valid() && Holds(qs[f := []]) && Cached() == Lookup(old(Cached()), watchNumber).1
      ensures items[f] == [] && forall v :: 0 <= v < MAX_WATCHES && v != f ==> items[v] == old(items[v])
    {
      hide Valid, Lookup, Chain;
      Shapes();
      ghost var c := Cached();
      LookupAgain(c, watchNumber);
      var found := TakeLast(watchNumber, f);
      while found
        invariant Valid() && Cached() == Lookup(c, watchNumber).1
        invariant |items| == MAX_WATCHES && items[f] <= old(items[f]) && (!found ==> items[f] == [])
        invariant !found ==> Queue(f) == []
        invariant forall v :: 0 <= v < MAX_WATCHES && v != f ==> items[v] == old(items[v]) && Queue(v) == qs[v]
        decreases if found then |items[f]| + 1 else 0
      {
        found := TakeLast(watchNumber, f);
      }
    }

    /** The last link is taken and thrown away. */
    method TakeLast(watchNumber: int, ghost f: nat) returns (found: bool)
      requires Valid() && f < MAX_WATCHES && Lookup(Cached(), watchNumber).0 == f
      modifies this`index, this`wd, this`items, numLinkArray, firstLink, lastLink, items[f]
      ensures Valid() && Cached() == old(Lookup(Cached(), watchNumber).1)
      ensures found == (old(items[f]) != [])
      ensures items[f] == (if found then old(items[f])[..|old(items[f])| - 1] else []) && (!found ==> Queue(f) == [])
      ensures |items| == MAX_WATCHES
      ensures forall v :: 0 <= v < MAX_WATCHES && v != f ==> items[v] == old(items[v]) && Queue(v) == old(Queue(v))
    {
      hide *;
      Shapes();
      Opened(f);
      var linkName;
      found, linkName := GetLastLink(watchNumber);
      Shapes();
    }

    /** The links of a directory, added in the order listed. */
    method PrepLinkList(w: nat, names: seq<string>, ghost qs: seq<seq<string>>)
      requires Valid() && w < MAX_WATCHES && Holds(qs)
      modifies this`items, numLinkArray, firstLink, lastLink, items[w]
      ensures Valid() && Holds(qs[w := qs[w] + KeptAll(names)])
      ensures forall k :: 0 <= k < |items[w]| ==> items[w][k] in old(items[w]) || fresh(items[w][k])
      ensures forall v :: 0 <= v < MAX_WATCHES && v != w ==> items[v] == old(items[v])
    {
      hide Valid, Chain, Kept;
      Shapes();
      assert qs[w] + KeptAll(names[..0]) == qs[w];
      var i := 0;
      while i < |names|
        invariant 0 <= i <= |names| && Valid() && |items| == MAX_WATCHES
        invariant Queue(w) == qs[w] + KeptAll(names[..i])
        invariant forall k :: 0 <= k < |items[w]| ==> items[w][k] in old(items[w]) || fresh(items[w][k])
        invariant forall v :: 0 <= v < MAX_WATCHES && v != w ==> items[v] == old(items[v]) && Queue(v) == qs[v]
      {
        KeptOneMore(names, i, qs[w]);
        AddLink(w, names[i]);
        Shapes();
        i := i + 1;
      }
      assert names[..i] == names;
    }

    lemma InRepr(w: nat)
      requires Valid() && w < MAX_WATCHES
      ensures forall k :: 0 <= k < |items[w]| ==> items[w][k] in Repr()
      ensures numLinkArray in Repr() && firstLink in Repr() && lastLink in Repr() && this in Repr()
    {
      forall k | 0 <= k < |items[w]| ensures items[w][k] in Repr() {
        assert items[w][k] as object in Repr();
      }
    }

    /**
     * Every watch in turn: the queue its lookup gives is drained, its own is
     * filled from its directory; `lists` are the directories' links.
     */
    method RefreshLinkDirs(lists: seq<seq<string>>, ghost qs: seq<seq<string>>)
      requires Valid() && Holds(qs) && Serves(Cached(), MAX_WATCHES) && |lists| == numWatches
      modifies Repr()
      ensures Valid() && numWatches == old(numWatches) && Cached() == CacheAfter(old(Cached()), numWatches)
      ensures Holds(Refreshed(qs, old(Cached()), lists, numWatches))
    {
      hide Valid, Lookup, Chain, Holds, Serves;
      Shapes();
      ghost var c := Cached();
      forall v | 0 <= v < MAX_WATCHES ensures forall k :: 0 <= k < |items[v]| ==> items[v][k] in Repr() {
        InRepr(v);
      }
      InRepr(0);
      HoldsSize(qs);
      var w := 0;
      while w < numWatches
        invariant 0 <= w <= numWatches == |c.watches| && numWatches == old(numWatches)
        invariant Valid() && |items| == MAX_WATCHES == |qs| && Cached() == CacheAfter(c, w)
        invariant Holds(Refreshed(qs, c, lists, w))
        invariant forall v, k :: 0 <= v < MAX_WATCHES && 0 <= k < |items[v]| ==>
                    items[v][k] in old(Repr()) || fresh(items[v][k])
      {
        ghost var now := Refreshed(qs, c, lists, w);
        AnswerServes(c, w, MAX_WATCHES);
        ghost var f := Answer(c, w);
        Drain(wdArray[w], now, f);
        Shapes();
        PrepLinkList(w, lists[w], now[f := []]);
        Shapes();
        w := w + 1;
      }
    }

    lemma HoldsSize(qs: seq<seq<string>>)
      requires Holds(qs)
      ensures |qs| == MAX_WATCHES
    {
    }

    /** A new watch, with the links its directory has; refused when there are 100 or the system refuses. */
    method SetupLinkWatchDir(newWd: int, names: seq<string>, ghost qs: seq<seq<string>>) returns (r: int)
      requires Valid() && Holds(qs)
      modifies Repr()
      ensures Valid()
      ensures r == if old(numWatches) < 100 && newWd >= 0 then newWd else -1
      ensures if old(numWatches) < MAX_WATCHES && newWd >= 0
              then Cached() == Apply(old(Cached()), Register(newWd))
                   && Holds(qs[old(numWatches) := qs[old(numWatches)] + KeptAll(names)])
              else Cached() == old(Cached()) && Holds(qs)
    {
      hide Lookup, FirstIndex, Chain;
      Shapes();
      if numWatches >= MAX_WATCHES || newWd < 0 {
        return -1;
      }
      var w := numWatches;
      InRepr(w);
      AddWatch(newWd);
      assert Holds(qs);
      PrepLinkList(w, names, qs);
      Shapes();
      return newWd;
    }

    method AddWatch(newWd: int)
      requires Valid() && numWatches < MAX_WATCHES
      modifies this`numWatches, wdArray
      ensures Valid() && Cached() == Apply(old(Cached()), Register(newWd)) && numWatches == old(numWatches) + 1
    {
      hide Chain;
      Shapes();
      forall w | 0 <= w < MAX_WATCHES ensures Good(w) {}
      wdArray[numWatches] := newWd;
      numWatches := numWatches + 1;
    }
  }

  lemma FirstOf(watches: seq<int>, w: nat)
    requires w < |watches|
    ensures 0 <= FirstIndex(watches, watches[w]) <= w
  {
  }

  // ----- What a refresh comes to

  /** A repeated lookup that was answered gives the same answer and changes nothing. */
  lemma LookupAgain(c: Cache, n: int)
    requires Lookup(c, n).0 >= 0
    ensures Lookup(Lookup(c, n).1, n) == Lookup(c, n)
  {
  }

  /** The static variables after the lookups of the first k watches. */
  function CacheAfter(c: Cache, k: nat): (r: Cache)
    requires k <= |c.watches|
    ensures r.watches == c.watches
  {
    if k == 0 then c else Lookup(CacheAfter(c, k - 1), c.watches[k - 1]).1
  }

  /** The index the refresh gets for watch k. */
  function Answer(c: Cache, k: nat): int
    requires k < |c.watches|
  {
    Lookup(CacheAfter(c, k), c.watches[k]).0
  }

  /** If the cached descriptor is watched, its cached index lies in tables of m entries. */
  predicate Serves(c: Cache, m: nat) {
    |c.watches| <= m && (c.wd in c.watches ==> 0 <= c.index < m)
  }

  lemma AnswerServes(c: Cache, k: nat, m: nat)
    requires Serves(c, m) && k < |c.watches|
    ensures 0 <= Answer(c, k) < m && Serves(CacheAfter(c, k), m)
  {
    if k > 0 {
      AnswerServes(c, k - 1, m);
      FirstOf(c.watches, k - 1);
    }
    FirstOf(c.watches, k);
  }

  /** What refreshing the first k watches makes of the queues. */
  function Refreshed(qs: seq<seq<string>>, c: Cache, lists: seq<seq<string>>, k: nat): (r: seq<seq<string>>)
    requires k <= |c.watches| == |lists| && Serves(c, |qs|)
    ensures |r| == |qs|
  {
    if k == 0 then qs
    else
      AnswerServes(c, k - 1, |qs|);
      var drained := Refreshed(qs, c, lists, k - 1)[Answer(c, k - 1) := []];
      drained[k - 1 := drained[k - 1] + KeptAll(lists[k - 1])]
  }

  lemma {:induction false} AgreeingAnswers(c: Cache, k: nat)
    requires Agreeing(c) && k <= |c.watches|
    ensures Agreeing(CacheAfter(c, k))
    ensures k < |c.watches| ==> Answer(c, k) == FirstIndex(c.watches, c.watches[k])
  {
    hide Lookup, Agreeing, FirstIndex;
    if k > 0 {
      AgreeingAnswers(c, k - 1);
      FirstOf(c.watches, k - 1);
      AgreeingKept(CacheAfter(c, k - 1), c.watches[k - 1]);
    }
    if k < |c.watches| {
      FirstOf(c.watches, k);
      AgreeingKept(CacheAfter(c, k), c.watches[k]);
    }
  }

  /** Watch w is the first of its descriptor. */
  predicate IsFirst(watches: seq<int>, w: nat)
    requires w < |watches|
  {
    FirstIndex(watches, watches[w]) == w
  }

  /** Another of the first k watches has watch w's descriptor and comes later. */
  ghost predicate Doubled(watches: seq<int>, w: nat, k: nat)
    requires w < |watches| && k <= |watches|
  {
    exists v :: w < v < k && watches[v] == watches[w]
  }

  /**
   * The exact outcome, directories watched twice included: the first watch of a
   * directory ends with its list, or empty if it is watched again; a later
   * watch of the same directory keeps all it had and gets the list on top.
   */
  lemma {:induction false} RefreshOutcome(qs: seq<seq<string>>, c: Cache, lists: seq<seq<string>>, k: nat, w: nat)
    requires k <= |c.watches| == |lists| <= |qs| && Agreeing(c) && Serves(c, |qs|) && w < |qs|
    ensures Refreshed(qs, c, lists, k)[w]
         == if w >= k then qs[w]
            else if !IsFirst(c.watches, w) then qs[w] + KeptAll(lists[w])
            else if Doubled(c.watches, w, k) then []
            else KeptAll(lists[w])
  {
    hide *;
    RefreshedAt(qs, c, lists, k, w);
    if k > 0 {
      RefreshOutcome(qs, c, lists, k - 1, w);
      AgreeingAnswers(c, k - 1);
      FirstOf(c.watches, k - 1);
      DoubledNext(c.watches, w, k);
    }
  }

  /** One watch's turn, seen from queue w. */
  lemma RefreshedAt(qs: seq<seq<string>>, c: Cache, lists: seq<seq<string>>, k: nat, w: nat)
    requires k <= |c.watches| == |lists| <= |qs| && Serves(c, |qs|) && w < |qs|
    ensures k == 0 ==> Refreshed(qs, c, lists, k)[w] == qs[w]
    ensures k > 0 ==>
              var before, drained := Refreshed(qs, c, lists, k - 1)[w], Answer(c, k - 1) == w;
              Refreshed(qs, c, lists, k)[w]
              == if w == k - 1 then (if drained then KeptAll(lists[w]) else before + KeptAll(lists[w]))
                 else if drained then [] else before
  {
    hide KeptAll, Answer, Serves;
    if k > 0 {
      AnswerServes(c, k - 1, |qs|);
      assert [] + KeptAll(lists[k - 1]) == KeptAll(lists[k - 1]);
    }
  }

  lemma DoubledNext(watches: seq<int>, w: nat, k: nat)
    requires 0 < k <= |watches|
    ensures w < k - 1 ==>
              (Doubled(watches, w, k) <==> Doubled(watches, w, k - 1) || watches[k - 1] == watches[w])
    ensures w == k - 1 ==>
        !Doubled(watches, w, k) && (IsFirst(watches, w) <==> FirstIndex(watches, watches[k - 1]) == w)
    ensures w < k - 1 && IsFirst(watches, w) ==>
              (FirstIndex(watches, watches[k - 1]) == w <==> watches[k - 1] == watches[w])
    ensures w < k - 1 && !IsFirst(watches, w) ==> FirstIndex(watches, watches[k - 1]) != w
  {
    if w < k - 1 && watches[k - 1] == watches[w] {
      assert Doubled(watches, w, k);
    }
  }

  ghost predicate Distinct(watches: seq<int>) {
    forall i, k :: 0 <= i < k < |watches| ==> watches[i] != watches[k]
  }

  /** Every watch's queue is its directory's list. */
  ghost predicate AllListed(qs: seq<seq<string>>, c: Cache, lists: seq<seq<string>>)
    requires |c.watches| == |lists| && Serves(c, |qs|)
  {
    forall w :: 0 <= w < |lists| ==> Refreshed(qs, c, lists, |lists|)[w] == KeptAll(lists[w])
  }

  /** When a refresh leaves every queue its directory's list, exactly. */
  lemma RefreshListsExactly(qs: seq<seq<string>>, c: Cache, lists: seq<seq<string>>)
    requires |c.watches| == |lists| && Agreeing(c) && Serves(c, |qs|)
    ensures AllListed(qs, c, lists)
       <==> forall w :: 0 <= w < |lists| ==>
              && (IsFirst(c.watches, w) && Doubled(c.watches, w, |lists|) ==> lists[w] == [])
              && (!IsFirst(c.watches, w) ==> qs[w] == [])
  {
    hide Refreshed, Agreeing, Kept;
    forall w | 0 <= w < |lists|
      ensures Refreshed(qs, c, lists, |lists|)[w] == KeptAll(lists[w])
         <==> (IsFirst(c.watches, w) && Doubled(c.watches, w, |lists|) ==> lists[w] == [])
              && (!IsFirst(c.watches, w) ==> qs[w] == [])
    {
      RefreshOutcome(qs, c, lists, |lists|, w);
      if qs[w] == [] {
        assert [] + KeptAll(lists[w]) == KeptAll(lists[w]);
      } else {
        assert |qs[w] + KeptAll(lists[w])| > |KeptAll(lists[w])|;
      }
    }
  }

  /** Whatever the queues and directories hold, a refresh does so if and only if no directory is watched twice. */
  lemma RefreshDistinct(c: Cache, m: nat)
    requires Agreeing(c) && Serves(c, m)
    ensures (forall qs, lists | |qs| == m && |lists| == |c.watches| :: AllListed(qs, c, lists)) <==> Distinct(c.watches)
  {
    hide Refreshed, Agreeing, Kept, AllListed;
    if Distinct(c.watches) {
      forall qs: seq<seq<string>>, lists: seq<seq<string>> | |qs| == m && |lists| == |c.watches|
        ensures AllListed(qs, c, lists)
      {
        forall w | 0 <= w < |lists| ensures IsFirst(c.watches, w) && !Doubled(c.watches, w, |lists|) {
          FirstIs(c.watches, c.watches[w], w);
        }
        RefreshListsExactly(qs, c, lists);
      }
    } else {
      var i, k :| 0 <= i < k < |c.watches| && c.watches[i] == c.watches[k];
      var qs: seq<seq<string>> := seq(m, v => [""]);
      var lists: seq<seq<string>> := seq(|c.watches|, v => []);
      FirstOf(c.watches, i);
      assert FirstIndex(c.watches, c.watches[i]) <= i;
      assert !IsFirst(c.watches, k);
      RefreshListsExactly(qs, c, lists);
      assert qs[k] != [];
      assert !AllListed(qs, c, lists);
    }
  }

  /**
   * After a lookup that missed: the cached descriptor answers with a wrong
   * index.  A refresh that meets another descriptor first does not notice; one
   * that begins with it leaves its queue undrained and drains another instead.
   */
  lemma {:induction false} StaleRefresh(qs: seq<seq<string>>, c: Cache, lists: seq<seq<string>>, k: nat, w: nat)
    requires 0 < k <= |c.watches| == |lists| <= |qs| && Distinct(c.watches) && Serves(c, |qs|) && w < |qs|
    requires c.wd == c.watches[0] && c.index > 0
    ensures Refreshed(qs, c, lists, k)[w]
         == if w == 0 then qs[0] + KeptAll(lists[0])
            else if w < k then KeptAll(lists[w])
            else if w == c.index then []
            else qs[w]
    ensures CacheAfter(c, k).wd == c.watches[k - 1]
    ensures k > 1 ==> CacheAfter(c, k).index == k - 1
  {
    hide KeptAll;
    AnswerServes(c, k - 1, |qs|);
    if k > 1 {
      StaleRefresh(qs, c, lists, k - 1, w);
      FirstIs(c.watches, c.watches[k - 1], k - 1);
      assert [] + KeptAll(lists[k - 1]) == KeptAll(lists[k - 1]);
    }
  }

  /** ... and where another descriptor comes first, the refresh is that of a cache that agrees. */
  lemma {:induction false} StaleUnnoticed(qs: seq<seq<string>>, c: Cache, right: Cache, lists: seq<seq<string>>, k: nat)
    requires k <= |c.watches| == |lists| && right.watches == c.watches && Agreeing(right)
    requires Serves(c, |qs|) && Serves(right, |qs|)
    requires |c.watches| > 0 ==> c.wd != c.watches[0]
    ensures Refreshed(qs, c, lists, k) == Refreshed(qs, right, lists, k)
    ensures k > 0 ==> Agreeing(CacheAfter(c, k))
    decreases k
  {
    hide KeptAll, Agreeing;
    if k > 0 {
      StaleUnnoticed(qs, c, right, lists, k - 1);
      AgreeingAnswers(right, k - 1);
      FirstOf(c.watches, k - 1);
      if k == 1 {
        FreshSearch(c);
      } else {
        AgreeingKept(CacheAfter(c, k - 1), c.watches[k - 1]);
      }
    }
  }

  /** The first lookup of any descriptor but the cached one puts the cache right. */
  lemma FreshSearch(c: Cache)
    requires |c.watches| > 0 && c.wd != c.watches[0]
    ensures Agreeing(CacheAfter(c, 1)) && Answer(c, 0) == FirstIndex(c.watches, c.watches[0])
  {
    FirstOf(c.watches, 0);
  }

  function KeptAll(names: seq<string>): (ks: seq<string>)
    ensures |ks| == |names|
  {
    seq(|names|, i requires 0 <= i < |names| => Kept(names[i]))
  }

  lemma KeptOneMore(names: seq<string>, i: nat, q: seq<string>)
    requires i < |names|
    ensures q + KeptAll(names[..i + 1]) == q + KeptAll(names[..i]) + [Kept(names[i])]
  {
    assert KeptAll(names[..i + 1]) == KeptAll(names[..i]) + [Kept(names[i])];
  }

  /** The cached lookup is right for every registered descriptor. */
  ghost predicate Agreeing(c: Cache) {
    forall n :: FirstIndex(c.watches, n) >= 0 ==> Lookup(c, n).0 == FirstIndex(c.watches, n)
  }

  lemma AgreeingKept(c: Cache, n: int)
    requires Agreeing(c) && FirstIndex(c.watches, n) >= 0
    ensures Lookup(c, n).0 == FirstIndex(c.watches, n)
    ensures Agreeing(Lookup(c, n).1) && Lookup(c, n).1.watches == c.watches
  {
  }

  // ----- The names that come out

  /** What is asked of one queue, and what it hands out. */
  datatype LinkOp = AddOne(name: string) | FromFront | FromBack

  datatype Handed = NoneLeft | Given(name: string)

  function Serve(q: seq<string>, op: LinkOp): (r: (seq<string>, Handed)) {
    match op
    case AddOne(name) => (q + [Kept(name)], NoneLeft)
    case FromFront => if q == [] then (q, NoneLeft) else (q[1..], Given(q[0]))
    case FromBack => if q == [] then (q, NoneLeft) else (q[..|q| - 1], Given(q[|q| - 1]))
  }

  lemma Served(q: seq<string>, name: string)
    ensures Serve(q, AddOne(name)) == (q + [Kept(name)], NoneLeft)
    ensures Serve(q, FromFront) == if q == [] then (q, NoneLeft) else (q[1..], Given(q[0]))
    ensures Serve(q, FromBack) == if q == [] then (q, NoneLeft) else (q[..|q| - 1], Given(q[|q| - 1]))
  {
  }

  /** The same on a queue that keeps names as they are. */
  function ServeWhole(q: seq<string>, op: LinkOp): (r: (seq<string>, Handed)) {
    match op
    case AddOne(name) => (q + [name], NoneLeft)
    case FromFront => if q == [] then (q, NoneLeft) else (q[1..], Given(q[0]))
    case FromBack => if q == [] then (q, NoneLeft) else (q[..|q| - 1], Given(q[|q| - 1]))
  }

  /** The queue and all that was handed out over a run. */
  function ServeAll(q: seq<string>, ops: seq<LinkOp>): (r: (seq<string>, seq<Handed>))
    ensures |r.1| == |ops|
    decreases |ops|
  {
    if ops == [] then (q, [])
    else
      var (q1, h) := Serve(q, ops[0]);
      var (q2, hs) := ServeAll(q1, ops[1..]);
      (q2, [h] + hs)
  }

  function ServeAllWhole(q: seq<string>, ops: seq<LinkOp>): (r: (seq<string>, seq<Handed>))
    ensures |r.1| == |ops|
    decreases |ops|
  {
    if ops == [] then (q, [])
    else
      var (q1, h) := ServeWhole(q, ops[0]);
      var (q2, hs) := ServeAllWhole(q1, ops[1..]);
      (q2, [h] + hs)
  }

  /** The name itself if it has at most 99 characters, otherwise its first 99. */
  predicate FrontOf(out: string, name: string) {
    out <= name && |out| == if |name| <= 99 then |name| else 99
  }

  predicate Fronts(q: seq<string>, whole: seq<string>) {
    |q| == |whole| && forall i :: 0 <= i < |q| ==> FrontOf(q[i], whole[i])
  }

  lemma KeptIsFront(name: string)
    ensures FrontOf(Kept(name), name)
    ensures |name| <= 99 ==> Kept(name) == name
  {
  }

  lemma ServeFronts(q: seq<string>, whole: seq<string>, op: LinkOp)
    requires Fronts(q, whole)
    ensures var (q1, h), (w1, g) := Serve(q, op), ServeWhole(whole, op);
            && Fronts(q1, w1)
            && h.NoneLeft? == g.NoneLeft? && (h.Given? ==> FrontOf(h.name, g.name))
  {
    hide Kept, FrontOf;
    if op.AddOne? {
      KeptIsFront(op.name);
    }
  }

  /**
   * Over any run on a queue, each name that is handed out is the very one that
   * a queue of the names as they were given would hand out, or its first 99
   * characters if it has more.
   */
  lemma {:induction false} NamesComeOut(q: seq<string>, whole: seq<string>, ops: seq<LinkOp>)
    requires Fronts(q, whole)
    ensures var (q1, hs), (w1, gs) := ServeAll(q, ops), ServeAllWhole(whole, ops);
            && Fronts(q1, w1)
            && forall i :: 0 <= i < |ops| ==>
                 hs[i].NoneLeft? == gs[i].NoneLeft? && (hs[i].Given? ==> FrontOf(hs[i].name, gs[i].name))
    decreases |ops|
  {
    hide Serve, ServeWhole, FrontOf, Fronts;
    if ops != [] {
      ServeFronts(q, whole, ops[0]);
      NamesComeOut(Serve(q, ops[0]).0, ServeWhole(whole, ops[0]).0, ops[1..]);
    }
  }

  /** Names of at most 99 characters. */
  predicate AllShort(names: seq<string>) {
    forall i :: 0 <= i < |names| ==> |names[i]| <= 99
  }

  lemma ShortKept(names: seq<string>)
    requires AllShort(names)
    ensures KeptAll(names) == names
  {
    hide Kept;
    forall i | 0 <= i < |names| ensures KeptAll(names)[i] == names[i] {
      KeptIsFront(names[i]);
    }
  }

  ghost predicate AllShorts(lists: seq<seq<string>>) {
    forall w :: 0 <= w < |lists| ==> AllShort(lists[w])
  }

  /** Every watch's queue is its directory's list, name by name. */
  ghost predicate AllThere(qs: seq<seq<string>>, c: Cache, lists: seq<seq<string>>)
    requires |c.watches| == |lists| && Serves(c, |qs|)
  {
    forall w :: 0 <= w < |lists| ==> Refreshed(qs, c, lists, |lists|)[w] == lists[w]
  }

  lemma ThereIsListed(qs: seq<seq<string>>, c: Cache, lists: seq<seq<string>>)
    requires |c.watches| == |lists| && Serves(c, |qs|) && AllShorts(lists)
    ensures AllThere(qs, c, lists) <==> AllListed(qs, c, lists)
  {
    hide Refreshed, KeptAll, AllShort;
    forall w | 0 <= w < |lists| ensures KeptAll(lists[w]) == lists[w] {
      assert AllShort(lists[w]);
      ShortKept(lists[w]);
    }
  }

  /** Of directories of such names, exactly when a refresh leaves every queue its directory's very list. */
  lemma RefreshThere(qs: seq<seq<string>>, c: Cache, lists: seq<seq<string>>)
    requires |c.watches| == |lists| && Agreeing(c) && Serves(c, |qs|) && AllShorts(lists)
    ensures AllThere(qs, c, lists)
       <==> forall w :: 0 <= w < |lists| ==>
              && (IsFirst(c.watches, w) && Doubled(c.watches, w, |lists|) ==> lists[w] == [])
              && (!IsFirst(c.watches, w) ==> qs[w] == [])
  {
    hide *;
    ThereIsListed(qs, c, lists);
    RefreshListsExactly(qs, c, lists);
  }

  /** ... and for all queues and such directories, if and only if no directory is watched twice. */
  lemma RefreshThereDistinct(c: Cache, m: nat)
    requires Agreeing(c) && Serves(c, m)
    ensures (forall qs, lists | |qs| == m && |lists| == |c.watches| && AllShorts(lists) :: AllThere(qs, c, lists))
       <==> Distinct(c.watches)
  {
    hide Refreshed, Agreeing, Kept, AllListed, AllThere, AllShort;
    RefreshDistinct(c, m);
    if Distinct(c.watches) {
      forall qs: seq<seq<string>>, lists: seq<seq<string>>
        | |qs| == m && |lists| == |c.watches| && AllShorts(lists)
        ensures AllThere(qs, c, lists)
      {
        assert AllListed(qs, c, lists);
        ThereIsListed(qs, c, lists);
      }
    } else {
      var i, k :| 0 <= i < k < |c.watches| && c.watches[i] == c.watches[k];
      var qs: seq<seq<string>> := seq(m, v => [""]);
      var lists: seq<seq<string>> := seq(|c.watches|, v => []);
      NoneShort(|c.watches|, lists);
      FirstOf(c.watches, i);
      assert !IsFirst(c.watches, k);
      RefreshThere(qs, c, lists);
      assert qs[k] != [];
      assert !AllThere(qs, c, lists);
    }
  }

  lemma NoneShort(n: nat, lists: seq<seq<string>>)
    requires forall w :: 0 <= w < |lists| ==> lists[w] == []
    ensures AllShorts(lists)
  {
  }
}

// What an altered word in an encoded event does: the walk stops at its record
// with a checksum error, and nothing from that channel on is touched.
module EventAltered {
  import opened Bits
  import opened CompUtils
  import opened Encoding
  import opened Records
  import opened Checksum
  import opened Channel
  import opened ChannelCodec
  import opened ChannelTrip
  import opened EventFormat
  import opened EventPack
  import opened EventUnpack
  import opened EventTrip

  // ----- Whatever goes wrong with a record ends the walk

  /** A record's result, if it is not OK, is the walk's, and only its own channel can have changed. */
  lemma ErrorStops(mem: seq<byte>, numBytes: nat, count: nat, s: nat, c: nat, u: Unpacking, env: Surroundings)
    requires |mem| >= numBytes + FAR && s < ACTIVE_SURFS && c < CHANNELS_PER_SURF && Shaped(u) && Roomy(env)
    requires Keeping(env) && count <= numBytes + (if c == 0 then HEADER else 0)
    ensures ChanIndex(s, c) < CHANNELS && |mem[count..]| >= 12 && |u.event.channels[ChanIndex(s, c)].data| == SAMPLES
    ensures ReadHeader(mem[count..]).numBytes <= CLAIM
    ensures var i, h := ChanIndex(s, c), ReadHeader(mem[count..]);
            var (code, ch, _) := DecodedChannel(h, mem[count + 12..], u.event.channels[i], env);
            var r := FromChannel(mem, numBytes, count, s, c, u, env);
            && (code != Ok ==>
                  r.0 == code && r.1.event == u.event.(channels := u.event.channels[i := ch])
                  && r.1.types == u.types && r.1.sizes == u.sizes)
            && (code == Ok && count + 12 + h.numBytes > numBytes ==> r.0 == BadSize)
  {
    hide DecodedChannel, ReadHeader, Keeping;
    HeaderClaim(mem[count..]);
  }

  /** The walk reports OK only if the record it is at was OK, its checksum right, and lay within the packet. */
  lemma OkMeansRight(mem: seq<byte>, numBytes: nat, count: nat, s: nat, c: nat, u: Unpacking, env: Surroundings)
    requires |mem| >= numBytes + FAR && s < ACTIVE_SURFS && c < CHANNELS_PER_SURF && Shaped(u) && Roomy(env)
    requires Keeping(env) && count <= numBytes + (if c == 0 then HEADER else 0)
    requires FromChannel(mem, numBytes, count, s, c, u, env).0 == Ok
    ensures |mem[count..]| >= 12
    ensures var h := ReadHeader(mem[count..]);
            && count + 12 + h.numBytes <= numBytes
            && Crc(mem[count + 12..], h.numBytes / 2) == h.crc
  {
    hide Crc, ReadHeader, FromChannel, DecodedWave;
    ErrorStops(mem, numBytes, count, s, c, u, env);
  }

  // ----- Where records lie

  /** From the record of SURF s, channel c, to record i. */
  ghost function Ahead(j: Job, s: nat, c: nat, i: nat): nat
    requires ValidJob(j) && s < ACTIVE_SURFS && c <= CHANNELS_PER_SURF && ChanIndex(s, c) <= i < CHANNELS
    decreases ACTIVE_SURFS - s, CHANNELS_PER_SURF - c
  {
    if c == CHANNELS_PER_SURF then HEADER + Ahead(j, s + 1, 0, i)
    else if ChanIndex(s, c) == i then 0
    else |Record(j, ChanIndex(s, c))| + Ahead(j, s, c + 1, i)
  }

  /** The place of record i in an encoded event: behind the wrapper, its packet's header and all before it. */
  ghost function Place(j: Job, i: nat): nat
    requires ValidJob(j) && i < CHANNELS
  {
    HEADER + HEADER + Ahead(j, 0, 0, i)
  }

  lemma AheadStep(j: Job, s: nat, c: nat, i: nat)
    requires ValidJob(j) && s < ACTIVE_SURFS && c <= CHANNELS_PER_SURF && ChanIndex(s, c) <= i < CHANNELS
    ensures c == CHANNELS_PER_SURF ==>
              s + 1 < ACTIVE_SURFS && ChanIndex(s + 1, 0) == ChanIndex(s, c)
              && Ahead(j, s, c, i) == HEADER + Ahead(j, s + 1, 0, i)
    ensures c < CHANNELS_PER_SURF && ChanIndex(s, c) == i ==> Ahead(j, s, c, i) == 0
    ensures c < CHANNELS_PER_SURF && ChanIndex(s, c) < i ==>
              ChanIndex(s, c + 1) == ChanIndex(s, c) + 1 <= i
              && Ahead(j, s, c, i) == |Record(j, ChanIndex(s, c))| + Ahead(j, s, c + 1, i)
  {
    hide ValidJob, Record;
  }

  /** The words of record i's wave under its checksum. */
  ghost function WordsOfRecord(j: Job, i: nat): nat
    requires ValidJob(j) && i < CHANNELS
  {
    |Body(j.types[i], j.event.channels[i].data, j.stats[i])| / 2
  }

  /** The two agree up to `at`, and of the n words from there on just the m-th differs. */
  ghost predicate AlteredFrom(mem: seq<byte>, mem2: seq<byte>, at: nat, n: nat, m: nat) {
    && |mem| == |mem2| && at <= |mem| && mem2[..at] == mem[..at]
    && OneAltered(mem[at..], mem2[at..], n, m)
  }

  /** What agrees in front reads the same there. */
  lemma SameFront(mem: seq<byte>, mem2: seq<byte>, at: nat, count: nat, n: nat)
    requires |mem| == |mem2| && at <= |mem| && mem2[..at] == mem[..at] && count + n <= at
    ensures mem2[count..][..n] == mem[count..][..n]
  {
    SliceShift(mem, count, 0, n);
    SliceShift(mem2, count, 0, n);
    FrontSlice(mem, at, count, n);
    FrontSlice(mem2, at, count, n);
  }

  lemma FrontSlice(mem: seq<byte>, at: nat, count: nat, n: nat)
    requires at <= |mem| && count + n <= at
    ensures mem[count..count + n] == mem[..at][count..count + n]
  {
  }

  lemma HeaderOfFront(a: seq<byte>, b: seq<byte>)
    requires |a| >= 12 && |b| >= 12 && a[..12] == b[..12]
    ensures ReadHeader(a) == ReadHeader(b)
  {
    assert forall k :: 0 <= k < 12 ==> a[k] == a[..12][k] && b[k] == b[..12][k];
  }

  lemma NumbersOfFront(a: seq<byte>, b: seq<byte>, u: Unpacking)
    requires |a| >= HEADER && |b| >= HEADER && a[..HEADER] == b[..HEADER] && Shaped(u)
    ensures TakeNumbers(a, u) == TakeNumbers(b, u)
  {
    hide Shaped, Word32;
    forall k | 0 <= k < HEADER ensures a[k] == b[k] {
      assert a[..HEADER][k] == b[..HEADER][k];
    }
    WordOfFront(a, b, 16);
    WordOfFront(a, b, 20);
    assert Word32(a[16..]) == Word32(b[16..]) && Word32(a[20..]) == Word32(b[20..]);
    assert TakeNumbers(a, u).event == TakeNumbers(b, u).event;
  }

  lemma WordOfFront(a: seq<byte>, b: seq<byte>, p: nat)
    requires p + 4 <= |a| && p + 4 <= |b| && forall k :: p <= k < p + 4 ==> a[k] == b[k]
    ensures Word32(a[p..]) == Word32(b[p..])
  {
    assert forall k :: 0 <= k < 4 ==> a[p..][k] == a[p + k] && b[p..][k] == b[p + k];
  }

  // ----- The walk on altered memory

  /** Nothing of channel i or behind it has changed. */
  ghost predicate Untouched(u: Unpacking, r: Unpacking, i: nat)
    requires Shaped(u) && Shaped(r)
  {
    forall k :: i <= k < CHANNELS ==>
      r.event.channels[k] == u.event.channels[k] && r.types[k] == u.types[k] && r.sizes[k] == u.sizes[k]
  }

  ghost predicate Stopped(r: Outcome, j: Job, u: Unpacking, i: nat)
    requires ValidJob(j) && Shaped(u) && i < CHANNELS
  {
    r.0 == BadCrc && Shaped(r.1) && SoFar(r.1, j, i) && Untouched(u, r.1, i)
  }

  /** A record taken changes its own channel at most. */
  lemma OthersKept(mem: seq<byte>, numBytes: nat, count: nat, i: nat, u: Unpacking, env: Surroundings)
    requires |mem| >= numBytes + FAR && count <= numBytes + HEADER
    requires i < CHANNELS && Shaped(u) && Roomy(env) && Keeping(env)
    ensures Untouched(u, TakeRecord(mem, numBytes, count, i, u, env).1, i + 1)
  {
    hide DecodedChannel, ReadHeader, Keeping;
  }

  lemma UntouchedOver(u: Unpacking, u1: Unpacking, r: Unpacking, i: nat, k: nat)
    requires Shaped(u) && Shaped(u1) && Shaped(r) && Untouched(u, u1, k) && Untouched(u1, r, i) && k <= i
    ensures Untouched(u, r, i)
  {
  }

  lemma StoppedOver(r: Outcome, j: Job, u: Unpacking, u1: Unpacking, i: nat, k: nat)
    requires ValidJob(j) && Shaped(u) && Shaped(u1) && i < CHANNELS && k <= i
    requires Untouched(u, u1, k) && Stopped(r, j, u1, i)
    ensures Stopped(r, j, u, i)
  {
    hide ValidJob, Shaped, SoFar;
    UntouchedOver(u, u1, r.1, i, k);
  }

  /** A record in front of the altered one, met on the walk. */
  lemma TakeBefore(mem: seq<byte>, mem2: seq<byte>, at: nat, numBytes: nat, count: nat, i: nat, u: Unpacking,
                   env: Surroundings, j: Job, rest: seq<byte>)
    requires |mem| == |mem2| >= numBytes + FAR && at <= |mem| && mem2[..at] == mem[..at]
    requires i < CHANNELS && Shaped(u) && Roomy(env) && Keeping(env)
    requires ValidJob(j) && SoFar(u, j, i) && Numbered(u, j)
    requires Carried(j.types[i], j.event.channels[i].data, j.stats[i])
    requires count <= |mem| && mem[count..] == Record(j, i) + rest && |rest| >= BEHIND
    requires count + |Record(j, i)| <= numBytes && count + |Record(j, i)| <= at
    ensures var (code, u1, next) := TakeRecord(mem2, numBytes, count, i, u, env);
            code == Ok && next == count + |Record(j, i)| && SoFar(u1, j, i + 1) && Numbered(u1, j)
  {
    hide Record, ValidJob, SoFar, Shaped, Roomy, Keeping, Carried, TakeRecord;
    var r := Record(j, i);
    SameFront(mem, mem2, at, count, |r|);
    assert mem[count..][..|r|] == r;
    assert mem2[count..] == r + mem2[count..][|r|..];
    TakeBack(mem2, numBytes, count, i, u, env, j, mem2[count..][|r|..]);
  }

  /** The altered record itself. */
  lemma TakeAltered(mem: seq<byte>, mem2: seq<byte>, numBytes: nat, count: nat, i: nat, m: nat, u: Unpacking,
                    env: Surroundings, j: Job, rest: seq<byte>)
    requires |mem| >= numBytes + FAR && i < CHANNELS && Shaped(u) && Roomy(env) && Keeping(env) && ValidJob(j)
    requires count <= numBytes && mem[count..] == Record(j, i) + rest && |rest| >= BEHIND
    requires count + 12 <= |mem| && AlteredFrom(mem, mem2, count + 12, WordsOfRecord(j, i), m)
    ensures var r := TakeRecord(mem2, numBytes, count, i, u, env);
            r.0 == BadCrc && r.1.event == u.event && r.1.types == u.types && r.1.sizes == u.sizes
  {
    hide Body, ActualType, DecodedChannel, Crc, OneAltered, Encodable, Roomy, Keeping, ReadHeader, HeaderBytes;
    var ch, st, t := j.event.channels[i], j.stats[i], j.types[i];
    var h, body := BodyHeader(t, ch, st), Body(t, ch.data, st);
    HeaderFits(t, ch, st);
    HeaderBack(h, body + rest);
    Assoc(HeaderBytes(h), body, rest);
    SameFront(mem, mem2, count + 12, count, 12);
    HeaderOfFront(mem2[count..], mem[count..]);
    assert mem[count + 12..] == mem[count..][12..] == body + rest;
    CrcOfBody(body, rest);
    AlteredWord(h, mem[count + 12..], mem2[count + 12..], m, u.event.channels[i], env);
    assert u.event.channels[i := u.event.channels[i]] == u.event.channels;
  }

  /** All records before the i-th are carried. */
  ghost predicate CarriedBefore(j: Job, i: nat)
    requires ValidJob(j) && i <= CHANNELS
  {
    forall k :: 0 <= k < i ==> Carried(j.types[k], j.event.channels[k].data, j.stats[k])
  }

  lemma BeforeAt(j: Job, i: nat, k: nat)
    requires ValidJob(j) && k < i <= CHANNELS && CarriedBefore(j, i)
    ensures Carried(j.types[k], j.event.channels[k].data, j.stats[k])
  {
  }

  /** A walk that has come up to the i-th record of altered memory stops there. */
  lemma StopsHere(mem2: seq<byte>, numBytes: nat, count: nat, s: nat, c: nat, u: Unpacking, env: Surroundings, j: Job)
    requires |mem2| >= numBytes + FAR && s < ACTIVE_SURFS && c < CHANNELS_PER_SURF && Shaped(u) && Roomy(env)
    requires Keeping(env) && count <= numBytes && ValidJob(j) && ChanIndex(s, c) < CHANNELS
        && SoFar(u, j, ChanIndex(s, c))
    requires var r := TakeRecord(mem2, numBytes, count, ChanIndex(s, c), u, env);
             r.0 == BadCrc && r.1.event == u.event && r.1.types == u.types && r.1.sizes == u.sizes
    ensures Stopped(FromChannel(mem2, numBytes, count, s, c, u, env), j, u, ChanIndex(s, c))
  {
    hide TakeRecord, ValidJob, Keeping, Body, ActualType;
    var r := TakeRecord(mem2, numBytes, count, ChanIndex(s, c), u, env);
    assert FromChannel(mem2, numBytes, count, s, c, u, env) == r;
    forall k | 0 <= k < ChanIndex(s, c) ensures Back(r.1, j, k) {
      assert Back(u, j, k);
    }
  }

  lemma {:induction false} AlteredChannels(mem: seq<byte>, mem2: seq<byte>, numBytes: nat, count: nat, s: nat, c: nat,
                                           u: Unpacking, env: Surroundings, j: Job, tail: seq<byte>, i: nat, m: nat)
    requires |mem| >= numBytes + FAR && s < ACTIVE_SURFS && c <= CHANNELS_PER_SURF && Shaped(u) && Roomy(env)
    requires Keeping(env) && ValidJob(j) && Numbered(u, j)
    requires ChanIndex(s, c) <= i < CHANNELS && CarriedBefore(j, i) && SoFar(u, j, ChanIndex(s, c)) && |tail| >= FAR
    requires count + |SurfRecords(j, s, c)| + |Packets(j, s + 1)| == numBytes
    requires mem[count..] == SurfRecords(j, s, c) + (Packets(j, s + 1) + tail)
    requires AlteredFrom(mem, mem2, count + Ahead(j, s, c, i) + 12, WordsOfRecord(j, i), m)
    ensures Stopped(FromChannel(mem2, numBytes, count, s, c, u, env), j, u, i)
    decreases ACTIVE_SURFS - s, CHANNELS_PER_SURF - c
  {
    hide *;
    Sizes();
    IndexRange(s, c);
    AheadStep(j, s, c, i);
    AlteredIs(mem, mem2, count + Ahead(j, s, c, i) + 12, WordsOfRecord(j, i), m);
    ChannelUnfold(mem2, numBytes, count, s, c, u, env);
    if c == CHANNELS_PER_SURF {
      NoRecords(mem, count, s, j, tail);
      SurfUnfold(mem2, numBytes, count, s + 1, u, env);
      PacketAhead(mem, count, s + 1, u, j, tail);
      SameFront(mem, mem2, count + Ahead(j, s, c, i) + 12, count, HEADER);
      NumbersOfFront(mem2[count..], mem[count..], u);
      var u1 := TakeNumbers(mem[count..], u);
      SoFarKept(u, u1, j, ChanIndex(s + 1, 0));
      AlteredChannels(mem, mem2, numBytes, count + HEADER, s + 1, 0, u1, env, j, tail, i, m);
      NumbersUntouched(u, u1);
      StoppedOver(FromChannel(mem2, numBytes, count, s, c, u, env), j, u, u1, i, 0);
    } else {
      RecordAhead(mem, count, s, c, j, tail);
      var k := ChanIndex(s, c);
      var r, rest := Record(j, k), SurfRecords(j, s, c + 1) + (Packets(j, s + 1) + tail);
      if k == i {
        TakeAltered(mem, mem2, numBytes, count, i, m, u, env, j, rest);
        StopsHere(mem2, numBytes, count, s, c, u, env, j);
      } else {
        BeforeAt(j, i, k);
        TakeBefore(mem, mem2, count + Ahead(j, s, c, i) + 12, numBytes, count, k, u, env, j, rest);
        OthersKept(mem2, numBytes, count, k, u, env);
        var (code, u1, next) := TakeRecord(mem2, numBytes, count, k, u, env);
        AlteredChannels(mem, mem2, numBytes, next, s, c + 1, u1, env, j, tail, i, m);
        StoppedOver(FromChannel(mem2, numBytes, count, s, c, u, env), j, u, u1, i, k + 1);
      }
    }
  }

  lemma AlteredIs(mem: seq<byte>, mem2: seq<byte>, at: nat, n: nat, m: nat)
    requires AlteredFrom(mem, mem2, at, n, m)
    ensures |mem| == |mem2| && at <= |mem| && mem2[..at] == mem[..at]
  {
  }

  lemma NumbersUntouched(u: Unpacking, u1: Unpacking)
    requires Shaped(u) && Shaped(u1) && u1 == u.(event := u1.event) && u1.event.channels == u.event.channels
    ensures Untouched(u, u1, 0)
  {
  }

  /**
   * An event with one word altered under the checksum of record i, whatever
   * becomes of the bytes behind that wave: a checksum error, the channels before
   * i are back, and channel i and those behind it are as they were.
   */
  lemma AlteredEvent(j: Job, tail: seq<byte>, mem2: seq<byte>, i: nat, m: nat, u: Unpacking, env: Surroundings)
    requires ValidJob(j) && i < CHANNELS && CarriedBefore(j, i) && Shaped(u) && Roomy(env) && Keeping(env)
        && |tail| >= FAR
    requires AlteredFrom(EventRecord(j) + tail, mem2, Place(j, i) + 12, WordsOfRecord(j, i), m)
    ensures |mem2| == |EventRecord(j)| + |tail|
    ensures var (code, u1, _) := UnpackedEvent(mem2, |EventRecord(j)|, u, env);
            && code == BadCrc
            && Shaped(u1)
            && (forall k :: 0 <= k < i ==> u1.event.channels[k] == j.event.channels[k])
            && (forall k :: i <= k < CHANNELS ==> u1.event.channels[k] == u.event.channels[k])
  {
    hide *;
    Sizes();
    var mem, n, at := EventRecord(j) + tail, |EventRecord(j)|, Place(j, i) + 12;
    AlteredIs(mem, mem2, at, WordsOfRecord(j, i), m);
    WrapperAhead(j, tail);
    PlaceIs(j, i);
    var inner, inner2 := mem[HEADER..], mem2[HEADER..];
    SameFront(mem, mem2, at, 0, 4);
    SameFront(mem, mem2, at, HEADER, 4);
    CodeOfFront(mem2, mem);
    CodeOfFront(inner2, inner);
    Stripped(mem2, n, u, env);
    InnerAltered(mem, mem2, at, WordsOfRecord(j, i), m);
    AlteredPackets(inner, inner2, n - HEADER, u, env, j, tail, i, m);
    StoppedMeans(UnpackedEvent(mem2, n, u, env), j, u, i);
  }

  /** ... without the wrapper. */
  lemma AlteredPackets(inner: seq<byte>, inner2: seq<byte>, numBytes: nat, u: Unpacking, env: Surroundings, j: Job,
                       tail: seq<byte>, i: nat, m: nat)
    requires ValidJob(j) && i < CHANNELS && CarriedBefore(j, i) && Shaped(u) && Roomy(env) && Keeping(env)
        && |tail| >= FAR
    requires inner == Packets(j, 0) + tail && numBytes == |Packets(j, 0)| && |inner| >= numBytes + FAR
    requires AlteredFrom(inner, inner2, HEADER + Ahead(j, 0, 0, i) + 12, WordsOfRecord(j, i), m)
    ensures |inner2| == |inner| && Stopped(FromSurf(inner2, numBytes, 0, 0, u, env), j, u, i)
  {
    hide *;
    Sizes();
    var at := HEADER + Ahead(j, 0, 0, i) + 12;
    AlteredIs(inner, inner2, at, WordsOfRecord(j, i), m);
    assert inner[0..] == inner && inner2[0..] == inner2;
    NothingYet(u, j);
    SurfUnfold(inner2, numBytes, 0, 0, u, env);
    PacketAhead(inner, 0, 0, u, j, tail);
    SameFront(inner, inner2, at, 0, HEADER);
    NumbersOfFront(inner2, inner, u);
    var u1 := TakeNumbers(inner, u);
    SoFarKept(u, u1, j, 0);
    AlteredChannels(inner, inner2, numBytes, HEADER, 0, 0, u1, env, j, tail, i, m);
    NumbersUntouched(u, u1);
    StoppedOver(FromSurf(inner2, numBytes, 0, 0, u, env), j, u, u1, i, 0);
  }

  lemma PlaceIs(j: Job, i: nat)
    requires ValidJob(j) && i < CHANNELS
    ensures ChanIndex(0, 0) == 0 && Place(j, i) == HEADER + HEADER + Ahead(j, 0, 0, i) && HEADER == 24
    ensures |EventRecord(j)| == HEADER + |Packets(j, 0)|
  {
    hide ValidJob, Ahead, Packets;
  }

  lemma CodeOfFront(a: seq<byte>, b: seq<byte>)
    requires |a| >= 4 && |b| >= 4 && a[0..][..4] == b[0..][..4]
    ensures Word32(a) == Word32(b)
  {
    assert forall k :: 0 <= k < 4 ==> a[k] == a[0..][..4][k] && b[k] == b[0..][..4][k];
  }

  lemma InnerAltered(mem: seq<byte>, mem2: seq<byte>, at: nat, n: nat, m: nat)
    requires AlteredFrom(mem, mem2, at, n, m) && at >= HEADER
    ensures AlteredFrom(mem[HEADER..], mem2[HEADER..], at - HEADER, n, m)
  {
    hide OneAltered;
    assert mem[HEADER..][at - HEADER..] == mem[at..] && mem2[HEADER..][at - HEADER..] == mem2[at..];
    assert mem2[HEADER..][..at - HEADER] == mem2[..at][HEADER..] == mem[HEADER..][..at - HEADER];
  }

  lemma StoppedMeans(r: Outcome, j: Job, u: Unpacking, i: nat)
    requires ValidJob(j) && Shaped(u) && i < CHANNELS && Stopped(r, j, u, i)
    ensures r.0 == BadCrc && Shaped(r.1)
    ensures forall k :: 0 <= k < i ==> r.1.event.channels[k] == j.event.channels[k]
    ensures forall k :: i <= k < CHANNELS ==> r.1.event.channels[k] == u.event.channels[k]
  {
    hide Body, ActualType, Encodable;
    forall k | 0 <= k < i ensures r.1.event.channels[k] == j.event.channels[k] {
      assert Back(r.1, j, k);
    }
  }

  // ----- Headers of packets and wrappers, whatever is in them

  predicate SameNumbers(a: Unpacking, b: Unpacking) {
    a.event.eventNumber == b.event.eventNumber && a.event.whichPeds == b.event.whichPeds
  }

  lemma RecordKeepsNumbers(mem: seq<byte>, numBytes: nat, count: nat, i: nat, u: Unpacking, env: Surroundings)
    requires |mem| >= numBytes + FAR && count <= numBytes + HEADER
    requires i < CHANNELS && Shaped(u) && Roomy(env) && Keeping(env)
    ensures var (code, u1, next) := TakeRecord(mem, numBytes, count, i, u, env);
            SameNumbers(u, u1) && Shaped(u1) && (code == Ok ==> next <= numBytes)
  {
    hide DecodedChannel, ReadHeader, Keeping;
    HeaderClaim(mem[count..]);
  }

  /** The records of the last SURF leave the numbers alone. */
  lemma {:induction false} LastRecords(mem: seq<byte>, numBytes: nat, count: nat, c: nat, u: Unpacking,
                                       env: Surroundings)
    requires |mem| >= numBytes + FAR && c <= CHANNELS_PER_SURF && Shaped(u) && Roomy(env) && Keeping(env)
    requires count <= numBytes + (if c == 0 then HEADER else 0)
    ensures SameNumbers(u, FromChannel(mem, numBytes, count, ACTIVE_SURFS - 1, c, u, env).1)
    decreases CHANNELS_PER_SURF - c
  {
    hide TakeRecord, Shaped, Roomy, Keeping;
    if c < CHANNELS_PER_SURF {
      var i := ChanIndex(ACTIVE_SURFS - 1, c);
      RecordKeepsNumbers(mem, numBytes, count, i, u, env);
      var (code, u1, next) := TakeRecord(mem, numBytes, count, i, u, env);
      if code == Ok {
        LastRecords(mem, numBytes, next, c + 1, u1, env);
      }
    }
  }

  /** The event's numbers are those of the last packet, whatever the others said. */
  lemma NumbersOfLast(mem: seq<byte>, numBytes: nat, count: nat, u: Unpacking, env: Surroundings)
    requires |mem| >= numBytes + FAR && count <= numBytes && Shaped(u) && Roomy(env) && Keeping(env)
    ensures var r := FromSurf(mem, numBytes, count, ACTIVE_SURFS - 1, u, env).1.event;
            r.eventNumber == Word32(mem[count + 16..]) && r.whichPeds == Word32(mem[count + 20..])
  {
    hide FromChannel, Word32, Roomy, Keeping;
    var u1 := TakeNumbers(mem[count..], u);
    LastRecords(mem, numBytes, count + HEADER, 0, u1, env);
    assert mem[count..][16..] == mem[count + 16..] && mem[count..][20..] == mem[count + 20..];
  }

  /** A wrapper around anything is stripped unread, but for its code; a lone one is taken for a packet. */
  lemma WrapperStripped(wrap: seq<byte>, mem: seq<byte>, n: nat, u: Unpacking, env: Surroundings)
    requires |wrap| == 24 && |mem| >= n + FAR && Shaped(u) && Roomy(env) && Keeping(env)
    ensures Word32(wrap) == 0x126 && n > 0 ==>
              UnpackedEvent(wrap + mem, n + 24, u, env) == UnpackedEvent(mem, n, u, env)
    ensures Word32(wrap) != 0x126 || n == 0 ==>
              UnpackedEvent(wrap + mem, n + 24, u, env) == FromSurf(wrap + mem, n + 24, 0, 0, u, env)
  {
    var all := wrap + mem;
    assert Word32(all) == Word32(wrap) && all[24..] == mem;
    hide FromSurf, Word32, Shaped, Roomy, Keeping;
  }
}

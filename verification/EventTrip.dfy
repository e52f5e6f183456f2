// What comes back from an encoded event.
module EventTrip {
  import opened Bits
  import opened CompUtils
  import opened Encoding
  import opened Records
  import opened Channel
  import opened ChannelCodec
  import opened ChannelTrip
  import opened EventFormat
  import opened EventPack
  import opened EventUnpack

  /** Every channel's encoding carries its wave. */
  ghost predicate AllCarried(j: Job)
    requires ValidJob(j)
  {
    forall i :: 0 <= i < CHANNELS ==> Carried(j.types[i], j.event.channels[i].data, j.stats[i])
  }

  lemma CarriedAt(j: Job, i: nat)
    requires ValidJob(j) && AllCarried(j) && i < CHANNELS
    ensures Carried(j.types[i], j.event.channels[i].data, j.stats[i])
  {
  }

  ghost predicate NoCombo(j: Job)
    requires ValidJob(j)
  {
    forall i :: 0 <= i < CHANNELS ==> j.types[i] != ENCODE_LOSSLESS_BINFIB_COMBO
  }

  /** Channel k has come back, with the type and the size its record has. */
  ghost predicate Back(u: Unpacking, j: Job, k: nat)
    requires Shaped(u) && ValidJob(j) && k < CHANNELS
  {
    && u.event.channels[k] == j.event.channels[k]
    && u.types[k] == ActualType(j.types[k], j.stats[k])
    && u.sizes[k] == |Body(j.types[k], j.event.channels[k].data, j.stats[k])|
  }

  ghost predicate SoFar(u: Unpacking, j: Job, i: nat)
    requires Shaped(u) && ValidJob(j) && i <= CHANNELS
  {
    forall k :: 0 <= k < i ==> Back(u, j, k)
  }

  predicate Numbered(u: Unpacking, j: Job) {
    u.event.eventNumber == j.event.eventNumber && u.event.whichPeds == j.event.whichPeds
  }

  /** One record met on the walk. */
  lemma TakeBack(mem: seq<byte>, numBytes: nat, count: nat, i: nat, u: Unpacking, env: Surroundings, j: Job,
                 rest: seq<byte>)
    requires |mem| >= numBytes + FAR && i < CHANNELS && Shaped(u) && Roomy(env) && Keeping(env)
    requires ValidJob(j) && SoFar(u, j, i) && Numbered(u, j)
    requires Carried(j.types[i], j.event.channels[i].data, j.stats[i])
    requires count <= |mem| && mem[count..] == Record(j, i) + rest && |rest| >= BEHIND
    requires count + |Record(j, i)| <= numBytes
    ensures var (code, u1, next) := TakeRecord(mem, numBytes, count, i, u, env);
            && code == Ok && next == count + |Record(j, i)|
            && SoFar(u1, j, i + 1) && Numbered(u1, j)
            && (NoCombo(j) ==> u1.overran == u.overran)
  {
    hide DecodedChannel, ReadHeader, Carried, Encodable, Body, ActualType;
    var ch := j.event.channels[i];
    RecordParts(j.types[i], ch, j.stats[i]);
    ChannelRoundTrip(j.types[i], ch, j.stats[i], rest, u.event.channels[i], env);
    assert mem[count + 12..] == mem[count..][12..];
    var (code, u1, next) := TakeRecord(mem, numBytes, count, i, u, env);
    forall k | 0 <= k < i ensures Back(u1, j, k) {
      assert Back(u, j, k);
    }
  }

  /** A walk that brought everything back and ended at `numBytes`. */
  ghost predicate Returned(r: Outcome, j: Job, numBytes: nat, overran: bool)
    requires ValidJob(j)
  {
    && r.0 == Ok && r.2 == numBytes && Shaped(r.1)
    && SoFar(r.1, j, CHANNELS) && Numbered(r.1, j) && (NoCombo(j) ==> r.1.overran == overran)
  }

  lemma ReturnedIs(r: Outcome, j: Job, numBytes: nat)
    requires ValidJob(j) && r.0 == Ok && r.2 == numBytes && Shaped(r.1)
    requires SoFar(r.1, j, CHANNELS) && Numbered(r.1, j)
    ensures Returned(r, j, numBytes, r.1.overran)
  {
    hide SoFar, Shaped, ValidJob;
  }

  lemma ReturnedOver(r: Outcome, j: Job, numBytes: nat, a: bool, b: bool)
    requires ValidJob(j) && Returned(r, j, numBytes, a) && (NoCombo(j) ==> a == b)
    ensures Returned(r, j, numBytes, b)
  {
    hide SoFar, Shaped, ValidJob, NoCombo;
  }

  lemma ChannelUnfold(mem: seq<byte>, numBytes: nat, count: nat, s: nat, c: nat, u: Unpacking, env: Surroundings)
    requires |mem| >= numBytes + FAR && s < ACTIVE_SURFS && c <= CHANNELS_PER_SURF && Shaped(u) && Roomy(env)
        && Keeping(env)
    requires count <= numBytes + (if c == 0 then HEADER else 0)
    ensures c == CHANNELS_PER_SURF ==>
              FromChannel(mem, numBytes, count, s, c, u, env) == FromSurf(mem, numBytes, count, s + 1, u, env)
    ensures c < CHANNELS_PER_SURF ==>
              var (code, u1, next) := TakeRecord(mem, numBytes, count, ChanIndex(s, c), u, env);
              code == Ok ==>
                FromChannel(mem, numBytes, count, s, c, u, env) == FromChannel(mem, numBytes, next, s, c + 1, u1, env)
  {
    hide TakeRecord, Shaped, Keeping;
  }

  /** The record that comes next, and what is behind it. */
  lemma RecordAhead(mem: seq<byte>, count: nat, s: nat, c: nat, j: Job, tail: seq<byte>)
    requires ValidJob(j) && s < ACTIVE_SURFS && c < CHANNELS_PER_SURF && count <= |mem|
    requires mem[count..] == SurfRecords(j, s, c) + (Packets(j, s + 1) + tail)
    ensures ChanIndex(s, c) < CHANNELS && ChanIndex(s, c) + 1 == ChanIndex(s, c + 1)
    ensures var r, rest := Record(j, ChanIndex(s, c)), SurfRecords(j, s, c + 1) + (Packets(j, s + 1) + tail);
            && |SurfRecords(j, s, c)| == |r| + |SurfRecords(j, s, c + 1)|
            && mem[count..] == r + rest && count + |r| <= |mem| && mem[count + |r|..] == rest && |rest| >= |tail|
  {
    hide Record, Packets, ValidJob;
    var r := Record(j, ChanIndex(s, c));
    Assoc(r, SurfRecords(j, s, c + 1), Packets(j, s + 1) + tail);
    assert mem[count + |r|..] == mem[count..][|r|..];
  }

  lemma NoRecords(mem: seq<byte>, count: nat, s: nat, j: Job, tail: seq<byte>)
    requires ValidJob(j) && s < ACTIVE_SURFS && count <= |mem|
    requires mem[count..] == SurfRecords(j, s, CHANNELS_PER_SURF) + (Packets(j, s + 1) + tail)
    ensures |SurfRecords(j, s, CHANNELS_PER_SURF)| == 0 && mem[count..] == Packets(j, s + 1) + tail
    ensures ChanIndex(s, CHANNELS_PER_SURF) == ChanIndex(s + 1, 0)
  {
    hide Packets, ValidJob;
  }

  lemma Sizes()
    ensures FAR >= BEHIND && CHANNELS_PER_SURF == 9 && ACTIVE_SURFS == 12 && CHANNELS == 108 && HEADER == 24
    ensures ChanIndex(ACTIVE_SURFS, 0) == CHANNELS && ChanIndex(0, 0) == 0
  {
  }

  lemma IndexRange(s: nat, c: nat)
    requires s < ACTIVE_SURFS && c <= CHANNELS_PER_SURF
    ensures ChanIndex(s, c) <= CHANNELS && (c < CHANNELS_PER_SURF ==> ChanIndex(s, c) < CHANNELS)
  {
  }

  lemma {:induction false} FromChannelBack(mem: seq<byte>, numBytes: nat, count: nat, s: nat, c: nat, u: Unpacking,
                                           env: Surroundings, j: Job, tail: seq<byte>)
    requires |mem| >= numBytes + FAR && s < ACTIVE_SURFS && c <= CHANNELS_PER_SURF && Shaped(u) && Roomy(env)
        && Keeping(env)
    requires ValidJob(j) && AllCarried(j) && Numbered(u, j)
    requires ChanIndex(s, c) <= CHANNELS && SoFar(u, j, ChanIndex(s, c)) && |tail| >= FAR
    requires count + |SurfRecords(j, s, c)| + |Packets(j, s + 1)| == numBytes
    requires mem[count..] == SurfRecords(j, s, c) + (Packets(j, s + 1) + tail)
    ensures Returned(FromChannel(mem, numBytes, count, s, c, u, env), j, numBytes, u.overran)
    decreases ACTIVE_SURFS - s, CHANNELS_PER_SURF - c
  {
    hide *;
    Sizes();
    IndexRange(s, c);
    ChannelUnfold(mem, numBytes, count, s, c, u, env);
    if c == CHANNELS_PER_SURF {
      NoRecords(mem, count, s, j, tail);
      FromSurfBack(mem, numBytes, count, s + 1, u, env, j, tail);
    } else {
      RecordAhead(mem, count, s, c, j, tail);
      var r, rest := Record(j, ChanIndex(s, c)), SurfRecords(j, s, c + 1) + (Packets(j, s + 1) + tail);
      CarriedAt(j, ChanIndex(s, c));
      TakeBack(mem, numBytes, count, ChanIndex(s, c), u, env, j, rest);
      var (code, u1, next) := TakeRecord(mem, numBytes, count, ChanIndex(s, c), u, env);
      FromChannelBack(mem, numBytes, next, s, c + 1, u1, env, j, tail);
      ReturnedOver(FromChannel(mem, numBytes, count, s, c, u, env), j, numBytes, u1.overran, u.overran);
    }
  }

  lemma SurfUnfold(mem: seq<byte>, numBytes: nat, count: nat, s: nat, u: Unpacking, env: Surroundings)
    requires |mem| >= numBytes + FAR && s <= ACTIVE_SURFS && Shaped(u) && Roomy(env) && Keeping(env)
    requires count <= numBytes
    ensures s == ACTIVE_SURFS ==> FromSurf(mem, numBytes, count, s, u, env) == (Ok, u, count)
    ensures s < ACTIVE_SURFS ==>
              FromSurf(mem, numBytes, count, s, u, env)
              == FromChannel(mem, numBytes, count + HEADER, s, 0, TakeNumbers(mem[count..], u), env)
  {
    hide Shaped, Keeping, TakeNumbers;
  }

  lemma {:induction false} FromSurfBack(mem: seq<byte>, numBytes: nat, count: nat, s: nat, u: Unpacking,
                                        env: Surroundings, j: Job, tail: seq<byte>)
    requires |mem| >= numBytes + FAR && s <= ACTIVE_SURFS && Shaped(u) && Roomy(env) && Keeping(env)
    requires ValidJob(j) && AllCarried(j) && (s == ACTIVE_SURFS ==> Numbered(u, j))
    requires ChanIndex(s, 0) <= CHANNELS && SoFar(u, j, ChanIndex(s, 0)) && |tail| >= FAR
    requires count + |Packets(j, s)| == numBytes
    requires mem[count..] == Packets(j, s) + tail
    ensures Returned(FromSurf(mem, numBytes, count, s, u, env), j, numBytes, u.overran)
    decreases ACTIVE_SURFS - s, CHANNELS_PER_SURF + 1
  {
    hide *;
    Sizes();
    SurfUnfold(mem, numBytes, count, s, u, env);
    PacketsStep(j, s);
    if s < ACTIVE_SURFS {
      PacketAhead(mem, count, s, u, j, tail);
      var u1 := TakeNumbers(mem[count..], u);
      SoFarKept(u, u1, j, ChanIndex(s, 0));
      FromChannelBack(mem, numBytes, count + HEADER, s, 0, u1, env, j, tail);
    } else {
      ReturnedIs(FromSurf(mem, numBytes, count, s, u, env), j, numBytes);
    }
  }

  lemma SoFarKept(u: Unpacking, u1: Unpacking, j: Job, i: nat)
    requires Shaped(u) && Shaped(u1) && ValidJob(j) && i <= CHANNELS && SoFar(u, j, i)
    requires u1.event.channels == u.event.channels && u1.types == u.types && u1.sizes == u.sizes
    ensures SoFar(u1, j, i)
  {
    hide ValidJob, Body, ActualType;
    forall k | 0 <= k < i ensures Back(u1, j, k) {
      assert Back(u, j, k);
    }
  }

  /** A packet met on the walk: its numbers, then its records. */
  lemma PacketAhead(mem: seq<byte>, count: nat, s: nat, u: Unpacking, j: Job, tail: seq<byte>)
    requires s < ACTIVE_SURFS && ValidJob(j) && Shaped(u)
    requires count <= |mem| && mem[count..] == Packets(j, s) + tail
    ensures count + HEADER <= |mem|
    ensures var u1 := TakeNumbers(mem[count..], u);
            && Numbered(u1, j) && u1 == u.(event := u1.event) && u1.event.channels == u.event.channels
    ensures mem[count + HEADER..] == SurfRecords(j, s, 0) + (Packets(j, s + 1) + tail)
    ensures |Packets(j, s)| == HEADER + |SurfRecords(j, s, 0)| + |Packets(j, s + 1)|
  {
    var at, h := mem[count..], Filled(j, PACKET_ENC_SURF_PEDSUB, Numbers(j) + SurfRecords(j, s, 0));
    var (number, peds) := (LE32(j.event.eventNumber), LE32(j.event.whichPeds));
    var rest := SurfRecords(j, s, 0) + (Packets(j, s + 1) + tail);
    PacketSplit(j, s, tail);
    hide Packets, SurfRecords, LE32, Word32, Filled, Packet, ChanIndex;
    Sections(at, h, number, peds, rest);
    Word32OfLE32(j.event.eventNumber, peds + rest);
    Word32OfLE32(j.event.whichPeds, rest);
    assert mem[count + HEADER..] == at[HEADER..];
  }

  lemma PacketSplit(j: Job, s: nat, tail: seq<byte>)
    requires s < ACTIVE_SURFS && ValidJob(j)
    ensures var h := Filled(j, PACKET_ENC_SURF_PEDSUB, Numbers(j) + SurfRecords(j, s, 0));
            Packets(j, s) + tail
            == h + LE32(j.event.eventNumber) + LE32(j.event.whichPeds)
                + (SurfRecords(j, s, 0) + (Packets(j, s + 1) + tail))
    ensures Packets(j, s) == Packet(j, s) + Packets(j, s + 1)
  {
    hide SurfRecords, LE32, Filled, ValidJob;
    Regroup(Filled(j, PACKET_ENC_SURF_PEDSUB, Numbers(j) + SurfRecords(j, s, 0)), LE32(j.event.eventNumber),
            LE32(j.event.whichPeds), SurfRecords(j, s, 0), Packets(j, s + 1), tail);
  }

  lemma Regroup<T>(h: seq<T>, a: seq<T>, b: seq<T>, r: seq<T>, p: seq<T>, t: seq<T>)
    ensures h + (a + b + r) + p + t == h + a + b + (r + (p + t))
  {
  }

  lemma Sections(at: seq<byte>, h: seq<byte>, a: seq<byte>, b: seq<byte>, rest: seq<byte>)
    requires |h| == 16 && |a| == |b| == 4 && at == h + a + b + rest
    ensures at[16..] == a + (b + rest) && at[20..] == b + rest && at[24..] == rest
  {
  }

  lemma Word32Front(a: seq<byte>, b: seq<byte>)
    requires |a| >= 4
    ensures Word32(a + b) == Word32(a)
  {
  }

  lemma FilledCode(j: Job, code: nat, rest: seq<byte>)
    requires ValidJob(j) && code < 0x1_0000_0000
    ensures Word32(Filled(j, code, rest)) == code
  {
    hide Word32, Blank;
  }

  /** The first packet's bytes. */
  lemma FirstPacket(j: Job)
    requires ValidJob(j)
    ensures var rest := Numbers(j) + SurfRecords(j, 0, 0);
            Packets(j, 0) == Filled(j, PACKET_ENC_SURF_PEDSUB, rest) + rest + Packets(j, 1)
    ensures |Packets(j, 0)| >= HEADER
  {
    hide SurfRecords, Filled, LE32, ValidJob, Numbers, ChanIndex;
  }

  lemma DropWrapper(h: seq<byte>, front: seq<byte>, body: seq<byte>, tail: seq<byte>)
    ensures (h + (front + body) + tail)[|h| + |front|..] == body + tail
  {
  }

  /** The wrapper is recognised, and the packet behind it is not another one. */
  lemma WrapperAhead(j: Job, tail: seq<byte>)
    requires ValidJob(j)
    ensures var mem := EventRecord(j) + tail;
            && |mem| >= HEADER && Word32(mem) == PACKET_ENC_PEDSUB_EVENT_WRAPPER
            && mem[HEADER..] == Packets(j, 0) + tail && |Packets(j, 0)| >= HEADER
            && Word32(Packets(j, 0) + tail) == PACKET_ENC_SURF_PEDSUB
  {
    hide SurfRecords, Word32, Filled, LE32, ValidJob, Numbers, ChanIndex, Packets;
    var body := WrapRest(j);
    var h := Filled(j, PACKET_ENC_PEDSUB_EVENT_WRAPPER, body);
    FilledCode(j, PACKET_ENC_PEDSUB_EVENT_WRAPPER, body);
    Assoc(h, body, tail);
    Word32Front(h, body + tail);
    DropWrapper(h, LE32(j.event.eventNumber) + LE32(|Packets(j, 0)|), Packets(j, 0), tail);
    var rest := Numbers(j) + SurfRecords(j, 0, 0);
    var h0 := Filled(j, PACKET_ENC_SURF_PEDSUB, rest);
    FilledCode(j, PACKET_ENC_SURF_PEDSUB, rest);
    FirstPacket(j);
    Assoc(h0, rest, Packets(j, 1));
    Assoc(h0, rest + Packets(j, 1), tail);
    Word32Front(h0, rest + Packets(j, 1) + tail);
  }

  /**
   * Event round trip: the record, with anything behind it, unpacks to the event
   * that was packed, every channel with its header and samples, and the walk
   * ends at the size of what the wrapper held.
   */
  lemma EventRoundTrip(j: Job, tail: seq<byte>, u: Unpacking, env: Surroundings)
    requires ValidJob(j) && AllCarried(j) && Shaped(u) && Roomy(env) && Keeping(env) && |tail| >= FAR
    ensures var (code, u1, count) := UnpackedEvent(EventRecord(j) + tail, |EventRecord(j)|, u, env);
            && code == Ok && count == |EventRecord(j)| - HEADER
            && u1.event == j.event
            && |u1.types| == |u1.sizes| == CHANNELS
            && (forall k :: 0 <= k < CHANNELS ==>
                  u1.types[k] == ActualType(j.types[k], j.stats[k])
                  && u1.sizes[k] == |Body(j.types[k], j.event.channels[k].data, j.stats[k])|)
            && (NoCombo(j) ==> u1.overran == u.overran)
  {
    hide *;
    Sizes();
    var mem, n := EventRecord(j) + tail, |EventRecord(j)|;
    WrapperAhead(j, tail);
    var inner := Packets(j, 0) + tail;
    assert inner[0..] == inner;
    NothingYet(u, j);
    Stripped(mem, n, u, env);
    FromSurfBack(inner, n - HEADER, 0, 0, u, env, j, tail);
    ReturnedMeans(UnpackedEvent(mem, n, u, env), j, n - HEADER, u.overran);
  }

  lemma NothingYet(u: Unpacking, j: Job)
    requires Shaped(u) && ValidJob(j)
    ensures SoFar(u, j, 0)
  {
  }

  lemma Stripped(mem: seq<byte>, numBytes: nat, u: Unpacking, env: Surroundings)
    requires |mem| >= numBytes + FAR && Shaped(u) && Roomy(env) && Keeping(env)
    requires Word32(mem) == PACKET_ENC_PEDSUB_EVENT_WRAPPER && numBytes > HEADER
    requires Word32(mem[HEADER..]) == PACKET_ENC_SURF_PEDSUB
    ensures UnpackedEvent(mem, numBytes, u, env) == FromSurf(mem[HEADER..], numBytes - HEADER, 0, 0, u, env)
  {
    hide Word32, FromSurf, Shaped, Keeping;
  }

  lemma ReturnedMeans(r: Outcome, j: Job, numBytes: nat, overran: bool)
    requires ValidJob(j) && Returned(r, j, numBytes, overran)
    ensures r.0 == Ok && r.2 == numBytes && r.1.event == j.event && |r.1.types| == |r.1.sizes| == CHANNELS
    ensures forall k :: 0 <= k < CHANNELS ==>
              r.1.types[k] == ActualType(j.types[k], j.stats[k])
              && r.1.sizes[k] == |Body(j.types[k], j.event.channels[k].data, j.stats[k])|
    ensures NoCombo(j) ==> r.1.overran == overran
  {
    hide Body, ActualType, Encodable, NoCombo;
    SameEvent(r.1, j);
    forall k | 0 <= k < CHANNELS
      ensures r.1.types[k] == ActualType(j.types[k], j.stats[k])
      ensures r.1.sizes[k] == |Body(j.types[k], j.event.channels[k].data, j.stats[k])|
    {
      assert Back(r.1, j, k);
    }
  }

  lemma SameEvent(u: Unpacking, j: Job)
    requires Shaped(u) && ValidJob(j) && SoFar(u, j, CHANNELS) && Numbered(u, j)
    ensures u.event == j.event
    ensures forall k :: 0 <= k < CHANNELS ==> Back(u, j, k)
  {
    hide Body, ActualType, Encodable;
    forall k | 0 <= k < CHANNELS ensures u.event.channels[k] == j.event.channels[k] {
      assert Back(u, j, k);
    }
  }
}

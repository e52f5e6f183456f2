// Packing an event into a zeroed buffer, front to back, headers last.
module EventPack {
  import opened Bits
  import opened CompUtils
  import opened Encoding
  import opened Records
  import opened Channel
  import opened ChannelCodec
  import opened ChannelTrip
  import opened EventFormat

  const MAX_WAVE_BUFFER: nat := 112320

  /** What one channel record and one SURF header take at most; the size is tested only after they are written. */
  const OVERSHOOT: nat := HEADER + 12 + LARGEST

  /** Bytes written behind a gap left as it was. */
  lemma LaidGap(s: seq<byte>, done: seq<byte>, orig: seq<byte>, next: seq<byte>, t: seq<byte>)
    requires Laid(s, done, orig) && |done| + GENERIC + |next| <= |orig|
    requires forall i :: 0 <= i < |orig| ==> orig[i] == 0
    requires t == Splice(s, |done| + GENERIC, next)
    ensures Laid(t, done + Blank() + next, orig)
  {
  }

  lemma RecordSize(j: Job, i: nat)
    requires ValidJob(j) && i < CHANNELS
    ensures |Record(j, i)| <= 12 + LARGEST
  {
    BodySize(j.types[i], j.event.channels[i].data, j.stats[i]);
    RecordParts(j.types[i], j.event.channels[i], j.stats[i]);
  }

  /** An event in memory: its own fields, and its channels as separate objects. */
  class PedSubbedEvent {
    var eventNumber: nat
    var whichPeds: nat
    const channel: seq<SurfChannel>

    constructor (channel0: seq<SurfChannel>)
      ensures channel == channel0 && eventNumber == 0 && whichPeds == 0
    {
      channel := channel0;
      eventNumber, whichPeds := 0, 0;
    }

    ghost predicate Valid()
      reads this
    {
      && |channel| == CHANNELS
      && (forall i :: 0 <= i < CHANNELS ==> channel[i].data.Length == SAMPLES)
      && (forall i, k :: 0 <= i < k < CHANNELS ==> channel[i] != channel[k] && channel[i].data != channel[k].data)
    }

    ghost function Channels(): (cs: seq<ChannelValue>)
      reads channel, set c | c in channel :: c.data
      ensures |cs| == |channel| && forall i :: 0 <= i < |cs| ==> cs[i] == channel[i].Value()
    {
      seq(|channel|, i requires 0 <= i < |channel| reads channel, set c | c in channel :: c.data => channel[i].Value())
    }

    ghost function Value(): EventValue
      reads this, channel, set c | c in channel :: c.data
    {
      EventValue(eventNumber, whichPeds, Channels())
    }
  }

  // ----- Packing one SURF

  /** Records of SURF s up to channel c are in place behind `front`. */
  ghost predicate Packing(s: seq<byte>, orig: seq<byte>, front: seq<byte>, j: Job, surf: nat, c: nat, done: seq<byte>)
    requires ValidJob(j) && surf < ACTIVE_SURFS && c <= CHANNELS_PER_SURF
  {
    && Laid(s, front + done, orig)
    && done + SurfRecords(j, surf, c) == SurfRecords(j, surf, 0)
  }

  lemma PackingNext(s: seq<byte>, orig: seq<byte>, front: seq<byte>, j: Job, surf: nat, c: nat, done: seq<byte>,
                    t: seq<byte>)
    requires ValidJob(j) && surf < ACTIVE_SURFS && c < CHANNELS_PER_SURF
    requires Packing(s, orig, front, j, surf, c, done)
    requires |front| + |done| + |Record(j, ChanIndex(surf, c))| <= |orig|
    requires t == Splice(s, |front| + |done|, Record(j, ChanIndex(surf, c)))
    ensures Packing(t, orig, front, j, surf, c + 1, done + Record(j, ChanIndex(surf, c)))
  {
    hide Record, Splice;
    var r := Record(j, ChanIndex(surf, c));
    assert |Splice(s, |front + done|, r)| == |s|;
    LaidNext(s, front + done, orig, r, t);
    Assoc(front, done, r);
    Assoc(done, r, SurfRecords(j, surf, c + 1));
  }

  lemma PackingStart(s: seq<byte>, orig: seq<byte>, front: seq<byte>, j: Job, surf: nat)
    requires ValidJob(j) && surf < ACTIVE_SURFS && Laid(s, front, orig)
    ensures Packing(s, orig, front, j, surf, 0, [])
  {
    hide SurfRecords;
    assert front + [] == front;
    assert [] + SurfRecords(j, surf, 0) == SurfRecords(j, surf, 0);
  }

  lemma PackingEnd(s: seq<byte>, orig: seq<byte>, front: seq<byte>, j: Job, surf: nat, done: seq<byte>)
    requires ValidJob(j) && surf < ACTIVE_SURFS && Packing(s, orig, front, j, surf, CHANNELS_PER_SURF, done)
    ensures done == SurfRecords(j, surf, 0) && Laid(s, front + done, orig)
  {
    assert done + [] == done;
  }

  lemma PackingRoom(s: seq<byte>, orig: seq<byte>, front: seq<byte>, j: Job, surf: nat, c: nat, done: seq<byte>)
    requires ValidJob(j) && surf < ACTIVE_SURFS && c < CHANNELS_PER_SURF
    requires Packing(s, orig, front, j, surf, c, done)
    requires forall i :: 0 <= i < |orig| ==> orig[i] == 0
    requires |front| + |done| + 12 + LARGEST <= |orig|
    ensures |done| + |Record(j, ChanIndex(surf, c))| + |SurfRecords(j, surf, c + 1)| == |SurfRecords(j, surf, 0)|
    ensures |front| + |done| + |Record(j, ChanIndex(surf, c))| <= |orig| == |s|
    ensures ZeroFrom(s, |front| + |done|, |Record(j, ChanIndex(surf, c))|)
  {
    hide Record, ZeroFrom;
    RecordSize(j, ChanIndex(surf, c));
    LaidZero(s, front + done, orig, |Record(j, ChanIndex(surf, c))|);
  }

  lemma ChannelOf(ev: PedSubbedEvent, j: Job, i: nat)
    requires ev.Valid() && ValidJob(j) && j.event == ev.Value() && i < CHANNELS
    ensures j.event.channels[i] == ev.channel[i].Value()
    ensures |ev.channel| == CHANNELS == |j.types| == |j.stats|
    ensures ev.channel[i].data.Length == SAMPLES && Encodable(j.types[i], j.stats[i])
    ensures Record(j, i) == ChannelRecord(j.types[i], ev.channel[i].Value(), j.stats[i])
  {
  }

  lemma Limits()
    ensures CHANNELS_PER_SURF == 9 && MAX_WAVE_BUFFER + HEADER + 12 + LARGEST == MAX_WAVE_BUFFER + OVERSHOOT
    ensures MAX_WAVE_BUFFER == 112320 && HEADER == 24 && GENERIC == 16 && ACTIVE_SURFS == 12
  {
  }

  /** The inner loop: nine records from `front` on, unless the buffer limit is passed. */
  method PackChannels(ev: PedSubbedEvent, types: seq<nat>, stats: seq<Stats>, output: array<byte>, surf: nat,
                      count0: nat,
                      ghost j: Job, ghost orig: seq<byte>, ghost front: seq<byte>)
    returns (code: CompressErrorCode, count: nat)
    requires ev.Valid() && ValidJob(j) && j.event == ev.Value() && j.types == types && j.stats == stats
    requires surf < ACTIVE_SURFS && count0 == |front| <= MAX_WAVE_BUFFER + HEADER
    requires |orig| >= MAX_WAVE_BUFFER + OVERSHOOT && forall i :: 0 <= i < |orig| ==> orig[i] == 0
    requires Laid(output[..], front, orig)
    modifies output
    ensures code == (if |front| + |SurfRecords(j, surf, 0)| > MAX_WAVE_BUFFER then TooBig else Ok)
    ensures code == Ok ==> count == |front| + |SurfRecords(j, surf, 0)|
    ensures code == Ok ==> Laid(output[..], front + SurfRecords(j, surf, 0), orig)
  {
    hide *;
    Limits();
    count := count0;
    ghost var done: seq<byte> := [];
    PackingStart(output[..], orig, front, j, surf);
    var chan := 0;
    while chan < CHANNELS_PER_SURF
      invariant 0 <= chan <= CHANNELS_PER_SURF && count == |front| + |done|
      invariant count <= MAX_WAVE_BUFFER || (chan == 0 && count <= MAX_WAVE_BUFFER + HEADER)
      invariant Packing(output[..], orig, front, j, surf, chan, done)
    {
      count, done := PackChannel(ev, types, stats, output, surf, chan, count, j, orig, front, done);
      chan := chan + 1;
      if count > MAX_WAVE_BUFFER {
        return TooBig, count;
      }
    }
    PackingEnd(output[..], orig, front, j, surf, done);
    code := Ok;
  }

  method IndexOf(surf: nat, chan: nat) returns (i: nat)
    requires surf < ACTIVE_SURFS && chan < CHANNELS_PER_SURF
    ensures i == ChanIndex(surf, chan) < CHANNELS
  {
    i := ChanIndex(surf, chan);
  }

  /** One record. */
  method PackChannel(ev: PedSubbedEvent, types: seq<nat>, stats: seq<Stats>, output: array<byte>, surf: nat,
                     chan: nat, count0: nat,
                     ghost j: Job, ghost orig: seq<byte>, ghost front: seq<byte>, ghost done0: seq<byte>)
    returns (count: nat, ghost done: seq<byte>)
    requires ev.Valid() && ValidJob(j) && j.event == ev.Value() && j.types == types && j.stats == stats
    requires surf < ACTIVE_SURFS && chan < CHANNELS_PER_SURF && count0 == |front| + |done0|
    requires count0 + 12 + LARGEST <= |orig| && forall i :: 0 <= i < |orig| ==> orig[i] == 0
    requires Packing(output[..], orig, front, j, surf, chan, done0)
    modifies output
    ensures count == |front| + |done| <= |front| + |SurfRecords(j, surf, 0)|
    ensures Packing(output[..], orig, front, j, surf, chan + 1, done)
  {
    hide *;
    var i := IndexOf(surf, chan);
    ghost var before, r := output[..], Record(j, i);
    PackingRoom(before, orig, front, j, surf, chan, done0);
    ChannelOf(ev, j, i);
    var size := EncodePSChannel(types[i], ev.channel[i], stats[i], output, count0);
    PackingNext(before, orig, front, j, surf, chan, done0, output[..]);
    count, done := count0 + size, done0 + r;
  }

  // ----- Packing the SURFs

  /** One SURF packet: room for the generic header, the numbers, the records, then the header. */
  method PackSurf(ev: PedSubbedEvent, types: seq<nat>, stats: seq<Stats>, fill: HeaderFiller, output: array<byte>,
                  surf: nat, count0: nat, ghost j: Job, ghost orig: seq<byte>, ghost front: seq<byte>)
    returns (code: CompressErrorCode, count: nat)
    requires ev.Valid() && ValidJob(j) && j == Job(ev.Value(), types, stats, fill)
    requires surf < ACTIVE_SURFS && count0 == |front| <= MAX_WAVE_BUFFER
    requires |orig| >= MAX_WAVE_BUFFER + OVERSHOOT && forall i :: 0 <= i < |orig| ==> orig[i] == 0
    requires Laid(output[..], front, orig)
    modifies output
    ensures code == (if |front| + |Packet(j, surf)| > MAX_WAVE_BUFFER then TooBig else Ok)
    ensures code == Ok ==> count == |front| + |Packet(j, surf)|
    ensures code == Ok ==> Laid(output[..], front + Packet(j, surf), orig)
  {
    hide *;
    Limits();
    ghost var numbers, before, records := Numbers(j), output[..], SurfRecords(j, surf, 0);
    NumbersOf(ev, j);
    LaidLength(before, front, orig);
    StoreBytes(output, count0 + GENERIC, LE32(ev.eventNumber) + LE32(ev.whichPeds));
    LaidGap(before, front, orig, numbers, output[..]);
    code, count := PackChannels(ev, types, stats, output, surf, count0 + HEADER, j, orig, front + Blank() + numbers);
    if code == Ok {
      ghost var packed := output[..];
      PacketWhole(packed, orig, front, j, surf);
      var header := fill(PACKET_ENC_SURF_PEDSUB, output[count0..count]);
      StoreBytes(output, count0, header);
      LaidFilled(packed, front, Blank(), numbers + records, orig, header, output[..]);
      Assoc(front, header, numbers + records);
    }
  }

  lemma NumbersOf(ev: PedSubbedEvent, j: Job)
    requires j.event == ev.Value()
    ensures Numbers(j) == LE32(ev.eventNumber) + LE32(ev.whichPeds)
    ensures j.event.eventNumber == ev.eventNumber
  {
  }

  /** Where the packet stands once its records are in, header still blank. */
  lemma PacketWhole(s: seq<byte>, orig: seq<byte>, front: seq<byte>, j: Job, surf: nat)
    requires ValidJob(j) && surf < ACTIVE_SURFS
    requires Laid(s, front + Blank() + Numbers(j) + SurfRecords(j, surf, 0), orig)
    ensures var rest := Numbers(j) + SurfRecords(j, surf, 0);
            var header := j.fill(PACKET_ENC_SURF_PEDSUB, Blank() + rest);
            && Packet(j, surf) == header + rest && |header| == GENERIC
            && Laid(s, front + Blank() + rest, orig)
            && |front| + GENERIC + |rest| <= |s| == |orig|
            && s[|front|..|front| + GENERIC + |rest|] == Blank() + rest
  {
    hide SurfRecords, Numbers;
    var rest := Numbers(j) + SurfRecords(j, surf, 0);
    Assoc(front + Blank(), Numbers(j), SurfRecords(j, surf, 0));
    Assoc(front, Blank(), rest);
    LaidSlice(s, front, Blank() + rest, orig);
  }

  /** Packets of the SURFs before `surf` stand between the wrapper's header and the cursor. */
  ghost predicate Wrapped(s: seq<byte>, orig: seq<byte>, j: Job, surf: nat, wrap: seq<byte>, done: seq<byte>)
    requires ValidJob(j) && surf <= ACTIVE_SURFS
  {
    && Laid(s, wrap + done, orig)
    && done + Packets(j, surf) == Packets(j, 0)
  }

  lemma WrappedNext(s: seq<byte>, orig: seq<byte>, j: Job, surf: nat, wrap: seq<byte>, done: seq<byte>, t: seq<byte>)
    requires ValidJob(j) && surf < ACTIVE_SURFS
    requires Wrapped(s, orig, j, surf, wrap, done) && Laid(t, wrap + done + Packet(j, surf), orig)
    ensures Wrapped(t, orig, j, surf + 1, wrap, done + Packet(j, surf))
  {
    hide Packet;
    Assoc(wrap, done, Packet(j, surf));
    Assoc(done, Packet(j, surf), Packets(j, surf + 1));
  }

  lemma WrappedStart(s: seq<byte>, orig: seq<byte>, j: Job, wrap: seq<byte>)
    requires ValidJob(j) && Laid(s, wrap, orig)
    ensures Wrapped(s, orig, j, 0, wrap, [])
  {
    hide Packets;
    assert wrap + [] == wrap;
    assert [] + Packets(j, 0) == Packets(j, 0);
  }

  lemma WrappedSize(s: seq<byte>, orig: seq<byte>, j: Job, surf: nat, wrap: seq<byte>, done: seq<byte>)
    requires ValidJob(j) && surf <= ACTIVE_SURFS && Wrapped(s, orig, j, surf, wrap, done)
    ensures |done| <= |Packets(j, 0)| && Laid(s, wrap + done, orig)
    ensures surf < ACTIVE_SURFS ==> |done| + |Packet(j, surf)| <= |Packets(j, 0)|
    ensures surf == ACTIVE_SURFS ==> done == Packets(j, 0)
  {
    hide Packet, Packets, Laid, ValidJob;
    PacketsStep(j, surf);
    assert done + [] == done;
  }

  lemma PacketsStep(j: Job, surf: nat)
    requires ValidJob(j) && surf <= ACTIVE_SURFS
    ensures surf < ACTIVE_SURFS ==> Packets(j, surf) == Packet(j, surf) + Packets(j, surf + 1)
    ensures surf == ACTIVE_SURFS ==> Packets(j, surf) == []
  {
    hide Packet, ValidJob;
  }

  const BLANK4: seq<byte> := [0, 0, 0, 0]

  /** The wrapper's header once the event number is in. */
  lemma WrapStart(s: seq<byte>, number: seq<byte>, t: seq<byte>)
    requires |s| >= HEADER && forall i :: 0 <= i < |s| ==> s[i] == 0
    requires |number| == 4 && t == Splice(s, GENERIC, number)
    ensures Laid(t, Blank() + number + BLANK4, s)
  {
  }

  ghost function WrapRest(j: Job): seq<byte>
    requires ValidJob(j)
  {
    LE32(j.event.eventNumber) + LE32(|Packets(j, 0)|) + Packets(j, 0)
  }

  /** Once the size is in, only the generic header is missing. */
  lemma WrapSized(s: seq<byte>, orig: seq<byte>, j: Job, t: seq<byte>)
    requires ValidJob(j)
    requires Laid(s, Blank() + LE32(j.event.eventNumber) + BLANK4 + Packets(j, 0), orig)
    requires |s| >= HEADER && t == Splice(s, 20, LE32(|Packets(j, 0)|))
    ensures Laid(t, Blank() + WrapRest(j), orig)
    ensures |Blank() + WrapRest(j)| == HEADER + |Packets(j, 0)|
  {
    hide Packets, LE32;
    var (number, size, packets) := (LE32(j.event.eventNumber), LE32(|Packets(j, 0)|), Packets(j, 0));
    LaidFilled(s, Blank() + number, BLANK4, packets, orig, size, t);
    Assoc(Blank(), number, size);
    Assoc(Blank(), number + size, packets);
  }

  lemma WrapFilled(s: seq<byte>, orig: seq<byte>, rest: seq<byte>, h: seq<byte>, t: seq<byte>)
    requires Laid(s, Blank() + rest, orig) && |h| == GENERIC && t == Splice(s, 0, h)
    ensures Laid(t, h + rest, orig)
  {
    assert [] + Blank() == Blank() && [] + h == h;
    LaidFilled(s, [], Blank(), rest, orig, h, t);
  }

  lemma HeaderOf(j: Job)
    requires ValidJob(j)
    ensures var h := j.fill(PACKET_ENC_PEDSUB_EVENT_WRAPPER, Blank() + WrapRest(j));
            |h| == GENERIC && h + WrapRest(j) == EventRecord(j)
    ensures |EventRecord(j)| == HEADER + |Packets(j, 0)|
  {
    hide Packets, LE32, Blank;
    FilledSize(j, PACKET_ENC_PEDSUB_EVENT_WRAPPER, WrapRest(j));
  }

  lemma FilledSize(j: Job, code: nat, rest: seq<byte>)
    requires ValidJob(j)
    ensures j.fill(code, Blank() + rest) == Filled(j, code, rest)
    ensures |j.fill(code, Blank() + rest)| == GENERIC
  {
  }

  /** The size goes in, and then the generic header over everything. */
  method FinishWrapper(fill: HeaderFiller, output: array<byte>, count: nat, ghost j: Job, ghost orig: seq<byte>)
    requires ValidJob(j) && j.fill == fill && count == HEADER + |Packets(j, 0)|
    requires Laid(output[..], Blank() + LE32(j.event.eventNumber) + BLANK4 + Packets(j, 0), orig)
    requires |orig| >= MAX_WAVE_BUFFER
    modifies output
    ensures Laid(output[..], EventRecord(j), orig)
  {
    hide *;
    Limits();
    ghost var packed := output[..];
    LaidLength(packed, Blank() + LE32(j.event.eventNumber) + BLANK4 + Packets(j, 0), orig);
    StoreBytes(output, 20, LE32(count - HEADER));
    WrapSized(packed, orig, j, output[..]);
    ghost var sized := output[..];
    FrontIs(sized, Blank() + WrapRest(j), orig);
    assert sized[..count] == output[..count];
    HeaderOf(j);
    var header := fill(PACKET_ENC_PEDSUB_EVENT_WRAPPER, output[..count]);
    StoreBytes(output, 0, header);
    WrapFilled(sized, orig, WrapRest(j), header, output[..]);
  }

  /**
   * The whole event.  It is refused just when its record is larger than the
   * limit; otherwise the record stands at the front of the buffer.
   */
  method PackPedSubbedEvent(ev: PedSubbedEvent, types: seq<nat>, stats: seq<Stats>, fill: HeaderFiller,
                            output: array<byte>)
    returns (code: CompressErrorCode, numBytes: nat)
    requires ev.Valid() && ValidJob(Job(ev.Value(), types, stats, fill))
    requires output.Length >= MAX_WAVE_BUFFER + OVERSHOOT && forall i :: 0 <= i < output.Length ==> output[i] == 0
    modifies output
    ensures code == (if |EventRecord(Job(ev.Value(), types, stats, fill))| > 108 * 260 * 4 then TooBig else Ok)
    ensures code == Ok ==> numBytes == |EventRecord(Job(ev.Value(), types, stats, fill))|
    ensures code == Ok ==> Laid(output[..], EventRecord(Job(ev.Value(), types, stats, fill)), old(output[..]))
  {
    hide *;
    Limits();
    ghost var j, orig, done: seq<byte> := Job(ev.Value(), types, stats, fill), output[..], [];
    var number := LE32(ev.eventNumber);
    ghost var wrap := Blank() + number + BLANK4;
    NumbersOf(ev, j);
    Blank4();
    StoreBytes(output, GENERIC, number);
    WrapStart(orig, number, output[..]);
    WrappedStart(output[..], orig, j, wrap);
    var count := HEADER;
    var surf := 0;
    while surf < ACTIVE_SURFS
      invariant 0 <= surf <= ACTIVE_SURFS && count == HEADER + |done| <= MAX_WAVE_BUFFER
      invariant Wrapped(output[..], orig, j, surf, wrap, done)
    {
      ghost var before := output[..];
      WrappedSize(before, orig, j, surf, wrap, done);
      HeaderOf(j);
      code, count := PackSurf(ev, types, stats, fill, output, surf, count, j, orig, wrap + done);
      if code != Ok {
        return TooBig, count;
      }
      WrappedNext(before, orig, j, surf, wrap, done, output[..]);
      done := done + Packet(j, surf);
      surf := surf + 1;
    }
    WrappedSize(output[..], orig, j, surf, wrap, done);
    FinishWrapper(fill, output, count, j, orig);
    HeaderOf(j);
    return Ok, count;
  }

  lemma Blank4()
    ensures |BLANK4| == 4 && |Blank()| == 16
  {
  }
}

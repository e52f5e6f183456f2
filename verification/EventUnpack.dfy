// Walking an encoded event: off with the wrapper, then twelve packets of nine
// records, each as long as its own header says.
module EventUnpack {
  import opened Bits
  import opened CompUtils
  import opened Encoding
  import opened Records
  import opened Channel
  import opened ChannelCodec
  import opened EventFormat
  import opened EventPack

  /** The largest size a record's 16-bit field can claim. */
  const CLAIM: nat := 65535

  /** Bytes the walk may look at behind the packet: headers, then whatever a record claims, then a decoder's reach. */
  const FAR: nat := HEADER + 12 + CLAIM + BEHIND

  /** The event being filled in, with the encoding types and sizes found, and whether a table was overrun. */
  datatype Unpacking = Unpacking(event: EventValue, types: seq<nat>, sizes: seq<nat>, overran: bool)

  predicate Shaped(u: Unpacking) {
    WellFormed(u.event) && |u.types| == |u.sizes| == CHANNELS
  }

  /** Result code, state, and the bytes walked over. */
  type Outcome = (CompressErrorCode, Unpacking, nat)

  /** The record at `count` into channel i. */
  function TakeRecord(mem: seq<byte>, numBytes: nat, count: nat, i: nat, u: Unpacking, env: Surroundings): (r: Outcome)
    requires |mem| >= numBytes + FAR && count <= numBytes + HEADER
    requires i < CHANNELS && Shaped(u) && Roomy(env) && Keeping(env)
    ensures Shaped(r.1) && (r.0 == Ok ==> r.2 <= numBytes)
  {
    var h := ReadHeader(mem[count..]);
    var (code, ch, overran) := DecodedChannel(h, mem[count + 12..], u.event.channels[i], env);
    DecodedShape(h, mem[count + 12..], u.event.channels[i], env);
    var ev := u.event.(channels := u.event.channels[i := ch]);
    var next := count + 12 + h.numBytes;
    if code != Ok then (code, u.(event := ev, overran := u.overran || overran), count + 12)
    else
      (if next > numBytes then BadSize else Ok,
       Unpacking(ev, u.types[i := h.encType], u.sizes[i := h.numBytes], u.overran || overran), next)
  }

  /** From SURF s, channel c on. */
  function FromChannel(mem: seq<byte>, numBytes: nat, count: nat, s: nat, c: nat, u: Unpacking,
                       env: Surroundings): (r: Outcome)
    requires |mem| >= numBytes + FAR && count <= numBytes + (if c == 0 then HEADER else 0)
    requires s < ACTIVE_SURFS && c <= CHANNELS_PER_SURF && Shaped(u) && Roomy(env) && Keeping(env)
    decreases ACTIVE_SURFS - s, CHANNELS_PER_SURF - c
  {
    if c == CHANNELS_PER_SURF then FromSurf(mem, numBytes, count, s + 1, u, env)
    else
      var (code, u1, next) := TakeRecord(mem, numBytes, count, ChanIndex(s, c), u, env);
      if code != Ok then (code, u1, next) else FromChannel(mem, numBytes, next, s, c + 1, u1, env)
  }

  /** From SURF s on: its packet's header gives the numbers again. */
  function FromSurf(mem: seq<byte>, numBytes: nat, count: nat, s: nat, u: Unpacking, env: Surroundings): (r: Outcome)
    requires |mem| >= numBytes + FAR && count <= numBytes
    requires s <= ACTIVE_SURFS && Shaped(u) && Roomy(env) && Keeping(env)
    decreases ACTIVE_SURFS - s, CHANNELS_PER_SURF + 1
  {
    if s == ACTIVE_SURFS then (Ok, u, count)
    else FromChannel(mem, numBytes, count + HEADER, s, 0, TakeNumbers(mem[count..], u), env)
  }

  function TakeNumbers(at: seq<byte>, u: Unpacking): (r: Unpacking)
    requires |at| >= HEADER && Shaped(u)
    ensures Shaped(r)
  {
    u.(event := u.event.(eventNumber := Word32(at[16..]), whichPeds := Word32(at[20..])))
  }

  /** The whole: a wrapper is stripped, however many there are. */
  function UnpackedEvent(mem: seq<byte>, numBytes: nat, u: Unpacking, env: Surroundings): Outcome
    requires |mem| >= numBytes + FAR && Shaped(u) && Roomy(env) && Keeping(env)
    decreases numBytes
  {
    if Word32(mem) == PACKET_ENC_PEDSUB_EVENT_WRAPPER && numBytes > HEADER
    then UnpackedEvent(mem[HEADER..], numBytes - HEADER, u, env)
    else FromSurf(mem, numBytes, 0, 0, u, env)
  }

  // ----- The same walk in place

  /** What is in memory: the event object, and the two arrays beside it. */
  ghost function State(ev: PedSubbedEvent, types: array<nat>, sizes: array<nat>, overran: bool): Unpacking
    reads ev, ev.channel, set c | c in ev.channel :: c.data
    reads types, sizes
  {
    Unpacking(ev.Value(), types[..], sizes[..], overran)
  }

  method DecodeRecord(ev: PedSubbedEvent, types: array<nat>, sizes: array<nat>, mem: seq<byte>, numBytes: nat,
                      count: nat,
                      i: nat, env: Surroundings, overran0: bool)
    returns (code: CompressErrorCode, next: nat, overran: bool)
    requires ev.Valid() && types.Length == sizes.Length == CHANNELS && types != sizes
    requires |mem| >= numBytes + FAR && count <= numBytes + HEADER
    requires i < CHANNELS && Shaped(State(ev, types, sizes, overran0)) && Roomy(env) && Keeping(env)
    modifies ev.channel[i], ev.channel[i].data, types, sizes
    ensures ev.Valid()
    ensures (code, State(ev, types, sizes, overran), next)
         == TakeRecord(mem, numBytes, count, i, old(State(ev, types, sizes, overran0)), env)
  {
    hide DecodedChannel, ReadHeader;
    ghost var u := State(ev, types, sizes, overran0);
    var h := ReadHeader(mem[count..]);
    HeaderClaim(mem[count..]);
    var over;
    code, over := DecodePSChannel(h, mem[count + 12..], ev.channel[i], env);
    overran := overran0 || over;
    assert ev.Channels() == u.event.channels[i := ev.channel[i].Value()];
    next := count + 12;
    if code != Ok {
      return;
    }
    next := next + h.numBytes;
    types[i] := h.encType;
    sizes[i] := h.numBytes;
    if next > numBytes {
      code := BadSize;
    }
  }

  lemma HeaderClaim(s: seq<byte>)
    requires |s| >= 12
    ensures ReadHeader(s).numBytes <= CLAIM
  {
  }

  /** The channels and their data are what the walk writes, besides the event's own fields and the arrays. */
  ghost function Footprint(ev: PedSubbedEvent): set<object>
    reads ev
  {
    (set c <- ev.channel :: c as object) + (set c <- ev.channel :: c.data as object)
  }

  lemma FootprintOf(ev: PedSubbedEvent, i: nat)
    requires i < |ev.channel|
    ensures ev.channel[i] in Footprint(ev) && ev.channel[i].data in Footprint(ev)
  {
    assert ev.channel[i] in ev.channel;
    assert ev.channel[i] as object in Footprint(ev);
  }

  /** One packet's nine records. */
  method DecodeRecords(ev: PedSubbedEvent, types: array<nat>, sizes: array<nat>, mem: seq<byte>, numBytes: nat,
                       count0: nat,
                       surf: nat, env: Surroundings, overran0: bool)
    returns (code: CompressErrorCode, count: nat, overran: bool)
    requires ev.Valid() && types.Length == sizes.Length == CHANNELS && types != sizes
    requires |mem| >= numBytes + FAR && count0 <= numBytes + HEADER && surf < ACTIVE_SURFS
    requires Shaped(State(ev, types, sizes, overran0)) && Roomy(env) && Keeping(env)
    modifies Footprint(ev), types, sizes
    ensures ev.Valid() && Shaped(State(ev, types, sizes, overran))
    ensures var u := State(ev, types, sizes, overran);
            && (code == Ok ==> count <= numBytes)
            && FromChannel(mem, numBytes, count0, surf, 0, old(State(ev, types, sizes, overran0)), env)
               == if code == Ok && count <= numBytes then FromSurf(mem, numBytes, count, surf + 1, u, env)
                  else (code, u, count)
  {
    hide TakeRecord, FromSurf, WellFormed;
    count, overran := count0, overran0;
    ghost var first := FromChannel(mem, numBytes, count0, surf, 0, State(ev, types, sizes, overran0), env);
    var chan := 0;
    while chan < CHANNELS_PER_SURF
      invariant 0 <= chan <= CHANNELS_PER_SURF && count <= numBytes + (if chan == 0 then HEADER else 0)
      invariant ev.Valid() && Shaped(State(ev, types, sizes, overran))
      invariant first == FromChannel(mem, numBytes, count, surf, chan, State(ev, types, sizes, overran), env)
    {
      FootprintOf(ev, ChanIndex(surf, chan));
      code, count, overran := DecodeRecord(ev, types, sizes, mem, numBytes, count, ChanIndex(surf, chan), env, overran);
      if code != Ok {
        return;
      }
      chan := chan + 1;
    }
    code := Ok;
  }

  /** The walk without a wrapper. */
  method UnpackPackets(ev: PedSubbedEvent, types: array<nat>, sizes: array<nat>, mem: seq<byte>, numBytes: nat,
                       env: Surroundings)
    returns (code: CompressErrorCode, count: nat, overran: bool)
    requires ev.Valid() && types.Length == sizes.Length == CHANNELS && types != sizes
    requires |mem| >= numBytes + FAR && Shaped(State(ev, types, sizes, false)) && Roomy(env) && Keeping(env)
    modifies ev, Footprint(ev), types, sizes
    ensures ev.Valid()
    ensures (code, State(ev, types, sizes, overran), count)
         == FromSurf(mem, numBytes, 0, 0, old(State(ev, types, sizes, false)), env)
  {
    hide FromChannel, WellFormed;
    count, overran := 0, false;
    ghost var first := FromSurf(mem, numBytes, 0, 0, State(ev, types, sizes, false), env);
    var surf := 0;
    while surf < ACTIVE_SURFS
      invariant 0 <= surf <= ACTIVE_SURFS && count <= numBytes
      invariant ev.Valid() && Shaped(State(ev, types, sizes, overran))
      invariant first == FromSurf(mem, numBytes, count, surf, State(ev, types, sizes, overran), env)
    {
      ghost var u := State(ev, types, sizes, overran);
      ev.whichPeds := Word32(mem[count + 20..]);
      ev.eventNumber := Word32(mem[count + 16..]);
      NumbersTaken(mem, count, u);
      assert State(ev, types, sizes, overran) == TakeNumbers(mem[count..], u);
      code, count, overran := DecodeRecords(ev, types, sizes, mem, numBytes, count + HEADER, surf, env, overran);
      if code != Ok {
        return;
      }
      surf := surf + 1;
    }
    code := Ok;
  }

  lemma NumbersTaken(mem: seq<byte>, count: nat, u: Unpacking)
    requires |mem| >= count + HEADER && Shaped(u)
    ensures TakeNumbers(mem[count..], u)
         == u.(event := u.event.(eventNumber := Word32(mem[count + 16..]), whichPeds := Word32(mem[count + 20..])))
  {
    assert mem[count..][16..] == mem[count + 16..];
    assert mem[count..][20..] == mem[count + 20..];
  }

  /** The whole decoder; `count` is the size it gives the unpacked event's own header. */
  method UnpackToPedSubbedEventWithStats(ev: PedSubbedEvent, types: array<nat>, sizes: array<nat>, mem: seq<byte>,
                                         numBytes: nat, env: Surroundings)
    returns (code: CompressErrorCode, count: nat, overran: bool)
    requires ev.Valid() && types.Length == sizes.Length == CHANNELS && types != sizes
    requires |mem| >= numBytes + FAR && Shaped(State(ev, types, sizes, false)) && Roomy(env) && Keeping(env)
    modifies ev, Footprint(ev), types, sizes
    ensures ev.Valid()
    ensures (code, State(ev, types, sizes, overran), count)
         == UnpackedEvent(mem, numBytes, old(State(ev, types, sizes, false)), env)
    decreases numBytes
  {
    hide FromSurf, WellFormed, Word32;
    if Word32(mem) == PACKET_ENC_PEDSUB_EVENT_WRAPPER && numBytes > HEADER {
      code, count, overran := UnpackToPedSubbedEventWithStats(ev, types, sizes, mem[HEADER..], numBytes - HEADER, env);
    } else {
      code, count, overran := UnpackPackets(ev, types, sizes, mem, numBytes, env);
    }
  }
}

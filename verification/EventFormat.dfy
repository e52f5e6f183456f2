// An event as encoded: a wrapper around twelve SURF packets of nine channel
// records each.
module EventFormat {
  import opened Bits
  import opened CompUtils
  import opened Encoding
  import opened Records
  import opened Channel
  import opened ChannelCodec

  const ACTIVE_SURFS: nat := 12
  const CHANNELS_PER_SURF: nat := 9
  const CHANNELS: nat := 108

  const PACKET_ENC_SURF_PEDSUB: nat := 0x122
  const PACKET_ENC_PEDSUB_EVENT_WRAPPER: nat := 0x126

  /** sizeof of the generic header, and of the wrapper and the SURF packet's header. */
  const GENERIC: nat := 16
  const HEADER: nat := 24

  function ChanIndex(s: nat, c: nat): (i: nat) { c + CHANNELS_PER_SURF * s }

  datatype EventValue = EventValue(eventNumber: nat, whichPeds: nat, channels: seq<ChannelValue>)

  predicate WellFormed(ev: EventValue) {
    |ev.channels| == CHANNELS && forall i :: 0 <= i < CHANNELS ==> |ev.channels[i].data| == SAMPLES
  }

  /**
   * fillGenericHeader: the sixteen header bytes for a packet, from its code and
   * its bytes so far.  Nothing is assumed of them but the code in front.
   */
  type HeaderFiller = (nat, seq<byte>) -> seq<byte>

  ghost predicate Filler(fill: HeaderFiller) {
    forall code, packet :: |fill(code, packet)| == GENERIC
      && (code < 0x1_0000_0000 ==> Word32(fill(code, packet)) == code)
  }

  /** All that determines an encoded event. */
  datatype Job = Job(event: EventValue, types: seq<nat>, stats: seq<Stats>, fill: HeaderFiller)

  ghost predicate ValidJob(j: Job) {
    && WellFormed(j.event)
    && j.event.eventNumber < 0x1_0000_0000 && j.event.whichPeds < 0x1_0000_0000
    && |j.types| == |j.stats| == CHANNELS
    && (forall i :: 0 <= i < CHANNELS ==> Encodable(j.types[i], j.stats[i]))
    && Filler(j.fill)
  }

  function Blank(): (s: seq<byte>)
    ensures |s| == GENERIC
  {
    [0, 0, 0, 0, 0, 0, 0, 0, 0, 0, 0, 0, 0, 0, 0, 0]
  }

  ghost function Record(j: Job, i: nat): seq<byte>
    requires ValidJob(j) && i < CHANNELS
  {
    ChannelRecord(j.types[i], j.event.channels[i], j.stats[i])
  }

  /** The records of SURF s from its channel c on. */
  ghost function SurfRecords(j: Job, s: nat, c: nat): seq<byte>
    requires ValidJob(j) && s < ACTIVE_SURFS && c <= CHANNELS_PER_SURF
    decreases CHANNELS_PER_SURF - c
  {
    if c == CHANNELS_PER_SURF then [] else Record(j, ChanIndex(s, c)) + SurfRecords(j, s, c + 1)
  }

  /** The event number and pedestal run that every SURF packet repeats. */
  function Numbers(j: Job): (b: seq<byte>)
    ensures |b| == 8
  {
    LE32(j.event.eventNumber) + LE32(j.event.whichPeds)
  }

  /** The header bytes of a packet whose other bytes are `rest`. */
  ghost function Filled(j: Job, code: nat, rest: seq<byte>): (h: seq<byte>)
    requires ValidJob(j)
    ensures |h| == GENERIC
  {
    j.fill(code, Blank() + rest)
  }

  ghost function Packet(j: Job, s: nat): (p: seq<byte>)
    requires ValidJob(j) && s < ACTIVE_SURFS
    ensures |p| == HEADER + |SurfRecords(j, s, 0)|
  {
    var rest := Numbers(j) + SurfRecords(j, s, 0);
    Filled(j, PACKET_ENC_SURF_PEDSUB, rest) + rest
  }

  /** The packets of the SURFs from s on. */
  ghost function Packets(j: Job, s: nat): seq<byte>
    requires ValidJob(j) && s <= ACTIVE_SURFS
    decreases ACTIVE_SURFS - s
  {
    if s == ACTIVE_SURFS then [] else Packet(j, s) + Packets(j, s + 1)
  }

  ghost function EventRecord(j: Job): (r: seq<byte>)
    requires ValidJob(j)
    ensures |r| == HEADER + |Packets(j, 0)|
  {
    var rest := LE32(j.event.eventNumber) + LE32(|Packets(j, 0)|) + Packets(j, 0);
    Filled(j, PACKET_ENC_PEDSUB_EVENT_WRAPPER, rest) + rest
  }
}

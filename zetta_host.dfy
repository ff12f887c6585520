/**
  The host-side codec: building a packet, validating a raw packet while
  counting frame and CRC errors, and the resynchronising scan that cuts
  candidate packets out of the receive buffer.
 */
module ZettaHost {
  import opened ZettaFormat

  /** The host's checksum routine (an 8-bit CRC in the deployed configuration). */
  type Checksum = seq<byte> -> nat

  /** The counters of the `stats` dictionary that the codec and the scan touch. */
  datatype Stats = Stats(packetsSent: nat, packetsReceived: nat, crcErrors: nat, frameErrors: nat)

  function ZeroStats(): Stats
  {
    Stats(0, 0, 0, 0)
  }

  /** A parsed packet; the arrival timestamp is not modelled. */
  datatype ZettaPacket = ZettaPacket(ptype: PacketType, data: seq<byte>, rawPacket: seq<byte>)

  /** What `_parse_packet` does: return None, return a packet, or raise ValueError. */
  datatype ParseOutcome = NoPacket | Parsed(packet: ZettaPacket) | RaisesValueError

  datatype ParseResult = ParseResult(outcome: ParseOutcome, stats: Stats)

  /** `ZettaPacketType(v)`: the enumeration member with value `v`, if there is one. */
  function PacketTypeFromValue(v: byte): (r: Option<PacketType>)
    ensures r.Some? <==> v <= 2
    ensures r.Some? ==> PacketTypeValue(r.value) == v
  {
    if v == 0 then Some(MsgAck)
    else if v == 1 then Some(MsgPublish)
    else if v == 2 then Some(MsgSubscribe)
    else None
  }

  /** `_create_packet`: start, type, length, payload, the low octet of the checksum
      over everything after the start byte, stop. */
  function CreatePacket(checksum: Checksum, t: PacketType, payload: seq<byte>): (packet: seq<byte>)
    requires |payload| < 0x100
    ensures |packet| == 5 + |payload|
    ensures packet[0] == START_BYTE && packet[|packet| - 1] == STOP_BYTE
    ensures packet[1] == PacketTypeValue(t) && packet[2] == |payload|
    ensures packet[3..3 + |payload|] == payload
    ensures packet[|packet| - 2] == LowByte(checksum(packet[1..3 + |payload|]))
  {
    var crcData := CrcSpan(PacketTypeValue(t), payload);
    WireFrame(PacketTypeValue(t), payload, LowByte(checksum(crcData)))
  }

  /** The size below which `_parse_packet` gives up, and the size the scan waits for. */
  const HOST_MIN_PACKET: nat := 6

  /** The smallest frame on the wire: delimiters, type, length and check byte. */
  const MIN_FRAME: nat := 5

  /** The checks of `_parse_packet`, with the size floor as a parameter. Too short or
      wrong delimiters: no packet, counters untouched. Length field disagreeing with
      the size: no packet, one more frame error. Check byte wrong: no packet, one more
      CRC error. Type byte outside the enumeration: the conversion raises. Otherwise
      the packet. */
  function ParseWithFloor(floor: nat, checksum: Checksum, stats: Stats, raw: seq<byte>): (r: ParseResult)
    requires MIN_FRAME <= floor
    ensures r.stats == stats || r.stats == stats.(frameErrors := stats.frameErrors + 1)
                             || r.stats == stats.(crcErrors := stats.crcErrors + 1)
    ensures r.outcome.Parsed? ==> r.outcome.packet.rawPacket == raw && r.stats == stats
  {
    if |raw| < floor then
      ParseResult(NoPacket, stats)
    else if raw[0] != START_BYTE || raw[|raw| - 1] != STOP_BYTE then
      ParseResult(NoPacket, stats)
    else
      var length: nat := raw[2];
      if |raw| != 5 + length then
        ParseResult(NoPacket, stats.(frameErrors := stats.frameErrors + 1))
      else
        var payload := raw[3..3 + length];
        var crcReceived := raw[|raw| - 2];
        var crcCalculated := LowByte(checksum(raw[1..3 + length]));
        if crcReceived != crcCalculated then
          ParseResult(NoPacket, stats.(crcErrors := stats.crcErrors + 1))
        else
          match PacketTypeFromValue(raw[1])
          case None => ParseResult(RaisesValueError, stats)
          case Some(t) => ParseResult(Parsed(ZettaPacket(t, payload, raw)), stats)
  }

  /** `_parse_packet` as written: anything shorter than six bytes is dropped. */
  function ParsePacket(checksum: Checksum, stats: Stats, raw: seq<byte>): ParseResult
  {
    ParseWithFloor(HOST_MIN_PACKET, checksum, stats, raw)
  }

  /** `_parse_packet` with the floor at the true minimum frame size, so that a frame
      with an empty payload is accepted as the device accepts it. */
  function ParsePacketIntended(checksum: Checksum, stats: Stats, raw: seq<byte>): ParseResult
  {
    ParseWithFloor(MIN_FRAME, checksum, stats, raw)
  }

  /** The result of one pass of the receive scan: the bytes left in the buffer, the
      counters, the packets delivered, and whether the pass ended by the exception
      `_parse_packet` raised. */
  datatype ScanResult = ScanResult(rest: seq<byte>, stats: Stats, received: seq<ZettaPacket>, raised: bool)

  /** One pass of the inner `while` loop of `_receiver_thread`: drop a leading byte that
      is not the start byte; or cut `5 + buffer[2]` bytes off the front and parse them;
      or stop when fewer than 6 bytes, or fewer than a whole frame, remain. */
  function Scan(checksum: Checksum, stats: Stats, buffer: seq<byte>): (r: ScanResult)
    ensures |r.rest| <= |buffer|
    decreases |buffer|
  {
    if |buffer| < HOST_MIN_PACKET then
      ScanResult(buffer, stats, [], false)
    else if buffer[0] != START_BYTE then
      Scan(checksum, stats, buffer[1..])
    else
      var length: nat := buffer[2];
      var expectedSize := 5 + length;
      if |buffer| >= expectedSize then
        var rawPacket := buffer[..expectedSize];
        var pr := ParsePacket(checksum, stats, rawPacket);
        match pr.outcome
        case RaisesValueError => ScanResult(buffer[expectedSize..], pr.stats, [], true)
        case NoPacket => Scan(checksum, pr.stats, buffer[expectedSize..])
        case Parsed(packet) =>
          var r := Scan(checksum, pr.stats.(packetsReceived := pr.stats.packetsReceived + 1), buffer[expectedSize..]);
          r.(received := [packet] + r.received)
      else
        ScanResult(buffer, stats, [], false)
  }

  /** Scan with a whole candidate frame at the front: one parse, then the remainder. */
  lemma ScanFrameStep(checksum: Checksum, stats: Stats, buffer: seq<byte>)
    requires |buffer| >= 6 && buffer[0] == START_BYTE && |buffer| >= 5 + buffer[2] as int
    ensures var n := 5 + buffer[2] as int;
      var pr := ParsePacket(checksum, stats, buffer[..n]);
      var r := Scan(checksum, stats, buffer);
      match pr.outcome
      case RaisesValueError => r == ScanResult(buffer[n..], pr.stats, [], true)
      case NoPacket => r == Scan(checksum, pr.stats, buffer[n..])
      case Parsed(packet) =>
        var s := Scan(checksum, pr.stats.(packetsReceived := pr.stats.packetsReceived + 1), buffer[n..]);
        r == s.(received := [packet] + s.received)
  {
  }

  /** Scan with a leading byte that is not the start byte: that byte is dropped. */
  lemma ScanSkipStep(checksum: Checksum, stats: Stats, buffer: seq<byte>)
    requires |buffer| >= HOST_MIN_PACKET && buffer[0] != START_BYTE
    ensures Scan(checksum, stats, buffer) == Scan(checksum, stats, buffer[1..])
  {
  }

  /** Scan with an incomplete frame at the front: nothing happens. */
  lemma ScanWaitStep(checksum: Checksum, stats: Stats, buffer: seq<byte>)
    requires |buffer| >= HOST_MIN_PACKET && buffer[0] == START_BYTE && |buffer| < 5 + buffer[2] as int
    ensures Scan(checksum, stats, buffer) == ScanResult(buffer, stats, [], false)
  {
  }

  /** Scan with a frame at the front that parses: the packet is delivered and counted,
      and the scan goes on after it. */
  lemma ScanParsedFront(checksum: Checksum, stats: Stats, buffer: seq<byte>, n: nat, q: ZettaPacket)
    requires |buffer| >= HOST_MIN_PACKET && buffer[0] == START_BYTE && n == 5 + buffer[2] as int <= |buffer|
    requires ParsePacket(checksum, stats, buffer[..n]) == ParseResult(Parsed(q), stats)
    ensures Scan(checksum, stats, buffer)
      == After([q], Scan(checksum, stats.(packetsReceived := stats.packetsReceived + 1), buffer[n..]))
  {
    ScanFrameStep(checksum, stats, buffer);
  }

  /** Scan with a frame at the front that is dropped: the scan goes on after it with
      the counters the parse left. */
  lemma ScanDroppedFront(checksum: Checksum, stats: Stats, buffer: seq<byte>, n: nat)
    requires |buffer| >= HOST_MIN_PACKET && buffer[0] == START_BYTE && n == 5 + buffer[2] as int <= |buffer|
    requires ParsePacket(checksum, stats, buffer[..n]).outcome == NoPacket
    ensures Scan(checksum, stats, buffer) == Scan(checksum, ParsePacket(checksum, stats, buffer[..n]).stats, buffer[n..])
  {
    ScanFrameStep(checksum, stats, buffer);
  }

  /** Scan with a frame at the front whose type byte is unknown: the pass ends there. */
  lemma ScanRaisedFront(checksum: Checksum, stats: Stats, buffer: seq<byte>, n: nat)
    requires |buffer| >= HOST_MIN_PACKET && buffer[0] == START_BYTE && n == 5 + buffer[2] as int <= |buffer|
    requires ParsePacket(checksum, stats, buffer[..n]).outcome == RaisesValueError
    ensures Scan(checksum, stats, buffer) == ScanResult(buffer[n..], stats, [], true)
  {
    ScanFrameStep(checksum, stats, buffer);
  }

  /** A pass that delivered `earlier` before going on as `later` did. */
  function After(earlier: seq<ZettaPacket>, later: ScanResult): (r: ScanResult)
    ensures r.rest == later.rest && r.stats == later.stats && r.raised == later.raised
    ensures |r.received| == |earlier| + |later.received|
  {
    later.(received := earlier + later.received)
  }

  lemma AfterAppend(earlier: seq<ZettaPacket>, q: ZettaPacket, later: ScanResult)
    ensures After(earlier, later.(received := [q] + later.received)) == After(earlier + [q], later)
  {
    assert earlier + ([q] + later.received) == earlier + [q] + later.received;
  }

  /** The host-side protocol object, reduced to the state the codec changes. */
  class ZettaProtocol {
    const checksum: Checksum
    var stats: Stats

    constructor (checksum: Checksum)
      ensures this.checksum == checksum && stats == ZeroStats()
    {
      this.checksum := checksum;
      stats := ZeroStats();
    }

    /** `send_raw`: refuses a payload over 25 bytes without writing or counting;
        otherwise writes the packet (returned as `written`) and counts it. */
    method SendRaw(t: PacketType, payload: seq<byte>) returns (ok: bool, written: Option<seq<byte>>)
      modifies this`stats
      ensures ok <==> |payload| <= MAX_PAYLOAD_SIZE
      ensures !ok ==> written == None && stats == old(stats)
      ensures ok ==> (written == Some(CreatePacket(checksum, t, payload))
                      && stats == old(stats).(packetsSent := old(stats).packetsSent + 1))
    {
      if |payload| > MAX_PAYLOAD_SIZE {
        return false, None;
      }
      var packet := CreatePacket(checksum, t, payload);
      stats := stats.(packetsSent := stats.packetsSent + 1);
      return true, Some(packet);
    }

    /** The inner scan loop of `_receiver_thread` over the buffer it was given; the
        packets it queues are returned in order. When `_parse_packet` raises, the
        loop is left with the offending bytes already removed. */
    method ScanBuffer(buffer: seq<byte>) returns (rest: seq<byte>, received: seq<ZettaPacket>, raised: bool)
      modifies this`stats
      ensures Scan(checksum, old(stats), buffer) == ScanResult(rest, stats, received, raised)
    {
      var counters := stats;
      ghost var target := Scan(checksum, counters, buffer);
      rest, received, raised := buffer, [], false;
      while |rest| >= HOST_MIN_PACKET
        invariant target == After(received, Scan(checksum, counters, rest))
        decreases |rest|
      {
        if rest[0] != START_BYTE {
          ScanSkipStep(checksum, counters, rest);
          rest := rest[1..];
        } else {
          var length: nat := rest[2];
          var expectedSize: nat := 5 + length;
          if |rest| >= expectedSize {
            var rawPacket := rest[..expectedSize];
            ghost var before := rest;
            rest := rest[expectedSize..];
            var pr := ParsePacket(checksum, counters, rawPacket);
            match pr.outcome {
              case RaisesValueError =>
                ScanRaisedFront(checksum, counters, before, expectedSize);
                raised := true;
                stats := counters;
                return;
              case NoPacket =>
                ScanDroppedFront(checksum, counters, before, expectedSize);
                counters := pr.stats;
              case Parsed(packet) =>
                ScanParsedFront(checksum, counters, before, expectedSize, packet);
                counters := counters.(packetsReceived := counters.packetsReceived + 1);
                AfterAppend(received, packet, Scan(checksum, counters, rest));
                received := received + [packet];
            }
          } else {
            ScanWaitStep(checksum, counters, rest);
            break;
          }
        }
      }
      stats := counters;
    }
  }
}

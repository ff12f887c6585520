/**
  Properties of the host-side codec and scan, and of the two ends together:
  what the host builds the device accepts, and the other way round.
 */
module ZettaHostProofs {
  import opened ZettaFormat
  import opened ZettaMachine
  import opened ZettaMachineProofs
  import opened ZettaHost

  /** Both delimiters where they belong, on a candidate of at least six bytes. */
  predicate Delimited(raw: seq<byte>)
  {
    |raw| >= HOST_MIN_PACKET && raw[0] == START_BYTE && raw[|raw| - 1] == STOP_BYTE
  }

  /** The length field agrees with the size of the candidate. */
  predicate LengthConsistent(raw: seq<byte>)
    requires |raw| >= 3
  {
    |raw| == 5 + raw[2] as int
  }

  /** The check byte matches the low octet of the checksum over type, length, payload. */
  predicate CheckByteMatches(checksum: Checksum, raw: seq<byte>)
    requires |raw| >= 3
  {
    raw[|raw| - 2] == LowByte(checksum(raw[1..|raw| - 2]))
  }

  /** A candidate that is too short or badly delimited is dropped without counting. */
  lemma ParseRejectsWithoutCounting(checksum: Checksum, stats: Stats, raw: seq<byte>)
    ensures !Delimited(raw) ==> ParsePacket(checksum, stats, raw) == ParseResult(NoPacket, stats)
  {
  }

  /** With good delimiters, a frame error is counted exactly when the length field
      disagrees with the size, and nothing else is counted then. */
  lemma ParseFrameErrorIff(checksum: Checksum, stats: Stats, raw: seq<byte>)
    ensures var r := ParsePacket(checksum, stats, raw);
      r.stats.frameErrors == stats.frameErrors + 1 <==> Delimited(raw) && !LengthConsistent(raw)
    ensures var r := ParsePacket(checksum, stats, raw);
      Delimited(raw) && !LengthConsistent(raw) ==>
        r == ParseResult(NoPacket, stats.(frameErrors := stats.frameErrors + 1))
  {
  }

  /** A CRC error is counted exactly when a well-delimited, length-consistent candidate
      carries the wrong check byte. */
  lemma ParseCrcErrorIff(checksum: Checksum, stats: Stats, raw: seq<byte>)
    ensures var r := ParsePacket(checksum, stats, raw);
      r.stats.crcErrors == stats.crcErrors + 1 <==>
        Delimited(raw) && LengthConsistent(raw) && !CheckByteMatches(checksum, raw)
    ensures var r := ParsePacket(checksum, stats, raw);
      Delimited(raw) && LengthConsistent(raw) && !CheckByteMatches(checksum, raw) ==>
        r == ParseResult(NoPacket, stats.(crcErrors := stats.crcErrors + 1))
  {
    if Delimited(raw) && LengthConsistent(raw) {
      assert raw[1..3 + raw[2] as int] == raw[1..|raw| - 2];
    }
  }

  /** A candidate that passes every check but has a type byte outside the enumeration
      makes the parser raise; no other candidate does. */
  lemma ParseRaisesIff(checksum: Checksum, stats: Stats, raw: seq<byte>)
    ensures var r := ParsePacket(checksum, stats, raw);
      r.outcome.RaisesValueError? <==>
        Delimited(raw) && LengthConsistent(raw) && CheckByteMatches(checksum, raw) && raw[1] > 2
    ensures ParsePacket(checksum, stats, raw).outcome.RaisesValueError? ==>
      ParsePacket(checksum, stats, raw).stats == stats
  {
    if Delimited(raw) && LengthConsistent(raw) {
      assert raw[1..3 + raw[2] as int] == raw[1..|raw| - 2];
    }
  }

  /** A candidate is accepted exactly when it passes every check with a known type, and
      then it is byte for byte the packet the encoder builds from its type and data. */
  lemma ParseAcceptsIff(checksum: Checksum, stats: Stats, raw: seq<byte>)
    ensures var r := ParsePacket(checksum, stats, raw);
      r.outcome.Parsed? <==>
        Delimited(raw) && LengthConsistent(raw) && CheckByteMatches(checksum, raw) && raw[1] <= 2
    ensures var r := ParsePacket(checksum, stats, raw);
      r.outcome.Parsed? ==>
        var q := r.outcome.packet;
        && r.stats == stats
        && 1 <= |q.data| && PacketTypeValue(q.ptype) == raw[1]
        && raw == CreatePacket(checksum, q.ptype, q.data)
  {
    var r := ParsePacket(checksum, stats, raw);
    if Delimited(raw) && LengthConsistent(raw) {
      assert raw[1..3 + raw[2] as int] == raw[1..|raw| - 2];
    }
    if r.outcome.Parsed? {
      var q := r.outcome.packet;
      var n := raw[2] as int;
      assert q.data == raw[3..3 + n];
      var w := CreatePacket(checksum, q.ptype, q.data);
      assert raw[1..3 + n] == CrcSpan(raw[1], q.data);
      assert |w| == |raw|;
      forall i | 0 <= i < |raw|
        ensures w[i] == raw[i]
      {
        if 3 <= i < 3 + n {
          assert w[i] == w[3..3 + n][i - 3];
          assert raw[i] == raw[3..3 + n][i - 3];
        }
      }
    }
  }

  /** Round trip: parsing what the encoder builds gives back the type and the payload,
      for every payload of one to 255 bytes, and counts nothing. */
  lemma ParseCreateRoundTrip(checksum: Checksum, stats: Stats, t: PacketType, p: seq<byte>)
    requires 1 <= |p| < 0x100
    ensures var w := CreatePacket(checksum, t, p);
      ParsePacket(checksum, stats, w) == ParseResult(Parsed(ZettaPacket(t, p, w)), stats)
  {
    var w := CreatePacket(checksum, t, p);
    assert w[1..|w| - 2] == w[1..3 + |p|];
    assert PacketTypeFromValue(w[1]) == Some(t);
  }

  /** The packet the sender builds for an empty payload is five bytes long, and the
      parser as written drops it without counting anything. */
  lemma EmptyPayloadRejected(checksum: Checksum, stats: Stats, t: PacketType)
    ensures |CreatePacket(checksum, t, [])| == MIN_FRAME
    ensures ParsePacket(checksum, stats, CreatePacket(checksum, t, [])) == ParseResult(NoPacket, stats)
  {
  }

  /** With the floor at the true minimum frame size the round trip holds for every
      payload the encoder accepts, the empty one included. */
  lemma IntendedRoundTrip(checksum: Checksum, stats: Stats, t: PacketType, p: seq<byte>)
    requires |p| < 0x100
    ensures var w := CreatePacket(checksum, t, p);
      ParsePacketIntended(checksum, stats, w) == ParseResult(Parsed(ZettaPacket(t, p, w)), stats)
  {
    var w := CreatePacket(checksum, t, p);
    assert w[1..|w| - 2] == w[1..3 + |p|];
    assert PacketTypeFromValue(w[1]) == Some(t);
  }

  /** The floors differ only on five-byte candidates. */
  lemma IntendedAgreesAboveFloor(checksum: Checksum, stats: Stats, raw: seq<byte>)
    requires |raw| != MIN_FRAME
    ensures ParsePacketIntended(checksum, stats, raw) == ParsePacket(checksum, stats, raw)
  {
  }

  /** `a` is what is left of `b` after some bytes were removed from its front. */
  predicate SuffixOf(a: seq<byte>, b: seq<byte>)
  {
    |a| <= |b| && a == b[|b| - |a|..]
  }

  lemma SuffixOfDrop(a: seq<byte>, b: seq<byte>, k: nat)
    requires k <= |b| && SuffixOf(a, b[k..])
    ensures SuffixOf(a, b)
  {
    assert b[k..][|b| - k - |a|..] == b[|b| - |a|..];
  }

  /** The scan only ever removes bytes from the front of the buffer. */
  lemma {:induction false} ScanOnlyDropsPrefix(checksum: Checksum, stats: Stats, buffer: seq<byte>)
    ensures SuffixOf(Scan(checksum, stats, buffer).rest, buffer)
    decreases |buffer|
  {
    if |buffer| < HOST_MIN_PACKET {
    } else if buffer[0] != START_BYTE {
      ScanOnlyDropsPrefix(checksum, stats, buffer[1..]);
      SuffixOfDrop(Scan(checksum, stats, buffer[1..]).rest, buffer, 1);
    } else {
      var n := 5 + buffer[2] as int;
      if |buffer| >= n {
        var pr := ParsePacket(checksum, stats, buffer[..n]);
        ScanFrameStep(checksum, stats, buffer);
        var s := if pr.outcome.Parsed? then pr.stats.(packetsReceived := pr.stats.packetsReceived + 1) else pr.stats;
        if !pr.outcome.RaisesValueError? {
          ScanOnlyDropsPrefix(checksum, s, buffer[n..]);
          SuffixOfDrop(Scan(checksum, s, buffer[n..]).rest, buffer, n);
        } else {
          SuffixOfDrop(buffer[n..], buffer, n);
        }
      }
    }
  }

  /** Fewer than six bytes, or a start byte followed by an incomplete frame. */
  predicate Stalled(rest: seq<byte>)
  {
    |rest| < HOST_MIN_PACKET || (rest[0] == START_BYTE && |rest| < 5 + rest[2] as int)
  }

  /** A pass that was not cut short by an exception stops only when fewer than six
      bytes remain or the frame at the front is still incomplete. */
  lemma {:induction false} ScanHalts(checksum: Checksum, stats: Stats, buffer: seq<byte>)
    ensures var r := Scan(checksum, stats, buffer); !r.raised ==> Stalled(r.rest)
    decreases |buffer|
  {
    if |buffer| < HOST_MIN_PACKET {
    } else if buffer[0] != START_BYTE {
      ScanSkipStep(checksum, stats, buffer);
      ScanHalts(checksum, stats, buffer[1..]);
    } else if |buffer| >= 5 + buffer[2] as int {
      var n := 5 + buffer[2] as int;
      var pr := ParsePacket(checksum, stats, buffer[..n]);
      match pr.outcome
      case Parsed(q) =>
        ScanParsedFront(checksum, stats, buffer, n, q);
        ScanHalts(checksum, stats.(packetsReceived := stats.packetsReceived + 1), buffer[n..]);
      case NoPacket =>
        ScanDroppedFront(checksum, stats, buffer, n);
        ScanHalts(checksum, pr.stats, buffer[n..]);
      case RaisesValueError =>
        ScanRaisedFront(checksum, stats, buffer, n);
    } else {
      ScanWaitStep(checksum, stats, buffer);
    }
  }

  /** `packets_received` grows by the number of packets delivered; `packets_sent` is
      untouched; `crc_errors` never goes down. `frame_errors` never changes: the scan
      cuts exactly `5 + length` bytes, so the parser's size check always passes. */
  lemma {:induction false} ScanCounts(checksum: Checksum, stats: Stats, buffer: seq<byte>)
    ensures var r := Scan(checksum, stats, buffer);
      && r.stats.packetsReceived == stats.packetsReceived + |r.received|
      && r.stats.packetsSent == stats.packetsSent
      && r.stats.crcErrors >= stats.crcErrors
      && r.stats.frameErrors == stats.frameErrors
    decreases |buffer|
  {
    if |buffer| < HOST_MIN_PACKET {
    } else if buffer[0] != START_BYTE {
      ScanSkipStep(checksum, stats, buffer);
      ScanCounts(checksum, stats, buffer[1..]);
    } else if |buffer| >= 5 + buffer[2] as int {
      var n := 5 + buffer[2] as int;
      var pr := ParsePacket(checksum, stats, buffer[..n]);
      match pr.outcome
      case Parsed(q) =>
        ScanParsedFront(checksum, stats, buffer, n, q);
        ScanCounts(checksum, stats.(packetsReceived := stats.packetsReceived + 1), buffer[n..]);
      case NoPacket =>
        assert LengthConsistent(buffer[..n]);
        ScanDroppedFront(checksum, stats, buffer, n);
        ScanCounts(checksum, pr.stats, buffer[n..]);
      case RaisesValueError =>
        ScanRaisedFront(checksum, stats, buffer, n);
    } else {
      ScanWaitStep(checksum, stats, buffer);
    }
  }

  /** A packet whose raw bytes are exactly the encoding of its type and its data. */
  predicate Encoded(checksum: Checksum, q: ZettaPacket)
  {
    1 <= |q.data| < 0x100 && q.rawPacket == CreatePacket(checksum, q.ptype, q.data)
  }

  predicate AllEncoded(checksum: Checksum, qs: seq<ZettaPacket>)
  {
    forall i | 0 <= i < |qs| :: Encoded(checksum, qs[i])
  }

  lemma AllEncodedCons(checksum: Checksum, q: ZettaPacket, qs: seq<ZettaPacket>)
    requires Encoded(checksum, q) && AllEncoded(checksum, qs)
    ensures AllEncoded(checksum, [q] + qs)
  {
    forall i | 0 <= i < |[q] + qs|
      ensures Encoded(checksum, ([q] + qs)[i])
    {
      if i > 0 {
        assert ([q] + qs)[i] == qs[i - 1];
      }
    }
  }

  /** Every packet the scan delivers is exactly the encoding of its own type and
      data, with a non-empty payload. */
  lemma {:induction false} ScanDeliversOnlyEncodedPackets(checksum: Checksum, stats: Stats, buffer: seq<byte>)
    ensures AllEncoded(checksum, Scan(checksum, stats, buffer).received)
    decreases |buffer|
  {
    if |buffer| < HOST_MIN_PACKET {
    } else if buffer[0] != START_BYTE {
      ScanDeliversOnlyEncodedPackets(checksum, stats, buffer[1..]);
    } else {
      var n := 5 + buffer[2] as int;
      if |buffer| >= n {
        var pr := ParsePacket(checksum, stats, buffer[..n]);
        ScanFrameStep(checksum, stats, buffer);
        if pr.outcome.Parsed? {
          var s := pr.stats.(packetsReceived := pr.stats.packetsReceived + 1);
          ScanDeliversOnlyEncodedPackets(checksum, s, buffer[n..]);
          ParseAcceptsIff(checksum, stats, buffer[..n]);
          AllEncodedCons(checksum, pr.outcome.packet, Scan(checksum, s, buffer[n..]).received);
        } else if pr.outcome.NoPacket? {
          ScanDeliversOnlyEncodedPackets(checksum, pr.stats, buffer[n..]);
        }
      }
    }
  }

  /** Leading bytes that are not the start byte are skipped one by one, as long as at
      least six bytes remain at each step. */
  lemma {:induction false} ScanSkipsGarbage(checksum: Checksum, stats: Stats, buffer: seq<byte>, k: nat)
    requires k + MIN_FRAME <= |buffer|
    requires forall i | 0 <= i < k :: buffer[i] != START_BYTE
    ensures Scan(checksum, stats, buffer) == Scan(checksum, stats, buffer[k..])
    decreases k
  {
    if k > 0 {
      assert buffer[1..][k - 1..] == buffer[k..];
      ScanSkipsGarbage(checksum, stats, buffer[1..], k - 1);
    }
  }

  /** An encoded packet at the front of the buffer is delivered, counted, and the scan
      carries on with the bytes after it. */
  lemma ScanDeliversPacket(checksum: Checksum, stats: Stats, t: PacketType, p: seq<byte>, tail: seq<byte>)
    requires 1 <= |p| < 0x100
    ensures var w := CreatePacket(checksum, t, p);
      Scan(checksum, stats, w + tail)
        == After([ZettaPacket(t, p, w)], Scan(checksum, stats.(packetsReceived := stats.packetsReceived + 1), tail))
  {
    var w := CreatePacket(checksum, t, p);
    var buffer := w + tail;
    assert buffer[0] == START_BYTE && buffer[2] == |p| && |buffer| >= |w| == 5 + |p|;
    assert buffer[..|w|] == w && buffer[|w|..] == tail;
    ParseCreateRoundTrip(checksum, stats, t, p);
    ScanParsedFront(checksum, stats, buffer, |w|, ZettaPacket(t, p, w));
  }

  /** An empty-payload packet at the front of the buffer is cut off and dropped as soon
      as one more byte has arrived behind it. */
  lemma ScanDropsEmptyFrame(checksum: Checksum, stats: Stats, t: PacketType, tail: seq<byte>)
    requires 1 <= |tail|
    ensures Scan(checksum, stats, CreatePacket(checksum, t, []) + tail) == Scan(checksum, stats, tail)
  {
    var w := CreatePacket(checksum, t, []);
    var buffer := w + tail;
    assert buffer[..|w|] == w && buffer[|w|..] == tail;
    EmptyPayloadRejected(checksum, stats, t);
  }

  /** The device accepts the packet the host builds, when both use the same integrity
      routine and its value fits one octet. */
  lemma DeviceAcceptsHostPacket(crc: CrcFunction, checksum: Checksum, st: Internal, t: PacketType, p: seq<byte>)
    requires WellFormed(st) && st.rxState == WaitStart && |p| <= MAX_PAYLOAD_SIZE
    requires checksum(CrcSpan(PacketTypeValue(t), p)) == crc(CrcSpan(PacketTypeValue(t), p)) < 0x100
    ensures var r := Run(crc, st, CreatePacket(checksum, t, p));
      && r.1[|r.1| - 1] == Ok
      && r.0.frame.msgType == PacketTypeValue(t)
      && r.0.frame.payload[..r.0.frame.len] == p
  {
    RoundTrip(crc, st, PacketTypeValue(t), p);
  }

  /** The host accepts a frame the device sends, when both use the same integrity
      routine, exactly when the payload is not empty and the type byte is known; with
      the intended floor, exactly when the type byte is known. */
  lemma HostAcceptsDeviceFrame(crc: CrcFunction, checksum: Checksum, stats: Stats, t: byte, p: seq<byte>)
    requires |p| <= MAX_PAYLOAD_SIZE
    requires checksum(CrcSpan(t, p)) == crc(CrcSpan(t, p))
    ensures var w := WireFrame(t, p, LowByte(crc(CrcSpan(t, p))));
      var r := ParsePacket(checksum, stats, w);
      && (r.outcome.Parsed? <==> 1 <= |p| && t <= 2)
      && (r.outcome.Parsed? ==> PacketTypeValue(r.outcome.packet.ptype) == t && r.outcome.packet.data == p)
      && (r.outcome.RaisesValueError? <==> 1 <= |p| && t > 2)
    ensures var w := WireFrame(t, p, LowByte(crc(CrcSpan(t, p))));
      ParsePacketIntended(checksum, stats, w).outcome.Parsed? <==> t <= 2
  {
    var w := WireFrame(t, p, LowByte(crc(CrcSpan(t, p))));
    assert w[1..|w| - 2] == w[1..3 + |p|];
  }
}

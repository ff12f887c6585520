/**
  Properties of the device-side receive path: what a single byte does in each
  state, that every rejection goes through the error handler and only resets
  the RX state, that the frames the encoder produces are accepted exactly when
  the integrity value fits the one-byte field, and that the batch feeder stops
  at the first completed frame.
 */
module ZettaMachineProofs {
  import opened ZettaFormat
  import opened ZettaMachine

  /** A call reports a completed frame exactly in GET_STOP, on the stop byte, when the
      32-bit integrity value equals the recorded one-byte crc; the frame is then
      marked ready and the parser is back in WAIT_START. */
  lemma ParseOkIff(crc: CrcFunction, st: Internal, b: byte)
    requires WellFormed(st)
    ensures var r := ParseStep(crc, st, b);
      r.1 == Ok <==> st.rxState == GetStop && b == STOP_BYTE && FrameCrc(crc, st.frame) == st.frame.crc
    ensures var r := ParseStep(crc, st, b);
      r.1 == Ok ==> r.0.payloadReady && r.0.rxState == WaitStart && r.0.frame == st.frame.(stop := STOP_BYTE)
  {
  }

  /** In WAIT_START the start byte opens a frame with the payload index at 0; any
      other byte records INVALID_START and the parser keeps waiting. */
  lemma StartHandling(crc: CrcFunction, st: Internal, b: byte)
    requires WellFormed(st) && st.rxState == WaitStart
    ensures var r := ParseStep(crc, st, b);
      b == START_BYTE ==> r.0.rxState == GetType && r.0.index == 0 && r.0.frame.start == START_BYTE
    ensures b != START_BYTE ==> ParseStep(crc, st, b) == (st.(error := InvalidStart), Error)
  {
  }

  /** In GET_LEN a length above 25 is rejected and leaves the recorded length alone;
      a zero length skips straight to GET_CRC; any other length waits for payload. */
  lemma LengthHandling(crc: CrcFunction, st: Internal, b: byte)
    requires WellFormed(st) && st.rxState == GetLen
    ensures var r := ParseStep(crc, st, b);
      b > MAX_PAYLOAD_SIZE ==> r.0 == st.(error := PayloadTooLarge, rxState := WaitStart) && r.0.frame.len == st.frame.len
    ensures var r := ParseStep(crc, st, b);
      b == 0 ==> r.0.rxState == GetCrc && r.0.frame.len == 0
    ensures var r := ParseStep(crc, st, b);
      0 < b <= MAX_PAYLOAD_SIZE ==> r.0.rxState == GetPayload && r.0.frame.len == b && r.0.index == st.index
  {
  }

  /** The receive-side ordering of index and length while a frame is assembled:
      the index is 0 until payload starts and stays below `len` during payload. */
  predicate Assembling(st: Internal)
  {
    && ((st.rxState.GetType? || st.rxState.GetLen?) ==> st.index == 0)
    && (st.rxState.GetPayload? ==> st.index < st.frame.len)
  }

  /** The parser keeps `index < len` in GET_PAYLOAD, writes the byte at `index`, and
      leaves GET_PAYLOAD for GET_CRC exactly after the `len`-th payload byte. */
  lemma PayloadHandling(crc: CrcFunction, st: Internal, b: byte)
    requires WellFormed(st) && Assembling(st)
    ensures Assembling(ParseStep(crc, st, b).0)
    ensures var r := ParseStep(crc, st, b);
      st.rxState == GetPayload ==>
        && st.index < |st.frame.payload|
        && r.0.frame.payload == st.frame.payload[st.index := b]
        && r.0.index == st.index + 1
        && (r.0.rxState == GetCrc <==> st.index + 1 == st.frame.len)
        && (r.0.rxState == GetPayload <==> st.index + 1 < st.frame.len)
  {
  }

  /** Every rejection goes through the error handler, which only resets the RX
      state: the cause is recorded and nothing else changes (on a CRC mismatch the
      stop byte has been recorded first). The rejected byte is not looked at again,
      so a start byte that arrives in GET_STOP is lost. */
  lemma RejectionResets(crc: CrcFunction, st: Internal, b: byte)
    requires WellFormed(st)
    ensures st.rxState == WaitStart && b != START_BYTE ==>
      ParseStep(crc, st, b) == (st.(error := InvalidStart, rxState := WaitStart), Error)
    ensures st.rxState == GetLen && b > MAX_PAYLOAD_SIZE ==>
      ParseStep(crc, st, b) == (st.(error := PayloadTooLarge, rxState := WaitStart), Error)
    ensures st.rxState == GetStop && b != STOP_BYTE ==>
      ParseStep(crc, st, b) == (st.(error := InvalidStop, rxState := WaitStart), Error)
    ensures st.rxState == GetStop && b == STOP_BYTE && FrameCrc(crc, st.frame) != st.frame.crc ==>
      ParseStep(crc, st, b) ==
        (st.(error := CrcMismatch, rxState := WaitStart, frame := st.frame.(stop := STOP_BYTE)), Error)
    ensures st.rxState == GetStop && b == START_BYTE ==> ParseStep(crc, st, b).0.rxState == WaitStart
  {
  }

  /** Feeding one byte is one call of the parser. */
  lemma RunSingle(crc: CrcFunction, st: Internal, b: byte)
    requires WellFormed(st)
    ensures var r := ParseStep(crc, st, b); Run(crc, st, [b]) == (r.0, [r.1])
  {
    assert [b][1..] == [];
    var r := ParseStep(crc, st, b);
    assert Run(crc, r.0, []) == (r.0, []);
    assert [r.1] + [] == [r.1];
  }

  /** Feeding `a` then `b` is feeding `a + b`. */
  lemma {:induction false} RunAppend(crc: CrcFunction, st: Internal, a: seq<byte>, b: seq<byte>)
    requires WellFormed(st)
    ensures var ra := Run(crc, st, a); var rb := Run(crc, ra.0, b);
      Run(crc, st, a + b) == (rb.0, ra.1 + rb.1)
    decreases |a|
  {
    if a == [] {
      assert a + b == b;
      assert [] + Run(crc, st, b).1 == Run(crc, st, b).1;
    } else {
      var (s1, e) := ParseStep(crc, st, a[0]);
      assert (a + b)[0] == a[0] && (a + b)[1..] == a[1..] + b;
      RunAppend(crc, s1, a[1..], b);
      var ra' := Run(crc, s1, a[1..]);
      var rb := Run(crc, ra'.0, b);
      assert [e] + (ra'.1 + rb.1) == ([e] + ra'.1) + rb.1;
    }
  }

  /** A completed frame stays ready: no sequence of bytes clears `payload_ready`. */
  lemma {:induction false} RunKeepsPayloadReady(crc: CrcFunction, st: Internal, bs: seq<byte>)
    requires WellFormed(st) && st.payloadReady
    ensures Run(crc, st, bs).0.payloadReady
    decreases |bs|
  {
    if bs != [] {
      RunKeepsPayloadReady(crc, ParseStep(crc, st, bs[0]).0, bs[1..]);
    }
  }

  /** The payload phase: `|p|` bytes fed in GET_PAYLOAD fill `payload[index..len]`
      and end in GET_CRC, without any call reporting a frame. */
  lemma {:induction false} RunPayload(crc: CrcFunction, st: Internal, p: seq<byte>)
    requires WellFormed(st) && st.rxState == GetPayload
    requires 1 <= |p| && st.index + |p| == st.frame.len
    ensures var r := Run(crc, st, p);
      var f := st.frame.(payload := st.frame.payload[..st.index] + p + st.frame.payload[st.frame.len..]);
      r.0 == st.(frame := f, index := st.frame.len, rxState := GetCrc) && NoneOk(r.1)
    decreases |p|
  {
    var (s1, e) := ParseStep(crc, st, p[0]);
    var i, n := st.index, st.frame.len;
    var old_payload := st.frame.payload;
    assert s1.frame.payload == old_payload[i := p[0]];
    if |p| == 1 {
      assert Run(crc, s1, p[1..]) == (s1, []);
      assert old_payload[i := p[0]] == old_payload[..i] + p + old_payload[n..];
    } else {
      RunPayload(crc, s1, p[1..]);
      assert s1.frame.payload[..i + 1] + p[1..] + s1.frame.payload[n..] == old_payload[..i] + p + old_payload[n..];
    }
  }

  /** The three header bytes take a waiting parser to the payload phase (or, for a
      zero length, straight to GET_CRC) with type and length recorded. */
  lemma RunHeader(crc: CrcFunction, st: Internal, t: byte, n: byte)
    requires WellFormed(st) && st.rxState == WaitStart && n <= MAX_PAYLOAD_SIZE
    ensures var r := Run(crc, st, Header(t, n));
      && r.0 == st.(rxState := if n == 0 then GetCrc else GetPayload, index := 0,
                    frame := st.frame.(start := START_BYTE, msgType := t, len := n))
      && r.1 == [Error, Error, Error]
  {
    var s1 := ParseStep(crc, st, START_BYTE).0;
    var s2 := ParseStep(crc, s1, t).0;
    RunSingle(crc, st, START_BYTE);
    RunSingle(crc, s1, t);
    RunSingle(crc, s2, n);
    RunAppend(crc, s1, [t], [n]);
    assert [t] + [n] == [t, n];
    RunAppend(crc, st, [START_BYTE], [t, n]);
    assert [START_BYTE] + [t, n] == Header(t, n);
  }

  /** The header and payload bytes of a frame take a waiting parser to GET_CRC
      holding that frame's type, length and payload. */
  lemma {:induction false} RunToCrc(crc: CrcFunction, st: Internal, t: byte, p: seq<byte>)
    requires WellFormed(st) && st.rxState == WaitStart && |p| <= MAX_PAYLOAD_SIZE
    ensures var r := Run(crc, st, Header(t, |p|) + p);
      && r.0 == st.(rxState := GetCrc, index := |p|,
                    frame := st.frame.(start := START_BYTE, msgType := t, len := |p|,
                                       payload := p + st.frame.payload[|p|..]))
      && NoneOk(r.1)
  {
    var head := Header(t, |p|);
    RunHeader(crc, st, t, |p|);
    var s3 := Run(crc, st, head).0;
    if |p| == 0 {
      assert head + p == head;
      assert st.frame.payload == p + st.frame.payload[|p|..];
    } else {
      RunAppend(crc, st, head, p);
      RunPayload(crc, s3, p);
      assert st.frame.payload[..0] + p + st.frame.payload[|p|..] == p + st.frame.payload[|p|..];
    }
  }

  /** The bytes of a frame up to and including its crc byte take a waiting parser to
      GET_STOP holding that frame's type, length, payload and crc byte. */
  lemma {:induction false} RunToStop(crc: CrcFunction, st: Internal, t: byte, p: seq<byte>, c: byte)
    requires WellFormed(st) && st.rxState == WaitStart && |p| <= MAX_PAYLOAD_SIZE
    ensures var r := Run(crc, st, Header(t, |p|) + p + [c]);
      && r.0 == st.(rxState := GetStop, index := |p|,
                    frame := Frame(START_BYTE, t, |p|, p + st.frame.payload[|p|..], c, st.frame.stop))
      && NoneOk(r.1)
  {
    var a := Header(t, |p|) + p;
    RunToCrc(crc, st, t, p);
    var r4 := Run(crc, st, a);
    RunAppend(crc, st, a, [c]);
    RunSingle(crc, r4.0, c);
    assert Run(crc, st, a + [c]).1 == r4.1 + [Error];
  }

  /** The wire frame for type `t`, payload `p` and crc byte `c`, fed to a waiting
      parser, completes on its last byte exactly when the 32-bit integrity value of
      `t ‖ len ‖ p` equals `c`; no earlier byte completes. On success the frame holds
      `t`, `|p|` and `p`; otherwise CRC_MISMATCH is recorded, `payload_ready` is left
      as it was, and the parser waits for the next frame. */
  lemma FrameAcceptedIff(crc: CrcFunction, st: Internal, t: byte, p: seq<byte>, c: byte)
    requires WellFormed(st) && st.rxState == WaitStart && |p| <= MAX_PAYLOAD_SIZE
    ensures var w := WireFrame(t, p, c); var r := Run(crc, st, w);
      && (r.1[|w| - 1] == Ok <==> crc(CrcSpan(t, p)) == c)
      && NoneOk(r.1[..|w| - 1])
      && r.0.rxState == WaitStart
      && r.0.frame.msgType == t && r.0.frame.len == |p| && r.0.frame.payload[..|p|] == p
      && (r.1[|w| - 1] == Ok ==> r.0.payloadReady)
      && (r.1[|w| - 1] != Ok ==> r.0.error == CrcMismatch && r.0.payloadReady == st.payloadReady)
  {
    var w := WireFrame(t, p, c);
    var a := Header(t, |p|) + p + [c];
    assert w == a + [STOP_BYTE];
    RunToStop(crc, st, t, p, c);
    var ra := Run(crc, st, a);
    RunAppend(crc, st, a, [STOP_BYTE]);
    var s5 := ra.0;
    assert FrameCrcSpan(s5.frame) == CrcSpan(t, p) by {
      assert (p + st.frame.payload[|p|..])[..|p|] == p;
    }
    var last := ParseStep(crc, s5, STOP_BYTE);
    RunSingle(crc, s5, STOP_BYTE);
    assert Run(crc, st, w).1 == ra.1 + [last.1];
    assert Run(crc, st, w).1[..|w| - 1] == ra.1;
  }

  /** Round trip: the frame the encoder writes for `t` and `p` (crc byte = low octet
      of the integrity value) is accepted on its last byte only and reproduces `t`,
      `len` and `p`, provided the integrity value is below 256. */
  lemma RoundTrip(crc: CrcFunction, st: Internal, t: byte, p: seq<byte>)
    requires WellFormed(st) && st.rxState == WaitStart && |p| <= MAX_PAYLOAD_SIZE
    requires crc(CrcSpan(t, p)) < 0x100
    ensures var w := WireFrame(t, p, LowByte(crc(CrcSpan(t, p)))); var r := Run(crc, st, w);
      && r.1[|w| - 1] == Ok && NoneOk(r.1[..|w| - 1])
      && r.0.payloadReady && r.0.rxState == WaitStart
      && r.0.frame.msgType == t && r.0.frame.len == |p| && r.0.frame.payload[..|p|] == p
  {
    FrameAcceptedIff(crc, st, t, p, LowByte(crc(CrcSpan(t, p))));
  }

  /** Because the receiver compares the full 32-bit value with the one-byte field, an
      integrity routine whose value for a frame is 256 or more makes that frame
      unacceptable whatever crc byte it carries. */
  lemma WideCrcNeverAccepted(crc: CrcFunction, st: Internal, t: byte, p: seq<byte>, c: byte)
    requires WellFormed(st) && st.rxState == WaitStart && |p| <= MAX_PAYLOAD_SIZE
    requires crc(CrcSpan(t, p)) >= 0x100
    ensures var w := WireFrame(t, p, c); var r := Run(crc, st, w);
      NoneOk(r.1) && r.0.error == CrcMismatch && r.0.rxState == WaitStart
  {
    var w := WireFrame(t, p, c);
    FrameAcceptedIff(crc, st, t, p, c);
    var es := Run(crc, st, w).1;
    assert es == es[..|w| - 1] + [es[|w| - 1]];
  }

  /** A frame whose crc byte was altered in transit (the integrity value fits a byte)
      is rejected with CRC_MISMATCH and the parser is ready for the next frame. */
  lemma CorruptedCrcRejected(crc: CrcFunction, st: Internal, t: byte, p: seq<byte>, c: byte)
    requires WellFormed(st) && st.rxState == WaitStart && |p| <= MAX_PAYLOAD_SIZE
    requires crc(CrcSpan(t, p)) < 0x100 && c != LowByte(crc(CrcSpan(t, p)))
    ensures var w := WireFrame(t, p, c); var r := Run(crc, st, w);
      NoneOk(r.1) && r.0.error == CrcMismatch && r.0.rxState == WaitStart
      && r.0.payloadReady == st.payloadReady
  {
    var w := WireFrame(t, p, c);
    FrameAcceptedIff(crc, st, t, p, c);
    var es := Run(crc, st, w).1;
    assert es == es[..|w| - 1] + [es[|w| - 1]];
  }

  /** Two frames back to back: each completes on its own last byte, nothing else
      completes, and the second frame's fields are what remains recorded. */
  lemma BackToBack(crc: CrcFunction, st: Internal, t1: byte, p1: seq<byte>, t2: byte, p2: seq<byte>)
    requires WellFormed(st) && st.rxState == WaitStart
    requires |p1| <= MAX_PAYLOAD_SIZE && |p2| <= MAX_PAYLOAD_SIZE
    requires crc(CrcSpan(t1, p1)) < 0x100 && crc(CrcSpan(t2, p2)) < 0x100
    ensures var w1 := WireFrame(t1, p1, LowByte(crc(CrcSpan(t1, p1))));
      var w2 := WireFrame(t2, p2, LowByte(crc(CrcSpan(t2, p2))));
      var r := Run(crc, st, w1 + w2);
      && |r.1| == |w1| + |w2|
      && r.1[|w1| - 1] == Ok && r.1[|w1| + |w2| - 1] == Ok
      && (forall i | 0 <= i < |w1| + |w2| && i != |w1| - 1 && i != |w1| + |w2| - 1 :: r.1[i] != Ok)
      && r.0.rxState == WaitStart && r.0.payloadReady
      && r.0.frame.msgType == t2 && r.0.frame.len == |p2| && r.0.frame.payload[..|p2|] == p2
  {
    var w1 := WireFrame(t1, p1, LowByte(crc(CrcSpan(t1, p1))));
    var w2 := WireFrame(t2, p2, LowByte(crc(CrcSpan(t2, p2))));
    RunAppend(crc, st, w1, w2);
    RoundTrip(crc, st, t1, p1);
    var r1 := Run(crc, st, w1);
    RoundTrip(crc, r1.0, t2, p2);
    var r2 := Run(crc, r1.0, w2);
    var es := r1.1 + r2.1;
    forall i | 0 <= i < |w1| + |w2| && i != |w1| - 1 && i != |w1| + |w2| - 1
      ensures es[i] != Ok
    {
      if i < |w1| {
        assert es[i] == r1.1[..|w1| - 1][i];
      } else {
        assert es[i] == r2.1[..|w2| - 1][i - |w1|];
      }
    }
  }

  /** The batch feeder has fed exactly `bs[..consumed]`: on OK the last of those bytes
      completed a frame and none before it did, and the bytes after it are left
      unfed; on ERROR it fed every byte and none completed a frame. */
  lemma {:induction false} ProcessStopsAtFirstFrame(crc: CrcFunction, st: Internal, bs: seq<byte>)
    requires WellFormed(st)
    ensures var o := Process(crc, st, bs); var r := Run(crc, st, bs[..o.consumed]);
      && r.0 == o.state
      && (o.result == Ok ==> 1 <= o.consumed && r.1[o.consumed - 1] == Ok && NoneOk(r.1[..o.consumed - 1]))
      && (o.result == Error ==> o.consumed == |bs| && NoneOk(r.1))
    decreases |bs|
  {
    if bs != [] {
      var (s1, e) := ParseStep(crc, st, bs[0]);
      if e == Ok {
        assert bs[..1] == [bs[0]];
        RunSingle(crc, st, bs[0]);
      } else {
        ProcessStopsAtFirstFrame(crc, s1, bs[1..]);
        var o' := Process(crc, s1, bs[1..]);
        var k := o'.consumed;
        assert bs[..k + 1] == [bs[0]] + bs[1..][..k];
        assert bs[..k + 1][0] == bs[0] && bs[..k + 1][1..] == bs[1..][..k];
        var r' := Run(crc, s1, bs[1..][..k]);
        assert Run(crc, st, bs[..k + 1]) == (r'.0, [e] + r'.1);
        if o'.result == Ok {
          assert ([e] + r'.1)[..k] == [e] + r'.1[..k - 1];
        }
      }
    }
  }

  /** A send leaves the receiver where it was. A send that is accepted changes only the
      gate and the shared frame record, whose crc is the low octet of the value over
      the type, length and payload just sent. A send that is refused only resets the
      receiver. */
  lemma SendDuringReception(crc: CrcFunction, st: Internal, t: byte, data: seq<byte>, len: byte)
    requires WellFormed(st) && (len <= MAX_PAYLOAD_SIZE ==> len <= |data|)
    ensures var r := SendStep(crc, st, t, data, len);
      && r.0.index == st.index && r.0.payloadReady == st.payloadReady && r.0.error == st.error
      && (len > MAX_PAYLOAD_SIZE ==> r.0 == st.(rxState := WaitStart))
      && (len <= MAX_PAYLOAD_SIZE ==>
            && r.0.rxState == st.rxState && r.0.pstate == TxBusy
            && r.0.frame.start == st.frame.start && r.0.frame.stop == st.frame.stop
            && r.0.frame.msgType == t && r.0.frame.len == len
            && r.0.frame.payload[..len] == data[..len]
            && r.0.frame.payload[len..] == st.frame.payload[len..]
            && r.0.frame.crc == LowByte(crc(CrcSpan(t, data[..len]))))
  {
    if len <= MAX_PAYLOAD_SIZE {
      var f := st.frame.(msgType := t, len := len, payload := data[..len] + st.frame.payload[len..]);
      assert f.payload[..len] == data[..len];
    }
  }

  /** Because the frame record is shared, a send that lands while payload is being
      received and carries no more bytes than have arrived cuts that reception short:
      the next byte is stored and the receiver moves straight on to GET_CRC. */
  lemma {:induction false} SendMidPayloadTruncates(crc: CrcFunction, st: Internal, t: byte, data: seq<byte>, len: byte, b: byte)
    requires WellFormed(st) && Assembling(st) && st.rxState == GetPayload
    requires len <= st.index && len <= |data|
    ensures var s1 := SendStep(crc, st, t, data, len).0; var s2 := ParseStep(crc, s1, b).0;
      && !Assembling(s1)
      && s2.rxState == GetCrc && s2.frame.len == len && s2.frame.payload[st.index] == b
  {
    SendDuringReception(crc, st, t, data, len);
  }
}

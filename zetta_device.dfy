/**
  The device-side protocol instance `Zetta_t` and the process-wide transmit
  buffer, updated in place as the firmware does. ParseByte, ProcessBuffer,
  ErrorManager and Send are proved to change the instance exactly as ParseStep,
  Process, ZettaMachine.ErrorManager and SendStep say, so the lemmas of
  ZettaMachineProofs about those functions apply to the instance. The other
  methods state their effect on the fields directly.
 */
module ZettaDevice {
  import opened ZettaFormat
  import opened ZettaMachine

  /** The global `tx_buf` and its fill counter `buf_tx_size`, shared by all instances.
      `contents` is the filled prefix; every byte after it is zero. */
  class TxBuffer {
    var buf: array<byte>
    var size: nat
    ghost var contents: seq<byte>

    ghost predicate Valid()
      reads this, buf
    {
      && buf.Length == MaxFrameSize()
      && size == |contents| <= buf.Length
      && buf[..] == contents + Zeros(buf.Length - size)
    }

    constructor ()
      ensures Valid() && fresh(buf) && contents == []
    {
      buf := new byte[MaxFrameSize()](_ => 0);
      size := 0;
      contents := [];
      new;
      assert buf[..] == [] + Zeros(MaxFrameSize());
    }

    /** `buf_tx_size = 0; memset(tx_buf, 0, 30)`. */
    method Clear()
      requires buf.Length == MaxFrameSize()
      modifies this, buf
      ensures Valid() && buf == old(buf) && contents == []
    {
      FrameBounds();
      size := 0;
      forall i | 0 <= i < TX_CLEAR_LENGTH {
        buf[i] := 0;
      }
      contents := [];
      assert buf[..] == [] + Zeros(buf.Length);
    }

    /** `tx_buf[buf_tx_size++] = b`. */
    method Push(b: byte)
      requires Valid() && size < buf.Length
      modifies this, buf
      ensures Valid() && buf == old(buf) && contents == old(contents) + [b]
    {
      buf[size] := b;
      size := size + 1;
      contents := contents + [b];
      assert buf[..] == contents + Zeros(buf.Length - size) by {
        forall k | 0 <= k < buf.Length
          ensures buf[k] == (contents + Zeros(buf.Length - size))[k]
        {
          if k < size - 1 {
            assert buf[k] == old(buf[..])[k];
          }
        }
      }
    }

    /** Clear, then the three header bytes: start delimiter, type, length. */
    method StartFrame(t: byte, len: byte)
      requires buf.Length == MaxFrameSize()
      modifies this, buf
      ensures Valid() && buf == old(buf) && contents == Header(t, len)
    {
      Clear();
      Push(START_BYTE);
      Push(t);
      Push(len);
    }

    /** The two trailing bytes: the check byte and the stop delimiter. */
    method FinishFrame(crc: byte)
      requires Valid() && size + 2 <= buf.Length
      modifies this, buf
      ensures Valid() && buf == old(buf) && contents == old(contents) + [crc, STOP_BYTE]
    {
      Push(crc);
      Push(STOP_BYTE);
    }

    /** The filled part of the buffer, as handed to the transport. */
    function Filled(): (s: seq<byte>)
      requires Valid()
      reads this, buf
      ensures s == contents
    {
      buf[..size]
    }

    /** `memcpy(&tx_buf[buf_tx_size], data, len); buf_tx_size += len`. */
    method Append(data: seq<byte>, len: nat)
      requires Valid() && len <= |data| && size + len <= buf.Length
      modifies this, buf
      ensures Valid() && buf == old(buf) && contents == old(contents) + data[..len]
    {
      var at := size;
      forall i | 0 <= i < len {
        buf[at + i] := data[i];
      }
      size := size + len;
      contents := contents + data[..len];
      assert buf[..] == contents + Zeros(buf.Length - size) by {
        forall k | 0 <= k < buf.Length
          ensures buf[k] == (contents + Zeros(buf.Length - size))[k]
        {
          if k < at {
            assert buf[k] == old(buf[..])[k];
          } else if k < size {
            assert buf[k] == data[k - at];
          } else {
            assert buf[k] == old(buf[..])[k];
          }
        }
      }
    }
  }

  /** One protocol instance: the `_internal` record with its frame record inlined, and
      the injected integrity routine. The error handler is always the installed
      `zetta_error_manager`, so it is the method ErrorManager below. */
  class Zetta {
    const computeCRC: CrcFunction

    var pstate: ProtocolState
    var index: byte
    var frameStart: byte
    var frameType: byte
    var frameLen: byte
    var payload: array<byte>
    var frameCrc: byte
    var frameStop: byte
    var error: ZettaError
    var rxState: RxState
    var payloadReady: bool

    /** The instance as a value of ZettaMachine. */
    ghost function State(): Internal
      reads this, payload
    {
      Internal(pstate, index, Frame(frameStart, frameType, frameLen, payload[..], frameCrc, frameStop),
               error, rxState, payloadReady)
    }

    ghost predicate Valid()
      reads this, payload
    {
      WellFormed(State())
    }

    /** `zetta_init`: everything zeroed, the gate RX_READY, the error OK. */
    constructor Init(computeCRC: CrcFunction)
      ensures Valid() && fresh(payload)
      ensures State() == InitialState() && this.computeCRC == computeCRC
    {
      this.computeCRC := computeCRC;
      pstate := RxReady;
      index := 0;
      frameStart, frameType, frameLen, frameCrc, frameStop := 0, 0, 0, 0, 0;
      payload := new byte[MAX_PAYLOAD_SIZE](_ => 0);
      error := Ok;
      rxState := WaitStart;
      payloadReady := false;
      new;
      assert payload[..] == Zeros(MAX_PAYLOAD_SIZE);
    }

    /** `zetta_error_manager`: returns the receiver to WAIT_START and nothing else. */
    method ErrorManager(e: ZettaError)
      modifies this`rxState
      ensures rxState == WaitStart
      ensures State() == ZettaMachine.ErrorManager(old(State()), e)
    {
      rxState := WaitStart;
    }

    /** `zetta_compute_crc`: the integrity routine over type, len and `payload[0..len]`. */
    method ComputeCrc() returns (c: uint32)
      requires Valid()
      ensures c == computeCRC(CrcSpan(frameType, payload[..frameLen]))
    {
      var span := [frameType, frameLen] + payload[..frameLen];
      c := computeCRC(span);
    }

    /** `zetta_send`. The busy-wait on the TX gate is the precondition `pstate != TxBusy`;
        the call of the transport's `send` is the returned `sent` (None: not called). */
    method Send(tx: TxBuffer, t: byte, data: seq<byte>, len: byte) returns (r: ZettaError, sent: Option<seq<byte>>)
      requires Valid() && tx.Valid() && tx.buf != payload
      requires pstate != TxBusy
      requires len <= MAX_PAYLOAD_SIZE ==> len <= |data|
      modifies this, payload, tx, tx.buf
      ensures Valid() && tx.Valid() && payload == old(payload) && tx.buf == old(tx.buf)
      ensures len > MAX_PAYLOAD_SIZE ==>
        && r == PayloadTooLarge && sent == None
        && State() == ZettaMachine.ErrorManager(old(State()), PayloadTooLarge)
        && tx.buf[..] == old(tx.buf[..]) && tx.size == old(tx.size) && tx.contents == old(tx.contents)
      ensures len <= MAX_PAYLOAD_SIZE ==>
        var p := data[..len];
        var c := LowByte(computeCRC(CrcSpan(t, p)));
        && r == Ok
        && sent == Some(WireFrame(t, p, c))
        && tx.size == 5 + len
        && tx.contents == WireFrame(t, p, c)
        && tx.buf[..] == WireFrame(t, p, c) + Zeros(TX_CLEAR_LENGTH - (5 + len))
        && State() == old(State()).(pstate := TxBusy,
             frame := old(State()).frame.(msgType := t, len := len, payload := p + old(payload[len..]), crc := c))
      ensures (State(), r) == SendStep(computeCRC, old(State()), t, data, len)
    {
      if len > MAX_PAYLOAD_SIZE {
        ErrorManager(PayloadTooLarge);
        return PayloadTooLarge, None;
      }
      FrameBounds();
      tx.StartFrame(t, len);
      pstate := TxBusy;
      tx.Append(data, len);
      var c := SealFrame(t, data, len);
      tx.FinishFrame(c);
      sent := Some(tx.Filled());
      r := Ok;
    }

    /** The frame-record half of `zetta_send`: record type, len and payload, compute the
        check value over them and keep its low octet. */
    method SealFrame(t: byte, data: seq<byte>, len: byte) returns (c: byte)
      requires Valid() && len <= MAX_PAYLOAD_SIZE && len <= |data|
      modifies this`frameType, this`frameLen, this`frameCrc, payload
      ensures Valid()
      ensures c == LowByte(computeCRC(CrcSpan(t, data[..len])))
      ensures State() == old(State()).(frame := old(State()).frame.(msgType := t, len := len,
                                         payload := data[..len] + old(payload[len..]), crc := c))
    {
      RecordFrame(t, data, len);
      var value := ComputeCrc();
      c := LowByte(value);
      frameCrc := c;
    }

    /** The part of `zetta_send` that writes the shared frame record: type, len and
        the first len payload bytes. */
    method RecordFrame(t: byte, data: seq<byte>, len: byte)
      requires Valid() && len <= MAX_PAYLOAD_SIZE && len <= |data|
      modifies this`frameType, this`frameLen, payload
      ensures Valid()
      ensures State() == old(State()).(frame := old(State()).frame.(msgType := t, len := len,
                                                                    payload := data[..len] + old(payload[len..])))
    {
      frameType := t;
      frameLen := len;
      forall i | 0 <= i < len {
        payload[i] := data[i];
      }
      assert payload[..] == data[..len] + old(payload[len..]);
    }

    /** `zetta_ParseByte`: one byte through the receive state machine. The wait on the
        RX_BUSY gate is left out (nothing sets that value), and so is the `default`
        branch (the state is one of the six constructors). */
    method ParseByte(b: byte) returns (r: ZettaError)
      requires Valid()
      modifies this, payload
      ensures Valid() && payload == old(payload)
      ensures (State(), r) == ParseStep(computeCRC, old(State()), b)
    {
      match rxState {
      case WaitStart =>
        if b == START_BYTE {
          rxState := RxState.GetType;
          frameStart := START_BYTE;
          index := 0;
        } else {
          error := InvalidStart;
          ErrorManager(InvalidStart);
        }
      case GetType =>
        if ErrorCode(CheckType(b)) != 0 {
          frameType := b;
          rxState := GetLen;
        } else {
          assert false;
        }
      case GetLen =>
        if b <= MAX_PAYLOAD_SIZE {
          frameLen := b;
          rxState := if b == 0 then GetCrc else RxState.GetPayload;
        } else {
          error := PayloadTooLarge;
          ErrorManager(PayloadTooLarge);
          return Error;
        }
      case GetPayload =>
        StorePayloadByte(b);
      case GetCrc =>
        frameCrc := b;
        rxState := GetStop;
      case GetStop =>
        r := CloseFrame(b);
        return;
      }
      r := Error;
    }

    /** The GET_PAYLOAD branch: store at `index`, advance, and move on to the check
        byte once `len` bytes are in. */
    method StorePayloadByte(b: byte)
      requires Valid() && rxState == RxState.GetPayload
      modifies this`index, this`rxState, payload
      ensures Valid()
      ensures (State(), Error) == ParseStep(computeCRC, old(State()), b)
    {
      payload[index] := b;
      index := index + 1;
      if index >= frameLen {
        rxState := GetCrc;
      }
    }

    /** The GET_STOP branch: on the stop byte, compare the computed check value with the
        received one; every other outcome is a rejection. */
    method CloseFrame(b: byte) returns (r: ZettaError)
      requires Valid() && rxState == GetStop
      modifies this`rxState, this`frameStop, this`payloadReady, this`error
      ensures Valid()
      ensures (State(), r) == ParseStep(computeCRC, old(State()), b)
    {
      if b == STOP_BYTE {
        rxState := WaitStart;
        frameStop := STOP_BYTE;
        var crcVal := ComputeCrc();
        if crcVal == frameCrc {
          payloadReady := true;
          rxState := WaitStart;
          return Ok;
        } else {
          error := CrcMismatch;
          ErrorManager(CrcMismatch);
        }
      } else {
        error := InvalidStop;
        ErrorManager(InvalidStop);
      }
      r := Error;
    }

    /** `zetta_ProcessBuffer`: feeds the bytes in order and returns at the first byte
        that completes a frame. */
    method ProcessBuffer(data: seq<byte>) returns (r: ZettaError)
      requires Valid() && |data| < 0x1_0000
      modifies this, payload
      ensures Valid() && payload == old(payload)
      ensures var o := Process(computeCRC, old(State()), data);
        State() == o.state && r == o.result
    {
      ghost var st0 := State();
      for i := 0 to |data|
        invariant Valid() && payload == old(payload)
        invariant var o := Process(computeCRC, State(), data[i..]);
          Process(computeCRC, st0, data) == o.(consumed := o.consumed + i)
      {
        assert data[i..][0] == data[i] && data[i..][1..] == data[i + 1..];
        var e := ParseByte(data[i]);
        if e == Ok {
          return Ok;
        }
      }
      assert data[|data|..] == [];
      r := Error;
    }

    /** `Zetta_GetPayload`: copies `len` payload bytes out once a frame is ready. */
    method GetPayload(dest: array<byte>)
      requires Valid() && dest != payload
      requires payloadReady ==> frameLen <= dest.Length
      modifies dest
      ensures payloadReady ==>
        dest[..frameLen] == payload[..frameLen] && dest[frameLen..] == old(dest[frameLen..])
      ensures !payloadReady ==> dest[..] == old(dest[..])
    {
      if payloadReady {
        forall i | 0 <= i < frameLen {
          dest[i] := payload[i];
        }
      }
    }

    /** `Zetta_GetType`: the received type once a frame is ready, MSG_ACK before. */
    method GetType() returns (t: byte)
      ensures payloadReady ==> t == frameType
      ensures !payloadReady ==> t == PacketTypeValue(MsgAck)
    {
      if payloadReady {
        return frameType;
      }
      return PacketTypeValue(MsgAck);
    }

    /** `zetta_recieve_cplt_clb`: releases the gate to RX_READY. */
    method ReceiveComplete()
      modifies this`pstate
      ensures pstate == RxReady
    {
      pstate := RxReady;
    }

    /** `zetta_transmit_cplt_clb`: releases the gate to TX_READY. */
    method TransmitComplete()
      modifies this`pstate
      ensures pstate == TxReady
    {
      pstate := TxReady;
    }
  }
}

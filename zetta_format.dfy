/**
  The Zetta wire format: the delimiters, the payload bound, the packed frame
  record, the enumerations shared by the device firmware, and the byte layout
  of one frame on the wire:

      0xAA | type | len | payload[len] | crc | 0xBC
 */
module ZettaFormat {

  datatype Option<T> = None | Some(value: T)

  /** One octet (`uint8_t`). */
  type byte = x: int | 0 <= x < 0x100

  /** The width of the value the injected CRC routine returns (`uint32_t`). */
  type uint32 = x: int | 0 <= x < 0x1_0000_0000

  const START_BYTE: byte := 0xAA
  const STOP_BYTE: byte := 0xBC
  const MAX_PAYLOAD_SIZE: nat := 25

  /** Widths of the packed fields start, type, len, payload, crc, stop, in order. */
  const FRAME_FIELD_WIDTHS: seq<nat> := [1, 1, 1, MAX_PAYLOAD_SIZE, 1, 1]

  function SumWidths(ws: seq<nat>): nat
  {
    if ws == [] then 0 else ws[0] + SumWidths(ws[1..])
  }

  /** `sizeof(ZettaFrame_t)` for the packed record: the sum of its field widths. */
  function MaxFrameSize(): (n: nat)
    ensures n == 5 + MAX_PAYLOAD_SIZE
  {
    var ws := FRAME_FIELD_WIDTHS;
    assert SumWidths(ws[5..]) == 1 by { assert ws[5..][1..] == []; }
    assert SumWidths(ws[4..]) == 2 by { assert ws[4..][1..] == ws[5..]; }
    assert SumWidths(ws[3..]) == 2 + MAX_PAYLOAD_SIZE by { assert ws[3..][1..] == ws[4..]; }
    assert SumWidths(ws[2..]) == 3 + MAX_PAYLOAD_SIZE by { assert ws[2..][1..] == ws[3..]; }
    assert SumWidths(ws[1..]) == 4 + MAX_PAYLOAD_SIZE by { assert ws[1..][1..] == ws[2..]; }
    SumWidths(ws)
  }

  /** The literal length the encoder clears before building a frame. */
  const TX_CLEAR_LENGTH: nat := 30

  /** The whole packed record fits the buffer the encoder clears, and every valid
      length fits the one-byte `len` field. */
  lemma FrameBounds()
    ensures MaxFrameSize() == TX_CLEAR_LENGTH
    ensures MAX_PAYLOAD_SIZE < 0x100
  {
  }

  /** Packet type tags (`ZettaPacketType_t`). */
  datatype PacketType = MsgAck | MsgPublish | MsgSubscribe

  function PacketTypeValue(t: PacketType): (v: byte)
    ensures v <= 2
    ensures t == MsgAck <==> v == 0
  {
    match t
    case MsgAck => 0
    case MsgPublish => 1
    case MsgSubscribe => 2
  }

  /** The six states of the byte-wise receiver (`ZettaFrameRxState_t`). */
  datatype RxState = WaitStart | GetType | GetLen | GetPayload | GetCrc | GetStop

  /** The enumerator value of an RX state; a zero-filled instance is in WaitStart. */
  function RxStateValue(s: RxState): (n: nat)
    ensures n < 6
    ensures n == 0 <==> s == WaitStart
  {
    match s
    case WaitStart => 0
    case GetType => 1
    case GetLen => 2
    case GetPayload => 3
    case GetCrc => 4
    case GetStop => 5
  }

  /** Distinct states have distinct enumerator values: there are exactly six. */
  lemma RxStateValueInjective(s: RxState, t: RxState)
    ensures RxStateValue(s) == RxStateValue(t) ==> s == t
  {
  }

  /** Result and error codes (`ZettaError_t`). */
  datatype ZettaError =
    | Error | Ok | ErrorType | FrameError | InvalidStart | PayloadTooLarge
    | CrcMismatch | InvalidStop | Timeout | TxBusyError | RxBusyError

  /** The enumerator value of a code; only `Error` is falsy and `Ok` is 1. */
  function ErrorCode(e: ZettaError): (c: nat)
    ensures c <= 10
    ensures c == 0 <==> e == Error
    ensures c == 1 <==> e == Ok
  {
    match e
    case Error => 0
    case Ok => 1
    case ErrorType => 2
    case FrameError => 3
    case InvalidStart => 4
    case PayloadTooLarge => 5
    case CrcMismatch => 6
    case InvalidStop => 7
    case Timeout => 8
    case TxBusyError => 9
    case RxBusyError => 10
  }

  /** The single gate field shared by both directions (`ZettaProtocolState_t`). */
  datatype ProtocolState = TxBusy | TxReady | RxReady | RxBusy

  function ProtocolStateValue(p: ProtocolState): (n: nat)
    ensures n < 4
    ensures n == 0 <==> p == TxBusy
  {
    match p
    case TxBusy => 0
    case TxReady => 1
    case RxReady => 2
    case RxBusy => 3
  }

  /** The packed frame record `ZettaFrame_t`; `payload` always has capacity 25. */
  datatype Frame = Frame(start: byte, msgType: byte, len: byte, payload: seq<byte>, crc: byte, stop: byte)

  predicate FrameValid(f: Frame)
  {
    |f.payload| == MAX_PAYLOAD_SIZE && f.len <= MAX_PAYLOAD_SIZE
  }

  function Zeros(n: nat): (z: seq<byte>)
    ensures |z| == n && forall i | 0 <= i < n :: z[i] == 0
  {
    seq(n, _ => 0)
  }

  /** A zero-filled frame record. */
  function ZeroFrame(): (f: Frame)
    ensures FrameValid(f)
  {
    Frame(0, 0, 0, Zeros(MAX_PAYLOAD_SIZE), 0, 0)
  }

  /** The bytes the integrity check covers: type, len and the first len payload bytes. */
  function CrcSpan(t: byte, p: seq<byte>): (s: seq<byte>)
    requires |p| < 0x100
    ensures |s| == 2 + |p| && s[0] == t && s[1] == |p| && s[2..] == p
  {
    [t, |p|] + p
  }

  /** The memory image of the packed record: its fields in declaration order, with
      no padding between them. */
  function PackedBytes(f: Frame): (b: seq<byte>)
    ensures |b| == 5 + |f.payload|
    ensures b[0] == f.start && b[1] == f.msgType && b[2] == f.len
    ensures b[3..3 + |f.payload|] == f.payload
    ensures b[3 + |f.payload|] == f.crc && b[4 + |f.payload|] == f.stop
    ensures FrameValid(f) ==> |b| == MaxFrameSize()
  {
    [f.start, f.msgType, f.len] + f.payload + [f.crc, f.stop]
  }

  /** The span `zetta_compute_crc` hands to the routine: `2 + len` bytes of the packed
      image read from the address of the type field. */
  function FrameCrcSpan(f: Frame): (s: seq<byte>)
    requires FrameValid(f)
    ensures s == CrcSpan(f.msgType, f.payload[..f.len])
  {
    PackedBytes(f)[1..3 + f.len]
  }

  /** Truncation of a wider value to its low octet (`& 0xFF`, or a store into `uint8_t`). */
  function LowByte(x: nat): (b: byte)
    ensures x < 0x100 ==> b == x
  {
    x % 0x100
  }

  /** The three header bytes of a frame: start delimiter, type and length. */
  function Header(t: byte, n: byte): (h: seq<byte>)
    ensures |h| == 3 && h[0] == START_BYTE && h[1] == t && h[2] == n
  {
    [START_BYTE, t, n]
  }

  /** The bytes of one frame on the wire. */
  function WireFrame(t: byte, p: seq<byte>, crc: byte): (w: seq<byte>)
    requires |p| < 0x100
    ensures |w| == 5 + |p|
    ensures w[0] == START_BYTE && w[1] == t && w[2] == |p|
    ensures w[3..3 + |p|] == p
    ensures w[3 + |p|] == crc && w[4 + |p|] == STOP_BYTE
    ensures w[1..3 + |p|] == CrcSpan(t, p)
  {
    Header(t, |p|) + p + [crc, STOP_BYTE]
  }
}

/**
  The state of one device-side protocol instance (the `_internal` record of
  `Zetta_t`) as a value, and the effect of each receive-path operation on it.
  The class in ZettaDevice is proved to change its fields exactly as these
  functions say; the lemmas in ZettaMachineProofs are stated over them.
 */
module ZettaMachine {
  import opened ZettaFormat

  /** The injected integrity routine: octets in, a 32-bit value out. */
  type CrcFunction = seq<byte> -> uint32

  /** The `_internal` record. One `frame` serves both directions. */
  datatype Internal = Internal(
    pstate: ProtocolState,
    index: byte,
    frame: Frame,
    error: ZettaError,
    rxState: RxState,
    payloadReady: bool)

  /** The payload write position stays inside the 25-byte buffer while a frame is
      being assembled, and the recorded length never exceeds the bound. */
  predicate WellFormed(st: Internal)
  {
    && FrameValid(st.frame)
    && ((st.rxState.GetType? || st.rxState.GetLen? || st.rxState.GetPayload?) ==> st.index < MAX_PAYLOAD_SIZE)
  }

  /** The state right after initialisation: zero-filled, gate RX_READY, error OK. */
  function InitialState(): (st: Internal)
    ensures WellFormed(st) && st.rxState == WaitStart && !st.payloadReady
  {
    Internal(RxReady, 0, ZeroFrame(), Ok, WaitStart, false)
  }

  /** The installed error handler: whatever the code, only the RX state is reset. */
  function ErrorManager(st: Internal, e: ZettaError): Internal
  {
    st.(rxState := WaitStart)
  }

  /** A rejection on the RX path: record the code, then call the error handler. */
  function Reject(st: Internal, e: ZettaError): Internal
  {
    ErrorManager(st.(error := e), e)
  }

  /** The type check hook; it accepts every byte. */
  function CheckType(b: byte): (r: ZettaError)
    ensures ErrorCode(r) != 0
  {
    Ok
  }

  /** The value `zetta_compute_crc` returns for the frame currently recorded. */
  function FrameCrc(crc: CrcFunction, f: Frame): uint32
    requires FrameValid(f)
  {
    crc(FrameCrcSpan(f))
  }

  /** One call of the byte-wise parser: the new state and the returned code. */
  function ParseStep(crc: CrcFunction, st: Internal, b: byte): (r: (Internal, ZettaError))
    requires WellFormed(st)
    ensures WellFormed(r.0)
    ensures r.1 == Ok || r.1 == Error
    ensures r.0.pstate == st.pstate
    ensures st.payloadReady ==> r.0.payloadReady
  {
    match st.rxState
    case WaitStart =>
      if b == START_BYTE then
        (st.(rxState := GetType, frame := st.frame.(start := START_BYTE), index := 0), Error)
      else
        (Reject(st, InvalidStart), Error)
    case GetType =>
      if ErrorCode(CheckType(b)) != 0 then
        (st.(frame := st.frame.(msgType := b), rxState := GetLen), Error)
      else
        (Reject(st, ErrorType), Error)
    case GetLen =>
      if b <= MAX_PAYLOAD_SIZE then
        (st.(frame := st.frame.(len := b), rxState := if b == 0 then GetCrc else GetPayload), Error)
      else
        (Reject(st, PayloadTooLarge), Error)
    case GetPayload =>
      var i := st.index + 1;
      var f := st.frame.(payload := st.frame.payload[st.index := b]);
      (st.(frame := f, index := i, rxState := if i >= f.len then GetCrc else GetPayload), Error)
    case GetCrc =>
      (st.(frame := st.frame.(crc := b), rxState := GetStop), Error)
    case GetStop =>
      if b == STOP_BYTE then
        var s1 := st.(rxState := WaitStart, frame := st.frame.(stop := STOP_BYTE));
        if FrameCrc(crc, s1.frame) == s1.frame.crc then
          (s1.(payloadReady := true, rxState := WaitStart), Ok)
        else
          (Reject(s1, CrcMismatch), Error)
      else
        (Reject(st, InvalidStop), Error)
  }

  /** Feeding a sequence of bytes one by one: the final state and each call's code. */
  function Run(crc: CrcFunction, st: Internal, bs: seq<byte>): (r: (Internal, seq<ZettaError>))
    requires WellFormed(st)
    ensures WellFormed(r.0) && |r.1| == |bs|
    decreases |bs|
  {
    if bs == [] then (st, [])
    else
      var (s1, e) := ParseStep(crc, st, bs[0]);
      var (s2, es) := Run(crc, s1, bs[1..]);
      (s2, [e] + es)
  }

  /** No call in the sequence reported a completed frame. */
  predicate NoneOk(es: seq<ZettaError>)
  {
    forall i | 0 <= i < |es| :: es[i] != Ok
  }

  /** What the batch feeder leaves behind: the state, the returned code, and how many
      bytes it fed before returning. */
  datatype Outcome = Outcome(state: Internal, result: ZettaError, consumed: nat)

  /** The batch feeder: stops at the first byte that completes a frame. */
  function Process(crc: CrcFunction, st: Internal, bs: seq<byte>): (o: Outcome)
    requires WellFormed(st)
    ensures WellFormed(o.state) && o.consumed <= |bs|
    ensures o.result == Ok || o.result == Error
    decreases |bs|
  {
    if bs == [] then Outcome(st, Error, 0)
    else
      var (s1, e) := ParseStep(crc, st, bs[0]);
      if e == Ok then Outcome(s1, Ok, 1)
      else
        var o := Process(crc, s1, bs[1..]);
        o.(consumed := o.consumed + 1)
  }

  /** The instance side of `zetta_send` (the transmit buffer lives in ZettaDevice). A
      payload over 25 bytes goes to the error handler. Otherwise the gate turns TX_BUSY
      and the shared frame record takes the type, the length, the payload and the low
      octet of the value the routine gives for the record just written. */
  function SendStep(crc: CrcFunction, st: Internal, t: byte, data: seq<byte>, len: byte): (r: (Internal, ZettaError))
    requires WellFormed(st)
    requires len <= MAX_PAYLOAD_SIZE ==> len <= |data|
    ensures WellFormed(r.0)
    ensures r.1 == Ok <==> len <= MAX_PAYLOAD_SIZE
    ensures r.1 != Ok ==> r.1 == PayloadTooLarge
  {
    if len > MAX_PAYLOAD_SIZE then
      (ErrorManager(st, PayloadTooLarge), PayloadTooLarge)
    else
      var f := st.frame.(msgType := t, len := len, payload := data[..len] + st.frame.payload[len..]);
      (st.(pstate := TxBusy, frame := f.(crc := LowByte(FrameCrc(crc, f)))), Ok)
  }
}

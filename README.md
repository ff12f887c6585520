# Zetta protocol — a verified model

Zetta is a byte-framing protocol for small typed packets over a serial link.
One frame on the wire is

    0xAA | type | len | payload[len] | crc | 0xBC        (len <= 25)

and the check byte covers `type ‖ len ‖ payload[0..len]`. This project models
three parts of the repository:

- the device firmware's encoder and six-state byte-wise receiver
  (`Core/src/zetta_protocol.c`);
- the constants, enumerations and packed frame record it is built on
  (`Core/inc/zetta_protocol.h`);
- the host-side Python codec and its resynchronising receive scan
  (`python/zetta_protocol.py`).

Layout:

- `zetta_format.dfy` (module `ZettaFormat`): the delimiters and the payload
  bound, the four enumerations and their numeric values, the packed frame
  record and its size, the bytes the check covers, and the byte layout of a
  frame on the wire.
- `zetta_machine.dfy` (module `ZettaMachine`): one device instance's
  `_internal` record as a value. `ParseStep` is one call of the receiver.
  `Run` feeds a byte sequence. `Process` is the batch feeder. `SendStep` is
  what a send does to the instance.
- `zetta_machine_proofs.dfy` (module `ZettaMachineProofs`): what a byte does
  in each state, error recovery, the encoder/receiver round trip, back-to-back
  frames, where the batch feeder stops, and what a send does to a reception
  in progress.
- `zetta_device.dfy` (module `ZettaDevice`): the instance as a class whose
  fields and 25-byte payload array change in place, plus the process-wide
  30-byte transmit buffer. `ParseByte`, `ProcessBuffer`, `ErrorManager` and
  `Send` are proved to change the instance exactly as `ParseStep`, `Process`,
  `ZettaMachine.ErrorManager` and `SendStep` say, so the lemmas about those
  functions describe the class. The other methods (the transmit-buffer steps,
  `GetPayload`, `GetType` and the two completion callbacks) state their effect
  on the fields directly.
- `zetta_host.dfy` (module `ZettaHost`): `_create_packet`, the checks of
  `_parse_packet` with the counters they bump, and the inner scan loop. The
  loop appears twice: as the function `Scan`, and as the `while` loop of
  `ZettaProtocol.ScanBuffer`, which is proved equal to it.
- `zetta_host_proofs.dfy` (module `ZettaHostProofs`): parse/encode round
  trip, when each counter moves, what the scan keeps, drops and delivers, and
  the interplay of host and device.

The integrity routine is a parameter on both sides:

- the device's `computeCRC` is any function from octets to a 32-bit value;
- the host's `calculator.checksum` is any function from octets to a natural
  number.

In these points the model follows the code as written:

- The receiver compares the full 32-bit value of `computeCRC` with the
  one-byte `crc` field (`Core/src/zetta_protocol.c:157-159`), while the
  encoder stores only its low octet (`:75-76`). So a frame is accepted exactly
  when the value itself equals the byte, and the round trip needs a value
  below 256 (`FrameAcceptedIff`, `RoundTrip`, `WideCrcNeverAccepted`).
- Initialisation puts the single gate field in RX_READY. It installs the
  completion callbacks and `zetta_error_manager` whatever the caller passed.
- A too-long `zetta_send` also calls the error handler, which resets the
  receiver to WAIT_START.
- The transmit buffer is shared by every instance, and the frame record is
  shared by both directions: a send rewrites `frame.type`, `frame.len` and the
  payload bytes, even while a frame is being received. `WellFormed` keeps the
  receiver's write index inside the 25-byte payload under any interleaving of
  `ParseStep` and `SendStep`. `index < len` is kept by receive steps
  (`PayloadHandling`) but not by a send (`SendMidPayloadTruncates`).

## Model

| member | source | states |
|---|---|---|
| ZettaFormat.MaxFrameSize | Core/inc/zetta_protocol.h:14-25 | the packed record start, type, len, payload[25], crc, stop occupies 5 + 25 bytes |
| ZettaFormat.FrameBounds | Core/src/zetta_protocol.c:63-64 | the record size equals the literal 30 cleared before encoding, and the payload bound fits the one-byte length field |
| ZettaFormat.PacketTypeValue | Core/inc/zetta_protocol.h:27-32 | type tags are 0..2 and MSG_ACK is exactly the value 0 |
| ZettaFormat.RxStateValue | Core/inc/zetta_protocol.h:33-41 | the six RX states are numbered below 6 and only WAIT_START is 0, so a zero-filled instance waits for a start byte |
| ZettaFormat.RxStateValueInjective | Core/inc/zetta_protocol.h:33-41 | distinct RX states have distinct numbers: there are exactly six |
| ZettaFormat.ErrorCode | Core/inc/zetta_protocol.h:43-56 | only ZETTA_ERROR is 0 (falsy) and ZETTA_OK is exactly 1 |
| ZettaFormat.ProtocolStateValue | Core/inc/zetta_protocol.h:58-65 | one four-valued gate field, TX_BUSY being 0 |
| ZettaFormat.ZeroFrame | Core/inc/zetta_protocol.h:14-23 | a zero-filled frame record has the full 25-byte payload and a legal length |
| ZettaFormat.CrcSpan | Core/src/zetta_protocol.c:28-35 | the checked span is type, then len, then exactly the len payload bytes |
| ZettaFormat.PackedBytes | Core/inc/zetta_protocol.h:14-25 | the packed record's memory image is start, type, len, the payload, crc and stop with no padding, and for a valid record it is exactly the 30 bytes of the record size |
| ZettaFormat.FrameCrcSpan | Core/src/zetta_protocol.c:30-35 | the 2 + len bytes of the packed image read from the address of the type field are the checked span: type, len and payload[0..len] |
| ZettaFormat.LowByte | Core/src/zetta_protocol.c:75-76 | storing a value into the byte field keeps it when it is below 256 |
| ZettaFormat.WireFrame | Core/src/zetta_protocol.c:67-77 | a frame is 5 + len bytes: start, type, len, the payload, the crc byte and stop, and the bytes between start and crc are the checked span |
| ZettaMachine.InitialState | Core/src/zetta_protocol.c:11-24 | the initialised instance is well formed, waits for a start byte and has no frame ready |
| ZettaMachine.CheckType | Core/src/zetta_protocol.c:85 | the type check returns a truthy code for every byte, so the rejecting branch of GET_TYPE never runs |
| ZettaMachine.ParseStep | Core/src/zetta_protocol.c:87-186 | one byte keeps the payload index inside the buffer, returns only OK or ERROR, never touches the gate and never clears payload_ready |
| ZettaMachine.Run | Core/src/zetta_protocol.c:87-186 | feeding any byte sequence keeps the instance well formed and yields one code per byte |
| ZettaMachine.Process | Core/src/zetta_protocol.c:187-198 | the batch feeder consumes no more bytes than given and returns OK or ERROR |
| ZettaMachine.SendStep | Core/src/zetta_protocol.c:57-82 | a send keeps the instance well formed and returns OK exactly for a payload of at most 25 bytes, PAYLOAD_TOO_LARGE otherwise |
| ZettaMachineProofs.ParseOkIff | Core/src/zetta_protocol.c:150-163 | a call returns OK exactly in GET_STOP on 0xBC when the 32-bit value equals the crc byte, and then the frame is ready and the receiver waits again |
| ZettaMachineProofs.StartHandling | Core/src/zetta_protocol.c:94-106 | 0xAA opens a frame with index 0; any other byte records INVALID_START and changes nothing else |
| ZettaMachineProofs.LengthHandling | Core/src/zetta_protocol.c:121-135 | a length over 25 is rejected without being recorded; 0 skips to GET_CRC; any other legal length waits for payload |
| ZettaMachineProofs.PayloadHandling | Core/src/zetta_protocol.c:137-143 | index < len is kept, the byte lands at index, and GET_CRC follows exactly after the len-th byte |
| ZettaMachineProofs.RejectionResets | Core/src/zetta_protocol.c:214-216 | each of the four rejections records its cause and only resets the RX state; a start byte arriving in GET_STOP is lost |
| ZettaMachineProofs.RunKeepsPayloadReady | Core/src/zetta_protocol.c:161 | once set, payload_ready survives any byte sequence |
| ZettaMachineProofs.RunPayload | Core/src/zetta_protocol.c:137-143 | len payload bytes fill payload[index..len] and end in GET_CRC with no frame reported |
| ZettaMachineProofs.RunHeader | Core/src/zetta_protocol.c:94-135 | the three header bytes record start, type and len and reach GET_PAYLOAD, or GET_CRC for len 0 |
| ZettaMachineProofs.RunToCrc | Core/src/zetta_protocol.c:94-143 | header plus payload reach GET_CRC holding that frame's fields |
| ZettaMachineProofs.RunToStop | Core/src/zetta_protocol.c:94-148 | header, payload and crc byte reach GET_STOP holding the whole frame |
| ZettaMachineProofs.FrameAcceptedIff | Core/src/zetta_protocol.c:150-170 | a wire frame completes on its last byte exactly when the 32-bit value of its span equals its crc byte; otherwise CRC_MISMATCH and payload_ready unchanged |
| ZettaMachineProofs.RoundTrip | Core/src/zetta_protocol.c:63-163 | the encoder's frame, fed to a waiting receiver, completes on its last byte only and reproduces type, len and payload, when the value is below 256 |
| ZettaMachineProofs.WideCrcNeverAccepted | Core/src/zetta_protocol.c:157-159 | a value of 256 or more makes the frame unacceptable whatever crc byte it carries |
| ZettaMachineProofs.CorruptedCrcRejected | Core/src/zetta_protocol.c:165-170 | a frame with a corrupted crc byte is rejected with CRC_MISMATCH and leaves the receiver waiting |
| ZettaMachineProofs.BackToBack | Core/src/zetta_protocol.c:150-163 | two concatenated frames complete independently, each on its own last byte and nowhere else |
| ZettaMachineProofs.SendDuringReception | Core/src/zetta_protocol.c:57-75 | a send leaves the receiver's state, index, payload_ready and error alone; accepted, it turns the gate TX_BUSY and gives the shared record the sent type, len, payload and the low octet of the value over them, keeping the rest; refused, it only resets the receiver |
| ZettaMachineProofs.SendMidPayloadTruncates | Core/src/zetta_protocol.c:72-74 | a send of no more bytes than have arrived, landing in GET_PAYLOAD, breaks index < len, and the next byte sends the receiver on to GET_CRC with the sent length |
| ZettaMachineProofs.ProcessStopsAtFirstFrame | Core/src/zetta_protocol.c:187-198 | the batch feeder has fed exactly a prefix: on OK its last byte completed the first frame, on ERROR all bytes were fed and none completed |
| ZettaDevice.TxBuffer.constructor | Core/src/zetta_protocol.c:6-7 | the global transmit buffer starts empty and zero-filled |
| ZettaDevice.TxBuffer.Clear | Core/src/zetta_protocol.c:63-64 | resetting the counter and clearing 30 bytes empties the buffer |
| ZettaDevice.TxBuffer.Push | Core/src/zetta_protocol.c:67-69 | a post-increment store appends one byte |
| ZettaDevice.TxBuffer.StartFrame | Core/src/zetta_protocol.c:63-69 | after clearing, the buffer holds exactly the three header bytes |
| ZettaDevice.TxBuffer.Append | Core/src/zetta_protocol.c:70-71 | the copy appends exactly the first len bytes of the data |
| ZettaDevice.TxBuffer.FinishFrame | Core/src/zetta_protocol.c:76-77 | the crc byte and the stop byte are appended |
| ZettaDevice.TxBuffer.Filled | Core/src/zetta_protocol.c:80 | the bytes handed to the transport are exactly the filled prefix |
| ZettaDevice.Zetta.Init | Core/src/zetta_protocol.c:11-24 | the new instance is the initial state |
| ZettaDevice.Zetta.ErrorManager | Core/src/zetta_protocol.c:214-228 | the handler moves the receiver to WAIT_START and changes nothing else |
| ZettaDevice.Zetta.ComputeCrc | Core/src/zetta_protocol.c:26-48 | the value is the routine applied to type, len and the first len payload bytes |
| ZettaDevice.Zetta.Send | Core/src/zetta_protocol.c:50-83 | over 25: PAYLOAD_TOO_LARGE, no transport call, buffer and gate untouched, receiver reset; otherwise the transport gets exactly the wire frame of 5 + len bytes, the rest of the buffer is zero, the gate is TX_BUSY and the frame record holds type, len, payload and the low octet of the value; in both cases the instance changes as SendStep says |
| ZettaDevice.Zetta.SealFrame | Core/src/zetta_protocol.c:72-75 | the record gets type, len and payload, and its crc is the low octet of the value over them |
| ZettaDevice.Zetta.RecordFrame | Core/src/zetta_protocol.c:72-74 | the record gets type, len and the first len payload bytes; the rest of the payload is kept |
| ZettaDevice.Zetta.ParseByte | Core/src/zetta_protocol.c:87-186 | the instance changes exactly as ParseStep says and returns its code |
| ZettaDevice.Zetta.StorePayloadByte | Core/src/zetta_protocol.c:137-143 | the GET_PAYLOAD branch changes the instance exactly as ParseStep says |
| ZettaDevice.Zetta.CloseFrame | Core/src/zetta_protocol.c:150-178 | the GET_STOP branch changes the instance exactly as ParseStep says |
| ZettaDevice.Zetta.ProcessBuffer | Core/src/zetta_protocol.c:187-198 | the for loop leaves the instance and result that Process gives |
| ZettaDevice.Zetta.GetPayload | Core/src/zetta_protocol.c:199-204 | with a frame ready exactly len payload bytes are copied and the rest of the destination is kept; otherwise nothing is written |
| ZettaDevice.Zetta.GetType | Core/src/zetta_protocol.c:206-213 | the received type when a frame is ready, MSG_ACK otherwise |
| ZettaDevice.Zetta.ReceiveComplete | Core/src/zetta_protocol.c:229-232 | the gate becomes RX_READY |
| ZettaDevice.Zetta.TransmitComplete | Core/src/zetta_protocol.c:233-236 | the gate becomes TX_READY |
| ZettaHost.PacketTypeFromValue | python/zetta_protocol.py:22-26 | a byte names a packet type exactly when it is 0, 1 or 2, and it names the type with that value |
| ZettaHost.CreatePacket | python/zetta_protocol.py:221-235 | the packet is 5 + len(p) bytes: start, type, length, the payload, the low octet of the checksum over everything after start, stop |
| ZettaHost.ParseWithFloor | python/zetta_protocol.py:237-272 | a parse bumps at most one of frame_errors and crc_errors by one, and a parsed packet keeps the raw bytes and counts nothing |
| ZettaHost.Scan | python/zetta_protocol.py:288-320 | a scan pass never grows the buffer |
| ZettaHost.ScanFrameStep | python/zetta_protocol.py:298-307 | one case of Scan's definition, used by the proofs about ScanBuffer: with a start byte in front and enough bytes, exactly 5 + buffer[2] bytes are cut off and parsed, whatever the parse finds |
| ZettaHost.ScanSkipStep | python/zetta_protocol.py:290-292 | one case of Scan's definition: a leading byte that is not 0xAA is dropped |
| ZettaHost.ScanWaitStep | python/zetta_protocol.py:318-320 | one case of Scan's definition: an incomplete frame in front ends the pass with the buffer untouched |
| ZettaHost.ScanParsedFront | python/zetta_protocol.py:307-310 | one case of Scan's definition: a frame in front that parses is delivered and counted, and the scan continues after it |
| ZettaHost.ScanDroppedFront | python/zetta_protocol.py:304-308 | one case of Scan's definition: a frame in front that fails a check is removed, and the scan continues after it with the parse's counters |
| ZettaHost.ScanRaisedFront | python/zetta_protocol.py:262-265 | one case of Scan's definition: a frame in front with an unknown type ends the pass by the exception, already removed from the buffer |
| ZettaHost.ZettaProtocol.constructor | python/zetta_protocol.py:75-81 | all counters start at zero |
| ZettaHost.ZettaProtocol.SendRaw | python/zetta_protocol.py:130-139 | succeeds exactly for payloads of at most 25 bytes; on failure nothing is written and nothing counted; on success exactly the created packet is written and packets_sent grows by one |
| ZettaHost.ZettaProtocol.ScanBuffer | python/zetta_protocol.py:288-320 | the while loop leaves exactly the buffer, counters, packets and exception outcome that Scan gives; each iteration drops one non-start byte, cuts off and parses one complete frame (delivering it, dropping it, or ending the pass by the exception), or stops at an incomplete frame |
| ZettaHostProofs.ParseRejectsWithoutCounting | python/zetta_protocol.py:239-243 | a candidate under six bytes or with a wrong delimiter gives no packet and counts nothing |
| ZettaHostProofs.ParseFrameErrorIff | python/zetta_protocol.py:248-250 | frame_errors grows exactly when the delimiters are right and the size is not 5 + the length byte; then nothing else changes |
| ZettaHostProofs.ParseCrcErrorIff | python/zetta_protocol.py:252-260 | crc_errors grows exactly when a well-formed candidate carries the wrong check byte |
| ZettaHostProofs.ParseRaisesIff | python/zetta_protocol.py:262-265 | the parser raises exactly on a candidate that passes every check but has a type byte above 2, counting nothing |
| ZettaHostProofs.ParseAcceptsIff | python/zetta_protocol.py:262-272 | a candidate parses exactly when every check passes with a known type; it then carries a non-empty payload and is byte for byte the packet created from its type and data |
| ZettaHostProofs.ParseCreateRoundTrip | python/zetta_protocol.py:221-272 | parsing a created packet with 1 to 255 payload bytes gives back the type and the payload and counts nothing |
| ZettaHostProofs.EmptyPayloadRejected | python/zetta_protocol.py:239-240 | the packet created for an empty payload is 5 bytes and is dropped by the parser |
| ZettaHostProofs.IntendedRoundTrip | python/zetta_protocol.py:237-272 | with a floor of 5 every created packet, the empty one included, parses back to its type and payload |
| ZettaHostProofs.IntendedAgreesAboveFloor | python/zetta_protocol.py:239-240 | the two floors give the same result on every candidate that is not 5 bytes long |
| ZettaHostProofs.ScanOnlyDropsPrefix | python/zetta_protocol.py:288-320 | what the scan leaves is a suffix of the buffer |
| ZettaHostProofs.ScanHalts | python/zetta_protocol.py:288-320 | unless an exception ended it, a pass stops only with fewer than 6 bytes or an incomplete frame behind a start byte |
| ZettaHostProofs.ScanCounts | python/zetta_protocol.py:298-309 | packets_received grows by the number of packets delivered, packets_sent is untouched, crc_errors never decreases, and frame_errors never changes: the scan always cuts exactly 5 + length bytes, so the size check of python/zetta_protocol.py:248-250 cannot fail on its candidates |
| ZettaHostProofs.ScanDeliversOnlyEncodedPackets | python/zetta_protocol.py:301-310 | every delivered packet is the created packet of its own type and non-empty data |
| ZettaHostProofs.ScanSkipsGarbage | python/zetta_protocol.py:290-292 | any run of leading bytes that are not 0xAA is skipped when at least five more bytes follow it, so a pass resynchronises on the next start byte |
| ZettaHostProofs.ScanDeliversPacket | python/zetta_protocol.py:301-310 | a created packet with a non-empty payload at the front is delivered, counted, and the scan resumes after it |
| ZettaHostProofs.ScanDropsEmptyFrame | python/zetta_protocol.py:299-307 | a created packet with an empty payload at the front is cut off and dropped once one more byte follows it |
| ZettaHostProofs.DeviceAcceptsHostPacket | python/zetta_protocol.py:221-235 | the device receiver accepts the host's packet and reproduces type and payload, given the same routine with a value below 256 |
| ZettaHostProofs.HostAcceptsDeviceFrame | python/zetta_protocol.py:237-272 | given the same routine, the host parses the device's frame exactly when its payload is non-empty and its type is known, and raises exactly for a non-empty payload with an unknown type |

## Findings

| source | as written | input that shows it | evidently intended | confidence | as-written member | corrected member |
|---|---|---|---|---|---|---|
| python/zetta_protocol.py:239-240 | `_parse_packet` returns None for anything under six bytes, and the scan loop only runs with at least six bytes buffered | `send_raw(MSG_ACK, b"")` builds the 5-byte packet `AA 00 00 c BC`; the host drops it, while the device receiver accepts it | a floor of 5, the minimum frame the comment at python/zetta_protocol.py:295 names and the device's zero-length path accepts | medium, not executed | ZettaHostProofs.EmptyPayloadRejected | ZettaHostProofs.IntendedRoundTrip |

The corrected parser is `ZettaHost.ParsePacketIntended`. `HostAcceptsDeviceFrame`
states both parsers against the device's frames. The scan model, `ScanBuffer`
and their lemmas keep the code as written, so they describe what the host does
today (`ScanDropsEmptyFrame`).

## Left out

- Serial I/O, threads and timing: the serial port, the receiver thread and its outer loop, `bytes_received` (counted at python/zetta_protocol.py:284, outside the scan), the queue, the lock, `time.sleep`, and the packet timestamp. The scan returns its packets in order instead of queueing them.
- The user callbacks: `rx_callback` after each delivered packet, `error_callback` and `_handle_error` printing, and the device's completion callbacks as function pointers. The two device callbacks are modelled as the methods that flip the gate.
- The packet-handler registry and the `struct`/string builders and parsers of the Python class.
- The checksum internals: the `crc` library's 8-bit configuration and the device's hardware CRC. Both sides take the routine as a parameter.
- Zetta.Send: the busy-wait on TX_BUSY is the precondition `pstate != TxBusy`, not a wait; the transport call is the returned `sent` value.
- Zetta.ParseByte: the busy-wait on RX_BUSY is left out, because nothing ever sets that gate value. The `default:` FRAME_ERROR branch is left out too, because the state is one of six constructors.
- `last_byte_time`, the unused TIMEOUT/TX_BUSY/RX_BUSY codes (they are kept only as enumeration values), `dbg_crc_val`, and the `printf` in the error handler.
- The check `len(buffer) < 5` at python/zetta_protocol.py:295 is left out: it cannot hold inside `while len(buffer) >= 6`.
- Zetta.GetPayload: requires a destination of at least `frame.len` bytes. The firmware copies without checking, and the example application copies into a 13-byte packed struct (examples/stm32_uart_dma_example.c:45-53, 84) while a received frame can carry 25 bytes. A frame longer than 13 bytes would overrun it. The model does not describe that overrun.
- ZettaProtocol.SendRaw: the exception path when `ser.write` fails is not modelled. A write is assumed to succeed.
- The pointer cast over the packed record is modelled as a slice of the record's byte image (`PackedBytes`, `FrameCrcSpan`), not as a pointer into memory; alignment of the `uint32_t *` cast is not modelled.
- The firmware's integer widths: `index` is a byte but never exceeds 25, and `buf_tx_size` never exceeds 30, so neither wraps. The batch size is bounded by the `uint16_t` parameter (`|data| < 0x1_0000`).

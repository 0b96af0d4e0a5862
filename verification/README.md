# Verification of the SOF/SID/TYPE/DLC/PAYLOAD/CID/CRC8 gateway

A microcontroller, a bridge (the gateway) and desktop clients exchange frames

    SOF 0xAA | SID | TYPE | DLC (2, little-endian) | payload | CID (2, little-endian) | CRC8

over a serial line and over TLS. This project models the three implementations of that format, the session
routing between them and the threads and tasks that move the bytes, and proves what they promise each other.
`dafny verify dfyconfig.toml` checks everything.

## How it is organised

Pure specifications come first; the classes that update buffers, arrays, queues and dictionaries in place are
proved against them, and the main results are lemmas about the specifications.

| files | subject |
|---|---|
| `Bytes`, `Folds` | bytes, little-endian fields, chunked streams; iteration and folding |
| `Crc`, `Detection`, `DoubleErrors`, `Corruption` | CRC-8: the loop, its linearity, parity, bijectivity and cycle; which errors it detects |
| `Wire`, `Encoder` | the frame format and the gateway's builder |
| `Scanner`, `Leftmost`, `RoundTrip` | the decision at one position, the scan, its declarative meaning, streams of frames; generic in the receiver (gateway, firmware, client) |
| `Routing`, `Sessions`, `Gateway`, `History` | the session table and its locked operations, the manager and session objects, the parser and the serial workers; every run of the gateway, bytes in to bytes out |
| `Firmware`, `FirmwareRuns`, `FirmwareLoss`, `FirmwareReceiver`, `FirmwareSender`, `Handoff` | the firmware's receive buffer, its runs and one that loses a frame, the array code, the numbering of its own frames, and the packet slot under preemption |
| `Client`, `TlsReceiver`, `TlsSender`, `Limiter` | the client's codec, reader and counters; the gateway's registration, TLS reader and writer; the packet limiter |
| `EndToEnd` | client to firmware and back |

Sockets and serial lines are byte sequences. A read takes how much it returns from a script and a write is told how
much of it succeeded, so every statement covers every cutting. Methods that hold a lock are single steps.

## Where the code does not do what is written or intended

- The firmware's header guard asks for 4 bytes where 5 are read
  (`someip_gateway_mcu_stm32f103rb/ASW/src/BKEL_APP_protocol.c:202-206`). The fifth byte is then stale memory, or the
  byte behind the array. `Firmware.StepAgreesIff` says exactly when that changes a decision,
  `FirmwareRuns.CleanDeliveryIff` exactly when a clean stream loses a frame by it, and
  `FirmwareLoss.CleanStreamLosesAFrame` is such a stream. No frame is ever lost if no chunk leaves four undecided
  bytes (`FirmwareRuns.NoFourByteCut`).
- The client's `try_decode` gives up after dropping an over-long header, so frames behind it stay in the buffer
  until more data comes (`clientapp/testpc/protocol.py:81-83`). `Client.FrameHidden` is an input on which a frame is
  not delivered. A stream is delivered whole however it is cut exactly if no frame lies behind an over-long header
  (`Client.AlwaysDeliveredIff`); for given chunks the exact condition is that of `Client.DeliveredIff`.
- The client encodes payloads of up to 4096 bytes, the gateway ends a session over more than 256
  (`EndToEnd.PacketIsRequestIff`).
- Replies are matched by SID only, although a comment also names the CID (`app/src/core/SessionManager.cpp:124-125`).
  `Routing.RouteAgreesIff` says exactly when that differs, and `Routing.OneReplyAnswersBoth` gives two sessions that one
  reply answers. `getLastRequestedSid` returns the oldest pending SID, not the last (`app/src/core/Session.cpp:20-26`).
- Comments speak of a header byte 0x5A and of one second; the code has 0xAA and 5000 ms
  (`app/src/protocol/PacketParser.cpp:19`, `app/src/transport/TcpTransport.cpp:75-76`). Packets past the hundredth are
  stopped exactly if no new window has opened at any of the last hundred (`Limiter.BannedIff`), so two windows that
  meet let 200 packets through within one tick of the clock (`Limiter.TwoHundredCanPass`), which is also the most
  (`Limiter.AtMostTwoHundred`).
- A registration is refused unless each of its fields comes in one read (`app/src/transport/TcpServer.cpp:190-212`);
  `TlsReceiver.ReceivedCidTls` gives the exact condition, `EndToEnd.SplitRegistrationRefused` a valid one that is refused.
- The checksum is a CRC with all the usual guarantees for odd errors and short bursts, but two flipped bits 127 bits
  apart go unnoticed (`DoubleErrors.TwoFlipsMissedIff`).
- A TLS write that fails drops the packet in hand and goes on with the next one
  (`app/src/transport/TlsTransport.cpp:120-128`); `TlsSender.OrderKeptIff` shows that this is the only way bytes get lost,
  and `TlsSender.FailedWriteLosesPacket` is a run that loses some.

## Model

| member | source | states |
|---|---|---|
| `Crc8.CalcCrc8` | app/include/protocol/PacketEncoder.hpp:16-26 | the nested loops compute the checksum of exactly the given stretch of the buffer |
| `Crc8.AddByte` | someip_gateway_mcu_stm32f103rb/ASW/inc/BKEL_APP_crc.h:18-26 | the bit loop with its two branches is eight register shifts |
| `Crc8.CrcLinear` | app/include/protocol/PacketEncoder.hpp:16-26 | the checksum of the difference of two messages of one length is the difference of their checksums |
| `Crc8.ShiftBitBijective` | app/include/protocol/PacketEncoder.hpp:22-23 | a shift of the register can be undone, and every register value is the result of one |
| `Crc8.CrcByteZero` | app/include/protocol/PacketEncoder.hpp:19-24 | adding a byte clears the register exactly if the register held that byte |
| `Crc8.CodewordIff` | app/src/protocol/PacketParser.cpp:45-49 | body and check byte together sum to zero exactly if the check byte is the body's checksum |
| `Crc8.CrcParity` | app/include/protocol/PacketEncoder.hpp:16-26 | the number of set bits of the checksum and of the message have one parity |
| `Detection.CheckValue` | app/include/protocol/PacketEncoder.hpp:16-26 | the checksum of the characters 1 to 9 is 0xF4, the check value of CRC-8 with polynomial 0x07 |
| `Detection.ErrorSurvivesIff` | app/src/protocol/PacketParser.cpp:45-54 | a damaged codeword still passes exactly if the error pattern alone sums to zero |
| `Detection.BurstDetected` | app/src/protocol/PacketParser.cpp:45-54 | every burst of at most eight bits, at any bit position of a message of any length, is detected |
| `Detection.OddFlipsDetected` | app/src/protocol/PacketParser.cpp:45-54 | any odd number of flipped bits is detected |
| `DoubleErrors.CycleIff` | app/include/protocol/PacketEncoder.hpp:22-23 | the shift register returns to 1 after exactly the multiples of 127 shifts |
| `DoubleErrors.TwoFlipsMissedIff` | app/src/protocol/PacketParser.cpp:45-54 | two flipped bits are missed exactly if they are a multiple of 127 bits apart |
| `DoubleErrors.TwoFlipsInFrame` | app/src/protocol/PacketParser.cpp:17-73 | a frame with two flipped bits outside its DLC is taken in that case and its SOF dropped in every other |
| `Corruption.DamagedFrame` | app/src/protocol/PacketParser.cpp:17-73 | a frame damaged outside its DLC is taken if the error is itself a codeword, and otherwise its first byte is dropped |
| `Corruption.DamageDetected` | app/src/protocol/PacketParser.cpp:45-54 | with an odd number of flips, or one burst of at most eight bits, the frame fails at the position where it starts |
| `Wire.DecodeEncode` | app/src/protocol/PacketEncoder.cpp:21-44 | encoding any consistent frame gives a valid slice that decodes to that frame |
| `Wire.EncodeDecode` | app/src/protocol/PacketParser.cpp:57-66 | every accepted slice is the encoding of the frame read from it |
| `Wire.FrameLayout` | app/src/protocol/PacketEncoder.cpp:21-44 | where every field of an encoded frame lies, its two-byte fields with the low byte first, and which bytes the CRC covers |
| `Encoder.RefusesIff` | app/src/protocol/PacketEncoder.cpp:11-15 | exactly payloads of more than 256 bytes and payloads that are announced but missing are refused |
| `Encoder.BuildFrame` | app/src/protocol/PacketEncoder.cpp:4-45 | built by appending: the encoding of the frame, or nothing if the payload is too long or missing |
| `Encoder.SerializedIsEncoded` | app/src/core/Session.cpp:60-70 | for a consistent frame within the limit the serialised bytes are its encoding |
| `Scanner.StepStable` | app/src/protocol/PacketParser.cpp:17-73 | a decision other than waiting is not changed by any bytes that follow |
| `Corruption.Resynchronised` | app/src/protocol/PacketParser.cpp:49-54 | a damaged frame that is noticed costs only itself: with no other SOF byte in it, exactly the frames behind it are taken |
| `Corruption.ResynchronisedBehind` | app/src/protocol/PacketParser.cpp:20-54 | in general: if no other valid frame starts in the damaged bytes and 263 bytes follow, the scan goes on exactly behind them |
| `Scanner.GatewayDecides` | app/src/protocol/PacketParser.cpp:17-54 | when the gateway waits and when it takes a frame, in terms of the bytes: five to look, at most 256 of payload |
| `Scanner.FirmwareTakes` | someip_gateway_mcu_stm32f103rb/ASW/src/BKEL_APP_protocol.c:197-237 | a receiver with the intended five-byte guard takes frames of at most 500 payload bytes |
| `Scanner.ClientDecides` | clientapp/testpc/protocol.py:73-90 | the client looks at eight bytes or more, takes at most 4096 of payload, and tests no CRC |
| `Scanner.ScanSplit` | app/src/protocol/PacketParser.cpp:7-12 | scanning a stream in two parts, carrying the leftover over, is scanning it at once |
| `Scanner.ChunkIndependence` | app/src/protocol/PacketParser.cpp:7-74 | for every stream and every cutting the frames, their order and the final buffer are those of one push |
| `Scanner.RestBound` | app/src/protocol/PacketParser.cpp:31-42 | the leftover is shorter than one longest frame: at most 263 bytes in the gateway |
| `Scanner.EmitIff` | app/src/protocol/PacketParser.cpp:17-54 | a frame is taken exactly if a whole valid frame starts here |
| `Scanner.DropIff` | app/src/protocol/PacketParser.cpp:17-54 | a byte is dropped exactly if it has been looked at and no continuation whatever would make a frame begin there |
| `Leftmost.SelectIsSelection` | app/src/protocol/PacketParser.cpp:15-74 | the slices the scan takes are in order, disjoint, valid, and every byte passed over can begin no frame |
| `Leftmost.SelectionUnique` | app/src/protocol/PacketParser.cpp:15-74 | no other selection and no other stopping point fits that description |
| `Leftmost.ScanIsLeftmostGreedy` | app/src/protocol/PacketParser.cpp:15-74 | frames and leftover of the scan are exactly those of the leftmost greedy selection |
| `RoundTrip.NoisyRoundTrip` | app/src/protocol/PacketParser.cpp:20-24 | frames between runs of bytes free of 0xAA come out exactly, whatever their payloads contain |
| `RoundTrip.PrefixOfFrames` | app/src/protocol/PacketParser.cpp:38-42 | of a stream cut off inside a frame, all whole frames come out and the started one is kept |
| `RoundTrip.Stretch` | app/src/protocol/PacketParser.cpp:38-42 | every front part of a stream of frames is some whole frames and a started one that is waited for |
| `RoundTrip.RelayIsByteExact` | app/src/protocol/PacketParser.cpp:57-72 | re-encoding the frames a checked receiver took gives the received slices, byte for byte |
| `Gateway.PacketParser.Push` | app/src/protocol/PacketParser.cpp:7-12 | the buffer becomes the scan's leftover and the sessions become what dispatching the scan's frames in order makes of them |
| `Gateway.PacketParser.Parse` | app/src/protocol/PacketParser.cpp:15-74 | the parsing loop with its erasures refines the scan, frames reaching the sessions in order |
| `Gateway.RxWorker` | app/src/transport/UartTransport.cpp:87-110 | after any run of reads, buffer and sessions are those of one push of all the bytes |
| `Gateway.PacketParser.TakeFrame` | app/src/protocol/PacketParser.cpp:56-72 | a verified frame is handed on before its bytes leave the buffer |
| `Gateway.PacketParser.DropByte` | app/src/protocol/PacketParser.cpp:49-54 | dropping the byte in front changes nothing about what the scan will find |
| `Gateway.PacketParser.OnFrame` | app/src/protocol/PacketParser.cpp:76-82 | SID 0x01 is broadcast, every other frame routed |
| `Sessions.Session.GetLastRequestedSid` | app/src/core/Session.cpp:21-26 | the oldest pending SID, 0xFF if there is none |
| `Sessions.Session.PopRequestedSid` | app/src/core/Session.cpp:28-32 | the oldest pending SID leaves, nothing else changes |
| `Sessions.Session.UpdateLastRequestedSid` | app/src/core/Session.cpp:16-18 | the SID joins the end of the pending ones, nothing else changes |
| `Sessions.Session.EnqueueToMcu` | app/src/core/Session.cpp:34-37 | the frame joins the end of the queue, nothing else changes |
| `Sessions.Session.PopMcuFrame` | app/src/core/Session.cpp:40-49 | the first queued frame and the queue without it, or nothing at all |
| `Sessions.Session.SetBlocked` | app/src/core/Session.cpp:52-54 | the flag is set, nothing else changes |
| `Sessions.Session.SendFrame` | app/src/core/Session.cpp:60-70 | the serialised frame joins the end of the client's outgoing queue |
| `Sessions.Session.AnswerIfAwaited` | app/src/core/SessionManager.cpp:120-128 | one send and one pop if the session is unblocked and its oldest pending SID is the frame's, otherwise nothing |
| `Sessions.SessionManager.AddSession` | app/src/core/SessionManager.cpp:30-36 | an unknown CID gets an empty session; a known one keeps its own |
| `Sessions.SessionManager.RemoveSession` | app/src/core/SessionManager.cpp:38-42 | the CID leaves the table, no other session changes |
| `Sessions.SessionManager.ForwardToMcu` | app/src/core/SessionManager.cpp:83-95 | the frame, and its SID if that is one of 0x20 to 0x26, join the queues of that session alone |
| `Sessions.SessionManager.DoBroadcast` | app/src/core/SessionManager.cpp:60-65 | every session is sent the frame once |
| `Sessions.SessionManager.RouteUartRxBySid` | app/src/core/SessionManager.cpp:115-130 | every session has answered the frame as it would alone, whatever the table |
| `Sessions.SessionManager.PopNextMcuFrame` | app/src/core/SessionManager.cpp:133-143 | the first frame of the smallest CID that has one, or nothing if and only if all queues are empty |
| `Routing.RouteTouches` | app/src/core/SessionManager.cpp:118-129 | a routed frame changes exactly the unblocked sessions whose oldest pending SID is its own, by one pop and one send |
| `Routing.RouteAgreesIff` | app/src/core/SessionManager.cpp:124-128 | routing by SID does what its comment says, which names the CID too, exactly if no session of another CID awaits the SID |
| `Routing.ReplyComesBackIff` | app/src/core/SessionManager.cpp:83-130 | a session with nothing pending is sent the reply to its request exactly if the SID is one of 0x20 to 0x26 |
| `Routing.DispatchedTo` | app/src/protocol/PacketParser.cpp:76-82 | what any frame from the MCU does to any session: SID 0x01 reaches it always, 0xFF never, any other if it is unblocked and waits for it |
| `Routing.OneReplyAnswersBoth` | app/src/core/SessionManager.cpp:118-129 | any two sessions awaiting one SID are both answered by one reply |
| `Routing.BacklogEmptyIff` | app/src/core/SessionManager.cpp:137-142 | a pop finds nothing exactly if every queue is empty |
| `Routing.PopTakesFirst` | app/src/core/SessionManager.cpp:133-143 | each pop takes the first of all waiting frames in ascending CID, then FIFO order, and leaves the rest in that order |
| `History.SliceIsFrame` | app/src/protocol/PacketParser.cpp:31-66 | whatever the parser takes is a consistent frame of at most 256 bytes, and the slice is its encoding |
| `History.StepKeepsInv` | app/src/core/SessionManager.cpp:30-143 | every turn of every thread, and every arrival of bytes, keeps the account below |
| `History.EveryRunAccounts` | app/src/core/SessionManager.cpp:83-143 | in every run, for every live session: SIDs of replies sent, then pending ones, are the diagnostic SIDs forwarded, in order; popped, then queued frames are those forwarded; these are the requests in the bytes read; written, unsent and queued bytes encode the frames sent while no write fails; no advertisement since it joined is missing. The serial line is an interleaving: every frame on it has one owner, and those a live client owns since it joined are the frames popped for it, in order |
| `History.EveryRunWrites` | app/src/transport/UartTransport.cpp:57-68 | in every run the frames written are those the pops have found, one for each, with the CID they were popped for |
| `History.PopBySendNext` | app/src/transport/UartTransport.cpp:57-79 | the event of a pop in a run has the effect of the worker's own turn, on the sessions and on the line |
| `History.EveryRunQueuesSendable` | app/src/transport/TlsTransport.cpp:74-81 | whatever bytes clients send, in every run every frame waiting for the MCU is consistent and within the encoder's limit |
| `History.EveryRunReads` | app/src/transport/TlsTransport.cpp:65-97 | in every run the frames forwarded, then those still unread, are the requests in all the bytes a client has sent |
| `History.EveryRunDispatches` | app/src/protocol/PacketParser.cpp:15-74 | in every run the slices dispatched are the first of those in all serial bytes, and all of them once nothing is left to decide |
| `Gateway.UartTransport.SendNext` | app/src/transport/UartTransport.cpp:57-79 | one turn pops the first waiting frame and writes it, or finds that none waits; nothing else in any session changes |
| `Gateway.UartTransport.TxWorker` | app/src/transport/UartTransport.cpp:52-84 | with no arrivals the worker writes all waiting frames in order and leaves every session as it was, with nothing waiting |
| `Gateway.SerializeAllIsEncodeAll` | app/src/transport/UartTransport.cpp:63-78 | none of the waiting frames is skipped by the encoder |
| `Firmware.StepAgreesIff` | someip_gateway_mcu_stm32f103rb/ASW/src/BKEL_APP_protocol.c:191-238 | the firmware decides as with a five-byte guard except on four bytes whose stale fifth makes the DLC too large |
| `Firmware.ScanAgreesIff` | someip_gateway_mcu_stm32f103rb/ASW/src/BKEL_APP_protocol.c:79-111 | one parse finds the frames of the intended scan, and keeps its leftover exactly if that is not misread |
| `Firmware.FirmwareRestBound` | someip_gateway_mcu_stm32f103rb/ASW/src/BKEL_APP_protocol.c:209-217 | whatever is in memory, at most 507 bytes stay |
| `FirmwareRuns.RunAgrees` | someip_gateway_mcu_stm32f103rb/ASW/src/BKEL_APP_TaskM.c:80-103 | any cutting that neither overflows nor is misread finds the frames, and keeps the bytes, of one scan of the stream |
| `FirmwareRuns.CleanRunFits` | someip_gateway_mcu_stm32f103rb/ASW/src/BKEL_APP_TaskM.c:91-96 | gateway frames in chunks of at most 64 bytes, never misread: the overflow reset is unreachable and at most 263 bytes are held |
| `FirmwareRuns.RunConserves` | someip_gateway_mcu_stm32f103rb/ASW/src/BKEL_APP_TaskM.c:80-103 | bytes in frames found and bytes held never exceed those received, and fall short after a misreading |
| `FirmwareRuns.CleanDeliveryIff` | someip_gateway_mcu_stm32f103rb/ASW/src/BKEL_APP_TaskM.c:80-103 | a stream of gateway frames arrives frame for frame exactly if no parse misreads a header cut after four bytes |
| `FirmwareRuns.OverflowForgets` | someip_gateway_mcu_stm32f103rb/ASW/src/BKEL_APP_TaskM.c:91-96 | whatever follows, a chunk that does not fit into 512 bytes leaves the run of an empty buffer |
| `FirmwareRuns.OverflowRecovers` | someip_gateway_mcu_stm32f103rb/ASW/src/BKEL_APP_TaskM.c:80-103 | whatever was held and whatever overflowed it, gateway frames that follow in chunks of at most 64 bytes are all found, as long as no header is misread |
| `FirmwareRuns.ByteBehindDecides` | someip_gateway_mcu_stm32f103rb/ASW/src/BKEL_APP_protocol.c:202-212 | with the array full to its last byte, a header cut after four bytes is misread exactly if the byte behind the array makes its DLC more than 500 |
| `FirmwareRuns.NoFourByteCut` | someip_gateway_mcu_stm32f103rb/ASW/src/BKEL_APP_protocol.c:202-212 | if no chunk leaves four undecided bytes nothing is misread, whatever the stale bytes |
| `FirmwareLoss.CleanStreamLosesAFrame` | someip_gateway_mcu_stm32f103rb/ASW/src/BKEL_APP_protocol.c:202-212 | three gateway frames in three small chunks, not all of which the firmware finds |
| `Handoff.ValidDlcIff` | someip_gateway_mcu_stm32f103rb/ASW/src/BKEL_APP_protocol.c:122-151 | a command is accepted exactly if its DLC is one more than the largest payload index its service may read; 0x20 to 0x26 with any DLC, other SIDs with none |
| `Handoff.ServicesRead` | someip_gateway_mcu_stm32f103rb/ASW/src/BKEL_APP_rpc.c:16-119 | which bytes of its payload each service reads, in order: the second before the first for 0x13, all five for 0x12 if the first is 1 |
| `Handoff.ResetIff` | someip_gateway_mcu_stm32f103rb/ASW/src/BKEL_APP_rpc.c:44-64 | in every run, whatever the priorities, the MCU has been reset exactly if the last service carried out was SID 0x11 with argument 1 |
| `Firmware.StoredFields` | someip_gateway_mcu_stm32f103rb/ASW/src/BKEL_APP_protocol.c:154-165 | every field of the slot after a frame: of its sixteen payload bytes those behind a shorter payload stay |
| `FirmwareReceiver.Receiver.HandleFrame` | someip_gateway_mcu_stm32f103rb/ASW/src/BKEL_APP_protocol.c:114-164 | a frame of a known service and the right length goes into the slot, any other leaves it alone |
| `FirmwareReceiver.Receiver.ParseOneFrame` | someip_gateway_mcu_stm32f103rb/ASW/src/BKEL_APP_protocol.c:191-238 | reads the array in place, stale byte included: waits, drops one byte, or handles exactly the frame there |
| `FirmwareReceiver.Receiver.ParseLoop` | someip_gateway_mcu_stm32f103rb/ASW/src/BKEL_APP_protocol.c:81-104 | the offset loop ends, having handled the scan's frames in order, where the undecided bytes begin |
| `FirmwareReceiver.Receiver.Compact` | someip_gateway_mcu_stm32f103rb/ASW/src/BKEL_APP_protocol.c:106-110 | the unread suffix moves to the front and the cells behind it keep their old contents |
| `FirmwareReceiver.Receiver.ParsePacket` | someip_gateway_mcu_stm32f103rb/ASW/src/BKEL_APP_protocol.c:79-111 | the whole array and length after a parse, the frames handled and the slot |
| `FirmwareReceiver.Receiver.HandleChunk` | someip_gateway_mcu_stm32f103rb/ASW/src/BKEL_APP_TaskM.c:89-102 | a chunk is appended and parsed, or, if it does not fit into 512 bytes, the length becomes 0 and no frame is handled |
| `FirmwareReceiver.Receiver.ReceiveTask` | someip_gateway_mcu_stm32f103rb/ASW/src/BKEL_APP_TaskM.c:74-104 | over any arrivals the array, the length and the frames handled are those of the run; at most 507 bytes are held between chunks |
| `Handoff.ReadsOwnBytes` | someip_gateway_mcu_stm32f103rb/ASW/src/BKEL_APP_rpc.c:16-119 | a service reads only payload bytes the frame has, and stops exactly when it has all it needs |
| `Handoff.StepKeepsInv` | someip_gateway_mcu_stm32f103rb/ASW/src/BKEL_APP_TaskM.c:107-176 | with workers above the parser every step keeps the invariant, and the parser runs only past waiting workers |
| `Handoff.ParserRunsAlone` | someip_gateway_mcu_stm32f103rb/ASW/src/BKEL_APP_TaskM.c:201-229 | with the configured priorities, whenever the parser may run both workers wait with no notification pending |
| `Handoff.WorkersReadTheirFrame` | someip_gateway_mcu_stm32f103rb/ASW/src/BKEL_APP_TaskM.c:166-174 | every byte a worker is about to read is a byte of the frame that called it, still in the slot |
| `Handoff.InboxConserves` | someip_gateway_mcu_stm32f103rb/ASW/src/BKEL_APP_TaskM.c:74-104 | frames taken, then frames waiting, are the frames that arrived |
| `Handoff.ConfiguredRunsAreFaithful` | someip_gateway_mcu_stm32f103rb/ASW/src/BKEL_APP_protocol.c:153-183 | in every run each valid frame is executed once, in order, with its own bytes; at any time at most one of those taken is still to be executed; at rest the slot is what storing the frames one after the other makes of it |
| `Handoff.StepUses` | someip_gateway_mcu_stm32f103rb/ASW/src/BKEL_APP_TaskM.c:107-176 | whatever the priorities and the schedule, every step of a task uses up some of what is left to do |
| `Handoff.EveryRunSettles` | someip_gateway_mcu_stm32f103rb/ASW/src/BKEL_APP_TaskM.c:107-176 | after any run the tasks come to rest within 27 steps for each waiting frame and 27 more, and then everything valid that arrived has been executed, unless a reset came first |
| `Handoff.Overtaken` | someip_gateway_mcu_stm32f103rb/ASW/src/BKEL_APP_protocol.c:170-182 | without a higher worker priority any two frames for one worker may be executed as one |
| `Handoff.OneSlotSufficesIff` | someip_gateway_mcu_stm32f103rb/ASW/src/BKEL_APP_TaskM.c:201-229 | one slot is enough in every run exactly if both workers outrank the parser |
| `FirmwareSender.Builder.MakeCid` | someip_gateway_mcu_stm32f103rb/ASW/src/BKEL_APP_cid.c:17-49 | the k-th call gives the node above k modulo 16, with one node for good |
| `FirmwareSender.Builder.BuildFrame` | someip_gateway_mcu_stm32f103rb/ASW/src/BKEL_APP_protocol.c:38-77 | the buffer filled by offset holds the next frame of the run and is untouched behind it; a frame that does not fit uses no number and changes nothing |
| `FirmwareSender.SharedNodeIff` | someip_gateway_mcu_stm32f103rb/ASW/src/BKEL_APP_cid.c:22-43 | two chips get one node exactly if the low twelve bits of the exclusive or of their three words agree, or are 0 on the one and 1 on the other |
| `FirmwareSender.ThirdWordMixed` | someip_gateway_mcu_stm32f103rb/ASW/src/BKEL_APP_cid.c:36-42 | flipping bits of the third word flips exactly those of the mixed bits that are among the low twelve |
| `FirmwareSender.NodeIsValue` | someip_gateway_mcu_stm32f103rb/ASW/src/BKEL_APP_cid.c:22-43 | the node is the value of the mixed bits, or 1 if they are 0, and so between 1 and 4095 for every identifier |
| `FirmwareSender.NodeOfSmall` | someip_gateway_mcu_stm32f103rb/ASW/src/BKEL_APP_cid.c:17-49 | an identifier that is 5 in its last word and 0 elsewhere gives node 5, and 0x051 as the first CID |
| `FirmwareSender.FitsIff` | someip_gateway_mcu_stm32f103rb/ASW/src/BKEL_APP_protocol.c:45-53 | a frame is built exactly if the buffer has room for all of it, up to its last byte |
| `FirmwareSender.SentInOrder` | someip_gateway_mcu_stm32f103rb/ASW/src/BKEL_APP_cid.c:45-49 | the k-th frame sent is the k-th request that fits, numbered k whatever failed in between |
| `FirmwareSender.SameNumberIff` | someip_gateway_mcu_stm32f103rb/ASW/src/BKEL_APP_cid.c:29-31 | two CIDs are equal exactly if their frames are a multiple of sixteen apart |
| `FirmwareSender.SixteenDistinct` | someip_gateway_mcu_stm32f103rb/ASW/src/BKEL_APP_cid.c:17-49 | any sixteen consecutive frames of a run carry different CIDs |
| `FirmwareSender.ClientReadsNumber` | clientapp/testpc/protocol.py:53-59 | the client reads the node and the count modulo 16 off every frame of a run |
| `Client.Crc8Placeholder` | clientapp/testpc/protocol.py:35-40 | the loop's result is the byte that, put behind the others, makes the exclusive or of them all zero |
| `Client.PacketCancelsOut` | clientapp/testpc/protocol.py:64-70 | the exclusive or of all the bytes of every encoded packet, SOF and check byte included, is zero |
| `Client.RefusesIff` | clientapp/testpc/protocol.py:64-70 | exactly payloads of more than 4096 bytes, and SIDs and types that are not bytes, are refused |
| `Client.ReadingLaws` | clientapp/testpc/network.py:64-82 | a timeout at any place changes nothing; after a failure or an empty read nothing counts any more |
| `Client.RawCidFields` | clientapp/testpc/protocol.py:53-67 | CID modulo 4096 and number modulo 16 can be read back from the packed field |
| `Client.TcpClient.TryDecode` | clientapp/testpc/protocol.py:73-102 | the frame found, if any, and the buffer after deleting in place, for every buffer |
| `Client.TcpClient.DrainBuffer` | clientapp/testpc/network.py:72-76 | the inner loop delivers what repeated attempts find, until one finds nothing |
| `Client.TcpClient.ReaderLoop` | clientapp/testpc/network.py:61-82 | over any reads, timeouts, failures and close, frames delivered and buffer are those of the chunks before the end |
| `Client.AttemptScan` | clientapp/testpc/protocol.py:73-102 | an attempt takes what the ideal scan takes next, or nothing, and never makes it miss anything |
| `Client.ReaderPrefix` | clientapp/testpc/network.py:63-76 | frames delivered, then those still findable in the buffer, are the ideal scan's, for every chunking |
| `Client.DrainDeliversIff` | clientapp/testpc/network.py:72-76 | one drain delivers all the frames in the buffer exactly if none lies behind a header with DLC over 4096 |
| `Client.DeliveredIff` | clientapp/testpc/network.py:63-76 | for every chunking the frames delivered are a prefix of the ideal ones, and all of them exactly if, at the last chunk, no frame lies behind an over-long header |
| `Client.AlwaysDeliveredIff` | clientapp/testpc/protocol.py:81-83 | a stream is delivered whole under every cutting exactly if the scan takes no frame behind an over-long header |
| `Client.FrameHidden` | clientapp/testpc/protocol.py:81-83 | any frame that follows an over-long header in one chunk is not delivered, although it is there |
| `Client.ReaderIdeal` | clientapp/testpc/protocol.py:81-83 | where no header is over-long the reader is the ideal scan, whatever the chunks |
| `Client.TcpClient.NextSeq` | clientapp/testpc/network.py:50-54 | the next number of that CID is stored and returned, other CIDs keep theirs |
| `Client.NumberedPerCid` | clientapp/testpc/network.py:50-54 | each CID is numbered on its own, modulo 16, from zero |
| `TlsSender.OrderKeptIff` | app/src/transport/TlsTransport.cpp:46-52 | written, unsent and queued bytes are what was queued, in order, exactly if no write has failed |
| `TlsSender.WireIsPrefix` | app/src/transport/TlsTransport.cpp:102-129 | until a write fails, the bytes on the wire are a prefix of what was queued |
| `TlsSender.FailedWriteLosesPacket` | app/src/transport/TlsTransport.cpp:115-128 | a run with one failed write, after which the next packet is sent although the first never was |
| `TlsSender.TlsTransport.SendData` | app/src/transport/TlsTransport.cpp:46-52 | the packet joins the queue, at any moment of the sending |
| `TlsSender.TlsTransport.TakeTurn` | app/src/transport/TlsTransport.cpp:109-128 | one turn of the sending loops: takes a packet, writes part of it, or gives it up |
| `TlsReceiver.Connection.ReadAll` | app/src/transport/TlsTransport.cpp:55-63 | for every sequence of reads: whether the wanted bytes are obtained, which they are, and which bytes and reads remain |
| `TlsReceiver.ReceivedCidTls` | app/src/transport/TcpServer.cpp:190-212 | accepts exactly a registration whose every field comes in one read, and has then consumed exactly it |
| `TlsReceiver.WholeReadsIff` | app/src/transport/TcpServer.cpp:190-212 | the reads a registration needs: 1, 4, the payload's if there is one, 2 and 1 bytes, each at once |
| `TlsReceiver.FirstByteOfRequest` | app/src/transport/TlsTransport.cpp:68-72 | what is read from a stream of requests does not depend on its first byte |
| `TlsReceiver.ReadRequest` | app/src/transport/TlsTransport.cpp:67-94 | one frame read field by field, or none, for every sequence of reads |
| `TlsReceiver.RequestIsFront` | app/src/transport/TlsTransport.cpp:68-94 | a frame that can be read is the one at the front of the stream, and exactly its bytes are consumed |
| `TlsReceiver.EveryRequestSendable` | app/src/transport/TlsTransport.cpp:74-81 | every frame read from any bytes has the announced length and at most 256 payload bytes |
| `TlsReceiver.ServedIsPrefix` | app/src/transport/TlsTransport.cpp:65-97 | the frames read are the first of those in the stream, and all of them unless a read fails |
| `TlsReceiver.ServeRequests` | app/src/transport/TlsTransport.cpp:67-97 | the loop forwards exactly the frames that can be read, in order, under the registered CID |
| `TlsReceiver.RxLoop` | app/src/transport/TlsTransport.cpp:65-100 | when the loop ends its session has left and no other has changed |
| `TlsReceiver.Accept` | app/src/transport/TcpServer.cpp:109-138 | unless its address is banned, a registration under a free CID adds a session that is forwarded the requests behind it; any other connection changes nothing |
| `Limiter.TcpTransport.CountPacket` | app/src/transport/TcpTransport.cpp:71-91 | a packet is banned exactly as its place in the session's history says, and its sender's address is then blacklisted |
| `Limiter.CountIsWindow` | app/src/transport/TcpTransport.cpp:76-83 | the counter counts the packets since the window began, all within one window |
| `Limiter.BannedIff` | app/src/transport/TcpTransport.cpp:76-91 | a packet is banned exactly if it is past the hundredth and no window opened at it or at the 99 before it |
| `Limiter.HundredAndFirst` | app/src/transport/TcpTransport.cpp:76-91 | of 101 packets at one instant exactly the last is banned |
| `Limiter.BannedOnlyIfCrowded` | app/src/transport/TcpTransport.cpp:85-91 | a banned packet and the hundred before it lie within 5000 ms |
| `Limiter.ModestSenderNeverBanned` | app/src/transport/TcpTransport.cpp:85-91 | at most 100 packets in every half-open 5000 ms: never banned |
| `Limiter.AtMostTwoHundred` | app/src/transport/TcpTransport.cpp:76-91 | no half-open 5000 ms lets more than 200 packets through |
| `Limiter.TwoHundredCanPass` | app/src/transport/TcpTransport.cpp:76-91 | 200 packets can pass within one clock tick |
| `EndToEnd.CodecRoundTrip` | clientapp/testpc/protocol.py:64-102 | what the client encodes it decodes to the same SID, type, payload, CID and number, for every payload up to 4096 bytes |
| `EndToEnd.RawIsKept` | clientapp/testpc/protocol.py:89-102 | the frame the client delivers keeps its check byte and its raw bytes |
| `EndToEnd.RememberedIffDiagnosed` | app/include/core/Types.hpp:4-11 | the gateway remembers a SID exactly if the firmware gives its frames to the diagnostic worker |
| `EndToEnd.PacketIsRequestIff` | app/src/transport/TlsTransport.cpp:74-97 | the gateway reads a client's packet as that request exactly if its payload is within 256 bytes |
| `EndToEnd.StampedReads` | app/src/transport/TlsTransport.cpp:86-94 | what the gateway reads does not depend on the client's check byte |
| `EndToEnd.RequestsAreAcceptable` | app/src/transport/TlsTransport.cpp:65-97 | of a stream of client frames under any check bytes the gateway reads back those before the first over-long one |
| `EndToEnd.RequestsAreTheClients` | app/src/transport/TlsTransport.cpp:74-77 | it reads back all of them if and only if none is longer than 256 bytes |
| `EndToEnd.RegistrationThenRequests` | app/src/transport/TcpServer.cpp:190-212 | the bytes behind a registration: the client's 12-bit CID, exactly the registration's length, and then the requests |
| `EndToEnd.SplitRegistrationRefused` | app/src/transport/TcpServer.cpp:195-196 | any valid registration that comes in single bytes is refused, although nothing is missing |
| `EndToEnd.ForwardedTable` | app/src/core/SessionManager.cpp:83-95 | forwarding a list of frames to a live session appends them and their diagnostic SIDs to its queues and changes nothing else |
| `EndToEnd.ServeClient` | app/src/transport/TcpServer.cpp:126-138 | the gateway's own code on a registration and requests from the client's encoder: the session under the client's CID holds exactly those requests and pending SIDs, and no other has changed |
| `EndToEnd.BacklogReachesFirmware` | app/src/transport/UartTransport.cpp:57-78 | everything waiting in the sessions reaches the firmware's frame handler in order, in any chunks without a misreading |
| `EndToEnd.ClientToFirmware` | someip_gateway_mcu_stm32f103rb/ASW/src/BKEL_APP_protocol.c:219-237 | client requests arrive at the firmware's frame handler with their SID, type, payload and raw CID, after reads, queueing, popping and re-encoding |
| `EndToEnd.PoppedAreRequests` | app/src/core/Session.cpp:34-49 | in every run the frames popped for a live client are the first requests in the bytes it has sent |
| `EndToEnd.FirmwareReadsWhatWasPopped` | someip_gateway_mcu_stm32f103rb/ASW/src/BKEL_APP_TaskM.c:80-103 | in every run the firmware's frame handler gets exactly the frames written to the line, in any chunks without a misreading |
| `EndToEnd.EveryRunClientToFirmware` | someip_gateway_mcu_stm32f103rb/ASW/src/BKEL_APP_protocol.c:219-237 | in every run, of the frames the handler gets, those of each live client are the first requests in that client's bytes, in order, and all of them once nothing of it is queued or unread |
| `EndToEnd.EveryClientIsServed` | clientapp/testpc/protocol.py:64-70 | the same for frames from the client's encoder: SID, type, payload and raw CID arrive, whatever the check bytes |
| `EndToEnd.FedWhole` | someip_gateway_mcu_stm32f103rb/ASW/src/BKEL_APP_protocol.c:191-238 | a request that is handed over whole is recognised with no condition on memory |
| `EndToEnd.RelayedBytes` | app/src/protocol/PacketParser.cpp:76-82 | what a client is sent for a serial frame is the received slice, if it is sent anything |
| `EndToEnd.AdvertsQueued` | app/src/core/SessionManager.cpp:60-65 | advertisements append their very bytes to every session's outgoing queue |
| `EndToEnd.FirmwareToClient` | clientapp/testpc/network.py:61-82 | in every run without a failed write, whatever the chunks: the client delivers the first of the frames sent to it, all of them once nothing waits; each came from the MCU since it joined, and no advertisement is missing |
| `EndToEnd.EveryMcuFrameDispatched` | app/src/protocol/PacketParser.cpp:76-82 | frames the MCU sends amid text are each dispatched once, in order, and nothing else is |

## Left out

- Sockets, OpenSSL, termios, threads and object destruction: reads and writes are byte sequences with arbitrary sizes and failures; a method that holds a lock is one step.
- Replies are not promised: the firmware may leave a request unanswered, so only what happens to replies that arrive is stated.
- Gateway.UartTransport.SendNext: does not model a short or failed `write` to the serial port, whose result the code ignores, nor a port that could not be opened.
- Sessions.SessionManager.AddSession: does not model starting the transport's threads, nor the address kept with a session.
- Limiter.TcpTransport.CountPacket: covers the limiter of the plain TCP reader; its field-by-field reads and its sending loop are not modelled, as they repeat the TLS ones.
- TlsReceiver.Accept: runs the receive loop to the end of its requests before anything else happens; the interleavings of all threads are those of `History`, where each turn is an event.
- TlsReceiver.RxLoop: once the session has left, nothing of what was forwarded can be seen in the table; that is said of the loop before it (`TlsReceiver.ServeRequests`).
- History.EveryRunAccounts: a connection begins there after its registration, and reads and writes of any size are events; what a failed write gives up is counted, not described.
- The plain TCP twin of the registration reader (`receivedCid`), which differs only in the read call.
- Handoff.ConfiguredRunsAreFaithful: starts when all tasks exist; before that the task handles are null and a frame for a missing worker is dropped. Worker bodies do not block, and a frame's four header fields are stored in one step.
- Handoff.InboxConserves: frames enter as found by the parser; the stream buffer between interrupt and receive task is not modelled.
- A reset requested by SID 0x11 ends a run in `Handoff`; what was not yet parsed is lost with it.
- FirmwareSender.Builder.MakeCid: shifts and masks on CIDs are written as arithmetic, here and in the client; two tasks inside the builder at once are not modelled.
- FirmwareReceiver.Receiver.ParseOneFrame: the byte read past the end of the array is a parameter.
- The printing part of `onFrame`, the command menu, logger, configuration, GUI and mock server.
- `onFrameArrived`, which has no effect, and `sendToSession`, one session's share of a broadcast.
- Timestamps the client attaches to frames.
- Drivers for PWM, ADC, GPIO, SPI and LED, clock and DMA set-up, and what the diagnostic replies contain.

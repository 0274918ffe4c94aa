# igdaemon: a verified model of the IR driver's cores

igdaemon drives the IguanaWorks USB infrared transceivers from user space. This project models the parts of it
that hold real logic, in Dafny 4.11, and proves what they are for:

- **Sending.** `SendFormat` encodes microsecond signals as 7-bit run bytes, with or without pulse elision;
  `Transmitter` is the loop of the body 9 firmware that plays the version 1 bytes;
  `DeviceSend` adds its byte counter and signal buffer; `SendDecode` reads an encoding back.
- **Receiving.** `DevToPulses` turns received bytes into durations, `Lirc` joins durations across packets,
  `ReceiveSplit` puts both together over any cut of the stream, `ReceivePath` starts at the USB packets. Both directions are specified through `Runs`,
  the grouping of (state, amount) pairs into maximal runs.
- **Labels.** `IdBlock` compiles a label to microcontroller code and gives that code its meaning, `Protocol` and
  `Framing` cut requests into packets, `LabelRoundTrip` follows a label to the device and back.
- **Threads and clients.** `Handshake` is the response slot between reader and worker thread, `Receivers` the
  counting of receiving clients.
- **Devices.** `LinkedList` is the intrusive list, `DeviceTable` and `DeviceList` the sorted device list with its
  id allocation, `Summary` the device summary and its parser.
- **Command line and files.** `Exchange`, `ArgpSpec` and `Argp` are the permuting argument parser,
  `ArgpGrammar` builds the command lines that it accepts, `PulseFile`
  the pulse file reader, `Carrier` the carrier delay arithmetic.

`dafny verify dfyconfig.toml` checks the whole project.

Loops and objects of the C code are loops and classes here; each such method is tied to a specification function,
and the properties are lemmas about that function. What such a function computes is said once more without it: sums
of bytes, words put together from parts, literal bytes on the wire. Where the C code is false to its own intent, a lemma with a
concrete input shows it and another one gives the exact condition:

- version 1 encodings lose or shorten pulses when the space before is a multiple of 127 cycles, or the pulse is
  longer than 127 cycles, and gain a pulse around some elements of zero cycles (`CompressionFaithful`,
  `LostAfterFullSpace`, `ShortenedLongPulse`, `ZeroPulseRepeats`);
- encodings of more than 150 bytes are cut, and those without bytes, or with a multiple of 256, play 255 bytes of
  memory instead (`SendPlayedExactly`, `LongPulseCut`, `EmptySendPlaysMemory`);
- received durations leave their 24 bits from 786432 ticks on (`DecodedExactly`, `BoundIsTight`);
- a signal of exactly 68 bytes is overwritten with a checksum on its way to a device of protocol 0
  (`ChecksumGuard`, `PayloadUnchanged`, `OldSendDamaged`);
- a send without data carries no terminator on the oldest devices (`TerminatedExactly`, `EmptySendUnterminated`);
- carriers from 145455 to 147239 Hz leave a delay that the firmware cannot produce (`DefaultLoopExact`, `GapCarrier`);
- a device that is plugged in again while it is being released is not claimed (`Scan`, `ReplugIgnored`);
- runs of 0x1000000 microseconds or more in a pulse file are stored wrong (`ReadPulseFile`, `LongPulseVanishes`);
- the receiver count goes wrong exactly at improper events, and can wrap (`CountedExactly`, `ImproperOffWraps`);
- the flush loop takes no lock, so that it can end between the store of a response and its notification; the
  worker then reads an empty slot or an old response (`AnswerFreshExactly`, `RaceLosesAnswer`, `EmptyAnswer`,
  `StaleAnswer`). Every answer is fresh if flushes end outside the reader's critical section (`AnswerIsFresh`).

The comment of computeCarrierDelays speaks of 120 delays of four; the code and the firmware have 110, and the model
follows them.

## Model

| member | source | states |
|---|---|---|
| `SendFormat.CyclesWithinHalf` | software/usb_ir/sendFormat.c:50-51 | the cycle count of a signal is within half a cycle of duration times carrier, ties upward |
| `SendFormat.SplitByDivision` | software/usb_ir/sendFormat.c:52-58 | the quotient and remainder form of the split agrees with subtracting full bytes |
| `SendFormat.ChunkShape` | software/usb_ir/sendFormat.c:85-92 | full bytes and a last byte are the bytes of an element |
| `SendFormat.SizeElement` | software/usb_ir/sendFormat.c:52-67 | last byte, number of bytes and elision decision of one element, with the tail to remember |
| `SendFormat.Write` | software/usb_ir/sendFormat.c:85-92 | a store goes to a cell that is not written yet |
| `SendFormat.StoreElement` | software/usb_ir/sendFormat.c:81-92 | the buffer grows by unwritten cells, which are all written with the bytes of the element, each of them once |
| `SendFormat.PulsesToIguanaSend` | software/usb_ir/sendFormat.c:24-113 | every cell of the output buffer is written, with the reference encoding, and the sizing-only call returns its length |
| `SendFormat.CompressedNotLonger` | software/usb_ir/sendFormat.c:60-67 | elision never lengthens the output |
| `Transmitter.TransmitPulse` | firmware/usb_ir_body/usb_ir_body/ir.asm:392-440 | the firmware plays a pulse element unchanged |
| `Transmitter.TransmitSpace` | firmware/usb_ir_body/usb_ir_body/ir.asm:392-415 | the firmware plays a space element unchanged, after the last pulse again if the byte before was a space that is not full |
| `Transmitter.SentSoFar` | firmware/usb_ir_body/usb_ir_body/ir.asm:392-415 | for every signal, the state of the playing loop after any prefix of its version 1 encoding: what is on the air, which pulse is remembered |
| `Transmitter.RememberedPulse` | software/usb_ir/sendFormat.c:60-67 | a pulse is left out only while the firmware remembers a pulse with the same last byte |
| `Transmitter.InStepWhileKept` | firmware/usb_ir_body/usb_ir_body/ir.asm:383-415 | while every element is kept, the device is in step with the version 0 bytes, apart from a pulse it is about to insert |
| `Transmitter.LostForGood` | firmware/usb_ir_body/usb_ir_body/ir.asm:383-415 | a device that has sent a different byte, or misses pulses, never comes back to the version 0 bytes |
| `Transmitter.CompressionFaithful` | firmware/usb_ir_body/usb_ir_body/ir.asm:392-440 | for every signal, the playing loop makes the version 0 bytes from the version 1 bytes if and only if, zero elements apart, no space meets a space that ends in a short byte, no pulse meets or ends behind a pulse left out, and each pulse left out is below 127 cycles and follows a space that is no multiple of 127 |
| `Transmitter.NeverBeyond` | firmware/usb_ir_body/usb_ir_body/ir.asm:392-440 | what the loop plays is never the version 0 bytes with something behind them |
| `Transmitter.NonZeroFaithful` | software/usb_ir/sendFormat.c:60-67 | for the loop, without zero elements: if and only if each pulse left out is below 127 cycles and follows a space that is no multiple of 127 |
| `DeviceSend.DeliveredBytes` | software/usb_ir/device-interface.c:637-660 | the device receives the encoding and its length modulo 256 |
| `DeviceSend.PlaysMemory` | firmware/usb_ir_body/usb_ir_body/ir.asm:386-415 | a length byte of zero plays 255 bytes of memory |
| `DeviceSend.PlaysData` | firmware/usb_ir_loader/usb_ir_loader/pc.asm:92-147 | any other length byte plays that many bytes of the data, up to 150 |
| `DeviceSend.PartIsNotAll` | firmware/usb_ir_body/usb_ir_body/ir.asm:383-440 | no proper part of an encoding plays the whole signal |
| `DeviceSend.SendPlayedExactly` | firmware/usb_ir_body/usb_ir_body/body.asm:181-200 | for every signal sent in version 1 form, as it is to body 8 and later, the body 9 firmware plays the version 0 bytes, whatever its memory held, if and only if the encoding has 1 to 150 bytes and the condition of the loop holds |
| `DeviceSend.NonZeroPlayable` | firmware/usb_ir_body/usb_ir_body/body.asm:181-200 | that condition without zero elements: a signal, at most 150 bytes, each pulse left out below 127 cycles and behind a space that is no multiple of 127 |
| `DeviceSend.UsualSignalsPlayable` | software/usb_ir/sendFormat.c:52-104 | pulses of 1 to 127 cycles and spaces that are no multiple of 127 are played if and only if there is one and the encoding has at most 150 bytes |
| `DeviceSend.EmptySendPlaysMemory` | firmware/usb_ir_body/usb_ir_body/ir.asm:387-415 | a send without data plays 255 bytes of memory |
| `DeviceSend.LongPulseCut` | firmware/usb_ir_loader/usb_ir_loader/pc.asm:126-147 | a pulse of 19051 to 19177 cycles takes 151 bytes and loses its last one |
| `SendDecode.UsualSignalsFaithful` | software/usb_ir/sendFormat.c:52-104 | the playing loop makes the version 0 bytes from the version 1 bytes of pulses of 1 to 127 cycles and spaces that are no multiple of 127 |
| `SendDecode.LostAfterFullSpace` | software/usb_ir/sendFormat.c:60-67 | a pulse after a space of 127 cycles is lost |
| `SendDecode.ShortenedLongPulse` | software/usb_ir/sendFormat.c:53-67 | a pulse of 130 cycles after one of 3 cycles is not played as sent |
| `SendDecode.ZeroPulseRepeats` | firmware/usb_ir_body/usb_ir_body/ir.asm:395-406 | around a pulse of zero cycles in a version 1 encoding the firmware inserts a pulse that nobody asked for |
| `SendDecode.GroupsToAudible` | software/usb_ir/sendFormat.c:36-112 | for every input, version 0 bytes group into exactly the runs of the non-zero elements |
| `SendDecode.DecodeExact` | software/usb_ir/sendFormat.c:36-112 | grouping recovers every element with its state and cycle count if and only if none is zero |
| `SendDecode.SignalRoundTrip` | software/usb_ir/sendFormat.c:36-112 | every signal reads back in its place, within half a cycle of the requested time |
| `DevToPulses.Decode` | software/usb_ir/device-interface.c:1098-1139 | one scaled and tagged value per run, in an array of one entry per byte, for every non-empty input; and for runs that fit, 64/3 of 1024 per wrap byte and one more than the low bits of every other byte, plus the pulse bit |
| `DevToPulses.GroupIsExplicit` | software/usb_ir/device-interface.c:1122-1128 | the grouped runs are the maximal runs of bytes with the same top bit, with the explicit sum of their ticks |
| `DevToPulses.ValuesAreExplicit` | software/usb_ir/device-interface.c:1106-1130 | the decoded values by that sum, for all inputs whose runs fit |
| `DevToPulses.OneState` | software/usb_ir/device-interface.c:1106-1130 | bytes of one state are one run |
| `DevToPulses.NextState` | software/usb_ir/device-interface.c:1106-1112 | a change of state starts the next run |
| `DevToPulses.EarlierRuns` | software/usb_ir/device-interface.c:1106-1112 | and leaves the earlier runs as they are |
| `DevToPulses.LaterRuns` | software/usb_ir/device-interface.c:1106-1112 | the runs behind it are those of the bytes behind it |
| `DevToPulses.GuardExactly` | software/usb_ir/device-interface.c:1108-1111 | a byte of the same state starts a new value exactly when its low bits would take the count past 0xFFFFFF |
| `DevToPulses.CappedIsGroup` | software/usb_ir/device-interface.c:1108-1111 | up to 16383 bytes the 24-bit guard never splits a maximal run |
| `DevToPulses.DecodedShape` | software/usb_ir/device-interface.c:1106-1130 | for 1 to 767 bytes: one value per maximal run, alternating, duration inside 24 bits, bit 24 exactly for pulses |
| `DevToPulses.ScaledRightExactly` | software/usb_ir/device-interface.c:1113-1126 | tag and duration of a value are right if and only if the run has at most 786431 ticks |
| `DevToPulses.DecodedExactly` | software/usb_ir/device-interface.c:1098-1139 | for every input, there is one right value per maximal run if and only if no maximal run of bytes stands for more than 786431 ticks |
| `DevToPulses.BoundIsTight` | software/usb_ir/device-interface.c:1113-1126 | 768 wrap bytes of one state decode to 0x1000000 |
| `Lirc.Receiver.Push` | software/lirc-drv-iguanair/iguanair.c:151-179 | one value joins the pending duration with saturation, or finishes it |
| `Lirc.Receiver.Merge` | software/lirc-drv-iguanair/iguanair.c:138-180 | what a packet writes and what stays pending are the joined durations; the buffer of eight suffices for eight values |
| `ReceiveSplit.ReceiveAll` | software/lirc-drv-iguanair/iguanair.c:117-191 | over any device packets, everything written and the pending duration are the joined durations of all packets |
| `ReceiveSplit.StreamStep` | software/usb_ir/device-interface.c:1106-1130 | the runs of a stream with one more packet are the earlier runs joined with the packet's runs |
| `ReceiveSplit.ReceivedIsClipped` | software/lirc-drv-iguanair/iguanair.c:162-167 | clipping at every join is clipping the exact sums once |
| `ReceiveSplit.CountsAreSpans` | software/lirc-drv-iguanair/iguanair.c:147-180 | a run is joined from as many pieces as packets hold one of its bytes |
| `ReceiveSplit.SplitInvariant` | software/lirc-drv-iguanair/iguanair.c:147-186 | for every cut into packets of 1 to 767 bytes: one duration per maximal run of bytes of the uncut stream, with its state; none above 64/3 of the explicit tick sum of the run, and an unclipped one short by less than a microsecond per packet it spans |
| `ReceivePath.ReceiveSignals` | software/usb_ir/client-interface.c:505-540 | from USB packets to durations: reader, decoder and driver over any signal packets |
| `Exchange.SwapBlocks` | software/usb_ir/win32/argp-standalone-1.3/argp-parse.c:847-852 | two blocks of equal length trade places |
| `Exchange.BottomShort` | software/usb_ir/win32/argp-standalone-1.3/argp-parse.c:840-855 | swapping the short bottom segment leaves the same exchange to do on a smaller range |
| `Exchange.TopShort` | software/usb_ir/win32/argp-standalone-1.3/argp-parse.c:856-871 | the same for a short top segment |
| `Exchange.ExchangeSegments` | software/usb_ir/win32/argp-standalone-1.3/argp-parse.c:823-872 | in place, the segments trade places in their own order and nothing else moves |
| `Exchange.ExchangedIsPermutation` | software/usb_ir/win32/argp-standalone-1.3/argp-parse.c:814-821 | the result is a permutation |
| `ArgpSpec.ScanMerges` | software/usb_ir/win32/argp-standalone-1.3/argp-parse.c:293-300 | what options use up and the other arguments are a split of the input that keeps both orders |
| `ArgpSpec.ArgumentsAt` | software/usb_ir/win32/argp-standalone-1.3/argp-parse.c:767-812 | the i-th operand is delivered as the i-th argument |
| `ArgpGrammar.KindsOfWords` | software/usb_ir/win32/argp-standalone-1.3/argp-parse.c:886-940 | the four kinds of words, on words put together from their parts |
| `ArgpGrammar.ValueOfAssigned` | software/usb_ir/win32/argp-standalone-1.3/argp-parse.c:1148-1150 | the value in "--name=value" is what follows the first '=' |
| `ArgpGrammar.NoValue` | software/usb_ir/win32/argp-standalone-1.3/argp-parse.c:1148-1150 | there is none exactly when there is no '=' |
| `ArgpGrammar.ReadsBack` | software/usb_ir/win32/argp-standalone-1.3/argp-parse.c:946-1211 | for any list of operands, long options with attached, separate or no value, groups of short options, and quoted operands: the pass over the words gives back the options with their values and the operands |
| `ArgpGrammar.AcceptedExactly` | software/usb_ir/win32/argp-standalone-1.3/argp-parse.c:946-1211 | words are accepted if and only if they can be put together in this way from what the table allows |
| `Argp.Parser.constructor` | software/usb_ir/win32/argp-standalone-1.3/argp-parse.c:624-662 | the start state; the program name is not parsed |
| `Argp.Parser.MoveSkipped` | software/usb_ir/win32/argp-standalone-1.3/argp-parse.c:823-878 | exchange moves the skipped block up to next and relocates both indices to it |
| `Argp.Parser.SkipArgument` | software/usb_ir/win32/argp-standalone-1.3/argp-parse.c:1069-1088 | a non-option joins the skipped block, which ends at next |
| `Argp.Parser.ParseQuote` | software/usb_ir/win32/argp-standalone-1.3/argp-parse.c:1102-1124 | after "--" the skipped and all remaining arguments are delivered |
| `Argp.Parser.ParseEnd` | software/usb_ir/win32/argp-standalone-1.3/argp-parse.c:1038-1058 | at the end the skipped arguments are delivered, or the run is complete |
| `Argp.Parser.ParseArgument` | software/usb_ir/win32/argp-standalone-1.3/argp-parse.c:766-812 | the next argument is delivered, in order |
| `Argp.Parser.ParseLong` | software/usb_ir/win32/argp-standalone-1.3/argp-parse.c:1126-1200 | a long option is delivered with its value, or rejected where the reference pass stops |
| `Argp.Parser.StartShort` | software/usb_ir/win32/argp-standalone-1.3/argp-parse.c:1201-1204 | a group of short options is entered |
| `Argp.Parser.ParseShort` | software/usb_ir/win32/argp-standalone-1.3/argp-parse.c:963-1023 | one short option is delivered with its value, or rejected |
| `Argp.Parser.ParseNext` | software/usb_ir/win32/argp-standalone-1.3/argp-parse.c:946-1211 | every step keeps the invariant and makes progress in the lexicographic measure, completes, or stops at a rejected option |
| `Argp.Parse` | software/usb_ir/win32/argp-standalone-1.3/argp-parse.c:1218-1264 | every run over any argv terminates, permutes argv stably, and delivers options first and operands after them, as one pass over the original order says; it accepts exactly the vectors that are put together from allowed items, and delivers what was put in |
| `Protocol.SearchCode` | software/usb_ir/protocol-versions.c:66-74 | the first matching entry translates the code, without one it is left alone |
| `Protocol.TranslateDevice` | software/usb_ir/protocol-versions.c:80-86 | devices up to version 4 speak protocol 0; it fails exactly for their codes without an entry |
| `Protocol.TranslatedCodes` | software/usb_ir/protocol-versions.c:25-47 | GETID translates forth and back; SEND becomes the value of WRITEBLOCK on protocol 0 |
| `Protocol.CodesInNumbers` | software/usb_ir/protocol-versions.c:25-47 | the table in numbers |
| `Protocol.CodesRoundTrip` | software/usb_ir/protocol-versions.c:49-86 | every code of the table translates forth and back on protocol 0, and nothing changes from version 5 on |
| `IdBlock.ExecuteStores` | software/usb_ir/device-interface.c:360-365 | executing the store instructions writes consecutive memory |
| `IdBlock.ExecutePacket` | software/usb_ir/device-interface.c:357-382 | executing the code of one packet sends exactly that packet |
| `IdBlock.ProgramSendsReply` | software/usb_ir/device-interface.c:305-388 | for every label and version, the code of the block runs from any machine state to its ret and sends the reply in two packets, or nothing for an empty label, whatever the send routine leaves in registers and memory |
| `IdBlock.BuildReply` | software/usb_ir/device-interface.c:321-354 | header and first twelve bytes of the label, with bars and newlines replaced |
| `IdBlock.GenerateIdBlock` | software/usb_ir/device-interface.c:305-388 | the 68 bytes of the block, built in place; the code always fits |
| `IdBlock.BlockBytes` | software/usb_ir/device-interface.c:305-388 | the bytes of the block in numbers: page, stores, loads, calls with register order and addresses of each firmware, return, halts |
| `IdBlock.EmptyBlockBytes` | software/usb_ir/device-interface.c:314-320 | the block for no label returns at once |
| `Framing.SendData` | software/usb_ir/device-interface.c:169-217 | the packets concatenate to the data and terminator, each non-empty and within the maximum size |
| `Bytes.ConcatFirst` | software/usb_ir/device-interface.c:190-212 | packets are concatenated in the order in which they are sent |
| `Framing.AddChecksum` | software/usb_ir/device-interface.c:607-617 | the checksum is put in place, the rest is unchanged |
| `Framing.ChecksumExact` | software/usb_ir/device-interface.c:611-616 | 256 times byte 2 plus byte 3 is the exact sum of the 64 code bytes |
| `Framing.SumLaws` | software/usb_ir/device-interface.c:611-614 | the sum is additive over single bytes |
| `Framing.Transmit` | software/usb_ir/device-interface.c:578-733 | the control packet and the data packets of every request except a resend; the packets hold what the device waits for except for a send without data below version 3 |
| `Framing.ControlHeader` | software/usb_ir/device-interface.c:578-602 | the first four bytes of a control packet in numbers: GETID goes out as EXECUTE, SETID as WRITEBLOCK, each in the code of the device |
| `Framing.ControlArguments` | software/usb_ir/device-interface.c:619-687 | what follows them, for every code and version |
| `Framing.FrameCarriesPayload` | software/usb_ir/device-interface.c:619-635 | at most eight control bytes; their data and the data packets together are the payload, and the terminator exactly for a non-empty send below version 3 |
| `Framing.TerminatedExactly` | software/usb_ir/device-interface.c:727-733 | the data packets hold the zero byte that devices below version 3 wait for if and only if the send has data |
| `Framing.EmptySendUnterminated` | software/usb_ir/device-interface.c:729-733 | a send without data on version 2 has no data packet |
| `Framing.StreamFields` | software/usb_ir/device-interface.c:637-687 | length, channels and delays are where the firmware reads them; the length is right if and only if it is below 256 |
| `Framing.ChecksumGuard` | software/usb_ir/device-interface.c:604-609 | exactly which requests are checksummed |
| `Framing.PayloadUnchanged` | software/usb_ir/device-interface.c:607-617 | data arrives unchanged if and only if it is not checksummed or already holds its checksum |
| `Framing.OldSendDamaged` | software/usb_ir/device-interface.c:604-617 | a signal of 68 bytes arrives damaged on a device of protocol 0 |
| `LabelRoundTrip.ReadPacket` | software/usb_ir/device-interface.c:985-1071 | reassembly of one packet: code, collected data and destination queue |
| `LabelRoundTrip.CollectedExactly` | software/usb_ir/device-interface.c:1034-1058 | further packets are read exactly while they are valid and data is missing |
| `LabelRoundTrip.SignalPacket` | software/usb_ir/device-interface.c:1010-1017 | a packet without a header is received data: all but its last byte, for the receive queue |
| `LabelRoundTrip.AckPacket` | software/usb_ir/device-interface.c:1034-1070 | an acknowledgement ends with its packet and reaches the thread that asked |
| `LabelRoundTrip.UnknownPacket` | software/usb_ir/device-interface.c:1025-1032 | a packet of unknown code goes to the receive queue as it is |
| `LabelRoundTrip.SetLabel` | software/usb_ir/device-interface.c:584-594 | what the device collects from the packets of SETID makes it answer GETID with the reply |
| `LabelRoundTrip.LabelReadsBack` | software/usb_ir/client-interface.c:406-421 | the reply reaches the asking thread as twelve bytes that read as the first twelve bytes of the label with '_' for bars and newlines, on every version |
| `LabelRoundTrip.AskLabel` | software/usb_ir/device-interface.c:578-582 | the GETID request is the execute code of the device and nothing else |
| `LabelRoundTrip.SetAndGetLabel` | software/usb_ir/client-interface.c:406-421 | a label that is written by SETID, run by GETID, received and read comes back as its bytes up to the first zero and the twelfth, with 0x5F exactly where it has 0x7C or 0x0A |
| `Handshake.StepKeepsInv` | software/usb_ir/device-interface.c:136-167 | every step of either thread keeps the invariant, with store and notification as separate steps |
| `Handshake.RunKeepsInv` | software/usb_ir/device-interface.c:136-167 | the invariant holds in every state of every interleaving |
| `Handshake.AnswerFreshExactly` | software/usb_ir/device-interface.c:717-801 | in every interleaving, the slot read after a notification holds a packet stored after that transaction's flush if and only if one was stored since, that is if the reader was outside its critical section at the last poll or another notification is unread; otherwise it is empty or holds the packet stored last before; it never holds a freed packet |
| `Handshake.AnswerIsFresh` | software/usb_ir/device-interface.c:717-801 | if every flush ends outside the reader's critical section, every answer is fresh |
| `Handshake.AtomicQueuesFlushOutside` | software/usb_ir/device-interface.c:136-155 | which is so when store and notification are one step |
| `Handshake.RaceLosesAnswer` | software/usb_ir/device-interface.c:157-167 | from every state in which a flush ends inside the reader's critical section, a run leads to an answer that is not fresh |
| `Handshake.EmptyAnswer` | software/usb_ir/device-interface.c:760-768 | an interleaving in which the worker finds the slot empty |
| `Handshake.StaleAnswer` | software/usb_ir/device-interface.c:760-768 | an interleaving in which the answer is older than the request |
| `Handshake.NoDoubleFree` | software/usb_ir/device-interface.c:157-167 | no interleaving frees a packet twice |
| `LinkedList.List.Insert` | software/usb_ir/list.c:26-44 | insertion before a position is sequence insertion; all links, owner and count agree |
| `LinkedList.List.RemoveObject` | software/usb_ir/list.c:56-69 | the item leaves the sequence, the rest stays linked |
| `LinkedList.List.Remove` | software/usb_ir/list.c:71-82 | the same, and the item's header is cleared |
| `LinkedList.List.ForEach` | software/usb_ir/list.c:84-96 | each item is visited once in order, and exactly those with verdict true remain |
| `DeviceTable.StepKeepsInv` | software/usb_ir/drivers/libusb.c:506-534 | a met, marked or unlinked device keeps order and ids |
| `DeviceTable.RunKeepsInv` | software/usb_ir/drivers/libusb.c:243-269 | in every run, buses ascend, ports ascend on a bus, and the ids in use are distinct |
| `DeviceList.PassClimbs` | software/usb_ir/drivers/libusb.c:297-305 | a pass goes up over used ids only, and stays put only at a free id |
| `DeviceList.AtLeastShrinks` | software/usb_ir/drivers/libusb.c:403-410 | the measure: fewer devices lie at or above a higher candidate |
| `DeviceList.DeviceList.FreeId` | software/usb_ir/drivers/libusb.c:401-410 | the passes end with the smallest id that no device in use has |
| `DeviceList.SmallestFreeExactly` | software/usb_ir/drivers/libusb.c:297-305 | that id is the smallest number not among the ids of devices not being removed |
| `DeviceList.DeviceList.FindPosition` | software/usb_ir/drivers/libusb.c:506-518 | the first device that is not smaller: bus first, then port |
| `DeviceList.DeviceList.Claim` | software/usb_ir/drivers/libusb.c:387-442 | the device is inserted before the position with that id |
| `DeviceList.DeviceList.Meet` | software/usb_ir/drivers/libusb.c:504-533 | a known location is left alone, a new one is claimed |
| `DeviceList.DeviceList.MarkRemoved` | software/usb_ir/drivers/libusb.c:246-251 | the removed flag is set |
| `DeviceList.DeviceList.Unlink` | software/usb_ir/drivers/libusb.c:266-267 | the device leaves the list |
| `DeviceList.DeviceList.Scan` | software/usb_ir/drivers/libusb.c:472-553 | a scan keeps order and ids and loses no device; a found device that can be claimed is in use afterwards if and only if none was being removed from its place |
| `DeviceList.ReplugIgnored` | software/usb_ir/drivers/libusb.c:521-533 | a device plugged in again during its release is not claimed |
| `Receivers.Daemon.TurnReceiverOn` | software/usb_ir/client-interface.c:115-120 | receiver on: count, flag and device |
| `Receivers.Daemon.TurnReceiverOff` | software/usb_ir/client-interface.c:122-130 | receiver off: count, flag and device; handled if others still receive or the transaction succeeds |
| `Receivers.FailedTransaction` | software/usb_ir/client-interface.c:279-286 | a failed transaction leaves the device alone, and a failed first receiver-on changes nothing |
| `Receivers.Daemon.Release` | software/usb_ir/client-interface.c:305-328 | a leaving client gives back its count |
| `Receivers.CountedExactly` | software/usb_ir/client-interface.c:115-130 | an event keeps the count equal to the number of receiving clients if and only if it is proper |
| `Receivers.RunCounts` | software/usb_ir/client-interface.c:279-286 | in every run of proper events the count is right and never wraps, and with successful transactions the device is on exactly when the count is positive |
| `Receivers.ImproperOffWraps` | software/usb_ir/client-interface.c:312-315 | one improper receiver-off silences another client and makes the count wrap |
| `Summary.AliasSummary` | software/usb_ir/server.c:350-379 | the text of one device, exactly as long as computed |
| `Summary.DeviceSummary` | software/usb_ir/server.c:381-417 | the texts of all devices with bars between, and the size allocated for them |
| `Summary.ListDevices` | software/lirc-drv-iguanair/iguanair.c:347-431 | the paths of a summary, each alias with the index before it, or that it is malformed |
| `Summary.ParseDevice` | software/lirc-drv-iguanair/iguanair.c:356-425 | one printed device parses to its index, location and user name, all with its own index |
| `Summary.SummaryRoundTrip` | software/usb_ir/server.c:350-417 | parsing the summary of any printable devices gives exactly their names in order |
| `Summary.DigitsReadBack` | software/usb_ir/server.c:355 | the printed index reads back as the number, without leading zeros |
| `Summary.SummaryExample` | software/usb_ir/server.c:362-417 | the text of two devices, letter by letter |
| `Summary.LongNameMalformed` | software/lirc-drv-iguanair/iguanair.c:371-375 | names of more than twelve characters do not fit the parser |
| `Carrier.ComputeCarrierDelays` | software/usb_ir/device-interface.c:270-301 | the firmware waits the rest of the half period with these offsets if and only if the rest is a combination of 4 and 7 with at most 110 fours, and no combination has fewer sevens |
| `Carrier.SevensAreFewest` | software/usb_ir/device-interface.c:283-296 | the formula is a combination exactly when there is one, with the fewest sevens |
| `Carrier.RepresentableFrom18` | software/usb_ir/device-interface.c:295-296 | nine small values, up to 17, are no combinations |
| `Carrier.DelayExact` | software/usb_ir/device-interface.c:289-300 | the firmware waits the requested rest if and only if it is a combination with at most 110 fours |
| `Carrier.HalfPeriodRounded` | software/usb_ir/device-interface.c:281 | the half period is within half a clock cycle of 12000000/carrier |
| `Carrier.DefaultLoopExact` | software/usb_ir/device-interface.c:668-684 | for admitted carriers and the default loop, exact except from 145455 to 147239 Hz |
| `Carrier.GapCarrier` | software/usb_ir/device-interface.c:668-684 | at 146000 Hz the offsets lead the firmware out of its delay code |
| `PulseFile.ReadPulseFile` | software/usb_ir/iguanaIR.c:246-353 | the stored signals are the meaning of the lines, without a trailing space, and -1 without any; tags and durations are right if and only if all stored runs fit 24 bits |
| `PulseFile.LineByLine` | software/usb_ir/iguanaIR.c:285-335 | what each line does: a pulse joins exactly a pulse, a space exactly a space, a number is always a new signal |
| `PulseFile.NumbersStored` | software/usb_ir/iguanaIR.c:314-350 | a file of numbers is stored value by value, with the pulse bit at even places |
| `PulseFile.LongPulseVanishes` | software/usb_ir/iguanaIR.c:328-335 | a pulse of 0x1000000 is stored with no duration |
| `PulseFile.ResultShape` | software/usb_ir/iguanaIR.c:328-350 | odd length, pulse bit exactly at even positions, durations kept: what the encoder's index parity assumes |
| `PulseFile.DurationPreserved` | software/usb_ir/iguanaIR.c:290-350 | total duration of the runs is kept except for leading spaces and one trailing space |
| `PulseFile.StoredDuration` | software/usb_ir/iguanaIR.c:246-353 | the stored signals last as long as the lines say, except for leading spaces and one trailing space |

## Left out

- Sockets, pipes, timeouts, symlinks, files, signals and logging: operating system calls without a property of their own.
- libusb transfers, endpoint discovery, kernel driver handling and driver loading: foreign code.
- The resend request, the OS X toggle workaround and the locking without libusb threads: their intent depends on hardware.
- Tokenising of pulse file lines: the reader starts from parsed lines, with non-negative values.
- REQUIRE_ORDER, RETURN_IN_ORDER and long-only parsing: the programs here use none of them unless POSIXLY_CORRECT is set.
- Group selection and option name matching in argp: any two lookups are allowed instead, so the result holds for all tables.
- Memory exhaustion and leaks.
- SendFormat.PulsesToIguanaSend: the float expression is taken as exact rounding half up, and the cast to 32 bits as exact, which holds for carriers up to 256 MHz.
- DeviceSend.SendPlayedExactly: does not model what the device does with data packets behind the bytes that it reads.
- Transmitter.CompressionFaithful: takes the firmware's last_pulse to hold a pulse byte at the start, because only pulse bytes are ever stored there.
- DevToPulses.Decode: the empty input is not modelled, because the C code reads outside the buffer for it.
- Lirc.Receiver.Merge: takes at most eight values per packet, as the driver's buffer does; PULSE_BIT and PULSE_MASK of LIRC are taken as 0x1000000 and 0xFFFFFF.
- Framing.Transmit: does not model failing USB writes, which end the transaction early, nor the detour of pin configurations on versions up to 3, which oldPinConfig turns into two other requests before framing.
- Argp.Parser.ParseArgument: models callbacks that accept the argument and do not move next.
- Argp.Parser.ParseNext: the same callbacks.
- Argp.Parse: the same callbacks.
- DeviceList.DeviceList.Claim: models the claim that succeeds; a claim that fails changes nothing.
- LinkedList.List.ForEach: models actions that change the user data only, not the items or the list.
- Summary.ListDevices: its malformed result stands for reads and writes outside a buffer in list_devices, which has no error return.
- Receivers.Daemon.TurnReceiverOn: treats the raw request like the plain one, as the code does.
- Carrier.ComputeCarrierDelays: the float expression is taken as exact rounding half up.
- Summary.SummaryRoundTrip: requires an index that fits the eight-byte buffer of aliasSummary and names of at most twelve bytes, which is what getID stores.

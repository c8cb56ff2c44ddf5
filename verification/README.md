# Verified model of the quadrocopter's link, reassembly, sensor memory, rotation and printing code

This project models five parts of the flight firmware in Dafny and proves what they are for.

1. **Framing** (`Bytes`, `Crc`, `Frame`, `Parser*`, `Channel`, `Link`, `Radio`): MAVLink 1.0 frames,
   their checksum, the two send paths and the byte-at-a-time receiver. `Parser.Step` is the state
   machine as a function; `Channel.Channel.ParseChar` is the in-place code, proved equal to it. The
   state machine is then proved to be a *recogniser*: at every moment it holds exactly the bytes of
   the current attempt, goes on while these can still become a frame, accepts when they are one and
   gives up (starting over on a start mark) when they cannot. Everything about whole byte streams
   follows from that.
2. **Extended messages** (`Fragments`, `FragmentTheorems`, `FragmentChecks`, `ProtobufManager`,
   `ExtendedLink`): splitting byte strings into fragments, a receiver with one queue per stream, and
   both together.
3. **Sensor memory** (`DmpMemory`, `DmpBlocks`, `DmpConfig`): block access to a banked memory in small
   chunks, and the configuration interpreter on top of it. A device is a register pair, an array and
   an arbitrary function saying what a write burst stores, so that faulty devices are covered. It is
   assumed that a burst of n bytes touches n consecutive cells of the selected bank, that reads are
   faithful, and that there are 32 banks (the code masks the bank number to five bits).
4. **Rotation** (`Rotation`): quaternion algebra over exact reals.
5. **Printing** (`Chprintf`): the in-place digit generator and the padding.

The table of extra checksum bytes (`MAVLINK_MESSAGE_CRCS`, Quad/mavlink/common/common.h:19) is an
arbitrary function of the message type throughout. Sending fragments assumes its entry for type 255
is 0, as it is in that table, because the sender passes 0.

Proofs use `hide` statements only to keep definitions out of the solver's sight where they are not needed.

## What the proofs turned up

- **One short error escapes the frame checksum.** Any error in one byte or two neighbouring bytes, start
  mark, length and message type left alone, is caught, except one: 0x91 in the last payload byte together
  with 0x85 in the first checksum byte. The extra byte that is checksummed between these two, but not
  sent, spreads the burst over three bytes. `ParserErrors.ShortBurstsDetectedIff` states this as an
  if-and-only-if, and `WrongPacketDelivered` what is then delivered.
- **The fragment test is weaker than the checksum.** It rejects only if both checksum bytes differ
  (Quad/mavlink/mavlink_protobuf_manager.hpp:324-325). `FragmentChecks.FrameErrorPassesIff` says exactly
  which errors in the frame pass; a single wrong byte can be enough (`OneWrongByteCanPass`). The data in
  the fragments is not under any checksum (`DataUnchecked`).
- **Lost fragments can splice messages.** If one message loses its tail and the next its head, the two
  halves are joined if and only if the offsets happen to meet (`FragmentTheorems.SplicedIff`). The
  sender cuts all messages at multiples of one size, so they meet whenever as many fragments of the
  first arrive as are missing of the second (`ExtendedLink.EvenSpliceIff`, `SpliceTwo`).
- **Empty messages are never delivered**: they have no fragments (`FragmentTheorems.DeliveredIffNonEmpty`).
- **A type registered twice can be refused.** Its new code counts registrations, while the receiver takes
  codes below the number of names (Quad/mavlink/mavlink_protobuf_manager.hpp:168 and 301-302).
  `ExtendedLink.RegisteredTwice` is such a case; `Transmit` says exactly when a message arrives.
- **A block write longer than the memory overwrites its own beginning.** It reads back if and only if
  its bytes 8192 apart are equal (`DmpMemory.ReadBackIff`); up to 8192 bytes it always does (`ReadBack`).
- **Zero fill behind a left-aligned number changes its value**; `Chprintf.ZeroFilledReadsBackIff` says
  exactly when printed numbers read back.

## Model

| member | source | states |
|---|---|---|
| Crc.FastRefinesDefinition | Quad/mavlink/checksum.h:27-35 | for every byte string the byte-wise checksum equals eight one-bit shifts per byte with polynomial 0x8408 (Appendix C.2 of RFC 1662) |
| Crc.ByteIsEightShifts | Quad/mavlink/checksum.h:27-35 | the closed form for one byte equals eight register shifts with the byte added |
| Crc.KnownChecksum | Quad/mavlink/checksum.h:55-63 | the checksum of the ASCII digits 1 to 9 is 0x6f91 |
| Crc.ResidueZeroIffChecksum | Quad/mavlink/checksum.h:15-35 | running on over two more bytes gives 0 if and only if they are the checksum, low byte first |
| Crc.AccumulateLinear | Quad/mavlink/checksum.h:27-35 | one checksum step is linear over exclusive or |
| Crc.AccumulateKernel | Quad/mavlink/checksum.h:27-35 | a step gives 0 for one register value only, so with linearity it is injective |
| Crc.ErrorSyndrome | Quad/mavlink/checksum.h:55-63 | the checksum of a corrupted string differs from the original by the checksum, from zero, of the error pattern alone |
| Crc.OverConcat | Quad/mavlink/checksum.h:74-80 | continuing a checksum over a second buffer equals the checksum of both together |
| Crc.ShortBurstSyndrome | Quad/mavlink/checksum.h:27-35 | every one- or two-byte error at any place in a string of any length has a nonzero syndrome |
| Crc.GappedPairSyndrome | Quad/mavlink/checksum.h:27-35 | two wrong bytes around a correct one have syndrome zero for exactly one pattern |
| Channel.CrcCalculate | Quad/mavlink/checksum.h:55-63 | the loop returns the checksum, by the shift register definition, of the first `length` bytes from 0xffff |
| Channel.CrcAccumulateBuffer | Quad/mavlink/checksum.h:74-80 | the loop continues a checksum over a buffer, by the same definition |
| Frame.EncodeParts | Quad/mavlink/mavlink_types.h:11-14 | where start mark, length, payload and checksum stand in a frame, and that the packet can be read back from it |
| Frame.FrameLayout | Quad/mavlink/mavlink_types.h:51-60 | every byte of a frame: 254, length, sequence number, system, component, type, payload, and the checksum by its definition from 0xffff over all but the start mark and then the extra byte, low byte first; 8 bytes more than the payload |
| Frame.PrefixTestExact | Quad/mavlink/mavlink_types.h:51-60 | a byte string is the beginning of some frame if and only if start mark, length and any checksum bytes present fit |
| Frame.FrameTestExact | Quad/mavlink/mavlink_types.h:51-60 | a byte string is a frame if and only if it passes that test and has the announced length |
| Frame.PrefixFree | Quad/mavlink/mavlink_types.h:51-60 | no frame is the beginning of another, and a frame determines its packet |
| ParserRefinement.StepRefines | Quad/mavlink/mavlink_helpers.h:201-365 | every call moves the receiver as the recogniser judges: it returns 1 exactly when the attempt plus the byte is a frame, which is then the frame of the returned message and, byte for byte, what that message holds in memory, its checksum field included; it reports one drop exactly when the attempt can no longer become a frame, and otherwise only grows the attempt; the internal invariants are kept |
| ParserRefinement.AdvanceRefines | Quad/mavlink/mavlink_helpers.h:220-342 | the same for the state switch alone, in each of its ten states |
| ParserRefinement.AttemptSize | Quad/mavlink/mavlink_helpers.h:220-342 | an attempt never reaches 263 bytes and starts with the start mark |
| ParserRuns.SoundnessInvariant | Quad/mavlink/mavlink_helpers.h:201-365 | on every byte stream, the frame of each returned packet, with start mark and correct checksum, is exactly the last len+8 bytes fed, and accepted frames are disjoint segments in stream order, resynchronisation included |
| ParserRuns.ReturnedIsReceived | Quad/mavlink/mavlink_helpers.h:139-143 | whenever a call returns 1, the len+8 bytes of the message in memory (start mark, header, payload and stored checksum bytes, as a sender would copy them) are exactly the last bytes fed |
| ParserRuns.RunConsistent | Quad/mavlink/mavlink_helpers.h:288-295 | over every run the payload index stays below the length while payload is read, and the running checksum is that of the attempt |
| ParserRoundTrip.StreamDelivered | Quad/mavlink/mavlink_helpers.h:220-342 | a stream of frames with start-mark-free noise between them is delivered exactly, in order, each packet on its frame's last byte, without any reported drop |
| ParserRoundTrip.FrameDelivered | Quad/mavlink/mavlink_helpers.h:220-342 | one frame fed to a receiver between frames is delivered on its last byte and unchanged |
| ParserRoundTrip.FrameDeliveredAfter | Quad/mavlink/mavlink_helpers.h:301-341 | the same in the middle of an attempt that cannot go on with a start mark: the frame is delivered whole and the attempt given up for it is reported once |
| ParserRoundTrip.ResyncDelivers | Quad/mavlink/mavlink_helpers.h:301-312 | a start mark that comes where the first checksum byte is due, and is not that byte, begins a frame that is delivered |
| ParserRoundTrip.NoiseIgnored | Quad/mavlink/mavlink_helpers.h:222-231 | bytes without a start mark leave a receiver between frames alone |
| ParserRoundTrip.QuietStabilises | Quad/mavlink/mavlink_helpers.h:220-342 | from every reachable state 262 bytes without a start mark leave the receiver between frames |
| ParserRoundTrip.AttemptsEnd | Quad/mavlink/mavlink_helpers.h:220-342 | on arbitrary input an attempt ends at the latest with the 262nd byte after its start mark |
| ParserRoundTrip.BoundReached | Quad/mavlink/mavlink_helpers.h:288-295 | that bound is attained by frames with a full payload |
| ParserRoundTrip.Recovery | Quad/mavlink/mavlink_helpers.h:220-342 | after any bytes at all and 262 quiet ones, every frame of a stream is delivered |
| ParserConservation.AttemptsConserved | Quad/mavlink/mavlink_helpers.h:218-364 | over every run, attempts begun equal accepted plus rejected plus the one in progress, and reported drops add up to the rejected ones |
| ParserConservation.SuccessesCounted | Quad/mavlink/mavlink_helpers.h:346-358 | over every run the success counter has grown by the number of deliveries modulo 65536, the sequence number kept is that of the last delivery, and the drop counter of the status stays 0 |
| ParserConservation.EveryReport | Quad/mavlink/mavlink_helpers.h:346-364 | every call reports as success count the number of deliveries so far modulo 65536, and as next number the one after the last delivery's modulo 256 (after the initial one if there was none); it returns 1 exactly when the last delivery ends with its byte |
| ParserErrors.CorruptionDetectedIff | Quad/mavlink/mavlink_helpers.h:297-341 | for every error, of any weight, outside start mark and length (in the message type too, which selects another extra byte): the receiver delivers nothing and reports exactly one error if and only if the error's syndrome is nonzero, and otherwise delivers the packet the corrupted bytes carry |
| ParserErrors.ShortBurstsDetectedIff | Quad/mavlink/mavlink_helpers.h:297-341 | every error in one or two neighbouring bytes, outside start mark, length and message type, is caught that way, except the single pattern across payload end and checksum start, which is accepted |
| ParserErrors.WrongPacketDelivered | Quad/mavlink/mavlink_helpers.h:297-341 | on every frame with a payload that pattern delivers the packet with a wrong last payload byte |
| ParserErrors.NotAFrame | Quad/mavlink/mavlink_helpers.h:297-341 | frame-shaped bytes with a wrong checksum: no delivery on any of them and exactly one error |
| ParserErrors.ResidueOfFrame | Quad/mavlink/mavlink_helpers.h:297-341 | frame-shaped bytes are a frame if and only if the checksum over body, extra byte and checksum is zero |
| Channel.Channel.ParseChar | Quad/mavlink/mavlink_helpers.h:201-365 | the in-place parser's new state, report and copied message are those of the step function; a returned message begins with exactly the bytes received; the sender's state is untouched |
| Channel.Channel.Switch | Quad/mavlink/mavlink_helpers.h:220-342 | the in-place switch equals the state machine function |
| Channel.Channel.RejectByte | Quad/mavlink/mavlink_helpers.h:301-312 | a wrong checksum byte is counted and, if a start mark, begins a new attempt |
| Channel.Channel.CountMessage | Quad/mavlink/mavlink_helpers.h:346-358 | the counters a received message changes, and no others |
| Channel.Channel.Conclude | Quad/mavlink/mavlink_helpers.h:360-364 | what is reported, which `ParserConservation.EveryReport` and `StepRefines` spell out, and that the pending error is cleared |
| Channel.Channel.constructor | Quad/mavlink/mavlink_helpers.h:15-19 | a new channel is outside any attempt, with all counters and both sequence numbers 0 |
| Channel.Channel.FinalizeMessage | Quad/mavlink/mavlink_helpers.h:52-76 | the message in memory begins with the frame of its packet under the current sequence number, its header fields have the given values, the rest of it is unchanged, and the number counts up by one modulo 256 |
| Channel.Channel.FinalizeAndSend | Quad/mavlink/mavlink_helpers.h:103-133 | the serial line receives the same frame, byte for byte, although the checksum is computed in two parts |
| Channel.MsgToSendBuffer | Quad/mavlink/mavlink_helpers.h:139-143 | the buffer receives the message's first len+8 bytes and nothing else changes |
| Channel.FinishedWire | Quad/mavlink/mavlink_types.h:106-108 | header, payload and checksum bytes in place make the message in memory begin with the frame |
| Link.SendAll | Quad/mavlink/mavlink_helpers.h:52-143 | for any mix of the two send paths the line receives the frames in order, each with the next sequence number, and the counter ends past the last |
| Link.SendBuffered | Quad/GCS.cpp:185-205 | packing, copying to a buffer and writing it puts exactly the numbered frame on the line |
| Link.EverySendArrives | Quad/mavlink/mavlink_helpers.h:58-133 | what any run of sends puts on the line reaches a receiver completely, in order, the k-th numbered start+k modulo 256 |
| Channel.TxSeqCounts | Quad/mavlink/mavlink_helpers.h:66-67 | counting up k times gives start+k modulo 256; `Link.SendAll` and `FragmentMessage` state the field `current_tx_seq` in these terms |
| Radio.Pump | Quad/GCS.cpp:411-418 | the receiving loop collects exactly the deliveries of the byte stream |
| Radio.SendAndPump | Quad/GCS.cpp:411-418 | any mix of both send paths, followed by the receiving loop on what they put on the line: every message arrives once, in order and unchanged, the k-th numbered k after the first, without an error |
| Fragments.Read32 | Quad/mavlink/mavlink_protobuf_manager.hpp:333-345 | a 32-bit number written as four bytes reads back |
| Fragments.Bytes32Places | Quad/mavlink/mavlink_protobuf_manager.hpp:116-118 | byte k of the four is n / 256^k modulo 256: least significant byte first |
| Fragments.HeaderPlaces | Quad/mavlink/mavlink_protobuf_manager.hpp:155-166 | where the receiver finds type, size, stream, offset and flag, byte by byte |
| Fragments.AcceptedIff | Quad/mavlink/mavlink_protobuf_manager.hpp:144-173 | a fragment is answered with true if and only if it passes the test and its type code is in use; a refused one changes and delivers nothing |
| FragmentTheorems.AcceptedEffect | Quad/mavlink/mavlink_protobuf_manager.hpp:177-277 | any accepted fragment, honest or not: it joins its stream's queue if it begins where the queue goes on (modulo 2^32), delivers the joined data if it is final, and otherwise leaves the queue empty; other streams' queues are unchanged |
| FragmentTheorems.QueuesStayOpen | Quad/mavlink/mavlink_protobuf_manager.hpp:175-277 | over every run, honest or not, each queue starts at offset 0, continues without gaps (modulo 2^32) and holds only fragments with more to follow |
| FragmentTheorems.EveryDeliveryFromRun | Quad/mavlink/mavlink_protobuf_manager.hpp:175-277 | over every run, the deliveries of a stream are the joined data of disjoint, successive stretches of the fragments received on it (after those already queued), each contiguous from offset 0 and closed by its one final fragment; what is queued is the end of those fragments |
| FragmentTheorems.CarriedCached | Quad/mavlink/mavlink_protobuf_manager.hpp:142-280 | a fragment of a message is accepted; it is queued or completes the message if the queue goes on where it begins, and otherwise empties the queue |
| FragmentTheorems.StreamsIndependent | Quad/mavlink/mavlink_protobuf_manager.hpp:177-277 | for any interleaving, each stream's queue and deliveries are those of feeding its own fragments alone |
| FragmentTheorems.WholeMessageDelivered | Quad/mavlink/mavlink_protobuf_manager.hpp:89-280 | all fragments of a whole message are accepted, nothing is delivered before the last, which delivers exactly the message, and the queue is left empty |
| FragmentTheorems.DeliveredIffNonEmpty | Quad/mavlink/mavlink_protobuf_manager.hpp:91-94 | a message is delivered if and only if it is not empty, and the queue is empty afterwards |
| FragmentTheorems.DeliveredAmidOthers | Quad/mavlink/mavlink_protobuf_manager.hpp:177-277 | a whole message is delivered intact however other streams' fragments come in between |
| FragmentTheorems.LossNeverDelivers | Quad/mavlink/mavlink_protobuf_manager.hpp:204-249 | a message of which any fragment is lost is never delivered, in whole or in part |
| FragmentTheorems.TailLost | Quad/mavlink/mavlink_protobuf_manager.hpp:228-238 | after a lost tail the next whole message of the stream is dropped too, the queue ends empty, and the message after is delivered |
| FragmentTheorems.SplicedIff | Quad/mavlink/mavlink_protobuf_manager.hpp:230-247 | losing one message's tail and the next one's head delivers a splice if and only if the offsets meet, and otherwise nothing |
| FragmentChecks.FrameErrorPassesIff | Quad/mavlink/mavlink_protobuf_manager.hpp:307-331 | a fragment with any error in the 22 bytes of its frame is accepted if and only if start mark, length and message type are right and one half of the error's syndrome equals the error in the checksum byte sent for it |
| FragmentChecks.ErrorAcceptedIff | Quad/mavlink/mavlink_protobuf_manager.hpp:142-173 | the receiver's answer to such a fragment: true if and only if the error passes and leaves a type code in use |
| FragmentChecks.FragmentTest | Quad/mavlink/mavlink_protobuf_manager.hpp:307-331 | the test in plain terms: start mark 254, length 14, type 255, and at least one of the two checksum bytes, by the checksum's definition, right |
| FragmentChecks.DataUnchecked | Quad/mavlink/mavlink_protobuf_manager.hpp:251-277 | neither the data nor its length is checked: if the frames of a message's fragments arrive, whatever data came with them is delivered |
| FragmentChecks.OneWrongByteCanPass | Quad/mavlink/mavlink_protobuf_manager.hpp:324-325 | one wrong byte can turn a final fragment into a continued one and pass |
| ProtobufManager.ProtobufManager.FragmentMessage | Quad/mavlink/mavlink_protobuf_manager.hpp:73-140 | for a registered type the fragments carry the message, as many as the rounded-up quotient; the k-th is cut at k times the size limit and no larger, has the k-th next sequence number, and each of its fourteen header bytes is the one due, flag 1 on all but the last; the counter advances by their number; otherwise nothing is sent |
| ProtobufManager.ProtobufManager.NextFragment | Quad/mavlink/mavlink_protobuf_manager.hpp:98-113 | the length of one piece, and its flags byte: 1, or 0 for the last |
| ProtobufManager.ProtobufManager.BuildFragment | Quad/mavlink/mavlink_protobuf_manager.hpp:96-126 | each of the fourteen header bytes, numbers least significant byte first; the fragment passes the receiver's test, reads back, and carries sender and sequence number |
| ProtobufManager.ProtobufManager.CacheFragment | Quad/mavlink/mavlink_protobuf_manager.hpp:142-280 | true if and only if the fragment is valid and of a type code in use, nothing being changed otherwise; maps, answer and delivery are those of the reassembly function |
| ProtobufManager.ProtobufManager.Enqueue | Quad/mavlink/mavlink_protobuf_manager.hpp:177-249 | what a fragment does to its queue, in each branch |
| ProtobufManager.ProtobufManager.Reassemble | Quad/mavlink/mavlink_protobuf_manager.hpp:255-262 | the loop returns the joined data of the queue |
| ProtobufManager.ProtobufManager.IsValidFragment | Quad/mavlink/mavlink_protobuf_manager.hpp:307-331 | the test, with its checksum in two parts |
| ProtobufManager.ProtobufManager.GetMessage | Quad/mavlink/mavlink_protobuf_manager.hpp:282-296 | hands out the message of the first type that has a new one and clears only its flag |
| ProtobufManager.ProtobufManager.RegisterType | Quad/mavlink/mavlink_protobuf_manager.hpp:299-305 | a type gets the next code, kept in a byte, and an empty slot; a name registered again gets a new code without adding to the number of names |
| ProtobufManager.HeaderRead | Quad/mavlink/mavlink_protobuf_manager.hpp:333-345 | the header readers return what the sender wrote |
| ProtobufManager.HeaderPlaced | Quad/mavlink/mavlink_protobuf_manager.hpp:113-119 | the fourteen header bytes one by one, numbers least significant byte first |
| ProtobufManager.FinishedIsValid | Quad/mavlink/mavlink_protobuf_manager.hpp:307-331 | a frame finished with extra byte 0 passes the receiver's test |
| ExtendedLink.ReceiveAll | Quad/mavlink/mavlink_protobuf_manager.hpp:142-280 | taking in fragments one after the other leaves the receiver's state, and makes the deliveries, of the whole run |
| ExtendedLink.TableHoldsLast | Quad/mavlink/mavlink_protobuf_manager.hpp:264-266 | over every run, the message table holds for each type the last message delivered, and its flag says whether there was one |
| ExtendedLink.Transmit | Quad/mavlink/mavlink_protobuf_manager.hpp:73-280 | round trip: a message fragmented by one manager and taken in by another arrives unchanged in its type's slot if and only if it is not empty and the receiver takes its type code; otherwise nothing is delivered |
| ExtendedLink.RegisteredTwice | Quad/mavlink/mavlink_protobuf_manager.hpp:299-305 | after registering one type twice, its messages are fragmented but nothing is ever delivered |
| ExtendedLink.DeliveredWhole | Quad/mavlink/mavlink_protobuf_manager.hpp:168-173 | the same for any whole message, including type codes that are refused |
| ExtendedLink.TypeRefused | Quad/mavlink/mavlink_protobuf_manager.hpp:168-173 | every fragment of a type code not in use is answered with false and changes nothing |
| ExtendedLink.EvenSpliceIff | Quad/mavlink/mavlink_protobuf_manager.hpp:230-247 | two messages cut by the sender to one size limit are spliced if and only if the second goes on after as many fragments as arrived of the first |
| ExtendedLink.SpliceTwo | Quad/mavlink/mavlink_protobuf_manager.hpp:73-280 | such a splice delivered from any two messages of the sender that reach past the same cut |
| DmpBlocks.Mpu.WriteMemoryBlock | Quad/MPU6050/MPU6050.cpp:2975-3036 | for every start and size: memory afterwards is a flat write, at 256*bank+address, of what was stored; true means all of it was handled and, if verified or the device is faithful, equals the data; false means a verified chunk differs and everything before it is right |
| DmpBlocks.Mpu.ReadMemoryBlock | Quad/MPU6050/MPU6050.cpp:2944-2974 | for every start and size the buffer receives the flat contents and nothing else in it changes |
| DmpBlocks.Mpu.WriteChunk | Quad/MPU6050/MPU6050.cpp:3005-3018 | a chunk changes only its own cells; with verification it succeeds if and only if it was stored as sent |
| DmpBlocks.Mpu.VerifyChunk | Quad/MPU6050/MPU6050.cpp:3008-3018 | reading back and comparing decides whether the cells hold the chunk |
| DmpBlocks.Mpu.ChunkAt | Quad/MPU6050/MPU6050.cpp:2986-2994 | a chunk is never empty, never longer than sixteen bytes, crosses neither the end of the data nor that of the 256-byte bank, and is as long as that allows |
| DmpBlocks.Mpu.Seek | Quad/MPU6050/MPU6050.cpp:2922-2933 | the bank register holds the bank modulo 32 and no other bit, the address register the address, which points the device at the flat position |
| DmpBlocks.Mpu.SetMemoryBank | Quad/MPU6050/MPU6050.cpp:2922-2927 | the exact value of the bank register: five bits of bank, 0x20 for the user bank, 0x40 for prefetch |
| DmpBlocks.BaseIs | Quad/MPU6050/MPU6050.cpp:2990-2991 | flat positions count 256 cells to a bank |
| DmpBlocks.ChunkMoves | Quad/MPU6050/MPU6050.cpp:3020-3030 | wrapping address and bank after a chunk reach the next flat position |
| DmpMemory.FlatWriteContiguous | Quad/MPU6050/MPU6050.cpp:2975-3036 | in range, the write is one contiguous update and all other cells are unchanged |
| DmpMemory.FlatWriteCells | Quad/MPU6050/MPU6050.cpp:2975-3036 | for every range, a cell no byte goes to is unchanged, and any other holds the last byte that goes to it |
| DmpMemory.FlatReadCells | Quad/MPU6050/MPU6050.cpp:2944-2974 | byte k of a read is the cell at the position plus k, modulo 8192 |
| DmpMemory.ReadBack | Quad/MPU6050/MPU6050.cpp:2944-3036 | reading the range back returns the data, for every start and up to a whole memory of data |
| DmpMemory.ReadBackIff | Quad/MPU6050/MPU6050.cpp:2944-3036 | for every start and every length, a written block reads back if and only if its bytes 8192 apart are equal |
| DmpConfig.Configurator.WriteDmpConfigurationSet | Quad/MPU6050/MPU6050.cpp:3042-3099 | the bytes up to the reported index encode whole instructions, all of which are carried out; success means that these are all the bytes, on any device; failure means that the instruction at the index is unknown, in which case nothing else has changed, or is a block that the device did not store as sent, in which case only its own range may differ |
| DmpConfig.Configurator.RunInstruction | Quad/MPU6050/MPU6050.cpp:3053-3091 | one instruction: carried out, refused as unknown, or a block whose range alone holds something else; behind a length of 0, success if and only if the next byte is 0x01, with the register then 0x32 and memory unchanged |
| DmpConfig.Configurator.RunSpecial | Quad/MPU6050/MPU6050.cpp:3077-3087 | only 0x01 is known, and sets the interrupt register to 0x32 |
| DmpConfig.InterpretFirst | Quad/MPU6050/MPU6050.cpp:3053-3088 | the meaning of a configuration's first instruction, byte by byte and with the constants written out |
| DmpConfig.InstructionIs | Quad/MPU6050/MPU6050.cpp:3053-3088 | the bytes of an instruction and what it does, likewise |
| DmpConfig.InterpretsInstructions | Quad/MPU6050/MPU6050.cpp:3050-3096 | interpreting an encoded list consumes it, applies the instructions in order, and is refused exactly if an unknown one follows |
| DmpConfig.ReadableIsInstructions | Quad/MPU6050/MPU6050.cpp:3050-3096 | every byte string the interpreter can read is such an encoding |
| DmpConfig.InterruptsEnabled | Quad/MPU6050/MPU6050.cpp:3077-3085 | the interrupt register ends as 0x32 if and only if some instruction sets it, else as it was |
| Rotation.Units | Quad/MPU6050/helper_3dmath.h:56-67 | the three units square to -1 and multiply cyclically |
| Rotation.ProductAssociative | Quad/MPU6050/helper_3dmath.h:56-67 | the product is associative |
| Rotation.ConjugateOfProduct | Quad/MPU6050/helper_3dmath.h:56-71 | conjugation reverses products |
| Rotation.NormOfProduct | Quad/MPU6050/helper_3dmath.h:56-75 | squared magnitude is multiplicative |
| Rotation.SandwichIsPure | Quad/MPU6050/helper_3dmath.h:194-207 | the rotated quaternion has w = 0, so dropping it loses nothing |
| Rotation.RotationsCompose | Quad/MPU6050/helper_3dmath.h:194-207 | two rotations in a row are one by the product |
| Rotation.RotationsAccumulate | Quad/MPU6050/helper_3dmath.h:194-207 | any sequence of rotations is one rotation by the accumulated product |
| Rotation.UnitRotationsKeepLength | Quad/MPU6050/helper_3dmath.h:194-207 | any sequence of unit rotations preserves length |
| Rotation.RotateBack | Quad/MPU6050/helper_3dmath.h:69-71 | rotating by the conjugate undoes a rotation, up to the fourth power of the magnitude |
| Rotation.GravityIsRotatedUp | Quad/MPU6050/MPU6050_6Axis_MotionApps20.h:631-636 | the closed-form gravity vector is (0,0,1) rotated by the conjugate and has squared length of the magnitude's fourth power |
| Rotation.VectorFloat.Rotate | Quad/MPU6050/helper_3dmath.h:194-207 | the in-place rotation is the rotation function and scales the squared length as it should |
| Chprintf.Ltoa | os/various/chprintf.c:42-61 | the numeral of every unsigned 32-bit number ends up at p, at most eleven cells long, despite the overlapping copy, with the cells outside the window unchanged |
| Chprintf.GenerateDigits | os/various/chprintf.c:46-53 | the backward loop leaves the numeral at the end of the window |
| Chprintf.DigitsRead | os/various/chprintf.c:46-53 | a numeral evaluates back to its number and has no superfluous leading zero |
| Chprintf.DigitPlaces | os/various/chprintf.c:46-53 | the digit k places from the end is, of 0 to 9 and then A to F, the one for the remainder after k divisions |
| Chprintf.CanonicalIsNumeral | os/various/chprintf.c:46-53 | every canonical digit string is the numeral of its value |
| Chprintf.WordFits | os/various/chprintf.c:40-46 | eleven digits are enough for 32 bits in radix 8, 10 and 16 |
| Chprintf.Emit | os/various/chprintf.c:200-220 | where everything stands in the output: the text first and fill behind it, or fill first, or a minus sign in front of zeros; exactly max(width, length) characters |
| Chprintf.LayoutDetermines | os/various/chprintf.c:200-220 | that description leaves nothing open |
| Chprintf.PaddedLength | os/various/chprintf.c:200-220 | exactly max(width, length) characters are emitted |
| Chprintf.PrintInteger | os/various/chprintf.c:166-220 | conversion and padding together, within a buffer of twelve cells: the output is the argument's numeral, laid out like that |
| Chprintf.NumeralRead | os/various/chprintf.c:166-198 | the numeral has a minus sign exactly for negative arguments of a signed conversion, is canonical in radix 10 or the one chosen, and evaluates to the argument, for unsigned conversions modulo 2^32 |
| Chprintf.BlankFilledReadsBack | os/various/chprintf.c:166-220 | blank-filled output without its blanks is that numeral and reads back, for every width and alignment |
| Chprintf.ZeroFilledReadsBackIff | os/various/chprintf.c:166-220 | zero-filled output reads back as the number, sign in front, unless the zeros are put behind a nonzero number |

## Left out

- Preemption between the telemetry threads, which share the sequence counter without a lock: sequence numbers are claimed for single-threaded use.
- `put_bitfield_n_by_index` and the generated per-message accessors: repetitive, and the former masks with zero.
- `buffer_overrun` and the length test in the GOT_STX state: compiled out for 255-byte payloads, and the received flag has just been cleared there.
- The four channels of the program are one object each here; selecting one by number adds nothing.
- Message (de)serialisation of the protobuf library: messages are byte strings, and parsing one stores its bytes. The seven types that the constructor registers, the random stream number and logging are left to the caller of `RegisterType` and the constructor.
- Bytes of a fragment's frame beyond header and checksum, which the program leaves uninitialised, are arbitrary.
- Fragment data longer than the array that holds it, or of negative length, would be read out of bounds by the program; such fragments are excluded (`Fragment.Sound`).
- Configuration bytes that end in the middle of an instruction would be read out of bounds by the program; such byte strings are excluded (`Readable`).
- The `useProgMem` paths of the sensor code, its delays, and the single-register accessors.
- Failing reads, bus arbitration and the real bus driver: reads are assumed faithful.
- Floating-point rounding, square roots, angles and the integer vector type.
- Format string parsing, strings, characters and `*` arguments in the printing code.

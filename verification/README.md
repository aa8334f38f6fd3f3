# Ground-control middleware: a verified model

The middleware sits between a rocket's radio links and the ground crew. One
thread loops over commands, one reader thread drives the radio, one listens to
the control pendant, one writes to the ground equipment over TCP. This project
models the parts of it whose correctness depends on interleavings, byte streams
and whole runs, and proves what they promise.

| file | models |
|---|---|
| `bits.dfy`, `seqs.dfy`, `text.dfy`, `wrappers.dfy`, `numerals.dfy`, `binary32.dfy` | bit strings, sequences, `std::string` searches, decimal and hex text, integers as binary32 words (IEEE 754-2019, sections 3.4 and 4.3.1) |
| `byte_parser.dfy`, `payloads.dfy`, `payload_bytes.dfy`, `payload_parsing.dfy`, `payload_encoding.dfy` | the bit cursor, the avionics packet layouts by bits and by bytes, the C++ constructors that read them, and the Python encoders that write them |
| `feather.dfy` | the Feather radio driver: line demultiplexer, packet queue, command replies |
| `uart_text.dfy` | the emulated E5 radio: metrics and payloads as text messages |
| `av_sequence.dfy`, `av_reader.dfy`, `av_protocol.dfy` | the AV lock and launch sequence as classes with the turns of the command loop, the reader's way from packet bytes to that sequence, and both threads as interleaved atomic steps |
| `gcs_state.dfy`, `tcp_interface.dfy`, `tcp_writer.dfy` | the versioned command state with its dead-man fallback, the TCP link with its duplicate filter, and the heartbeat writer thread against both |
| `downsampling.dfy`, `replay.dfy` | simulation downsampling and the replay frame limiter |
| `pendant.dfy` | the pendant interlock and the command frame it emits |
| `event_stream.dfy` | the event viewer's pairing of identifiers with bodies |

Code that updates fields or variables step by step is a class or a method with
loops, tied by its `ensures` to a function of the inputs or the old state; the
properties are then proved about that function. Threads are state machines whose
transitions are the atomic steps of the code, sharing the step functions with the
classes. Ghost fields record what the code forgets: every bit read, every byte
heard, every payload that was ever in force, every frame sent.

## What the proofs show about the code

The wire codec reads back every AV data 1 packet the emulator can write and every
AV data 2 packet whose status is ASCII, the Feather driver loses and reorders
nothing whatever the chunking, the AV lock cannot deadlock and its wait is bounded,
and the dead-man, heartbeat and interlock bounds hold over all runs. Where the code
does not meet the expected property, the model keeps the code and states exactly
when it does:

- The duplicate filter of the TCP link is not reset by a reconnection. A payload
  repeated within 500 ms of its last sending is reported as accepted although
  nothing went out on the new connection (`TcpLink.SkippedAfterReconnect`; exact
  condition in `TcpLink.AcceptedOnThisConnection`).
- The navigation status is checked for two characters but sent as UTF-8, so a
  packet comes back exactly when both are ASCII (`PayloadEncoding.RoundTrip2`); an
  accented letter does not (`PayloadEncoding.AccentedStatusIsLost`).
- The filter reads its clock before a send that may block, so identical frames
  start 500 ms apart but a copy can follow the end of the one before by less. That
  spacing holds for every possible repetition exactly when the first send took no
  time (`TcpLink.EndToStartExact`); on a run it fails only when the writer wakes on
  a change away and back (`TcpWriter.RepetitionGap`), and such a run exists
  (`TcpWriter.RepeatedSoonAfterItsEnd`). A heartbeat always keeps it
  (`TcpWriter.HeartbeatIsSent`).
- On the text transport a metric of negative zero arrives as positive zero, and
  one that does not fit in an `int` is dropped in favour of an older value; it
  comes back only if it is 2^31 and the older value is one of the 64 largest ints
  (`UartText.NegativeZeroIsLost`, `UartText.LargeMetricIsLost`; exact condition in
  `UartText.TextRefinesRaw`). A metric word that is no integer never arrives
  (`UartText.WordsThatAgree`).
- Downsampling keeps the flight story exactly when each window leaves at most one
  change behind and the next window waits for it (`Downsampling.StoryKept`); two
  changes within one window can lose a state (`Downsampling.ShortStateIsLost`), and
  so can one change inside the window after a row of unknown state
  (`Downsampling.ChangeAfterUnknownIsLost`).
- The replay limiter counts turns from mission time zero, so it spaces frames by one
  interval only while they come at their turns: the next frame is certain to be an
  interval after the last exactly when the last was due at its own turn
  (`Replay.NextFrameIsApart`). A late burst is not limited at all, exactly when its
  turns are over before it (`Replay.BurstAfterQuiet`; exact condition for skipping
  nothing in `Replay.AllPass`). With the documented start of 1400000 ms and 30 frames a
  second that is the first 42001 packets (`Replay.FirstFramesAreNotLimited`).
- The spare pendant states F9 to F12 stay on under the emergency stop, unlike all
  other states: the stop turns everything off exactly when the system is inactive or
  none of those four keys is held (`Pendant.SparesIgnoreTheStop`). No frame carries
  them (`Pendant.StopIsFallback`).
- The dead-man bound on the pendant payload holds in both modes
  (`GcsState.DeadManBound`), but under manual control the web payload is in force, at
  any age: after the silence the fallback is in force exactly when control is not
  manual or the web payload is the fallback too (`GcsState.DeadManInForce`,
  `GcsState.PollInForce`), and a run from boot ends otherwise
  (`GcsState.StaleWebInForce`, `GcsState.ManualHasNoDeadMan`).
- `is_locked()` of the AV lock returns true when it is open; its one caller negates
  it, so the composition is right (`AvSequencing.AvSequence.WaitingForAv`).

## Model

| member | source | states |
|---|---|---|
| `ByteParsing.FieldBitsInjective` | backend/include/payloads/ByteParser.hpp:51-88 | A bit string cut into fields of given widths has one reading, so a layout determines the values read. |
| `ByteParsing.ByteParser.ReadBits` | backend/include/payloads/ByteParser.hpp:60-79 | The bit loop advances the cursor by exactly the bits asked for and yields the number they denote, most significant first; its early exit is never taken. |
| `ByteParsing.ByteParser.ExtractUnsignedBits` | backend/include/payloads/ByteParser.hpp:51-88 | Fails exactly when more than 32 bits or more than remain are asked for, and then moves nothing; otherwise one more field of the stream is consumed and returned in the stream's byte order. |
| `ByteParsing.ByteParser.ExtractSignedBits` | backend/include/payloads/ByteParser.hpp:109-127 | For every width and byte order: same failures, and the value is the field in stream order, sign-extended. |
| `ByteParsing.ByteParser.ExtractString` | backend/include/payloads/ByteParser.hpp:129-137 | Consecutive bytes as characters; a stream that is too short is drained to its last partial byte before it fails. |
| `ByteParsing.ByteParser.BitsRemaining` | backend/include/payloads/ByteParser.hpp:139-143 | Never negative: the bits of the stream not yet behind the cursor. |
| `ByteParsing.SwapByteOrder` | backend/include/payloads/ByteParser.hpp:95-107 | Rejects exactly the sizes outside 1 to 4; the 32-bit shifts and ors compute the byte-reversed word. |
| `ByteParsing.SwapTurnsEndianness` | backend/include/payloads/ByteParser.hpp:81-107 | The swapped word's big-endian bits are the little-endian bytes of the original word. |
| `ByteParsing.SwapTwice` | backend/include/payloads/ByteParser.hpp:95-107 | Swapping twice restores any word that fits. |
| `ByteParsing.SignExtend` | backend/include/payloads/ByteParser.hpp:118-126 | Sign test, mask and cast, for any word and width: the last bits as a negative number if their sign is set, the whole word cast otherwise. |
| `ByteParsing.SignedField` | backend/include/payloads/ByteParser.hpp:109-127 | For big-endian fields, and little-endian ones of one byte or whole bytes, that is the field's two's complement value. |
| `ByteParsing.ReadBack` | backend/include/payloads/ByteParser.hpp:51-88 | For any list of fields of width 1 to 32 packed into whole bytes, successive reads return exactly their values and leave no bit. |
| `PayloadParsing.ParseAvToGcsData1` | backend/include/payloads/AV_TO_GCS_DATA_1.hpp:26-100 | The packet built is the one whose layout is the input bit for bit, and each field is what its bytes denote: the state byte's code and five flags, nine big-endian words in two's complement, altitude and velocity, two continuity bytes. The flight state is the one the top three bits of byte 8 stand for, the broadcast flag is set by 0xAA and 0 in byte 37 only; no bit is left for the destructor's assertion. |
| `PayloadParsing.ParseAvToGcsData2` | backend/include/payloads/AV_TO_GCS_DATA_2.hpp:24-61 | Same for the two parsers, layout and bytes: big-endian metrics, then the state byte, and little-endian position and attitude around the two status bytes. |
| `PayloadParsing.CalcFlightState` | backend/include/payloads/AVHelper.hpp:7-29 | In the numbers of FlightState.proto: 0 stays 0, the codes 1 to 5 are the numbers 2 to 6, and 6 and 7 are the error state; flight ready before launch has no code. |
| `PayloadBytes.ReadByBytes1` | backend/include/payloads/AV_TO_GCS_DATA_1.hpp:26-100 | The bits of AV data 1 have one reading, the packet whose fields are read off by byte. |
| `PayloadBytes.ReadByBytes2` | backend/include/payloads/AV_TO_GCS_DATA_2.hpp:24-61 | Same for AV data 2. |
| `Payloads.Layout1Injective` | backend/include/payloads/AV_TO_GCS_DATA_1.hpp:32-99 | Two AV data 1 packets with the same bits are the same packet. |
| `Payloads.BodyLayout2Injective` | backend/include/payloads/AV_TO_GCS_DATA_2.hpp:33-60 | Two AV data 2 bodies with the same bits have the same fields. |
| `PayloadEncoding.PackFlagsBits` | backend/includes_python/metric.py:439-449 | Shift-and-or packing of flags spells their bits in order. |
| `PayloadEncoding.EncodeFragments1` | backend/device_emulator.py:282-317 | The encoders succeed exactly when every field is in its range. |
| `PayloadEncoding.Int16Exact` | backend/device_emulator.py:282-317 | A signed word is accepted exactly when two bytes in two's complement can say it. |
| `PayloadEncoding.GetPayloadBytes` | backend/device_emulator.py:100-111 | The raw frame: identifier, both metric words unless external, fragments in order; fails exactly for a metric that is not a finite float. |
| `PayloadEncoding.Frame1HasOneReading` | backend/include/payloads/AV_TO_GCS_DATA_1.hpp:26-100 | Any reading of an emulated AV data 1 frame is the packet that was encoded. |
| `PayloadEncoding.Frame2HasOneReading` | backend/include/payloads/AV_TO_GCS_DATA_2.hpp:24-61 | Same for AV data 2 with an ASCII status. |
| `PayloadEncoding.RoundTrip1` | backend/device_emulator.py:282-317 | Encode then parse AV data 1: succeeds exactly when encodable, returns every raw field, the flight state and the broadcast flag, consumes every bit. |
| `PayloadEncoding.EncodedBytes1` | backend/includes_python/metric.py:280-344 | The encoded frame's bytes: the flight code on top of the state byte, the fixed bits 1010 in both continuity bytes, 0xAA or 0 for the broadcast, a zero byte last, and every field at its place. |
| `PayloadEncoding.RoundTrip2` | backend/device_emulator.py:344-359 | Encode then parse AV data 2: the fields come back if and only if both status characters are ASCII. |
| `PayloadEncoding.AccentedStatusIsLost` | backend/includes_python/metric.py:984-999 | A status of an accented and a plain letter is encoded and decoded without an error and does not come back. |
| `Numerals.StoiOfShown` | backend/src/interfaces/test_uart_e5_interface.cpp:107-111 | std::stoi reads a printed integer exactly when it fits in an int, and then as itself. |
| `Numerals.HexStringToBytes` | backend/src/interfaces/uart_e5_interface.cpp:373-382 | The loop over pairs computes the recursive decoding, and fails exactly when a pair does. |
| `Numerals.WriteHex` | backend/src/interfaces/uart_feather_interface.cpp:20-27 | The stream writes two upper-case digits a byte. |
| `Numerals.HexRoundTrip` | backend/src/interfaces/uart_e5_interface.cpp:373-382 | Hex of either case decodes to the bytes it was written from. |
| `Numerals.StoulShapes` | backend/src/interfaces/uart_e5_interface.cpp:373-382 | What a pair means that is not two digits: a lone digit, one before another character, one after a space or a sign, negated by a minus. |
| `Numerals.HexOddTail` | backend/src/interfaces/uart_e5_interface.cpp:373-382 | A digit left over at the end is a byte of its own. |
| `Binary32.CastIsExact` | backend/src/interfaces/test_uart_e5_interface.cpp:136-137 | If any binary32 word denotes an int exactly, casting the int gives a word that does, and gives that very word unless it is negative zero. |
| `Binary32.CastRounds` | backend/src/interfaces/test_uart_e5_interface.cpp:136-137 | The cast of any int stands for the nearest number of 24 significant bits, ties to even. |
| `Binary32.CastReturns` | backend/src/interfaces/test_uart_e5_interface.cpp:136-137 | A cast gives back a word that stands for a number exactly when the int rounds to it and the word is not negative zero. |
| `Binary32.RoundedOutOfRange` | backend/src/interfaces/test_uart_e5_interface.cpp:136-137 | Only the 64 largest ints round to a number that is not an int, and it is 2^31. |
| `Feather.LinesOfConcat` | backend/src/interfaces/uart_feather_interface.cpp:171-175 | The lines of two pieces of a stream are those of the first, then those of its unfinished tail continued by the second. |
| `Feather.ChunkIndependence` | backend/src/interfaces/uart_feather_interface.cpp:148-187 | However the serial bytes are cut into reads and polls, packets, responses and the unfinished tail are those of the uncut stream. |
| `Feather.UartFeatherInterface.PollLines` | backend/src/interfaces/uart_feather_interface.cpp:148-187 | A poll keeps the driver's invariant (buffer is the unfinished tail; handed out then queued packets are those of all lines heard, each once, in order) and returns the other lines. |
| `Feather.UartFeatherInterface.DrainLines` | backend/src/interfaces/uart_feather_interface.cpp:170-186 | The loop takes exactly the complete lines, in order, and leaves what follows the last newline. |
| `Feather.UartFeatherInterface.HandleRecvLine` | backend/src/interfaces/uart_feather_interface.cpp:189-220 | A +RECV line queues one packet, with both metrics after the identifier, exactly when it decodes. |
| `Feather.UartFeatherInterface.AtSendCommand` | backend/src/interfaces/uart_feather_interface.cpp:234-270 | No packet is lost on success, error, timeout or early return; over the lines heard since the command it reports success exactly when an OK comes before any other OK or line beginning with ERROR, an error exactly when such a line comes first, a timeout exactly when neither comes; the lines before it are its data. |
| `Feather.UartFeatherInterface.ReadData` | backend/src/interfaces/uart_feather_interface.cpp:275-299 | Hands out the next of all packets ever heard, with a positive count, or nothing exactly when all were handed out. |
| `Feather.UartFeatherInterface.WriteData` | backend/src/interfaces/uart_feather_interface.cpp:304-324 | Sends 1 to 251 bytes as upper-case hex; everything heard meanwhile is added to what was heard before, so queued and arriving packets are kept; the size is returned exactly when an OK comes first among the lines since the command, and -1 otherwise. |
| `Feather.Session` | backend/src/interfaces/uart_feather_interface.cpp:234-324 | Over any mix of polls, commands, reads and transmissions from a fresh driver, the packets delivered and then those queued are the packets of all lines taken from the port, each once, in order. |
| `Feather.SessionOverTranscript` | backend/src/interfaces/uart_feather_interface.cpp:148-324 | If what was taken is what the bridge said, those are the raw frames it sent. |
| `Feather.BridgeRefinesRaw` | backend/src/interfaces/uart_feather_interface.cpp:189-216 | A packet printed as a +RECV line decodes to the internal frame of the raw transport. |
| `Feather.DecodesExactly` | backend/src/interfaces/uart_feather_interface.cpp:189-216 | A +RECV line carries a packet exactly when it has two readable decimal fields and a non-empty readable hex payload. |
| `Feather.DemultiplexesAnyTranscript` | backend/src/interfaces/uart_feather_interface.cpp:148-220 | Packets, replies, empty lines and damaged packet lines interleaved and chunked in any way come out as the raw frames in order and the replies in order, with an empty buffer. |
| `UartText.ReadData` | backend/src/interfaces/test_uart_e5_interface.cpp:85-160 | The message loop computes the fold of its messages; metrics and payload carry over from one to the next. |
| `UartText.ReadsLastPacket` | backend/src/interfaces/test_uart_e5_interface.cpp:85-160 | Any non-empty concatenation of formatted packets reads as the frame of the last, with the newest metrics that could be read. |
| `UartText.DamagedMessageIsIgnored` | backend/src/interfaces/test_uart_e5_interface.cpp:85-160 | A payload message that cannot be read, behind any packets, leaves the last frame; an empty one takes it away. |
| `UartText.TextRefinesRaw` | backend/device_emulator.py:103-137 | For metric words that denote integers: the text transport gives byte for byte the raw frame exactly when both come back, an int if the number kept rounds to it, any other only as 2^31 with one of the 64 largest ints kept, and never negative zero; for metrics in int range, exactly when neither word is negative zero. |
| `UartText.WordsThatAgree` | backend/device_emulator.py:103-137 | For any metric words: the frames agree exactly when each word denotes the number the cast of the newest readable integer rounds to, and is not negative zero; a word that denotes no integer never agrees. |
| `UartText.NewestMetrics` | backend/src/interfaces/test_uart_e5_interface.cpp:107-123 | The metrics kept are the newest RSSI that fits in an int and the SNR of the newest packet whose metrics both do. |
| `UartText.NegativeZeroIsLost` | backend/device_emulator.py:124-127 | An RSSI of negative zero arrives as positive zero. |
| `UartText.LargeMetricIsLost` | backend/src/interfaces/test_uart_e5_interface.cpp:107-123 | An RSSI of 2^31 is not read, and the initial zero stands in for it. |
| `AvSequencing.AvSequenceLock.Lock` | backend/src/av_sequence_lock.cpp:20-36 | Blocks until the mutex is released, then takes mutex, flag and time stamp. |
| `AvSequencing.AvSequenceLock.Unlock` | backend/src/av_sequence_lock.cpp:38-41 | Flag, then mutex; the stamp stays. |
| `AvSequencing.AvSequenceLock.UnlockIfTimedOut` | backend/src/av_sequence_lock.cpp:45-61 | True exactly when the lock was open or more than 1000 ms old, and then it is open. |
| `AvSequencing.AvSequence.WaitingForAv` | backend/src/av_sequence.cpp:18-18 | Waiting exactly while the flag is up and at most 1000 ms old. |
| `AvSequencing.AvSequence.SitAndWaitForAv` | backend/src/av_sequence.cpp:19-24 | The busy wait ends within 102 polls, at the first poll that finds an answer or more than 1000 ms gone, whatever the reader does; at once if the reader had answered already. Entered with the flag up it leaves the mutex free. |
| `AvSequencing.AvSequence.PostProcessAv` | backend/src/packet_handling.cpp:3-23 | Drops the lock, notes a launch, and starts broadcasting for every flight state after pre-flight except the error state. |
| `AvSequencing.CommandFrame` | backend/src/gcs_process_data.cpp:218-235 | Complementary flag bytes with the fixed bits 101, 010 and 1111 around the camera bit, and 0xAA exactly when broadcasting. |
| `AvSequencing.AvSequence.ReceivePacket` | backend/src/main.cpp:76-105 | The lock is dropped for any packet; a parsed one is noted, and an acknowledgement is recorded and moves the sequence to the burn state. |
| `AvSequencing.PacketHeard` | backend/src/packet_handling.cpp:3-23 | Launch, coast, apogee, descent and landed start the broadcast and no other state does, an acknowledgement ends it, and an unacknowledged launch packet leads to a state that waits. |
| `AvSequencing.AvSequence.CommandTurn` | backend/src/main.cpp:313-364 | A turn writes a frame in the states that wait or while broadcasting, its last byte 0xAA exactly while the broadcast has started and is not acknowledged; in the states that wait it ends with the lock free, on an answer or after more than 1000 ms. |
| `AvSequencing.AvSequence.CommandTurns` | backend/src/main.cpp:256-366 | Any number of turns with packets in between: with the mutex free at first it is free at the end. In terms of the packets heard by then, a turn's frame carries 0xAA exactly when a flight state was heard and no acknowledgement; there is one exactly then, or before any acknowledgement on the pad, or after a launch packet with no acknowledgement since. |
| `AvReader.ReceiveAvData1` | backend/src/main.cpp:76-95 | From packet bytes to the sequence: garbage exactly when too short or not serialised, otherwise handled as the flight state of buffer byte 9 and the acknowledgement of buffer byte 38. |
| `AvReader.ReceiveEmulated1` | backend/include/packet_handling.hpp:18-63 | A frame the emulator encoded is handled as the state and acknowledgement sent. |
| `AvProtocol.ReaderHandles` | backend/src/main.cpp:76-95 | The reader thread's atomic steps for a packet, uninterrupted, add up to that handling. |
| `AvProtocol.MainWrites` | backend/src/main.cpp:313-364 | The command loop's atomic steps of one turn, uninterrupted by the reader, write exactly the frame of the sequence class's turn. |
| `AvProtocol.MainTurns` | backend/src/main.cpp:313-364 | From every state with the mutex free such a turn exists and leaves it free. |
| `AvProtocol.NoDeadlock` | backend/src/av_sequence_lock.cpp:20-61 | In every interleaving main can step, or the reader holds the one step that frees the mutex and main can step after it, or main sleeps and can step once the clock is at most 10 ms on. |
| `AvProtocol.WaitIsBounded` | backend/src/av_sequence.cpp:19-24 | In every interleaving main tests the flag at most 102 times between the stamp and leaving the wait, with a sleep of 10 ms between tests. |
| `AvProtocol.TurnTaking` | backend/src/main.cpp:319-342 | Between any two waiting writes the reader cleared the flag after main raised it, or more than 1000 ms passed. |
| `AvProtocol.ProgressMonotone` | backend/src/main.cpp:88-93 | Over a run the broadcast flags only rise, pre-launch is never re-entered, and only three of the six states occur. |
| `AvProtocol.NoSecondRise` | backend/src/main.cpp:313-315 | Once the computed broadcast bit was true and then false it stays false. |
| `AvProtocol.AtMostOneMoreBroadcast` | backend/src/main.cpp:313-363 | After the acknowledgement is recorded at most one more frame carries the broadcast byte. |
| `GcsState.SharedGcsState.SetPendantReceived` | backend/src/gcs_process_data.cpp:33-39 | The new state of the shared model; notifies exactly when the version moved. |
| `GcsState.SharedGcsState.PendantNoDataPolled` | backend/src/gcs_process_data.cpp:8-46 | Falls back from 5000 ms of silence on, warns at most every 10000 ms, keeps the history invariant. |
| `GcsState.SharedGcsState.SetWebsocketReceived` | backend/src/gcs_process_data.cpp:48-54 | Strips the prefix byte and sets the command: 123 camera on, 100 camera off, 0xFF manual control on, 0 off, unknown for every other; keeps the history invariant. |
| `GcsState.SharedGcsState.SetManualControlMode` | backend/src/gcs_process_data.cpp:63-71 | Switches the payload in force; a repeated mode changes nothing. |
| `GcsState.SharedGcsState.GetGsePayloadSnapshot` | backend/src/gcs_process_data.cpp:86-95 | A snapshot is the history entry its version names. |
| `GcsState.RunKeepsHistory` | backend/src/gcs_process_data.cpp:98-107 | Over any run history has version + 1 entries, neighbours differ, the last is in force, and old entries stay. |
| `GcsState.RunHears` | backend/src/gcs_process_data.cpp:173-197 | Web commands and mode switches between listen iterations do not affect what the pendant payload becomes. |
| `GcsState.DeadManBound` | backend/src/gcs_process_data.cpp:8-46 | In either mode, with iterations at most P ms apart the pendant payload is the fallback, or the newest message less than 5000 + P ms old (empty before any); a message younger than 5000 ms is never replaced; only manual control puts another payload in force. |
| `GcsState.DeadManInForce` | backend/src/gcs_process_data.cpp:8-46 | On any run, with the newest message 5000 + P ms old, the pendant payload is the fallback, and that is the payload in force exactly when control is not manual or the web payload is the same. |
| `GcsState.PollInForce` | backend/src/gcs_process_data.cpp:8-46 | One poll puts the fallback in force under exactly that condition from 5000 ms of silence on, and changes nothing before. |
| `GcsState.StaleWebInForce` | backend/src/gcs_process_data.cpp:48-95 | A run from boot ends with the pendant payload fallen back and any given web payload in force under manual control. |
| `GcsState.ManualHasNoDeadMan` | backend/src/gcs_process_data.cpp:93-95 | Under manual control no silence of the pendant changes the payload in force. |
| `TcpLink.TcpInterface.Write` | backend/src/interfaces/tcp_interface.cpp:49-87 | With interrupted, short, zero and failed sends: the payload goes out whole exactly when the counts before the first failure, zero or end of the script reach its size, a short count comes from an earlier zero only, and the link is lost on an earlier failure or end only. |
| `TcpLink.InterruptsDoNotMatter` | backend/src/interfaces/tcp_interface.cpp:66-78 | A write comes to the same when every interrupted send is taken out. |
| `TcpLink.TcpInterface.EnsureConnectedOrRetry` | backend/src/interfaces/tcp_interface.cpp:178-198 | Ready exactly when connected, or due and connecting; a failure doubles the pause, a success resets it and the retry time. |
| `TcpLink.WriteInv` | backend/src/interfaces/tcp_interface.cpp:55-84 | Every write keeps the filter equal to the last frame on the wire and the starts of identical neighbours 500 ms apart, across reconnections. |
| `TcpLink.EndToStartExact` | backend/src/interfaces/tcp_interface.cpp:55-84 | From the end of a frame to a repetition the filter guarantees 500 ms exactly when sending the frame took no time. |
| `TcpLink.RepeatedAfterBlockedSend` | backend/src/interfaces/tcp_interface.cpp:55-84 | A first frame that blocks for 900 ms is repeated 5 ms after its end. |
| `TcpWriter.AcceptedIsLast` | backend/src/interfaces/tcp_interface.cpp:49-87 | On any run, after a write step that is accepted the last whole frame is the payload the writer holds. |
| `TcpLink.AcceptedOnThisConnection` | backend/src/interfaces/tcp_interface.cpp:55-62 | After an accepted write the last whole frame is the payload, and it was sent on the connection in use exactly when the filter did not skip it for a frame of an earlier one. |
| `TcpLink.SkippedAfterReconnect` | backend/src/interfaces/tcp_interface.cpp:55-62 | From a fresh link: sent, connection lost, reconnected within 500 ms, and accepted there without being sent. |
| `TcpLink.BackoffDoubles` | backend/src/interfaces/tcp_interface.cpp:192-196 | After k failures the pause is 250 ms doubled k times, at most 2 s, and attempts kept those distances. |
| `TcpLink.SuccessResets` | backend/src/interfaces/tcp_interface.cpp:171-174 | From any pause, a success starts the pauses over: lost at once, the next attempt is due immediately, and after k failures the pause is 250 ms doubled k times. |
| `TcpWriter.NeverSleepsPastAChange` | backend/src/main.cpp:168-176 | While the writer sleeps it holds the payload in force: no change is slept past. |
| `TcpWriter.ObservesHistoryInOrder` | backend/src/main.cpp:158-176 | Versions observed never decrease, and the payload held is the history entry of the version observed. |
| `TcpWriter.HeartbeatIsSent` | backend/src/main.cpp:180-184 | The resend after a timed-out wait is never suppressed: with the link up and sends that take the payload it reaches the wire, and it starts at least 500 ms after the last frame ended. |
| `TcpWriter.StartsAreSpaced` | backend/include/middleware_timing.hpp:37-41 | Over any run identical consecutive frames start at least 500 ms apart. |
| `TcpWriter.RepetitionGap` | backend/src/main.cpp:168-184 | A repetition less than 500 ms after the end of the frame before it only follows a wake on a change, and a send that took time. |
| `TcpWriter.RepeatedSoonAfterItsEnd` | backend/src/main.cpp:168-184 | There is a run with such a repetition, 5 ms after the end. |
| `Downsampling.PartitionIntoWindows` | backend/simulation/run_simulation.py:111-147 | The windows are non-empty, concatenate to the table, start only beyond the reach of the one before, and are scored against its last row. |
| `Downsampling.PartitionUnique` | backend/simulation/run_simulation.py:111-147 | No other list of windows meets that description. |
| `Downsampling.Pick` | backend/simulation/run_simulation.py:153-153 | The earliest row of maximal importance. |
| `Downsampling.RemoveExtraPackets` | backend/simulation/run_simulation.py:150-154 | One row for each window, in order: its pick. |
| `Downsampling.AtMostTwoPerTimeout` | backend/simulation/run_simulation.py:134-146 | Any closed interval of one timeout length holds at most two selected rows. |
| `Downsampling.PickedState` | backend/simulation/run_simulation.py:89-108 | The selected state is the first state the window changes to, or the one before it. |
| `Downsampling.StoryKept` | backend/simulation/run_simulation.py:89-154 | The selection tells the same flight states, repeats removed, exactly when every window leaves at most one change behind and the next one then only repeats the last state. |
| `Downsampling.OneChangeIsKept` | backend/simulation/run_simulation.py:89-154 | So it does when the first window has one state and each later one, with the row before it, at most one change, which after a row of unknown state comes with the window's first row. |
| `Downsampling.ShortStateIsLost` | backend/simulation/run_simulation.py:102-106 | Two changes in one window lose the state between them. |
| `Downsampling.ChangeAfterUnknownIsLost` | backend/simulation/run_simulation.py:99-106 | One change, but inside the window after a row of unknown state, is lost. |
| `Replay.ReplayPackets` | backend/replay_system/replay_engine.py:61-127 | Sends exactly what the limiter passes of the packets dealt with, none before it is due, each less than one buffer late unless the sending before it was not over; all packets are dealt with unless a stop comes, and nothing is sent from the stop on. |
| `Replay.SleepChunks` | backend/replay_system/replay_engine.py:99-106 | The chunked sleep terminates, overshoots by less than a chunk, and is shorter than the wait only after a stop, which ends it with the chunk during which it comes. |
| `Replay.LimiterKeepsTurns` | backend/replay_system/replay_engine.py:80-90 | For each AV type the k-th packet sent, counting from zero, is due at least k intervals in. |
| `Replay.GreedyIsOptimal` | backend/replay_system/replay_engine.py:80-90 | No choice of packets that keeps those turns passes more. |
| `Replay.OptimalOnEveryPrefix` | backend/replay_system/replay_engine.py:76-90 | And so on every prefix of the packets. |
| `Replay.OthersPass` | backend/replay_system/replay_engine.py:80-90 | Packets of other types are never skipped. |
| `Replay.TurnIsMultiple` | backend/replay_system/replay_engine.py:85-90 | Turn k is k divided by the frame rate. |
| `Replay.BurstAfterQuiet` | backend/replay_system/replay_engine.py:66-90 | Any n packets from a given time on all pass, however close together, exactly when turn n - 1 is over by then. |
| `Replay.NextFrameIsApart` | backend/replay_system/replay_engine.py:80-90 | After the frames sent so far, every frame of the type that may pass next is due at least a given gap after the last exactly when its turn is; so a gap of one interval is certain exactly when the last frame was due at its own turn. |
| `Replay.AllPass` | backend/replay_system/replay_engine.py:80-90 | Nothing is skipped exactly when the frames of both AV types are in turn. |
| `Replay.BurstAtRate` | backend/replay_system/replay_engine.py:80-90 | In terms of the frame rate: any n packets from a time on all pass exactly when n - 1 is at most that time multiplied by the rate. |
| `Replay.PairTogether` | backend/replay_system/replay_engine.py:80-90 | Two frames of a type due together break the limit exactly when they come at least one interval into the mission. |
| `Replay.FirstFramesAreNotLimited` | config/replay.ini:1-10 | From the documented start, at the configured rate, any 42001 packets all pass, 42002 need not, and two frames of a type due together break the limit. |
| `Pendant.PendantState.constructor` | backend/includes_python/devices/pendant_state.py:84-97 | Every input gets a value, and missing inputs are released. |
| `Pendant.PendantState.GetGseStates` | backend/includes_python/devices/pendant_state.py:189-217 | For any condition table, the nested loops with early return give only the system state if any demanded state clashes, and otherwise each state by its own demands. |
| `Pendant.RealClashes` | backend/includes_python/devices/pendant_state.py:112-184 | The real table clashes exactly when fill and ignition sides, or N2O and purge, are mixed with the system on. |
| `Pendant.RealTable` | backend/includes_python/devices/pendant_state.py:112-217 | What the real table gives is the plain interlock's command byte. |
| `Pendant.EmitCommand` | backend/pendant_daemon.py:99-119 | The frame sent for a pendant position is the identifier, the interlock's byte, its complement and zero. |
| `Pendant.Interlock` | backend/includes_python/metric.py:402-501 | For every position: complementary bytes, fill and ignition sides never together, N2O and purge never together, fill mode with exactly one valve position, nothing without the system. |
| `Pendant.OnlyWhatIsHeld` | backend/includes_python/devices/pendant_state.py:112-160 | Nothing is actuated whose inputs are not held. |
| `Pendant.StopIsFallback` | backend/include/gcs_process_data.hpp:35-36 | The frame is the server's dead-man frame exactly when the emergency stop is held or the system is not active. |
| `Pendant.SparesIgnoreTheStop` | backend/includes_python/devices/pendant_state.py:112-166 | Under the emergency stop F9 to F12 follow their keys and every other state is off; so everything is off exactly when the system is inactive or none of the four keys is held. |
| `EventStream.ViewEvents` | backend/event_viewer.py:1062-1096 | Every body is decoded under the message directly before it and one of the identifiers 3 to 7, and of a published stream exactly the pairs in step are. |
| `EventStream.DecodesUnderItsIdentifier` | backend/event_viewer.py:1067-1092 | On any stream a body is decoded only under the message directly before it, and no message serves twice. |
| `EventStream.DecodesPairsInStep` | backend/event_viewer.py:1062-1096 | Without a silence inside a pair, exactly the pairs under the identifiers 3 to 7 that an even number of lone identifiers comes directly before are decoded; a pair under any other identifier yields nothing. |
| `EventStream.LossesAreBounded` | backend/event_viewer.py:1077-1083 | At least pairs under those identifiers minus lone identifiers are decoded. |
| `EventStream.EmulatedFramesAreViewed` | backend/event_viewer.py:1054-1092 | The identifiers of both AV frames the emulator builds are among the five, so their bodies are decoded. |

## Left out

- ByteParsing.SignExtend: the mask is computed modulo 2^32; at width 31 the source's signed arithmetic overflows, which C++ leaves undefined.
- PayloadParsing.ParseAvToGcsData1: demands all 39 bytes it reads (the receive guard checks 32, the reader's buffer is 1024 bytes long), and keeps raw integers: the scaling of accelerations and rates to floats is not modelled.
- PayloadParsing.ParseAvToGcsData2: demands all 35 bytes it reads, and leaves the packet's flight state unset, as the constructor does.
- UartText.ReadData: takes the text that one read gave; a failed read, whose count of -1 the source uses unchecked, is not modelled.
- AvSequencing.AvSequenceLock.Lock: a call that would block for ever is excluded. The mutex is one bit that either thread may clear, clear or not; C++ leaves an unlock from another thread undefined.
- Feather.UartFeatherInterface.AtSendCommand: the clock is the number of polls given, and a write error that throws is not modelled.
- GcsState.SharedGcsState.SetPendantReceived: versions are unbounded; the source's 64-bit counter wraps.
- TcpLink.TcpInterface.Write: sends, connects and clocks are inputs; a script of sends that ends early counts as a failure.
- TcpWriter.StartsAreSpaced: for one writer on the link, as when the AV interface is not the GSE interface.
- Downsampling.StoryKept: times and products are exact reals, and not-a-number states are one value with missing ones.
- Replay.ReplayPackets: requires a positive buffer and rate (a zero buffer would sleep for ever); clocks and sleeps are exact, and a stop is seen from one moment on.
- Pendant.PendantState.constructor: a key that is not an input is a type error here and a TypeError there; the shared fallback dictionary is returned by value.
- Threads: steps are sequentially consistent; weak-memory effects on the plain flags are not modelled.
- Floats: opaque words except where integers are cast; scaling of accelerations and rates, Mach numbers and other floating-point arithmetic are not modelled.
- The camera commands: a one-byte web command leaves an empty payload, which the main loop skips, so no effect of it is claimed.
- The E5 reader: it keeps only the last payload of a read and call-local metrics, so neither chunk independence nor freedom from loss holds; only its hex decoding is modelled.
- AV data 3 and the GSE data packets: further uses of the same parser; the load-cell error getters of GSE data 1 are crossed in the source.
- The frontend API reader: it does not check an identifier's length, so resynchronisation is not claimed for it.
- Sockets, serial ports, ZeroMQ, protobuf, logging, lock files, the web frontend, input devices, subprocesses and flight physics: input and output are parameters.

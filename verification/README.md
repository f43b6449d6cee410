# Verification of the garage-door bus bridge and its bench tools

The repository connects a garage door's MODBUS-like bus to a home controller and carries the tools to test
that on the bench. This project models the parts of it that have to be right over whole runs, and proves that
they are:

- `Crc16`, `Crc8`: the two checksums, against their polynomials, with the damage they are sure to notice;
  `ChipFrames`: the literal and recorded frames they accept.
- `Framing`, `Protocol`, `MasterFrames`: cutting a byte stream into frames, and the frame builders it inverts.
- `Uart`, `UartFaults`, `UartLine`, `LaDecoder`, `GateWindows`, `Latency`, `ResponseWindows`, `AllPaired`,
  `MeasuredTimes`: the logic-analyser decoder, from sampled levels to matched polls and responses and the latencies
  between them.
- `ProtocolLog`, `LogRing`, `LogHistory`, `LogStream`, `LogReaders`, `LogWrap`, `LogPush`: the circular protocol
  log, what it retains after any history, its cursor reader before and after its numbers wrap, and the encoding of
  what is pushed to a browser.
- `UhciRx`: ownership of the DMA receive buffers between an interrupt callback and a task.
- `MasterChip`, `VirtualMaster`, `ChipReceiver`, `MasterRuns`, `MasterScript`, `MasterReceives`,
  `MasterProgress`: the emulated bus master.
- `Continuity`, `Obstruction`: the health verdict and the obstruction latch, as properties of their histories.
- `HcpDecoder`: the proxy client's bounded-window frame finder.
- `QrTimecode`, `Sequencer`, `CaptureStory`: the video capture's timecode and its action sequencer.
- `Sequences`, `Options`, `Words`: shared definitions.

Code that changes state in place is modelled by classes and methods whose postconditions give the new state as
a function of the old one; the theorems are about those functions. `dafny verify dfyconfig.toml` checks all of
it.

Where the code falls short of what it is for, the project says exactly when:

- The continuity span wraps with the 32-bit clock and does not begin on a clock reading of zero, so that with an
  old diagnostic present health is lost for three seconds every 2^32 ms (`Continuity.PromiseIsExact`).
- A bus that has been silent for some 36 minutes counts as online again for as long, because the age of the last
  poll is compared in 32 bits (`Continuity.OnlineIsExact`).
- The obstruction latch forgets an OPEN or HALF command as soon as another button is commanded, and one given at
  clock reading zero, and takes one for recent again half a turn of the clock later (`Obstruction.LatchIsExact`).
- A gate channel that is high at its first reading, but not read in the first sample, has no window
  (`GateWindows.WindowsAreHigh`).
- Delivery is exactly-once for the first 2^32 - 2 lines after a clear (`LogStream.StreamIsExactlyOnce`). Once the
  sequence numbers have wrapped, a reader that lacks something is sent every line from before number zero again as
  long as the log retains any, and number zero again until a line behind it is sent with it. A reader still behind
  the wrap is sent what is retained from the first line on, number zero left out, and loses number zero with the
  first line behind it; if number zero is the last one written, it is sent nothing and loses all it lacked.
  `LogWrap.ReadIsExact` has the exact conditions.

The branch of the latency summary for a matched response without byte times is dead code: no window that passes
the CRC lacks them (`ResponseWindows.ResponsesAreTimed`).

Assumptions: a buffer handed to the UHCI driver gets one callback, and arming succeeds exactly when nothing is
armed; a byte on the line while no buffer is armed is up to the UART and its driver, and no event of the model;
sequence-number allocation and append are one step of one writer in `LogStream` and `LogWrap`; sample times are
exact reals; the UART's answer to a write, clock readings and everything other tasks do are inputs.

## Model

| member | source | states |
|---|---|---|
| `Crc16.Crc16Modbus` | tools/supramatic_sim/protocol.py:42-52 | the nested bit loop computes the MODBUS CRC-16 of the whole message |
| `Crc16.CrcIsSerial` | tools/supramatic_sim/protocol.py:42-52 | the byte-wise register equals a one-bit-at-a-time serial circuit fed the message bits, low bit first |
| `Crc16.AppendedResidue` | tools/supramatic_sim/protocol.py:55-61 | a payload with its CRC appended always passes the check, whatever its length |
| `Crc16.CrcOkIffAppended` | tools/supramatic_sim/protocol.py:55-61 | the check passes exactly for frames that are some payload with its own CRC appended |
| `Crc16.BurstDetected` | emulation/wokwi/supramatic4.chip.c:76-89 | two different messages of equal length that agree outside 16 consecutive bits never share a CRC |
| `Crc16.AdjacentBytesDetected` | emulation/wokwi/supramatic4.chip.c:76-89 | any change confined to one byte or two adjacent bytes of a valid frame fails the check |
| `ChipFrames.ScanRequestIsBuilt` | emulation/wokwi/hcp2_protocol.h:13 | the literal scan request passes the CRC check and is the frame the bench builds |
| `ChipFrames.ScanResponseIsBuilt` | emulation/wokwi/hcp2_protocol.h:16 | so does the literal scan response, with its ten signature bytes |
| `ChipFrames.LightCommandIsBuilt` | emulation/wokwi/hcp2_protocol.h:31 | so does the literal light command |
| `ChipFrames.LightResponseIsBuilt` | emulation/wokwi/hcp2_protocol.h:34 | so does its literal response |
| `ChipFrames.BroadcastClosedIsBuilt` | emulation/wokwi/hcp2_protocol.h:22 | so does the literal broadcast of a closed door |
| `ChipFrames.BroadcastOpeningIsBuilt` | emulation/wokwi/hcp2_protocol.h:25 | of an opening door |
| `ChipFrames.BroadcastOpenIsBuilt` | emulation/wokwi/hcp2_protocol.h:28 | and of an open one |
| `ChipFrames.OpeningIsBuilt` | emulation/wokwi/supramatic4.chip.c:159-182 | the opening broadcast of every cycle is the frame the bench builds for a door twelve steps further per cycle, up to 200 |
| `ChipFrames.StatusPollIsBuilt` | tests/hcp2/vectors/reference_frames.jsonl:3 | a poll recorded from a real bus is what the chip and the bench send for its counter |
| `ChipFrames.StatusResponsePasses` | tests/hcp2/vectors/reference_frames.jsonl:4 | a recorded status response passes the CRC check |
| `Framing.DrainConserves` | tools/hcp2_hil_la.py:624-646 | items in frames, skipped items and held items together are the input, in order |
| `Framing.EachIsWhole` | tools/hcp2_hil_la.py:620-656 | feeding item by item yields the chunks of framing the whole stream at once |
| `Framing.SentFramesAreReceived` | tools/hcp2_hil_la.py:620-656 | well-formed frames sent back to back come out exactly as sent, nothing held back |
| `MasterFrames.MasterIsDecisive` | tools/hcp2_hil_la.py:510-528 | the length question is answered within 32 bytes, never revised, and the same for the frame on its own |
| `MasterFrames.LengthIsTold` | tools/hcp2_hil_la.py:510-528 | a request of function 0x10 tells its length in its seventh byte, one of 0x17 in its eleventh, up to 32 bytes; until then more is needed |
| `MasterFrames.KindsAreHeads` | tools/hcp2_hil_la.py:531-556 | any frame, built or not, is recognised exactly if it has the builder's head and length, and a broadcast by its first two bytes |
| `MasterFrames.BuiltFrame` | tools/supramatic_sim/protocol.py:64-175 | every built request announces its own length, passes the CRC and is recognised with its kind and counter |
| `MasterFrames.FramerInvertsBuilders` | tools/hcp2_hil_la.py:510-556 | for every list of built requests the framer emits exactly those frames, in order, with good CRC, right kind and original counter |
| `MasterFrames.FramerConserves` | tools/hcp2_hil_la.py:620-656 | on arbitrary bytes nothing is lost or reordered and fewer than 32 bytes are held |
| `Uart.TransitionEdges` | tools/hcp2_hil_la.py:401-412 | the scan finds exactly the level changes, skipping samples without a reading, and fails exactly for a capture without the channel |
| `Uart.LevelAtTime` | tools/hcp2_hil_la.py:391-398 | the backward search from the bisection point finds the latest known level |
| `Uart.EdgesAreChanges` | tools/hcp2_hil_la.py:401-412 | the edges are exactly the readings that differ from the reading before, in order |
| `Uart.DecodeUartByte` | tools/hcp2_hil_la.py:559-598 | start, data, parity and stop slots are read at their centres; what is reported is stated by the next three rows |
| `UartFaults.ErrorsAreExact` | tools/hcp2_hil_la.py:559-598 | over the eleven slot levels: each error is reported exactly if its slot shows that fault, parity being the number of ones over data and parity; the byte is the data bits, low bit first |
| `UartFaults.CleanIsProper` | tools/hcp2_hil_la.py:559-598 | no error exactly if start is low, data and parity are read, the number of ones is even and stop is high |
| `UartFaults.NoiseIsFlagged` | tools/hcp2_hil_la.py:559-598 | one flipped data or parity slot of a correctly sent byte is reported as a parity error and nothing else |
| `UartFaults.StartsAreExact` | tools/hcp2_hil_la.py:430-453 | a byte starts exactly at a falling edge behind the cursor and within the window at which no byte is on, a byte being on for eleven bit times less a quarter |
| `UartLine.EightSamplesPerBit` | tools/hcp2_hil_la.py:25-29 | eight samples per bit and up to one percent baud mismatch meet the timing the decoder needs |
| `UartLine.StartsFound` | tools/hcp2_hil_la.py:430-470 | on a captured line the cursor scan finds every start bit, late by at most one sample, and nothing else |
| `UartLine.ByteRead` | tools/hcp2_hil_la.py:559-598 | a byte sent as 8E1 is read back without an error flag when its start is seen at most one sample late |
| `UartLine.BytesRead` | tools/hcp2_hil_la.py:415-507 | every list of bytes sent as 8E1 frames, back to back or spaced, is decoded to exactly those bytes without errors, with any samples that lack a reading in between |
| `LaDecoder.DecodeWindow` | tools/hcp2_hil_la.py:430-490 | the cursor loop over edges reads the bytes at the start edges of one gate window |
| `LaDecoder.DrainBuffer` | tools/hcp2_hil_la.py:624-656 | the inner loop cuts off whole frames and drops single bytes as the framing specification does |
| `LaDecoder.DecodeUartStream` | tools/hcp2_hil_la.py:601-656 | edges to bytes to frames: the report is that of framing the whole byte stream |
| `LaDecoder.RequestsAreDecoded` | tools/hcp2_hil_la.py:601-656 | end to end: any list of built requests sent as sampled 8E1 bytes is decoded to exactly those requests, each byte with the time it was sent, late by less than the edge gap |
| `LaDecoder.WindowIsDecoded` | tools/hcp2_hil_la.py:415-507 | a gate window yields exactly the bytes sent inside it, without errors |
| `GateWindows.HighWindows` | tools/hcp2_hil_la.py:316-338 | the scan closes a window at each fall of the gate and at the end of the capture, and fails exactly for a capture without the gate |
| `GateWindows.WindowsAreHigh` | tools/hcp2_hil_la.py:316-338 | a time lies in a window exactly if the gate is high then and its level was read from the start or seen low before |
| `GateWindows.WindowsAreRuns` | tools/hcp2_hil_la.py:316-338 | each window begins at the first sample or a reading that rises, ends at the first low reading behind or the last sample, and there is one for each such beginning, in order |
| `GateWindows.LateReadingIsMissed` | tools/hcp2_hil_la.py:316-338 | without that, concretely: a gate first read high after the first sample has no window |
| `Latency.LatestEligible` | tools/hcp2_hil_la.py:793-805 | the maximum search returns the latest pending poll that ends before the response starts |
| `Latency.MatchStatusPairs` | tools/hcp2_hil_la.py:789-833 | the loop over responses with its table of pending polls computes the greedy matching |
| `Latency.LatestIsTaken` | tools/hcp2_hil_la.py:793-805 | each response takes, of the polls with its counter that end no later than it starts and are not taken yet, the one that ends last; none exactly if there is none |
| `Latency.PairsAreInjective` | tools/hcp2_hil_la.py:789-833 | no poll or response is used twice, and each pair shares a counter with the poll ending first |
| `ResponseWindows.DecodeUartWindows` | tools/hcp2_hil_la.py:415-507 | the loop over gate windows reports bytes, times, CRC verdict, kind and counter of each, and fails exactly without the gate or the signal |
| `ResponseWindows.WindowsAreDecoded` | tools/hcp2_hil_la.py:415-507 | over a whole capture each gate window reports exactly the bytes sent while it was open, without errors |
| `ResponseWindows.ResponsesAreTimed` | tools/hcp2_hil_la.py:477-500 | a window that passes the CRC has bytes, so every status response carries both of its times |
| `ResponseWindows.SummarizeResponseLatencies` | tools/hcp2_hil_la.py:746-833 | for every capture: pairs plus unmatched polls is the number of polls, pairs plus unmatched responses the number of responses |
| `Latency.GreedyIsUnique` | tools/hcp2_hil_la.py:789-833 | the matching is determined by the frame lists |
| `Latency.PairingIsMaximal` | tools/hcp2_hil_la.py:789-833 | for responses in time order no legal matching pairs more polls of any counter |
| `AllPaired.ScanReplyIsRecognised` | tools/supramatic_sim/protocol.py:91-92 | a built scan response is recognised as such and carries no counter |
| `AllPaired.CommandReplyIsRecognised` | tools/supramatic_sim/protocol.py:141-154 | a built command response is recognised with its counter |
| `AllPaired.StatusReplyIsRecognised` | tools/supramatic_sim/protocol.py:190-206 | sixteen data bytes behind the response head are recognised as a status response with its counter |
| `AllPaired.KindsAreCounts` | tools/supramatic_sim/protocol.py:190-206 | any frame is judged by its function byte and byte count alone: 10 a scan response, 16 a status response, 4 a command response |
| `AllPaired.PollsAreClean` | tools/hcp2_hil_la.py:774-778 | the polls of the summary are exactly the frames that are checked, without a faulty byte, status polls and have a counter |
| `AllPaired.RepliesAreClean` | tools/hcp2_hil_la.py:779-783 | the responses of the summary are exactly such windows |
| `AllPaired.EveryPollIsPaired` | tools/hcp2_hil_la.py:746-833 | end to end: of sampled polls, each answered by a status response in a gate window of its own, every one is paired with its own answer and nothing is left unmatched |
| `MeasuredTimes.ResponseTimesAreTrue` | tools/hcp2_hil_la.py:477-507 | over a whole capture: a window with bytes is reported with its own times, the start of its first byte and the end of its last, late by less than a sampling gap |
| `MeasuredTimes.LatenciesAreTrue` | tools/hcp2_hil_la.py:746-833 | end to end: the latencies from the end of a poll to the first byte and to the end of its response are those on the line, to less than a sampling gap |
| `LogRing.ProtocolLogRing.constructor` | components/hcp2bridge/hcp2bridge.cpp:650-664 | an empty log with sequence number 1, already enabled or not |
| `LogRing.ProtocolLogRing.ClearLog` | components/hcp2bridge/hcp2bridge.cpp:655-664 | the cleared ring is the cleared log |
| `LogRing.ProtocolLogRing.DiscardOldestLine` | components/hcp2bridge/hcp2bridge.cpp:666-682 | the ring drops exactly the first line of its contents and counts it |
| `LogRing.ProtocolLogRing.Append` | components/hcp2bridge/hcp2bridge.cpp:684-710 | the circular write with its eviction loop refines appending to a list of bytes, and terminates |
| `LogRing.ProtocolLogRing.Body` | components/hcp2bridge/hcp2bridge.cpp:978-998 | the copy is the front of what the log holds at the second look, as long as what it held at the first |
| `LogStream.BodyIsLines` | components/hcp2bridge/hcp2bridge.cpp:978-998 | without eviction in between the copy is the log at the first look; in any case whole lines of the second and the beginning of one more, absent exactly if the first length ends a line or covers all |
| `LogRing.ProtocolLogRing.BodySince` | components/hcp2bridge/hcp2bridge.cpp:1025-1092 | with arbitrary writes between its critical sections the reader returns what the specification of a cursor read says |
| `LogRing.PickLines` | components/hcp2bridge/hcp2bridge.cpp:1067-1087 | the character scan picks whole lines from the cursor on within the size limit |
| `ProtocolLog.ReadLineSeq` | components/hcp2bridge/hcp2bridge.cpp:1008-1023 | the digit loop reads the number printed at the front of a line, modulo 2^32 |
| `LogHistory.KeepIsLongest` | components/hcp2bridge/hcp2bridge.cpp:684-710 | eviction cuts at a line boundary and one line more would not have fitted |
| `LogHistory.EvictsLines` | components/hcp2bridge/hcp2bridge.cpp:666-699 | the eviction loop removes the minimal number of oldest lines and counts exactly those |
| `LogHistory.RunAccounts` | components/hcp2bridge/hcp2bridge.cpp:655-710 | after any history the contents are the longest fitting suffix of the accepted lines and the counters hold the rest |
| `LogHistory.BooksBalance` | components/hcp2bridge/hcp2bridge.cpp:655-710 | used plus dropped equals everything offered since the last clear, in bytes and in records |
| `LogStream.ParseInvertsDecimal` | components/hcp2bridge/hcp2bridge.cpp:1015-1022 | reading inverts printing for every 32-bit sequence number |
| `LogStream.RecordSeq` | components/hcp2bridge/hcp2bridge.cpp:712-721 | a printed line yields its own number again |
| `LogStream.AfterAllIsRun` | components/hcp2bridge/hcp2bridge.cpp:712-754 | one-writer events are runs of the ring operations number allocation and append |
| `LogStream.WriteKeeps` | components/hcp2bridge/hcp2bridge.cpp:684-728 | a write stores its line in order behind what eviction leaves, under the next number |
| `LogStream.ReadTakes` | components/hcp2bridge/hcp2bridge.cpp:1025-1092 | one read takes a block of whole retained lines from the first unseen one, within the limit or a single line, and moves the cursor behind it |
| `LogStream.ReadDelivers` | components/hcp2bridge/hcp2bridge.cpp:1025-1092 | one read extends what was delivered by one block and skips no retained line, with writes between its critical sections |
| `LogStream.StreamIsExactlyOnce` | components/hcp2bridge/hcp2bridge_http_debug.cpp:1421-1425 | over any run of writes, reads, clear requests and connections: the lines sent since the last clear or connection are genuine, whole and strictly increasing, and every retained line the cursor has passed is among them |
| `LogStream.ReadProgresses` | components/hcp2bridge/hcp2bridge.cpp:1025-1092 | an undisturbed read is empty exactly when the reader has every retained line |
| `LogStream.ClearDelivers` | components/hcp2bridge/hcp2bridge_http_debug.cpp:1543-1551 | a clear request starts log and reader anew: nothing sent yet, nothing skipped |
| `LogReaders.ClearLeavesItsLine` | components/hcp2bridge/hcp2bridge_http_debug.cpp:1543-1551 | a clear request leaves its own control line, number 1, as the only one, on or off |
| `LogStream.ConnectDelivers` | components/hcp2bridge/hcp2bridge_http_debug.cpp:1637-1640 | a reader that connects starts at the next number with nothing skipped from there |
| `LogReaders.NewReaderSeesLater` | components/hcp2bridge/hcp2bridge_http_debug.cpp:1637-1640 | a reader that connects in any run is sent only lines written later, and misses none of those it has passed |
| `LogReaders.RunKeepsSwitch` | components/hcp2bridge/hcp2bridge.cpp:655-664 | over any run the log obeys the last switching or its first setting, and stays ready: clears and writes change neither |
| `LogReaders.StoredIfFits` | components/hcp2bridge/hcp2bridge.cpp:684-710 | a line is stored as the last one exactly if forced or the log is on, and it is shorter than 48 KiB; a longer one is counted, a refused one leaves no trace |
| `LogReaders.NumbersStandInFront` | components/hcp2bridge/hcp2bridge.cpp:1008-1023 | the number of a line is read behind its opening seq key, and only there |
| `LogWrap.RunRetains` | components/hcp2bridge/hcp2bridge.cpp:684-728 | after any writes, however often the numbers wrap, the log retains lines in the order written, each carrying its index modulo 2^32 |
| `LogWrap.StreamRetains` | components/hcp2bridge/hcp2bridge.cpp:684-728 | so does the log of every stream delivered so far, whatever is written to it from then on |
| `LogWrap.ReadSends` | components/hcp2bridge/hcp2bridge.cpp:1025-1092 | for every log, cursor and writes in between: where a read really starts (at the cursor, at 1, or not at all), that it skips every number below that, sends as many of the rest as fit, and where it leaves the cursor |
| `LogWrap.ReadIsExact` | components/hcp2bridge/hcp2bridge.cpp:1025-1092 | for every next number and every reader less than a turn behind: a read sends a line twice, or passes one over, exactly under the stated conditions, and otherwise sends exactly what is retained between its places before and after |
| `LogWrap.WrapRepeats` | components/hcp2bridge/hcp2bridge.cpp:1038-1092 | concretely, after 2^32 writes to an empty log: a reader that had all before number zero is sent some of it again |
| `LogWrap.WrapLoses` | components/hcp2bridge/hcp2bridge.cpp:1062-1070 | concretely, there: a reader that lacks two retained lines is sent nothing and set behind them |
| `LogPush.WriteJsonString` | components/hcp2bridge/hcp2bridge_http_debug.cpp:1679-1713 | the escaping loop writes the JSON string of a text |
| `LogPush.JsonRoundTrip` | components/hcp2bridge/hcp2bridge_http_debug.cpp:1679-1713 | a reader after RFC 8259 section 7 gets back every byte and the text behind the string |
| `LogPush.FrameRoundTrip` | components/hcp2bridge/hcp2bridge_http_debug.cpp:1647-1663 | a payload is refused exactly if empty or over 65535 bytes, else a reader after RFC 6455 section 5.2 gets it back |
| `LogPush.PushIsLossless` | components/hcp2bridge/hcp2bridge_http_debug.cpp:1665-1670 | a pushed log chunk arrives byte for byte |
| `LogPush.StreamOfPushes` | components/hcp2bridge/hcp2bridge_http_debug.cpp:1422-1430 | a client reads back every chunk pushed, in order |
| `LogPush.PushIsNeverRefused` | components/hcp2bridge/hcp2bridge_http_debug.cpp:1422-1430 | if every line is at most 2047 bytes no chunk of a read is refused for its size |
| `UhciRx.ReceiveIsSafe` | components/hcp2bridge/hcp2bridge_backend_esp32_realtime.cpp:168-245 | in every interleaving: bytes parsed are the bytes that arrived in armed buffers, in order, a transfer over 64 bytes being cut there and marked; parsed buffer is never the armed one, at most two busy, queue at most one, a free buffer found by the second try, nothing starved, always armed or about to be |
| `UhciRx.ParsedIsOnTheLine` | components/hcp2bridge/hcp2bridge_backend_esp32_realtime.cpp:201-245 | in terms of the steps alone: the engine is given the bytes between callbacks, the first 64 of each transfer and marked if there were more, in order, all of them once the task is idle |
| `UhciRx.Receiver.constructor` | components/hcp2bridge/hcp2bridge.h:412-417 | four buffers of their own, all free, nothing armed or queued |
| `UhciRx.Rearms` | components/hcp2bridge/hcp2bridge_backend_esp32_realtime.cpp:847-892 | with nothing armed the task arms a buffer within 72 of its own steps |
| `UhciRx.ScanIsStart` | components/hcp2bridge/hcp2bridge_backend_esp32_realtime.cpp:168-199 | undisturbed micro-steps of a scan add up to one arming attempt |
| `UhciRx.CompleteIsCallback` | components/hcp2bridge/hcp2bridge_backend_esp32_realtime.cpp:201-245 | the callback step is the callback function |
| `UhciRx.FailureCountsOnce` | components/hcp2bridge/hcp2bridge_backend_esp32_realtime.cpp:847-885 | each failed attempt to arm is counted once, but for one behind a good event, which is tried again and counted then |
| `UhciRx.StrayTransfer` | components/hcp2bridge/hcp2bridge_backend_esp32_realtime.cpp:201-245 | a transfer into memory that is none of the four buffers is counted and leaves buffers and queue alone |
| `UhciRx.FindFreeIsComplete` | components/hcp2bridge/hcp2bridge_backend_esp32_realtime.cpp:172-179 | the four-step round robin fails exactly when all buffers are busy, wherever the index stands |
| `UhciRx.Receiver.StartRx` | components/hcp2bridge/hcp2bridge_backend_esp32_realtime.cpp:168-199 | the arming code with its search loop does what the attempt function says, on success and on failure |
| `UhciRx.Receiver.RxCallback` | components/hcp2bridge/hcp2bridge_backend_esp32_realtime.cpp:201-245 | the callback with its address search queues the event, or counts a starvation |
| `VirtualMaster.ChipState.constructor` | emulation/wokwi/supramatic4.chip.c:451-507 | power-on: zero attributes mean the defaults, an unknown mode means steady |
| `VirtualMaster.ChipState.PutVerdict` | emulation/wokwi/supramatic4.chip.c:119-131 | one verdict only |
| `VirtualMaster.ChipState.Broadcast` | emulation/wokwi/supramatic4.chip.c:159-182 | the broadcast of the cycle, with the opening position in 32-bit arithmetic |
| `VirtualMaster.ChipState.Poll` | emulation/wokwi/supramatic4.chip.c:214-238 | poll, light command or fault probe, whichever is due |
| `VirtualMaster.ChipState.Finish` | emulation/wokwi/supramatic4.chip.c:269-298 | the chain of final checks gives the deserved verdict |
| `VirtualMaster.ChipState.ProcessResponse` | emulation/wokwi/supramatic4.chip.c:316-352 | what a received frame does in each phase |
| `VirtualMaster.ChipState.OnUartRxData` | emulation/wokwi/supramatic4.chip.c:354-388 | the byte handler with its shifting buffer refines framing on a sequence, and its loop terminates |
| `VirtualMaster.ChipState.OnTimerExpiry` | emulation/wokwi/supramatic4.chip.c:406-449 | what a timer expiry does in each phase |
| `ChipReceiver.OneFramePerByte` | emulation/wokwi/supramatic4.chip.c:354-388 | a byte completes at most one frame, which then is the whole buffer; the buffer stays below 32 bytes, so no overflow shift happens |
| `ChipReceiver.StreamIsProcessed` | emulation/wokwi/supramatic4.chip.c:354-388 | on arbitrary bytes the chip acts on exactly the frames of the whole stream |
| `ChipReceiver.ResponsesAreSeenOnce` | emulation/wokwi/supramatic4.chip.c:354-388 | any concatenation of well-formed responses is processed frame by frame, each once, in order |
| `ChipReceiver.WellFormedResponse` | emulation/wokwi/supramatic4.chip.c:354-375 | the frames the chip takes: from the slave, of function 0x17, 5 to 32 bytes, as long as the third byte says |
| `ChipReceiver.BuiltScanResponse` | tools/supramatic_sim/protocol.py:91-92 | built scan responses are well-formed for the chip |
| `ChipReceiver.BuiltCommandResponse` | tools/supramatic_sim/protocol.py:141-154 | built command responses are well-formed for the chip |
| `MasterRuns.InitPowersOn` | emulation/wokwi/supramatic4.chip.c:484-506 | power-on yields a usable configuration and empty books: modes 1 to 4, 200 cycles and five misses for an attribute of zero |
| `MasterRuns.StepKeeps` | emulation/wokwi/supramatic4.chip.c:214-449 | every event keeps the accounting: cycles, polls, misses below the threshold, detours, one verdict exactly in the final phases |
| `MasterRuns.RunKeeps` | emulation/wokwi/supramatic4.chip.c:240-267 | in every run the counters are what the list of outcomes says, a reply being the byte that completes a valid status response to an awaited poll, a miss the timer expiring on one: totals, longest and current run of misses, recovery |
| `MasterRuns.OkIsSound` | emulation/wokwi/supramatic4.chip.c:269-298 | an OK verdict means: some event answered the scan, all polls of the target are settled by replies and expiries, outcomes as the mode demands, some event answered the light command, the damaged poll was met with silence and never answered |
| `MasterRuns.VerdictIsExact` | emulation/wokwi/supramatic4.chip.c:269-298 | a run that settled all its polls has a verdict, OK exactly if the events fulfil these conditions |
| `MasterRuns.RunMarks` | emulation/wokwi/supramatic4.chip.c:316-352 | over every run from power-on: scan answered, command replies, silences kept and intrusions are exactly the events that did so: the byte that completes the scan response, or the light response, in the phase that waits for it, and so on |
| `MasterScript.SentIsScript` | emulation/wokwi/supramatic4.chip.c:146-238 | over every run the frames sent are scan requests and then the script of the cycles, a broadcast and a poll each, with the light command or the damaged poll once in the third cycle |
| `MasterReceives.AnswersAreRecent` | emulation/wokwi/supramatic4.chip.c:146-238 | over every run the receive buffer holds what framing leaves of the bytes since the chip last asked for something: none from before a poll, none behind it lost |
| `MasterReceives.ScanIsRepeated` | emulation/wokwi/supramatic4.chip.c:406-420 | while nothing has answered the scan, every other expiry sends the scan request again, and nothing else |
| `MasterProgress.TimerWorks` | emulation/wokwi/supramatic4.chip.c:406-449 | every timer expiry after the scan lowers the work left |
| `MasterProgress.ProcessWorks` | emulation/wokwi/supramatic4.chip.c:316-352 | every accepted response lowers it, any other changes nothing |
| `MasterProgress.VerdictComes` | emulation/wokwi/supramatic4.chip.c:406-449 | after the scan a verdict is out within 3 * cycles + 3 expiries, the scan phases never return, the timer runs until then |
| `MasterProgress.VerdictIsFinal` | emulation/wokwi/supramatic4.chip.c:119-131 | after a verdict nothing changes |
| `MasterProgress.ProbeIsCorrupt` | emulation/wokwi/supramatic4.chip.c:195-212 | polls pass the CRC check, the fault probe never does |
| `MasterProgress.PollIsBuilt` | emulation/wokwi/supramatic4.chip.c:225-227 | the chip polls with the frames the bench builds |
| `MasterProgress.ProbeOfRecordedPoll` | emulation/wokwi/supramatic4.chip.c:195-212 | concretely: the recorded poll and its damaged form |
| `MasterProgress.CountersFit` | emulation/wokwi/supramatic4.chip.c:52-62 | no 32-bit counter wraps |
| `Continuity.EffectiveMissedPolls` | components/hcp2bridge/hcp2bridge_internal.h:71-87 | zero exactly if answered has caught up or one reply is still in grace |
| `Continuity.MissedIsOwed` | components/hcp2bridge/hcp2bridge_internal.h:71-87 | it is the polls owed, but for a single one whose reply is no more than 20 ms late |
| `Continuity.OnlineIsExact` | components/hcp2bridge/hcp2bridge.cpp:1418-1419 | the bus counts as online exactly for a second after a poll, but for a poll on a counter reading of zero and for silences the 32-bit difference takes for less than a second or for negative |
| `Continuity.SilenceLooksOnline` | components/hcp2bridge/hcp2bridge.cpp:1418-1419 | concretely: after 36 minutes of silence the bus is online |
| `Continuity.BaseInNumbers` | components/hcp2bridge/hcp2bridge.cpp:1461-1463 | the base checks as bounds on counters and microseconds |
| `Continuity.StickyInNumbers` | components/hcp2bridge/hcp2bridge.cpp:1464-1466 | nothing sticky means seven zero counters and no hold above 9000 microseconds |
| `Continuity.MovedInNumbers` | components/hcp2bridge/hcp2bridge.cpp:1467-1475 | nothing moved means no count fell, seven counters stayed, and no longer hold above 9000 microseconds |
| `Continuity.OtherFields` | components/hcp2bridge/hcp2bridge.cpp:1457-1492 | the two other published fields follow the last sample and the verdict |
| `Continuity.Monitor.Update` | components/hcp2bridge/hcp2bridge.cpp:1461-1503 | the field updates of one sample |
| `Continuity.SpanIsHistory` | components/hcp2bridge/hcp2bridge.cpp:1476-1485 | the span fields measure the longest suffix of good samples, from its first non-zero clock reading |
| `Continuity.HealthIsHistory` | components/hcp2bridge/hcp2bridge.cpp:1461-1491 | after any history the verdict is the base checks and either nothing sticky or a span of three seconds, modulo 2^32 |
| `Continuity.HealthIsSpan` | components/hcp2bridge/hcp2bridge.cpp:1461-1491 | within one turn of the clock: healthy exactly if nothing is sticky or the good samples, from the first with a non-zero clock reading, span three seconds |
| `Continuity.PromiseIsExact` | components/hcp2bridge/hcp2bridge.cpp:1480-1487 | for every history: the three-second promise is broken exactly if the good span is long enough but, from its first non-zero reading and modulo 2^32, shows less |
| `Continuity.WrapLosesHealth` | components/hcp2bridge/hcp2bridge.cpp:1480-1487 | concretely: good for 2^32 ms, yet unhealthy |
| `Continuity.ZeroReadingLosesTime` | components/hcp2bridge/hcp2bridge.cpp:1476-1485 | concretely: good for three seconds from a clock reading of zero, yet unhealthy |
| `Obstruction.Bridge.ApplyDriveStatus` | components/hcp2bridge/hcp2bridge.cpp:409-439 | the latch update of one sample |
| `Obstruction.LatchIsHistory` | components/hcp2bridge/hcp2bridge.cpp:409-439 | the latch is set exactly if some reversal the code counts as uncommanded lies less than ten seconds before the last sample |
| `Obstruction.StatesAreNumbers` | components/hcp2bridge/hcp2bridge.cpp:409-439 | two samples set the latch exactly if the door goes from 0x02 to 0x01, 0x05 or 0x09 |
| `Obstruction.GraceIsTwoSeconds` | components/hcp2bridge/hcp2bridge.cpp:417-420 | an OPEN command excuses a reversal up to 2000 ms later, and no longer |
| `Obstruction.LatchIsTenSeconds` | components/hcp2bridge/hcp2bridge.cpp:421-439 | the latch holds until 10000 ms after the reversal, and no longer |
| `Obstruction.RecencyIsExact` | components/hcp2bridge/hcp2bridge.cpp:417-420 | the grace test agrees with two seconds except for a command at clock zero or one half a turn of the clock old |
| `Obstruction.LatchIsPromised` | components/hcp2bridge/hcp2_entity_mapping.h:129-136 | where no recent reversal is misjudged, the latch is set exactly for reversals not within two seconds of any OPEN or HALF command |
| `Obstruction.LatchIsExact` | components/hcp2bridge/hcp2bridge.cpp:409-439 | for every history: the latch is the promised one exactly if some recent promised reversal is not missed, or wrongly accused ones (command on clock zero, or OPEN or HALF superseded by another button) and missed ones (command half a turn old) are both there or both absent |
| `Obstruction.OneIsJudged` | components/hcp2bridge/hcp2bridge.cpp:409-439 | one reversal behind any commands sets the latch exactly if the last command does not excuse it |
| `Obstruction.OldCommandExcuses` | components/hcp2bridge/hcp2bridge.cpp:417-420 | concretely: an OPEN command 25 days old hides a reversal |
| `Obstruction.ZeroCommandAccuses` | components/hcp2bridge/hcp2bridge.cpp:417-420 | concretely: an OPEN command on clock reading zero does not excuse the door it opens a millisecond later |
| `Obstruction.LightAccuses` | components/hcp2bridge/hcp2bridge.cpp:607-638 | concretely: OPEN, the light half a second later, and the door opening within the second sets the latch |
| `Crc8.TableIsDivision` | tools/hcp_proxy_client.py:23-40 | all 256 table entries are the division by polynomial 0x07 |
| `Crc8.ComputeCrc8` | tools/hcp_proxy_client.py:43-47 | the loop computes the table CRC |
| `Crc8.TableIsBitwise` | tools/hcp_proxy_client.py:43-47 | the table form equals the bitwise form on every message |
| `Crc8.ZeroIffAppended` | tools/hcp_proxy_client.py:43-47 | the CRC is zero exactly if the last byte is the CRC of the rest |
| `Crc8.SingleByteDetected` | tools/hcp_proxy_client.py:43-47 | one altered byte always changes the CRC, for any length and initial value |
| `HcpDecoder.Decoder.DecodeTail` | tools/hcp_proxy_client.py:81-92 | the tails of the window that are frames, shortest first |
| `HcpDecoder.Decoder.Feed` | tools/hcp_proxy_client.py:74-79 | the window suffices: feeding reports the frames of the stream that end in the new bytes |
| `HcpDecoder.FeedAll` | tools/hcp_proxy_client.py:70-92 | however the stream is cut, the report is that of the whole stream |
| `HcpDecoder.FoundIsExact` | tools/hcp_proxy_client.py:81-92 | that is exactly the substrings of 4 to 16 bytes that check out, ordered by end then length, each once |
| `HcpDecoder.MatchesInNumbers` | tools/hcp_proxy_client.py:81-92 | such a substring in numbers: the low nibble of its second byte is its length less three, its last byte the CRC of the rest |
| `HcpDecoder.FrameIsAppended` | tools/hcp_proxy_client.py:81-92 | a frame is what the low nibble of its second byte says long and ends with the CRC of the rest |
| `HcpDecoder.RealFrames` | components/uapbridge_esp/uapbridge_esp.cpp:298-327 | a slave scan and a status broadcast as the bridge itself describes them are frames |
| `QrTimecode.Base36Encode` | tools/run_phone_video_sync_capture.py:93-99 | the digit loop yields the lowest digits, negative values counting as zero |
| `QrTimecode.Base36Decode` | tools/run_phone_video_sync_capture.py:102-106 | the digit loop yields the number |
| `QrTimecode.DecodeInvertsEncode` | tools/run_phone_video_sync_capture.py:93-106 | decoding gives back the value modulo 36 to the width |
| `QrTimecode.QrPayloadCrc8` | tools/run_phone_video_sync_capture.py:81-90 | the bit loop computes the CRC with initial value 0xA5 |
| `QrTimecode.TimecodeRoundTrip` | tools/run_phone_video_sync_capture.py:109-131 | a printed timecode is read back modulo 36, 36^3 and 36^4 |
| `QrTimecode.RealTimecode` | docs/research/analysis/phone-sync-auto04-20260527/qr_decode_stride6.jsonl:159 | a timecode decoded from a recorded video is printed and read with its recorded fields |
| `QrTimecode.PaddedTimecode` | tools/run_phone_video_sync_capture.py:118-131 | white space around a timecode, any amount of it, makes no difference |
| `QrTimecode.OlderFormats` | tools/run_phone_video_sync_capture.py:132-150 | a text goes to one of the two older formats exactly if it has 16 characters from G1 on, or five fields the first of which is GDS1 |
| `QrTimecode.SpacesAre` | tools/run_phone_video_sync_capture.py:118-131 | white space is the 29 characters Unicode counts as such |
| `QrTimecode.SubstitutionIsRejected` | tools/run_phone_video_sync_capture.py:118-157 | replacing any one character by any other is rejected |
| `Sequencer.CaptureCoordinator.PressSpace` | tools/run_phone_video_sync_capture.py:488-497 | cancel, start or mark |
| `Sequencer.CaptureCoordinator.AdvanceSequence` | tools/run_phone_video_sync_capture.py:517-541 | the next step is scheduled, or the run is done |
| `Sequencer.CaptureCoordinator.ServiceSequenceWait` | tools/run_phone_video_sync_capture.py:554-617 | the wait is met, times out or goes on |
| `Sequencer.CaptureCoordinator.OnTick` | tools/run_phone_video_sync_capture.py:630-651 | a due action is sent before the wait is looked at |
| `Sequencer.RunFollowsSequence` | tools/run_phone_video_sync_capture.py:488-651 | in every run the actions sent are a prefix of the sequence and each is separated from the next by its own met wait and the settling delay |
| `CaptureStory.MetIsReached` | tools/run_phone_video_sync_capture.py:554-601 | a wait is over exactly if the state text names the goal in any mixture of cases, or the idle door is within the tolerance of its target, or, when venting, idle once the observation time has passed |
| `CaptureStory.RunIsStory` | tools/run_phone_video_sync_capture.py:488-651 | over every run each field of the coordinator (schedule and due time, wait, index, done, stop, failed, commands) is determined by the start, the log and the cancellation alone |
| `CaptureStory.SendingIsDelayed` | tools/run_phone_video_sync_capture.py:507-541 | nothing is sent before the initial delay behind the first space bar, and that always starts a run with steps |
| `CaptureStory.FailureIsExact` | tools/run_phone_video_sync_capture.py:507-617 | the run fails exactly if some tick leaves a wait open beyond its limit or there is nothing to do, stops exactly then, on leaving or when done, and is done exactly with the last step |
| `Sequencer.CancelEndsRun` | tools/run_phone_video_sync_capture.py:481-497 | in every run: once a scheduled action is cancelled nothing is ever sent again |
| `Sequencer.CancelIsFinal` | tools/run_phone_video_sync_capture.py:481-497 | with nothing pending in a started sequence nothing more is ever sent |

## Left out

- Concurrent writers of the log: numbers are allocated in one critical section and appended in another, so the order of lines of different tasks is not promised by the code and not modelled.
- A clear between a reader's two critical sections in `LogStream`: clear requests and reads run in one task loop, so there is none; the ring's methods allow it.
- Frame lines and texts of the log beyond their number and the absence of newlines in them.
- UART, GPIO, timer, socket and FreeRTOS calls, traces, pin writes and latency statistics of the emulated master.
- Reading the recovery attribute anew at the end of a run of the emulated master: it is a constant of the run.
- The reason text of a verdict of the emulated master.
- The emulated master groups its poll counters and its detour counters in two record fields; the source's struct is flat.
- Transmission, mailbox commands and the parser behind the UHCI receive task.
- The `engine`, `mailbox`, `supervisor` and responder internals behind the health samples; their counters are inputs.
- Bus-online, drive-status and counter copies that the same update publishes without computing anything from them.
- The logic analyser's file loading, sample cropping, window expansion, microsecond rescaling and statistics; per-byte and per-frame reports are one list of decoded bytes.
- The two older QR payload formats: the parser's branches to them are modelled, their hexadecimal fields are not.
- Sequence text parsing, event recording, display and dry-run motion of the capture tool; the clock is read once per event.
- The proxy client's text output and status names.
- `BroadcastStatus` writes the eighteen register bytes as a literal where the source fills an array.
- Field decoding of responses in the simulator's `protocol.py` beyond kind and counter, and status-counter gap listing, which would only add easy members.

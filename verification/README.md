# hvepromcmd protocol model

A Dafny model of the host side of the hvepromcmd EPROM programmer. The
programmer serves the 1702A, 2704/2708 and MCM6876x parts, and the host
talks to it over a serial line. The model covers five pieces:

- **Wire format.** Every command frame is `[opcode, ~opcode, payload…]`.
  Every reply starts with a two-byte acknowledgement: an echo of the
  opcode, then a result code.
- **Chunked engine** (`pgm.c`). Reads, verifies and writes move eight
  bytes per round trip. The model covers progress reporting, the rule that
  the last chunk must be acknowledged COMPLETE, verify stopping at the
  first mismatch, and the blank-check and write trailers.
- **Vocabulary** (`pgm.h`). Opcodes, result codes, device identifiers and
  the device size table.
- **Host policy** (`main.c`). The supply-voltage gate, the per-device
  defaults, the write pass loop, the size checks, the resets that close
  every operation, and the progress bar.
- **Test catalogs** (`test_descriptions.c`). Each table is reduced to
  `(command, is-read)` entries ended by a sentinel.

The serial line is a `Link`. It holds three things:

- `rx`: the bytes the programmer will send;
- `tx`: the log of bytes the host has sent;
- `events`: the log of callbacks the engine has raised (progress
  percentages and dual-socket prompts).

A read that asks for more bytes than remain is a TIMEOUT, as
`serial_posix.c` reports a short read. The global `_g_last_error` becomes
an explicit `Status` in a `Result`. Every operation is a pure function from
a link to an outcome and the link after it.

The write pass loop is written once, over an arbitrary pass
(`Host.PassLoop`). `Host.WritePasses` runs it with `Engine.WriteDevice` as
the pass, so the loop's lemmas (`Host.LoopSendsCopies`,
`ProgressBar.LoopBar`) hold whatever a pass does, and the write lemmas
apply them.

Modules, in dependency order:

| module | file | contents |
|---|---|---|
| Protocol | protocol.dfy | bytes, opcodes, result codes, statuses, devices, sizes |
| Channel | channel.dfy | the link: send, receive, emit an event |
| Wire | wire.dfy | framing, the acknowledgement check, big-endian fields |
| Chunking | chunking.dfy | chunk sizes and counts, read and write progress arithmetic |
| Engine | engine.dfy | the `pgm_*` operations |
| Firmware | firmware.dfy | reply scripts a cooperating programmer sends; replay lemmas for read, write, supply and blank check |
| Readback | readback.dfy | replay of a verify: first mismatch, commands sent, verdict |
| Host | host.dfy | `main.c` policy: gate, defaults, pass loop, target operations |
| HostReplay | host_replay.dfy | target read and verify against a cooperating programmer |
| ProgressBar | progress_bar.dfy | the 58-segment bar and what it shows after a read or a write |
| Catalogs | catalogs.dfy | the four test tables |

### Where the model follows the code rather than the description

- **Oversize write.** A file larger than the device is refused before the
  voltage query. The refusal still jumps to the common exit, so one DevReset
  frame is sent (main.c:357-361 and 423-424). `Host.TargetWrite` sends that
  reset.
- **Memory past the file.** No padding happens. A write or verify of a file
  shorter than the device reads the device-sized range of a buffer
  allocated with the file's size, so the bytes past the file are whatever
  memory holds. The model makes those bytes an explicit `tail` parameter.
  A write with verify reads the file a second time into a new buffer
  (main.c:352 and 499), so its verify gets a tail of its own,
  `verifyTail`, unrelated to the bytes the passes wrote.
- **Gate bounds.** The 2704/2708 gate includes 12.00 V and excludes
  13.00 V. The universal window includes 10.00 V and excludes 14.00 V.
- **Read entry of the 1702A catalog.** The 1702A table's read-class entry
  is command 5, at position 4 of 10, not the last entry
  (test_descriptions.c:497). The other three tables do put it last.
- **Pass counts of zero or less.** Without hit-until-set, a pass count of 0
  or less runs no pass and the write still succeeds. The count can be
  non-positive only if given explicitly, since 0 selects the device default.
- **The bar after 32 passes.** Write progress after the last pass is 100
  only when the pass count divides 10000. With the 1702A's default of 32
  passes it is 99, and the bar stops at 57 of 58 segments.
- **Verify of an oversize file.** `target_verify` passes a null `matches`
  pointer, and the oversize branch of `work_verify` writes through it. The
  model has that branch report "does not match" and succeed, as it does when
  called from a write.

## Model

| member | source | states |
|---|---|---|
| Protocol.OpcodeByte | pgm.h:24-33 | the ten opcodes are bytes in 0x10..0x19 |
| Protocol.OpcodeOf | pgm.h:24-33 | a byte names an opcode exactly when it lies in 0x10..0x19, and the opcode it names encodes back to it |
| Protocol.OpcodeBytesDistinct | pgm.h:24-33 | distinct opcodes have distinct bytes; decoding an opcode's byte gives the opcode back |
| Protocol.StatusValue | pgm.h:35-46 | the host-local TIMEOUT and BADACK are -1 and -2, negative, so no received code 0..255 equals them |
| Protocol.StatusValueInjective | pgm.h:35-46 | different statuses have different integer values |
| Protocol.WireCodeFacts | pgm.h:37-46 | the wire codes are 0x00..0x0A without 0x08; the accepted codes are exactly OK, PROCEED_DUAL_SOCKET, COMPLETE and NOT_BLANK |
| Protocol.DeviceCode | pgm.h:48-55 | the device byte sent in payloads is the enum value, 0..3 |
| Protocol.DeviceOf | pgm.h:48-55 | an integer names a device exactly when it lies in 0..3, and that device encodes back to it |
| Protocol.DeviceCodeRoundTrip | pgm.h:48-55 | decoding a device's byte gives the device back; NotSet (-1) names none |
| Protocol.GetDevSize | pgm.c:343-358 | unknown devices give -1; known devices give one of 0x100, 0x200, 0x400, 0x2000 |
| Protocol.Capacity | pgm.c:343-358 | a device's size is positive, at most 0x2000, and what the size table returns for its byte |
| Protocol.CapacityFacts | pgm.c:343-358 | sizes are multiples of 8, fit the 16-bit blank-check offset, and grow with the device number |
| Channel.Receive | serial_posix.c:128-155 | a read of n bytes succeeds exactly when n remain and takes exactly them; a short read is a timeout and consumes what was there |
| Wire.Complement | pgm.c:44-45 | the self-check byte and the opcode sum to 0xFF |
| Wire.ComplementIsBitwiseNot | pgm.c:44-45 | for every eight-bit value, the self-check byte is the bitwise NOT of it |
| Wire.Frame | pgm.c:69-71 | a frame is two bytes longer than its payload |
| Wire.FrameRoundTrip | pgm.c:69-71 | parsing a frame gives back its opcode and payload, and only a frame with that opcode and payload parses to them |
| Wire.CheckAck | pgm.c:314-341 | no first byte is TIMEOUT; a wrong echo is BADACK with the code byte unread; a missing code is TIMEOUT; otherwise the code decides; success exactly for an echo and an accepted code |
| Wire.Transact | pgm.c:305-309 | a round trip sends exactly the frame, raises no event, and succeeds only with an accepted code |
| Wire.AckRoundTrip | pgm.c:318-340 | the acknowledgement a firmware encodes decodes to its code (a success exactly when accepted) and consumes exactly two bytes |
| Wire.WrongEchoIsBadAck | pgm.c:321-325 | an echo of another opcode is BADACK whatever follows, and only the echo is consumed |
| Wire.ToBE16 | pgm.c:34 | a 16-bit value is two bytes |
| Wire.BE16RoundTrip | pgm.c:34 | MAKE_U16 inverts the split into high and low byte, in both directions |
| Wire.ToBE32 | pgm.c:35 | a 32-bit value is four bytes |
| Wire.BE32RoundTrip | pgm.c:35 | the big-endian value of four bytes inverts the split into four bytes, in both directions |
| Chunking.CDiv | main.c:586 | C's division truncates toward zero: the remainder is smaller than the divisor and takes the dividend's sign |
| Chunking.ChunkLen | pgm.c:102 | a chunk is 1..8 bytes and stays within the transfer; a short chunk is the last one |
| Chunking.ChunkCountIsCeiling | pgm.c:88-105 | the number of chunk commands is the ceiling of size/8: the fewest chunks of at most 8 bytes holding the size |
| Chunking.ChunkCountStep | pgm.c:88-105 | each chunk taken leaves one chunk fewer to do |
| Chunking.ChunkSizesCover | pgm.c:217-235 | there are ceiling(size/8) chunks, chunk k has min(8, size-8k) bytes, and the sizes sum to the bytes to move |
| Chunking.ChunkEndsFacts | pgm.c:124-127 | the running byte counts rise strictly, stay within the transfer, and reach the size at the last chunk and only there |
| Chunking.ReadPctFacts | pgm.c:126-127 | read progress lies in 0..100, never decreases, and is 100 exactly when the whole device has been read |
| Chunking.WritePctTwoPasses | pgm.c:237-238 | with two passes, pass 0 half done shows 25 and pass 1 complete shows 100 |
| Chunking.WritePctMonotone | pgm.c:237-238 | write progress never decreases within a pass nor from one pass into the next, and stays within 0..100 |
| Chunking.WritePctFinal | pgm.c:237-238 | the last report of the last pass is 100 when the pass count divides 10000, and 99 otherwise |
| Chunking.WritePctAtMostFinal | pgm.c:237-238 | no report during any pass exceeds the last report of the last pass |
| Chunking.PassShareFacts | pgm.c:238 | the current pass's share grows with the bytes written, reaching exactly 10000/passes at its end |
| Chunking.PassBaseFacts | pgm.c:238 | the completed passes' share grows by at least one pass's share per pass and stays within 10000 |
| Engine.AfterStart | pgm.c:82-86 | the dual-socket prompt is raised exactly when the start code is PROCEED_DUAL_SOCKET, and nothing else changes |
| Engine.MeasureSupply | pgm.c:39-61 | sends the bare Measure12V frame; succeeds exactly on an accepted acknowledgement followed by two bytes, and the value is their big-endian reading |
| Engine.ReadChunks | pgm.c:88-128 | a successful chunk loop yields exactly the remaining bytes, sends one ReadChunk frame per chunk, and raises one progress report per chunk |
| Engine.ReadDevice | pgm.c:63-140 | a successful read yields exactly the device size of bytes, after the StartRead frame with the device byte, ceiling(size/8) ReadChunk frames, and progress 0, the optional prompt and the chunk reports |
| Engine.FirstMismatch | pgm.c:109-121 | the index returned has equal bytes before it and a difference at it, or is the length when all are equal |
| Engine.CompareChunk | pgm.c:107-121 | a chunk is reported mismatching exactly when it differs from the file, at the first differing offset, with the file and device bytes there |
| Engine.VerifyChunks | pgm.c:88-128 | a reported mismatch lies within the compared range, names the file's byte there and a device byte that differs from it; a full match sends one frame and raises one report per chunk (that the mismatch is the first difference is Readback.VerifyChunksReplay) |
| Engine.VerifyDevice | pgm.c:63-140 | a verify's mismatch lies within the device's range, names the file's byte there and a device byte that differs from it; a full match sends StartRead and ceiling(size/8) ReadChunk frames (that the mismatch is the first difference is Readback.VerifyDeviceReplay) |
| Engine.WriteChunks | pgm.c:217-239 | a successful chunk loop sends each chunk's bytes in order in WriteChunk frames and raises one progress report per chunk |
| Engine.WriteDevice | pgm.c:188-255 | a successful pass sends StartWrite with device, hit flag and retry byte, then the whole device range of the buffer, raising progress 0, the optional prompt and the chunk reports |
| Engine.BlankCheckDevice | pgm.c:142-186 | blank exactly on two accepted acknowledgements the second of which is COMPLETE; otherwise the offset is the big-endian reading of the next two bytes and the data the third |
| Engine.Reset | pgm.c:298-312 | sends the bare DevReset frame; succeeds exactly on an accepted acknowledgement |
| Engine.StartTest | pgm.c:257-273 | sends the Test frame with the device byte and test index; succeeds exactly on an accepted acknowledgement |
| Engine.TestReadPins | pgm.c:275-296 | the pin byte is read only after an acknowledgement with code exactly OK; another accepted code fails with that code and reads nothing more |
| Firmware.ChunkRoundTrip | pgm.c:93-105 | an acknowledgement followed by chunk data decodes to the code and leaves exactly the data and what follows |
| Firmware.ReadChunksStep | pgm.c:93-127 | one accepted chunk: its bytes lead the result and the loop continues after them |
| Firmware.ReadChunksRefused | pgm.c:99-100 | a refused chunk acknowledgement ends the read with that code |
| Firmware.ReadChunksReplay | pgm.c:88-128 | replaying a device's contents chunk by chunk yields exactly those contents and consumes exactly the replies; a refused final code fails with it |
| Firmware.ReadChunksLast | pgm.c:93-128 | the last chunk: the loop yields its bytes with the final code when accepted, consuming its replies |
| Firmware.ReadDeviceStep | pgm.c:69-86 | after an accepted StartRead acknowledgement the read is the chunk loop, checked for a final COMPLETE |
| Firmware.ReadDeviceReplay | pgm.c:63-140 | a read of a device's replies yields the device's contents exactly when the last code is COMPLETE; another accepted code is BADACK; a refused one fails with it |
| Firmware.WriteChunksStep | pgm.c:217-235 | one accepted chunk acknowledgement: the loop goes on from the next chunk with that code |
| Firmware.WriteChunksRefused | pgm.c:232-233 | a refused chunk acknowledgement ends the write loop with that code |
| Firmware.WriteChunksLast | pgm.c:217-239 | the last chunk: the loop ends with the final code when accepted, consuming its acknowledgement |
| Firmware.WriteChunksReplay | pgm.c:217-239 | one acknowledgement per chunk: the loop succeeds with the final code when accepted and consumes exactly the acknowledgements |
| Firmware.WriteDeviceStep | pgm.c:196-215 | after an accepted StartWrite acknowledgement the pass is the chunk loop followed by the verdict |
| Firmware.WriteVerdictReplay | pgm.c:241-252 | after the chunks, a non-COMPLETE accepted code is BADACK and COMPLETE reads the five-byte trailer |
| Firmware.LoopVerdictReplay | pgm.c:217-252 | the chunk loop then the verdict, replayed from the first byte, yields the trailer's counts exactly when the last code is COMPLETE |
| Firmware.WriteDeviceReplay | pgm.c:188-255 | a pass replayed against acknowledgements and a trailer yields the trailer's counts exactly when the last code is COMPLETE, consuming exactly the replies |
| Firmware.WriteFramesRoundTrip | pgm.c:222-229 | the WriteChunk frames of a buffer parse back to exactly that buffer |
| Firmware.WriteFramesLength | pgm.c:217-235 | a buffer's WriteChunk frames are its length plus two bytes per chunk |
| Firmware.MeasureSupplyReplay | pgm.c:53-56 | a supply reading sent big-endian after OK is decoded to the same value, consuming four bytes |
| Firmware.BlankCheckReplay | pgm.c:163-185 | COMPLETE reads no trailer and reports blank; another accepted code reads offset and data from the three-byte trailer |
| Readback.FirstDiff | pgm.c:109-121 | the first index of a range where two byte strings differ, with all earlier bytes equal |
| Readback.FirstDiffUnique | pgm.c:109-121 | any index with equal bytes before it and a difference at it is the first difference |
| Readback.FirstDiffNone | pgm.c:136-137 | no difference in a range exactly when the two ranges are equal |
| Readback.DiffInChunk | pgm.c:109-121 | a mismatch reported inside a chunk is the first difference of the whole rest, with the file and device bytes there |
| Readback.DiffSkipsChunk | pgm.c:109-124 | a matching chunk moves the search for the first difference past it |
| Readback.VerifyChunksStep | pgm.c:93-124 | one accepted chunk: a mismatch stops with no further command; a match continues after the chunk |
| Readback.VerifyChunksRefused | pgm.c:99-100 | a refused chunk acknowledgement ends the verify with that code |
| Readback.VerifyChunksReplay | pgm.c:88-137 | against a device's replies, the verify stops at the chunk holding the first difference and sends only the commands up to it, or matches everything |
| Readback.VerdictOfOutcome | pgm.c:130-137 | the verdict: a first difference is a mismatch at it; a full match needs a final COMPLETE, else BADACK |
| Readback.VerifyDeviceStep | pgm.c:69-86 | after an accepted StartRead acknowledgement the verify is the chunk loop followed by the verdict |
| Readback.VerifyDeviceReplay | pgm.c:63-140 | verifying a file against a device's replies reports the first difference with its offset and both bytes, or a match only after the final COMPLETE |
| Readback.VerifyMatchesIff | pgm.c:107-137 | with a final COMPLETE the verify succeeds, and reports a match exactly when the file's device range equals the device |
| Host.SupplyOk | main.c:460-473 | the 2704/2708 need 12.00 V up to but excluding 13.00 V; every device needs 10.00 V up to but excluding 14.00 V |
| Host.SupplyExamples | main.c:460-473 | 13.50 V passes for 1702A and MCM6876x and fails for 2704/2708; lower bounds are inclusive, upper ones exclusive |
| Host.TargetMeasure | main.c:450-478 | the gate sends only Measure12V and passes exactly when the query succeeds and the reading is in the window |
| Host.ApplyDefaults | main.c:210-235 | a zero pass count becomes 32, 100, 100 or 1; MCM6876x retries default to 5; hit-until-set survives only for the MCM6876x |
| Host.DefaultsIdempotent | main.c:210-235 | applying the defaults a second time changes nothing |
| Host.RetryByte | main.c:128 | the retry integer reaches the firmware reduced modulo 256, unchanged when it fits a byte |
| Host.FailedPassStops | main.c:389-400 | a failing pass ends the loop with that failure; no later pass runs |
| Host.WritePassesFrames | main.c:389-400 | a successful loop of n passes sends exactly n copies of the StartWrite frame and the whole buffer |
| Host.LoopSendsCopies | main.c:389-400 | whatever a pass does, a successful loop whose every pass sends the same frames has sent them once per pass |
| Host.WorkVerify | main.c:480-543 | an oversize file is not a match but succeeds with only a reset sent; a file that fits succeeds exactly when the device verify goes through, matches exactly when that verify reports a match (a mismatch still succeeds), and is followed by a reset |
| Host.ResetEnds | pgm.c:298-312 | a reset ends the log with the DevReset frame and keeps what was sent before |
| Host.TargetRead | main.c:268-309 | past the gate the data is exactly what the device read returned, or none when it failed, and a reset follows; success needs both the read and the output file; a failed gate sends no reset |
| Host.TargetBlankCheck | main.c:311-329 | succeeds exactly when the gate and the blank-check exchange do, blank or not; past the gate the log ends with a reset |
| Host.TargetVerify | main.c:430-448 | past the gate it succeeds exactly when the verify work does, and a reset follows; an oversize file succeeds; a failed gate sends no reset |
| Host.WriteSteps | main.c:367-400 | a blank check must find the device blank, else the write fails after it; hit-until-set runs one pass; no positive count runs none |
| Host.TargetWrite | main.c:331-428 | an oversize file fails with only a reset sent; a failed gate fails with no reset; past the gate it succeeds exactly when the blank check and every pass go through and, if asked, the verify of a separately read file goes through; the log ends with a reset; the last pass's counts are reported exactly with hit-until-set |
| Host.HitUntilSetOnePass | main.c:384-385 | with hit-until-set the requested pass count makes no difference |
| Host.NotBlankStopsWrite | main.c:367-380 | a device found not blank fails the write with no StartWrite: the gate, the two blank-check frames and a reset |
| Host.WriteIgnoresMismatch | main.c:402-421 | after the passes, a write with verify succeeds exactly when the verify exchange goes through, matching or not |
| Host.NoPassesWritesNothing | main.c:389 | a non-positive pass count without hit-until-set sends only the gate query and a reset, and succeeds |
| Host.Run | main.c:237-254 | each operation runs its target function with the same outcome; a write gets the device defaults and the retry integer converted to a byte |
| Host.Default1702AWrite | main.c:212-217 | a 1702A write with no pass count runs 32 passes without hit-until-set |
| HostReplay.ReadSavesDevice | main.c:268-300 | past the gate, a read against a programmer holding given contents returns exactly those contents when the last code is COMPLETE and none otherwise; it succeeds exactly when they came back and the output file opened |
| HostReplay.VerifyMatchesDevice | main.c:480-540 | a verify of a file that fits, against a programmer ending with COMPLETE, succeeds and matches exactly when the compared buffer equals the device, and a match means the device starts with the file |
| HostReplay.VerifyTargetSucceeds | main.c:430-448 | past the gate, a verify against such a programmer succeeds whether or not the device matches |
| ProgressBar.SegmentsNeededFacts | main.c:584-594 | segments needed grow with the percentage from 0 to 58, reach 58 only at 100, and 99 gives 57 |
| ProgressBar.PrintProgress | main.c:584-594 | a report raises the drawn count to what it calls for, never lowers it, and draws exactly the difference in `=` |
| ProgressBar.Draw | main.c:568-594 | from a count, the bar ends at the larger of the count and the largest count any report calls for, drawing exactly the difference; dual-socket prompts draw nothing |
| ProgressBar.DrawReaches | main.c:568-594 | from a fresh outline, reports bounded by a percentage and ending on it leave the count that percentage calls for |
| ProgressBar.BoundedConcat | main.c:584-594 | two report streams within a bound stay within it when joined |
| ProgressBar.ReadBarFull | pgm.c:73-127 | a read's reports fill the bar: 58 segments, all `=` |
| ProgressBar.ReadRaises | pgm.c:73-127 | a successful device read raises progress 0, the optional prompt and one report per chunk |
| ProgressBar.ReadDeviceBar | main.c:282-287 | after a successful device read the bar shows exactly 58 `=` |
| ProgressBar.TailDraw | main.c:568-594 | what is drawn from a log's new events is what those events draw |
| ProgressBar.PassEventsBounded | pgm.c:202-238 | each pass reports values between 0 and the final one, and the last pass ends on it |
| ProgressBar.PassRaises | pgm.c:202-238 | a successful pass raises progress 0, the optional prompt and one report per chunk |
| ProgressBar.WritePassesBar | main.c:387-400 | the pass loop reports nothing above the final value, and a successful loop ends on it |
| ProgressBar.LoopBar | main.c:389-400 | whatever a pass does, a loop whose every pass raises a write pass's reports reports nothing above the final value, and a successful loop ends on it |
| ProgressBar.LastPassBar | main.c:389-400 | the last pass alone ends on the final value |
| ProgressBar.MiddlePassBar | main.c:389-400 | a pass followed by the rest of the loop keeps the bound and ends where the rest ends |
| ProgressBar.WriteBarEnd | main.c:387-400 | after a successful write the bar shows 58 segments when the pass count divides 10000 and 57 otherwise |
| ProgressBar.BarTailDraw | main.c:584-594 | a bounded tail ending on the final value draws the count the final value calls for |
| ProgressBar.DefaultPassBars | main.c:210-224 | the 1702A default of 32 passes leaves the bar at 57; the 2704/2708 default of 100 fills it |
| Catalogs.ScanFrom | test_descriptions.c:503 | walking a table stops at the first command-0 entry, with every entry before it a test |
| Catalogs.TestCount | test_descriptions.c:491-504 | the test count is the number of entries before the first sentinel |
| Catalogs.WellFormedCount | test_descriptions.c:491-504 | a table ending in the sentinel has it as its only command-0 entry exactly when all earlier entries count as tests |
| Catalogs.Tests | test_descriptions.c:491-504 | the tests of a table are its entries up to the sentinel, none with command 0 |
| Catalogs.TablesWellFormed | test_descriptions.c:491-542 | every table ends with exactly one sentinel, and the test counts are 10, 7, 6 and 10 |
| Catalogs.CmdsDistinctInRange | test_descriptions.c:26-62 | within a table the commands are distinct and lie in 1..10 |
| Catalogs.CmdsFacts | test_descriptions.c:493-540 | each table's list of commands is duplicate-free and within 1..10 |
| Catalogs.OneReadTest | test_descriptions.c:491-542 | each table has exactly one read-class test; it is last except in the 1702A table, where it is fifth |
| Catalogs.CmdsOrder | test_descriptions.c:518-542 | the MCM6876x table skips command 4 and the MCS48 table lists 1,6,7,2,3,4,5,8,9,10, so position is not command minus one |

## Left out

- Serial I/O (`serial_posix.c`, `serial_win32.c`). The port is the
  scripted `Link`. A failed `serial_write` is not modelled: every send
  succeeds.
- Option parsing and usage text (main.c:66-201), including the
  uninitialised device type when no device is given. The model starts from
  a chosen `Device`.
- File I/O. Opening, sizing and reading an input file are replaced by the
  file's bytes and the `tail` and `verifyTail` parameters. Failure to open
  an input file is not modelled. Failure to open the output file of a read
  is the `saved` flag.
- printf output, ANSI cursor movement and `print_target_error`. The pass
  counter from `print_passes` moves the cursor only and leaves the drawn
  count alone.
- Floating point. The supply reading stays in integer hundredths of a volt.
  The C code divides by 100 and compares against x.0 thresholds, and those
  comparisons agree exactly with the integer ones.
- MAKE_U32's shift of a promoted `int` into the sign bit. The model uses
  the mathematical big-endian value.
- The interactive hardware-test session that walks the catalogs. Its
  source is not part of this model. Only the `pgm_test` and
  `pgm_test_read` exchanges and the catalog data are modelled.
- The catalog description strings.
- The dual-socket callback. The host passes none, so the engine's prompts
  are recorded as events and otherwise ignored.
- Chunking.WritePct: the C code computes `pass * 10000` in a 32-bit
  `int`, which overflows, with undefined behaviour, once the pass index
  exceeds 214748. The pass count comes from the command line unchecked.
  The model computes with unbounded integers and does not model that
  overflow.
- Host.TargetVerify: an oversize file succeeds here. In the C program the
  same call writes through a null pointer instead.

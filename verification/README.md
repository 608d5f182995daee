# Formal model of the ws_pi5 protocol engines and host tools

ws_pi5 is a bare-metal network stack and web server for the Raspberry Pi. Its Python and C files
state what the assembly must do (the oracles) and implement the host side: frame builders, the
flasher, the appliance packer, the configuration linter, capture, fuzzing and the performance gate.
This project models those programs in Dafny and proves what they promise over all inputs and all runs.

| module | component |
|---|---|
| `Checksum` | RFC 1071 sums: folding, insertion and verification, and the little-endian twin |
| `Bitmap`, `Reasm`, `ReasmReasons`, `ReasmOrder` | the fragment reassembly slot: packed bitmap, state machine, safety of every run, the exact reason of every answer, every arrival order |
| `IpFrames` | IPv4/UDP builders and parsers, the fragment splitter, the sort-and-join reference |
| `IntelHex` | HEX records and images |
| `FlashSender`, `Chainloader`, `FlashRun` | the stop-and-wait sender against any device and port schedule, the chainloader at the other end, whole runs over a line that may damage what it carries to the device |
| `HttpFsa` | the request state machine: its table, its language and its actions |
| `TcpFsa`, `TcpStream` | the connection state machine over runs of segments and closes, and what it delivers of a byte stream |
| `Slab`, `SlabImage` | the appliance slab written in place, loaded back, patched into a kernel image |
| `NetworkConf`, `NetworkConfReport`, `NetworkConfRender` | the network.conf linter, exactly what it reports, and the renderings it must read |
| `DhcpTable`, `DhcpReport` | the DHCP table lint together with the comparison against the compiled table, and exactly what each reports |
| `Capture`, `FuzzFraming` | the capture cursor, the fuzz input framing |
| `PerfRatchet`, `PerfLog`, `PerfGate`, `PerfAppend` | the performance standard, what its log says, the gate from its log to its failures, and what appending to the log can clear |
| `Bytes`, `Text`, `Decimal` | bytes, fields and the frame constants, splitting and joining, decimal numerals |

Code that works step by step (the packers, loops, the port) is a `method` or a `class` proved against
a specification function; decision tables and validators are functions. Exceptions are `Result` values.

## Findings

Properties that hold only under a condition are stated with their exact condition and a witness:

- Two last fragments: a second MF=0 fragment can complete a datagram with a byte that no fragment carried
  (`Reasm.TwoLastFragmentsLeakStaleBytes`; exact condition in `Reasm.CompletionIsExact`).
- An image that crosses a 64 KiB boundary inside a chunk, with a record after it, is placed wrongly, because the
  offset restarts at 0 (`IntelHex.UnalignedCrossingBreaks`; exact condition in `IntelHex.HexImageExact`).
- README.md:564 says a refused record is answered with its checksum XOR 0xFF. The chainloader answers with the byte sum
  it found XOR 0xFF, and the model follows it. The sender therefore takes a refused record for acknowledged exactly when
  its length survived and the sum is the complement of the checksum sent (`FlashRun.TakenIff`,
  `FlashRun.RefusedTakenForAck`): one byte past the count off by that complement is enough
  (`FlashRun.DamagedByteTakenForAck`), and a flash on which that happens is reported as sent while the device lacks the record (`FlashRun.FlashDamaged`, `FlashRun.OneRecordLost`, `FlashRun.OneByteLosesARecord`) or
  writes the kernel to another place (`FlashRun.AddressRecordLost`). A record can be lost so exactly when its checksum is
  not 0xFF (`FlashRun.MaskedExists`), which spares the end record (`FlashRun.EndNeverMasked`).
- One 0x0000/0xFFFF exchange of a checksummed word is not detected (`Checksum.SingleWordChange` is exact).
- A packet on which the capture's predicate raises is passed over for good and costs the rest of its poll
  (`Capture.RaisingCostsAPoll`). The schedule of polls does not matter, and a wait that read everything misses nothing,
  exactly when no match lies behind such a packet (`Capture.ScheduleIndependentIff`).
- The fuzz harness cuts a frame above 1514 bytes and then reads its remainder as new lengths
  (`FuzzFraming.LongFrameDesynchronises`; exact condition in `FuzzFraming.FramingIsExact`).
- perf_check.py calls its history the runs strictly before the current window, but with `--commit` later runs of
  other commits count as well; the model follows the code (`PerfRatchet.LaterRunFailsEarlier`; exact condition in
  `PerfRatchet.CommitHistoryIsEarlierIff`).
- A failure of the gate for a commit can be cleared by what is appended to the log later: by a reset of the flavor, by
  another run of that commit, or by a gated metric for a run of it that the log ends in (`PerfAppend.ContinuedRunClears`).
  Appended lines never clear one, at any point while they are appended to any log, exactly when they do none of the three
  (`PerfAppend.NeverClearsWhileAppendedIff`; for the lines as a whole, `PerfAppend.NeverClearsIff`).
- The comparison of the DHCP table passes on 54 copies of one row (`DhcpTable.ComparisonAloneIsNotEnough`). Alone it fixes
  the table exactly when no two rows share a state and event (`DhcpTable.ComparisonAloneIff`), which the lint checks.
- A comment before the magic line of network.conf counts as blank exactly when it is indented
  (`NetworkConfRender.CommentLineBlankIff`, `NetworkConfRender.IndentationDecides`; `NetworkConfRender.NoteAboveMagic` is a
  text that is refused for it).

## Model

| member | source | states |
|---|---|---|
| Checksum.FoldResidue | hw_test/ip_frames.py:101-103 | the fold loop ends in 0..65535, keeps the sum mod 65535 and gives 0 only for a zero sum |
| Checksum.FoldCongruent | hw_test/ip_frames.py:101-103 | folding identifies two sums exactly when they agree mod 65535 and on being zero |
| Checksum.FoldCarries | hw_test/ip_frames.py:101-102 | the carry loop computes the fold and terminates below 0x10000 |
| Checksum.IpChecksum | hw_test/ip_frames.py:77-103 | pad, sum, fold and complement loop equals the checksum function of the unpadded bytes |
| Checksum.PaddingKeepsSum | hw_test/ip_frames.py:87-88 | the zero byte added to an odd-length buffer does not change the sum |
| Checksum.SumSplice | hw_test/ip_frames.py:190-197 | storing a word at an even offset changes the sum by exactly the difference of the words |
| Checksum.VerifiesIff | hw_test/ip_frames.py:77-103 | a buffer verifies exactly when its word sum is a positive multiple of 65535 |
| Checksum.InsertVerifies | hw_test/ip_frames.py:190-197 | storing the checksum in any zeroed even-offset field makes the buffer verify, for odd and even lengths and with 0xFFFF for 0; no other value does, up to the two zeros |
| Checksum.SingleWordChange | hw_test/ip_frames.py:77-103 | one changed word of a verifying buffer goes unnoticed exactly for 0 to 0xFFFF, or 0xFFFF to 0 beside another non-zero word |
| Checksum.SumsAreByteSwapped | hw_test/ip_frames.py:90-97 | the little-endian sum is 256 times the big-endian sum mod 65535, and zero with it |
| Checksum.FoldSwaps | hw_test/ip_frames.py:90-97 | folding commutes with swapping bytes |
| Checksum.ChecksumWireBytes | hw_test/ip_frames.py:90-97 | little-endian checksum stored little-endian and big-endian stored big-endian are the same two bytes, for every buffer |
| Checksum.TcpChecksumCalc | scripts/tcp_oracle.py:175-211 | the oracle's loop over a frame gives, stored little-endian, the wire bytes of the builders' pseudo-header checksum, odd lengths included |
| Checksum.OracleSegmentVerifies | hw_test/tcp_helpers.py:28-45 | a segment up to 65535 bytes filled the oracle's way is accepted by the big-endian verifier |
| Bitmap.MakeBitmap | scripts/reasm_oracle.py:107-121 | the nested loops set exactly the 8-byte units touched by some range |
| Bitmap.SetRange | scripts/reasm_oracle.py:107-121 | the inner loop adds exactly the units of one range and keeps the others |
| Bitmap.Or | scripts/reasm_oracle.py:131-133 | the units of the result are the union |
| Bitmap.AllSet | scripts/reasm_oracle.py:136-147 | the byte loop with its partial last byte says whether the first units are all set |
| Bitmap.UnitsAreFaithful | scripts/reasm_oracle.py:124-128 | a bitmap is determined by its set of units |
| Reasm.Oracle | scripts/reasm_oracle.py:229-310 | the decision over the packed bitmap refines the decision over sets of units, for an arbitrary slot value |
| Reasm.Overlaps | scripts/reasm_oracle.py:268-282 | the bit loop finds an overlap exactly when the fragment shares a unit with the slot |
| Reasm.RunKeepsInv | scripts/reasm_oracle.py:229-310 | over every run with a free pool: the bitmap is the disjoint union of the accepted fragments' units, their bytes stand in the buffer, and the length is the last MF=0 fragment's end |
| Reasm.PoolRunKeepsInv | scripts/reasm_oracle.py:229-310 | the same over every run whose pool may be full at any arrival |
| Reasm.StepKeepsInv | scripts/reasm_oracle.py:229-310 | one arrival of any kind, with or without a free slot in the pool, keeps that invariant |
| ReasmReasons.ReasonsAreExact | scripts/reasm_oracle.py:229-310 | over every run and pool: each of the seven reasons is given exactly under its condition on the fragment, the accepted fragments and the pool |
| ReasmReasons.EffectsAreExact | scripts/reasm_oracle.py:229-310 | and an arrival is stored exactly when it is in bounds and whole units, has a slot and shares no unit with an accepted fragment; otherwise bytes and accepted fragments stay |
| Reasm.CompletionContents | scripts/reasm_oracle.py:284-306 | whatever the run and the pool, in a completed datagram every covered byte comes from exactly one accepted fragment and is its byte |
| Reasm.CompletionIsExact | scripts/reasm_oracle.py:284-306 | whatever the run and the pool, completion means every byte was written exactly when no accepted fragment ends inside a unit before the total length |
| Reasm.OneLastFragmentSuffices | scripts/reasm_oracle.py:284-306 | with at most one MF=0 fragment accepted, every byte of a completed datagram was written |
| Reasm.TwoLastFragmentsLeakStaleBytes | scripts/reasm_oracle.py:284-306 | two MF=0 fragments complete a datagram with a byte left from before |
| ReasmOrder.FullIffArrived | scripts/reasm_oracle.py:284-306 | the slot is full exactly when every piece of the payload has arrived |
| ReasmOrder.AnyOrderReassembles | scripts/reasm_oracle.py:229-310 | for every aligned cut up to 2048 bytes and every arrival order with duplicates: duplicates drop, new pieces are accepted, the last missing one yields the payload (or oversized above 1480) and frees the slot |
| ReasmOrder.TooLargeNeverCompletes | scripts/reasm_oracle.py:229-310 | above 2048 bytes no arrival order ever completes |
| IpFrames.HeaderRoundTrip | hw_test/ip_frames.py:108-226 | building succeeds exactly for in-range fields, parses back field by field, and verifies when the checksum was computed |
| IpFrames.HeaderLayout | hw_test/ip_frames.py:108-200 | every field of a built header stands at its literal byte position |
| IpFrames.ParsedFrom | hw_test/ip_frames.py:201-226 | every field of a parsed header comes from its literal byte position |
| IpFrames.FragmentFrom | hw_test/ip_frames.py:530-537 | of any frame of 34 bytes or more: the offset, the More Fragments bit and the data up to the total length or the end |
| IpFrames.UdpVerifies | hw_test/ip_frames.py:324-367 | building succeeds exactly for fields in range; the datagram keeps ports, payload and a forced checksum; a computed one is never 0 and verifies under the pseudo-header; otherwise it is 0 |
| IpFrames.FrameRoundTrip | hw_test/ip_frames.py:505-536 | a fragment's frame is built exactly for an offset and length its fields can hold, parses back to its offset, MF flag and data, and its header verifies |
| IpFrames.FrameLayout | hw_test/ip_frames.py:496-516 | a fragment's frame begins with its destination and source MAC, 08 00 and 45, and every header field, the flag word with 0x2000 for MF and the data stand at their literal positions |
| IpFrames.BuildFragmentFrames | hw_test/ip_frames.py:464-517 | the splitter's frames have that layout, with one identification, and carry consecutive aligned pieces that tile the payload, MF on all but the last; it succeeds exactly for usable arguments and a payload whose first piece fits by length and last by offset |
| IpFrames.ReassembleFragments | hw_test/ip_frames.py:520-538 | the reference parses, sorts by offset and joins, for every list of frames |
| IpFrames.SortSorts | hw_test/ip_frames.py:520-538 | sorting gives an ascending permutation |
| IpFrames.SortAndJoinUndoesSplit | hw_test/ip_frames.py:520-538 | sort-and-join of any reordering of the pieces is the payload |
| IpFrames.EngineRefinesReference | scripts/reasm_oracle.py:229-310 | fed in any order with duplicates, the slot engine completes with exactly the sort-and-join result and frees the slot |
| IpFrames.FeedFrames | scripts/reasm_oracle.py:229-310 | the packed-bitmap engine, fed the frames of any run one by one, answers as the run of their fragments does |
| IpFrames.EngineAgreesWithReference | hw_test/ip_frames.py:464-538 | over wire frames: the splitter's frames in any order with duplicates give, from the packed-bitmap engine, exactly what the reference reassembler returns |
| IntelHex.RecordRoundTrip | scripts/intel_hex.py:4-20 | a made record verifies and parses back to its type, 16-bit address and data; it fails only above 255 bytes |
| IntelHex.HexRoundTrip | scripts/intel_hex.py:79-99 | printing bytes in hexadecimal and reading them back is the identity |
| IntelHex.FromHexBegins | scripts/intel_hex.py:79-89 | white space between bytes is passed over, two digits are a byte, a digit alone is refused |
| IntelHex.SingleByteDamageDetected | scripts/intel_hex.py:64-76 | changing any one byte of a verifying record is detected |
| IntelHex.DamageIsFlagged | scripts/intel_hex.py:79-99 | the parser flags every one-byte damage of a record with a right checksum, and reads its other fields as they stand |
| IntelHex.KernelToHexRecords | scripts/intel_hex.py:23-61 | for every chunk size: it raises exactly on zero or a first chunk above 255 bytes, and otherwise emits exactly the specified extended-address, data and end records |
| IntelHex.SegmentRecords | scripts/intel_hex.py:47-57 | the chunk loop with its offset and upper half emits the records of the remaining image, or raises on a chunk above 255 bytes |
| IntelHex.FitsIff | scripts/intel_hex.py:47-57 | no record follows a boundary crossed inside a chunk exactly when base offset, length and chunk size fit |
| IntelHex.HexImageExact | scripts/intel_hex.py:23-61 | loading the records writes exactly the image at its base and nothing else if and only if they fit |
| IntelHex.MisfitLosesLastByte | scripts/intel_hex.py:50-57 | otherwise the last byte of the image is never written in its place |
| IntelHex.UnalignedCrossingBreaks | scripts/intel_hex.py:50-57 | 32 bytes at 0xFFF8 in 16-byte records load wrongly |
| IntelHex.AlignedBaseFits | scripts/intel_hex.py:23-61 | the default chunk size is exact for every 16-byte-aligned base and length |
| FlashSender.WriteAll | scripts/hw_send.py:365-388 | under every schedule of partial writes all data goes out in order, or a strict prefix went out and the write is refused |
| FlashSender.Port.OsWrite | scripts/hw_send.py:382-388 | one write takes some prefix of the data and feeds it to the device |
| FlashSender.Port.OsRead | scripts/hw_send.py:544-550 | one read hands over some of the bytes answered and not yet read |
| FlashSender.FirstCharactersAreRead | chainload/boot.S:388-402 | of anything sent up to a line feed the device reads the first 78 characters, carriage returns left out |
| FlashSender.SendRecord | scripts/hw_send.py:532-575 | a record succeeds exactly on its own length and checksum; every other outcome says what was read |
| FlashSender.SendRecords | scripts/hw_send.py:531-577 | against any device and schedule: no byte of a record is written before all earlier ones were acknowledged; success means every line delivered and exactly the acknowledgements read; on a prompt port success is exactly what an acknowledging device gets |
| Chainloader.LineIsRead | chainload/hex_parse.S:40-112 | a printed record is read back byte for byte, whatever earlier lines left in the line buffer |
| Chainloader.OverlayIs | chainload/boot.S:388-402 | at most 78 characters of a line reach the 80 of the buffer, and what a line does not reach stays |
| Chainloader.ShortLineEnds | chainload/boot.S:249-277 | a line under 11 characters is answered with the byte kept, counted, and followed by the boot message |
| Chainloader.BootMessageReads | chainload/boot.S:280-289 | the boot message carries the record count mod 2^16 in four hexadecimal digits |
| FlashRun.TakenIff | chainload/boot.S:247-278 | whatever arrives is taken for a record's acknowledgement exactly when it has its length and is accepted with its checksum byte or refused with that byte's complement left over |
| FlashRun.RefusedTakenForAck | chainload/hex_parse.S:96-119 | a legible record refused for its sum changes no memory, and passes for acknowledged exactly when its length survived and the sum is the complement of the checksum sent |
| FlashRun.StartlessTakenForAck | chainload/hex_parse.S:73-76 | a line without the start code is judged by the byte the record before left |
| FlashRun.DamagedByteTakenForAck | scripts/hw_send.py:560-575 | one damaged byte past the count is always refused, and passes for acknowledged exactly when it moved by the complement of the checksum |
| FlashRun.RecordHeard | chainload/hex_parse.S:121-156 | an undamaged record is acknowledged, takes effect, and only the end record stops the transfer |
| FlashRun.AcknowledgedIff | scripts/hw_send.py:544-577 | the sender gets its acknowledgements exactly when every line, as it arrives, is taken for one |
| FlashRun.AckNeverStops | scripts/hw_send.py:560-575 | an acknowledgement is never taken for a NAK or a mismatch |
| FlashRun.FlashOver | scripts/hw_send.py:531-577 | over any damage to the lines sent, the device's answers arriving as they are: a run is reported as sent only when every line was taken for acknowledged, and then only a refused write or a silence can prevent it |
| FlashRun.MaskedExists | scripts/hw_send.py:560-575 | a record of any kind can be damaged so in one byte past its count exactly when its checksum is not 0xFF |
| FlashRun.EndNeverMasked | scripts/intel_hex.py:59-60 | the end record cannot be damaged so |
| FlashRun.RunHeard | scripts/hw_send.py:531-577 | with any records so damaged, every line is taken for acknowledged and the device ends with the other records alone |
| FlashRun.StreamLoadable | scripts/hw_send.py:440-452 | the composed stream has one end record, the last |
| FlashRun.FlashDamaged | scripts/hw_send.py:440-577 | a flash with any records so damaged is reported as sent on a prompt port, and the device boots with the other records alone and announces their number |
| FlashRun.OneRecordLost | scripts/hw_send.py:440-577 | a kernel of one record so damaged: reported as sent, booted, and never written |
| FlashRun.OneByteLosesARecord | scripts/hw_send.py:440-577 | such a line exists exactly when that record's checksum is not 0xFF |
| FlashRun.AddressRecordLost | scripts/hw_send.py:440-577 | a kernel of one record whose address record is so damaged, as it always can be: booted with the kernel written to address 0 |
| FlashRun.ImageLoads | scripts/hw_send.py:447-452 | an image whose records fit is written over what was there; otherwise its last byte is not put in its place |
| FlashRun.StreamLoads | scripts/hw_send.py:440-452 | for disjoint regions inside the address space, the stream leaves network.conf at 0x20000000, the kernel at its base and nothing else if and only if the kernel's records fit |
| FlashRun.Flash | scripts/hw_send.py:440-577 | over a clear line a run ends only in success, a refused write or a silence; a completed one boots and leaves exactly both images in memory when the kernel's records fit, and not when they do not |
| HttpFsa.FillRow | scripts/http_fsa_oracle.py:40-47 | a row is total: the listed transitions, the error state elsewhere |
| HttpFsa.BuildTable | scripts/http_fsa_oracle.py:50-88 | building row by row gives the 20 by 9 table |
| HttpFsa.EncodeRoundTrip | scripts/http_fsa_oracle.py:91-93 | every cell fits a byte from which action and state are read back |
| HttpFsa.Absorbing | scripts/http_fsa_oracle.py:81-82 | done and error are never left and raise nothing |
| HttpFsa.EndRaisedLast | scripts/http_fsa_oracle.py:53-82 | over every run the end-of-request action is raised exactly when S_DONE is reached, and as the last action |
| HttpFsa.RefusedIsSilent | scripts/http_fsa_oracle.py:40-47 | a refused run raises nothing from the refused character on |
| HttpFsa.RequestRuns | scripts/http_fsa_oracle.py:53-80 | every request of the grammar is accepted with exactly the actions 1 2 3 (4 5)* 6 at their places |
| HttpFsa.AcceptedIsRequest | scripts/http_fsa_oracle.py:53-82 | every accepted run has read a request of the grammar |
| HttpFsa.AcceptsExactly | scripts/http_fsa_oracle.py:40-82 | a class sequence reaches S_DONE if and only if some prefix of it is a request |
| HttpFsa.RequestUnambiguous | scripts/http_fsa_oracle.py:53-82 | that request is unique |
| HttpFsa.RequestPrefixRuns | scripts/http_fsa_oracle.py:53-82 | on every accepted run the actions are those of the request it begins with, whatever follows |
| HttpFsa.UriSpan | scripts/http_fsa_oracle.py:54-60 | between actions 1 and 2 lies exactly the non-empty URI, free of SP, CR and LF |
| HttpFsa.HeaderSpans | scripts/http_fsa_oracle.py:71-80 | on every accepted run, after the URI and version actions each header-name start is closed by exactly one colon check with the name between them, and the last action is the request's end |
| TcpFsa.LdrIsReversed | scripts/tcp_oracle.py:485-487 | a little-endian load of network bytes reverses the four bytes |
| TcpFsa.LdrIsInvolutive | scripts/tcp_oracle.py:485-487 | doing it twice gives the number back |
| TcpFsa.StepMovesUp | scripts/tcp_oracle.py:235-299 | every segment or close keeps the state or moves it up the lifecycle rank |
| TcpFsa.ChangesAreBounded | scripts/tcp_oracle.py:235-299 | over every run each change costs a rank, so there are at most six |
| TcpFsa.StepKeepsHistory | scripts/tcp_oracle.py:356-379 | one step carries over what the state says about past closes, FINs and resets |
| TcpFsa.RunKeepsHistory | fuzz/gen_corpus_seq.py:231-271 | over every run from LISTEN: TIME_WAIT means one local close and one peer FIN took effect; CLOSED without both only by a reset in the window |
| TcpFsa.StepFollowsLife | scripts/tcp_oracle.py:302-471 | one step of the table agrees with a description of two directions closing independently |
| TcpFsa.RunFollowsLife | scripts/tcp_oracle.py:235-299 | over every run from LISTEN the state is exactly that of two half-closes: our FIN sent and acknowledged by its number, the peer's received in order, which came first, a reset or not |
| TcpFsa.SettledMeansAcked | lib/tcp.S:2806-2904 | over every run from LISTEN, FIN_WAIT_2, TIME_WAIT and CLOSED without a reset are reached only by a segment that acknowledged exactly our next number after our FIN was sent |
| TcpFsa.ResetIsSilent | scripts/tcp_oracle.py:364-379 | a segment with RST never draws a reply and closes the connection exactly when valid, matched and in the window |
| TcpFsa.ResetsAreOwed | scripts/tcp_oracle.py:490-512 | a reset is sent only for a segment without RST, changes nothing, and carries the acknowledged number or acknowledges the whole segment |
| TcpFsa.RepliesAcknowledge | scripts/tcp_oracle.py:381-457 | every other reply acknowledges exactly what has then been received, from the connection's own next number |
| TcpStream.AnswersExactly | scripts/tcp_oracle.py:342-471 | every segment draws no answer, an acknowledgement, a SYN with one, or a reset, each exactly under its condition on state, flags, data and number |
| TcpStream.ResetExactly | scripts/tcp_oracle.py:364-379 | a reset closes exactly when its number is one of the window's next ones, over the wrap of the sequence space |
| TcpFsa.StepConserves | scripts/tcp_oracle.py:381-471 | one step advances the receive number by the bytes delivered and an accepted FIN, the send number by our FIN |
| TcpStream.DeliversInOrderOnly | scripts/tcp_oracle.py:400-426 | one event delivers a segment's data exactly when the connection is established, the segment is checked and plain, and its number is the next expected one |
| TcpStream.DataSegment | scripts/tcp_oracle.py:400-420 | a data segment in order is delivered, advanced over and acknowledged; any other changes nothing and is answered with the number due |
| TcpStream.StreamDelivered | scripts/tcp_oracle.py:400-420 | over every run of pieces of a stream in any order and repetition, among damaged segments, exactly the bytes of the first pieces that arrived in order are delivered and acknowledged |
| TcpStream.WholeStreamIff | scripts/tcp_oracle.py:400-420 | the whole stream is delivered exactly when all its pieces arrived in order at some time |
| TcpFsa.SequenceNumbersConserved | scripts/tcp_oracle.py:381-471 | the same over every run, modulo 2^32 |
| Slab.ContentLengthIsBodyLength | scripts/mk_appliance.py:110-123 | the header splits into its intended lines and declares exactly one length, the body's |
| Slab.TypesBySuffix | scripts/mk_appliance.py:80-107 | every listed suffix has its own content type |
| Slab.PackU32 | scripts/mk_appliance.py:163-167 | the field reads back as the value, nothing else changes, and a value too large is refused |
| Slab.EmitRouteEntry | scripts/mk_appliance.py:155-170 | the 48-byte entry reads back as its fields, the handler stays, and nothing outside it changes |
| Slab.PackRoute | scripts/mk_appliance.py:190-211 | one loop step extends the content and the written entries by one route, or refuses it for exactly the listed reasons |
| Slab.BuildSlab | scripts/mk_appliance.py:173-221 | refused exactly when routes, paths, text or content do not fit; otherwise the slab holds header, entries and content, and zeros elsewhere |
| Slab.BuildableExactly | scripts/mk_appliance.py:173-217 | what is not refused: a bounded number of routes, ASCII paths of at most 1024 characters, ASCII types, and all their bytes within the budget |
| Slab.ContentPrefix | scripts/mk_appliance.py:199-204 | the content of the first routes is a prefix of the content of all |
| SlabImage.WrittenLoads | scripts/mk_appliance.py:155-221 | whatever holds a written slab loads back to every path, header and body in order |
| SlabImage.HeadLayout | scripts/mk_appliance.py:185-219 | magic, version, route count and content length stand at their literal positions |
| SlabImage.EntryLayout | scripts/mk_appliance.py:155-211 | every 48-byte entry has its fields at their literal positions, GET and HEAD as methods, and its three spans hold the path, the header text and the body |
| SlabImage.SpansTile | scripts/mk_appliance.py:199-211 | every byte of the content belongs to one part of one route and to no other |
| SlabImage.PagesDeclareTheirLength | scripts/mk_appliance.py:110-123 | every loaded header declares the length of its loaded body |
| SlabImage.MimeHasNoLineFeed | scripts/mk_appliance.py:80-107 | no content type can break a header line |
| SlabImage.TruncatedIsWritten | scripts/mk_appliance.py:304-308 | cutting after the last content byte loses nothing |
| SlabImage.Find | scripts/mk_appliance.py:233-239 | the first match at or after a place, or none |
| SlabImage.FoundWhereItStands | scripts/mk_appliance.py:233-239 | a pattern that stands somewhere is found there or before, at the start too |
| SlabImage.FindSlabOffset | scripts/mk_appliance.py:224-245 | succeeds exactly when the marker is unique and the slab lies inside the image |
| SlabImage.MarkerIs | scripts/mk_appliance.py:34 | the marker is WSPINONE |
| SlabImage.Package | scripts/mk_appliance.py:248-308 | succeeds exactly for a unique marker, a matching size and routes that fit; the image before the slab is unchanged and the packaged image loads to the routes |
| NetworkConf.Ipv4Exactly | scripts/lint_network_conf.py:84-109 | the accepted addresses are exactly the canonical renderings of four bytes |
| NetworkConf.FindMagic | scripts/lint_network_conf.py:193-210 | the loop finds the magic line, or the line of its error |
| NetworkConf.Lint | scripts/lint_network_conf.py:281-306 | the line loop with its early stop computes the specified result |
| NetworkConf.CollectedStays | scripts/lint_network_conf.py:236-278 | once the required keys are there they stay, although a later dhcp changes what is required |
| NetworkConf.RunKeepsCollected | scripts/lint_network_conf.py:281-306 | the same over every run of lines |
| NetworkConf.SoftEofNeverMissing | scripts/lint_network_conf.py:293-306 | a run that stopped at trailing garbage never reports a missing key |
| NetworkConf.SoftEofTransparent | scripts/lint_network_conf.py:293-306 | garbage that begins with an unknown key is invisible exactly when the required keys were collected; otherwise it is reported |
| NetworkConf.OkIsSound | scripts/lint_network_conf.py:220-306 | ok means the magic, only known keys with valid values, and every required key |
| NetworkConfReport.LintReports | scripts/lint_network_conf.py:193-306 | for every text: refused on the magic's line without the magic; otherwise the configuration is what the first valid settings gave, and the errors are exactly the first rule broken by each line up to the end, in order, and one E_REQ for each missing key |
| NetworkConfReport.OkIff | scripts/lint_network_conf.py:281-306 | ok exactly when the magic is there, every line up to the end is blank or sets a key not set before to a valid value, and the required keys are there |
| NetworkConfReport.CommentsAreCut | scripts/lint_network_conf.py:169-190 | both comment strippers cut at the first '#' that begins the line or follows white space, the magic's own excepted |
| NetworkConfReport.HostNameExactly | scripts/lint_network_conf.py:116-123 | a host name is 1 to 63 letters, digits and inner hyphens |
| NetworkConfReport.MacExactly | scripts/lint_network_conf.py:126-140 | a MAC address is six two-character bytes with colons at the five places between |
| NetworkConfRender.RenderedDocLints | scripts/lint_network_conf.py:169-306 | every rendering of a valid configuration, in any key order with padding, blank lines and set-off comments, lints ok to that configuration |
| NetworkConfRender.CommentLineBlankIff | scripts/lint_network_conf.py:181-199 | a comment line before the magic counts as blank exactly when it is indented |
| NetworkConfRender.UnindentedCommentRefused | scripts/lint_network_conf.py:193-206 | after any blank lines an unindented comment that is not the magic is refused on its own line |
| NetworkConfRender.IndentationDecides | scripts/lint_network_conf.py:193-210 | before any valid configuration a comment line lints ok when indented and is an E_MAGIC when not |
| NetworkConfRender.NoteAboveMagic | scripts/lint_network_conf.py:193-210 | a concrete text refused for an unindented note, and read as intended with it indented |
| NetworkConfRender.EntryShape | scripts/lint_network_conf.py:236-251 | a rendered entry is read as its key and value |
| DhcpTable.RowFindings | scripts/lint_dhcp_fsa_vectors.py:68-152 | a row raises nothing exactly when its names are known and its transition is consistent |
| DhcpTable.Lint | scripts/lint_dhcp_fsa_vectors.py:162-180 | the loop with its seen-set gives every line's findings, duplicates by earlier lines, and the missing cells in alphabetical order |
| DhcpTable.SortedReachesAll | scripts/lint_dhcp_fsa_vectors.py:155-159 | that order reaches every cell |
| DhcpTable.OrderIsAlphabetical | scripts/lint_dhcp_fsa_vectors.py:155-159 | and is the alphabetical one of the names |
| DhcpTable.LintSilentIff | scripts/lint_dhcp_fsa_vectors.py:140-180 | the lint is silent exactly for the right header and a complete, unambiguous table |
| DhcpReport.LintReports | scripts/lint_dhcp_fsa_vectors.py:59-180 | for every text the lint reports exactly the findings whose rule holds of its lines and names, in the order of the lines, and then the missing cells |
| DhcpTable.ReadTable | scripts/verify_dhcp_fsa_table.py:104-116 | succeeds exactly inside the section and decodes every 16-byte cell |
| DhcpTable.SameRowsAreCompared | scripts/verify_dhcp_fsa_table.py:119-142 | a linted ASCII table is read by the comparison as exactly the linted rows |
| DhcpTable.RowIndexNames | scripts/verify_dhcp_fsa_table.py:195-203 | the index names the cell of the row's state and event |
| DhcpTable.CheckOne | scripts/verify_dhcp_fsa_table.py:145-192 | passes exactly when the cell is what the row asks for |
| DhcpTable.Validate | scripts/verify_dhcp_fsa_table.py:206-233 | the loop reports the wrong row count, a KeyError, or exactly the mismatches in order |
| DhcpReport.VerdictIsExact | scripts/verify_dhcp_fsa_table.py:145-216 | every row gets the verdict of the first rule it breaks against the compiled cell 9 s + e of its state and event |
| DhcpReport.ComparisonReports | scripts/verify_dhcp_fsa_table.py:219-233 | for every table: the wrong number of rows, a crash exactly on an unknown next state, or exactly the rows that break a rule, in order |
| DhcpTable.ComparisonSilentIff | scripts/verify_dhcp_fsa_table.py:219-233 | the comparison is silent exactly when there are 54 rows and each agrees with its cell |
| DhcpTable.Pigeonhole | scripts/verify_dhcp_fsa_table.py:224-227 | distinct numbers below n cover them all exactly when there are n |
| DhcpTable.CountIsCoverage | scripts/verify_dhcp_fsa_table.py:195-227 | distinct known rows number 54 exactly when every cell has its row |
| DhcpTable.ChecksTogetherAreExact | scripts/verify_dhcp_fsa_table.py:219-233 | on linted rows the comparison is silent exactly when every compiled cell equals its unique row |
| DhcpTable.SilentChecksFixTheTable | scripts/lint_dhcp_fsa_vectors.py:162-180 | from one text: both checks silent means every compiled cell equals its unique row |
| DhcpTable.ComparisonAloneIff | scripts/verify_dhcp_fsa_table.py:219-233 | a silent comparison fixes every compiled cell exactly when no two rows share a state and event |
| DhcpTable.ComparisonAloneIsNotEnough | scripts/verify_dhcp_fsa_table.py:219-233 | a concrete table wrong in 53 cells that the comparison alone passes |
| Capture.WaitForFrames | hw_test/wire.py:1212-1238 | for every schedule of polls, aborts between packets and exceptions on a packet, the result is the matches among the packets passed, cut at the wanted count |
| Capture.MatchingStands | hw_test/wire.py:1225-1234 | the matches are, in order, exactly the packets of 14 bytes or more that are no readiness probe and that the caller wants |
| Capture.AdvanceIs | hw_test/wire.py:1217-1236 | a poll passes every packet it can read up to and including the first that raises |
| Capture.ReturnIsCut | hw_test/wire.py:1231-1238 | what is returned is the first matches passed, as many as asked for, or all when there are fewer |
| Capture.FullReturnIsFirstMatches | hw_test/wire.py:1231-1238 | a full return is exactly the first matches of the whole log |
| Capture.QuietCursor | hw_test/wire.py:1217-1224 | when no packet raises, the polls get exactly as far as the furthest of them |
| Capture.CursorReaches | hw_test/wire.py:1217-1224 | the polls get as far as the furthest of them unless a packet that raises was passed on the way |
| Capture.ScheduleIndependentIff | hw_test/wire.py:1215-1238 | for every log: schedules that read equally far return the same, and a wait that read everything misses nothing, exactly when no match lies behind a packet that raises |
| Capture.RaisingCostsAPoll | hw_test/wire.py:1235-1236 | a packet that raises is lost and the match behind it is found only by another poll |
| Capture.AppendIrrelevant | hw_test/wire.py:1215-1238 | packets appended later do not change what was returned |
| FuzzFraming.PackSequence | fuzz/gen_corpus_seq.py:127-132 | packs exactly when every length fits its field, to the frames one after the other behind their lengths |
| FuzzFraming.RunInput | fuzz/fuzz_tcp_seq.c:80-113 | the C loop stays inside its buffers, terminates, and performs the specified events |
| FuzzFraming.EventsAreRead | fuzz/fuzz_tcp_seq.c:80-113 | for every input, each event is read at its place behind a big-endian length, cut at 1514 bytes, and the loop ends after 32 or when no further one can be read |
| FuzzFraming.PackedLays | fuzz/gen_corpus_seq.py:127-132 | the packed bytes read back as the lengths and frames |
| FuzzFraming.EventsAreBounded | fuzz/fuzz_tcp_seq.c:86-113 | no input gives more than 32 events, a frame above 1514 bytes, or more bytes than it had |
| FuzzFraming.FramingIsExact | fuzz/fuzz_tcp_seq.c:80-113 | a packed sequence is replayed faithfully if and only if it has at most 32 frames of at most 1514 bytes in at most 8192 bytes |
| FuzzFraming.LongFrameDesynchronises | fuzz/fuzz_tcp_seq.c:103-112 | a frame of 1515 bytes loses the next frame and invents a close |
| PerfRatchet.ParseLog | scripts/perf_check.py:93-165 | the line loop over runs, current run and resets computes the specified parse |
| PerfLog.LogIsRead | scripts/perf_check.py:93-165 | for every log: refused exactly when a run carries a metric twice; otherwise the runs are those of the header lines in order, each with exactly the metrics of the lines up to the next header or reset, and a reset stands for the runs begun before it |
| PerfLog.LineReads | scripts/perf_check.py:106-162 | the same for one line more |
| PerfRatchet.FieldsAreRecorded | scripts/perf_check.py:141-162 | a line is refused exactly on a metric collision; otherwise every known field is recorded and nothing is overwritten or invented |
| PerfRatchet.ResetForgets | scripts/perf_check.py:108-120 | after a reset the gate sees the same runs of the flavor whatever was logged before |
| PerfRatchet.AggregateBest | scripts/perf_check.py:193-208 | the dictionary loop gives, for every key, exactly the best over the runs |
| PerfRatchet.Extreme | scripts/perf_check.py:168-174 | the standard is one of the values and none is better |
| PerfRatchet.MetricNames | scripts/perf_check.py:69-82 | the metrics that are read, and of which of them more is better |
| PerfRatchet.MoreHistoryIsStricter | scripts/perf_check.py:168-174 | more history never worsens the standard |
| PerfRatchet.NewBestPasses | scripts/perf_check.py:177-182 | a new best is never a regression |
| PerfRatchet.RegressionIs | scripts/perf_check.py:177-182 | a regression is a loss against the standard of more than the tolerated share of it, in the direction of the metric |
| PerfRatchet.RatchetNeverLoosens | scripts/perf_check.py:328-371 | for a fixed window, extending the history never turns a failing metric into a passing one |
| PerfGate.Gate | scripts/perf_check.py:241-412 | the gate from log to failures: refused exactly for bad arguments or a log that does not parse; otherwise it reports exactly the gated metrics measured in the window for which some value v of the history has every window value above (1 + tolerance) v |
| PerfGate.FailuresAreRegressions | scripts/perf_check.py:168-182 | a metric fails exactly when it regressed so |
| PerfGate.HistoryIs | scripts/perf_check.py:285-289 | the history is the runs of the flavor that share commit and timestamp with no run of the window |
| PerfGate.WindowIs | scripts/perf_check.py:262-277 | the window is the last n of the runs asked for, or all of them |
| PerfGate.AppendGrows | scripts/perf_check.py:93-165 | lines with no reset of the flavor and no run of the checked commit for it leave the gated metrics of that commit's runs as they were, and only enrich or add others |
| PerfGate.AppendingNeverClears | scripts/perf_check.py:256-289 | for a checked commit, appending such lines never removes a failure, unless they add a gated metric to a run of that commit that the log ends in |
| PerfAppend.NeverClearsIff | scripts/perf_check.py:256-289 | lines without a gated metric for an open run never clear a failure of the commit, on any log, exactly when they hold no reset of the flavor and no run of that commit for it |
| PerfAppend.NeverClearsWhileAppendedIff | scripts/perf_check.py:93-165 | lines of any kind never clear one at any point while they are appended exactly when they hold neither of these and no gated metric for an open run |
| PerfAppend.ContinuedRunClears | scripts/perf_check.py:132-162 | a concrete log on which going on with that run does clear one |
| PerfRatchet.BestPasses | scripts/perf_check.py:337-372 | a value as good as the standard never fails |
| PerfRatchet.HistoryIsEarlierRuns | scripts/perf_check.py:279-289 | without a commit the history is the earlier runs exactly when none shares a window run's identity |
| PerfRatchet.CommitHistoryIsEarlierIff | scripts/perf_check.py:269-289 | with a commit the history is all earlier exactly when every run from the window's first on is of that commit |
| PerfRatchet.LaterRunFailsEarlier | scripts/perf_check.py:281-289 | a run can fail only because of a later one |

## Left out

- Assembly kernel: not part of this model; the oracles state what it must do.
- Hardware and operating system: serial line settings, DTR, READY and BOOT lines, sockets, subprocesses and file walks (`collect_routes` takes its routes as given).
- Multi-slot reassembly pool and the 30 s timeout: the oracle exposes only whether a slot is free, which is a parameter here.
- TCP acknowledgement tracking: snd_una, windows other than the one a reset is checked against, SACK and retransmission are fixed to constants by the oracle; a segment that overruns the receive buffer is not decided by it, so delivered bytes are counted without a limit.
- TCP sequence numbers: the oracle fixes them to constants; the model states its formulas for arbitrary numbers, with the window as an input of each step. Where the oracle's constants leave a handler's own check of a number undecided, the model does what lib/tcp.S:1692, 2152, 2806, 2869 and 3058 do.
- Frame addresses: textual IPv4 and MAC arguments of the builders are taken as bytes.
- Chainloader: characters that are not hexadecimal, bytes read past the line buffer, and an extended-address record with
  too little data give an arbitrary outcome (`Noise`); memory above the chainloader's stack or over the chainloader
  itself, which a byte count above 32 or a kernel reaching 0x4000000 would overwrite, is not modelled.
- FlashRun.FlashOver: the answers of the device arrive undamaged (`FlashSender.SendRecords` holds for any answers); damage that makes or removes a line end is not modelled; the READY line before the records is left out.
- TcpFsa.ResetIsSilent: README.md:666 and lib/tcp.S:1330-1370 answer a reset in the window that is not exact with a challenge ACK, which is not modelled; scripts/tcp_oracle.py:364-370 closes on it, and the model follows the oracle.
- TcpFsa.StepConserves: an out-of-order data segment is acknowledged but not kept, while scripts/tcp_oracle.py:402-407 says it is buffered; the oracle shows nothing of what the buffer later yields.
- TcpFsa.SequenceNumbersConserved: the same, so bytes a filled gap would release from that buffer are not counted.
- NetworkConf.OkIsSound: the MAC validator is modelled with the sign and space that int(p, 16) accepts, without non-ASCII digits.
- HttpFsa.AcceptsExactly: the mapping from characters to the nine classes is in the assembly.
- Slab.BuildSlab: negative size overrides are not modelled.
- SlabImage.WrittenLoads: the loader is the layout's reading of the slab; the kernel's own loader is assembly.
- DhcpTable.ReadTable: finding the symbol and section in objdump output.
- Capture.WaitForFrames: time is the number of polls.
- PerfRatchet.ParseLog: the regular expressions; lines arrive classified, and measurements are real numbers.
- Message texts, printing, argument parsing and the packing of binary test vectors.

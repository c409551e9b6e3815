# MasterPilot-CustomData: a Dafny model of the slice transport

The library sends a message of bytes over a link that carries blocks of one fixed size. A sender cuts the
message into numbered slices, puts a 4-byte header in front of each and pads the block. A receiver gets the
blocks in any order, possibly several times, and rebuilds the message from four redundant pieces of state: a
256-bit map of the slices seen, a counter, the end of the package once known, and the watermark up to which
everything has arrived. Around that pure step sit several front ends: a command line sender and receiver,
an embedded encoder and decoder, and C# and C++ encoders and decoders. The last two keep a table of
8 x 256 slots in which wrapping package ids stand in for an unbounded serial.

This project models those layers in Dafny and proves what they promise together. The code that changes state
in place is modelled as classes and loops and proved against functions; the protocol's laws are lemmas about
those functions.

| file | contents |
|---|---|
| `Words.dfy` | C integer casts, facts about products, sequences and buffers |
| `Common.dfy`, `Tx.dfy` | header packing on bit-vectors, coordinates, the pure sender operators |
| `Packages.dfy` | the eager and the lazy segmentation of a message, frames on the wire, honest frames |
| `Bitmap.dfy` | eight 32-bit words as a set of slice numbers |
| `Rx.dfy`, `Wrapping.dfy`, `Watermark.dfy` | the receiver step and its scan loop; when the loop ends, exactly |
| `ClosedForm.dfy` | the four redundant fields as functions of the set of slices received |
| `Reassembly.dfy`, `Runs.dfy` | one slot with its never-cleared buffer; whole runs over one package |
| `SlotTable.dfy`, `Serials.dfy` | the slot table with lazy generation reset, and the map it refines |
| `Isolation.dfy` | frames of any content: senders and slots do not disturb each other until one keeps the receiver |
| `Discipline.dfy` | what it costs when senders break the rules under which the table refines the map |
| `Repeats.dfy` | frames of any content: the first copy of a slice stands, in every receiver |
| `Malformed.dfy` | frames no sender makes: reads past the C++ buffer, lost end flags |
| `CSharpDecoder.dfy`, `CppDecoder.dfy` | the two tables updated in place |
| `ToolReceiver.dfy`, `EmbeddedDecoder.dfy` | the flushing receiver; the pull stream over an assembled package |
| `StreamSender.dfy`, `BufferWriter.dfy`, `ZeroCopySender.dfy` | the C, C# and C++ senders |
| `EndToEnd.dfy` | senders and receivers together |

Main results, in the system's terms:

- Over any word of one message's frames, however long, a slot delivers at exactly the positions where the
  frames since its last delivery first cover all slices, and always delivers the message
  (`Runs.GreedyCovering`).
- The slot table delivers, frame by frame, what a map keyed by (sender, unbounded serial) delivers, for every
  trace that keeps a stated discipline (`Serials.TableRefinesMap`). The two places where the discipline is
  needed are stated as equivalences (`Serials.GenerationTracksEpoch`, `Serials.DisplacedIffFresh`).
- From all tables and over all frames, forged ones included, that the receiver has taken, what a sender's frames do
  is as if no other sender existed, and within an epoch what a slot's frames do to its state, buffer and generation,
  and what they deliver, is as if no other slot existed (`Isolation.SendersIsolated`, `Isolation.SlotsIsolated`). The
  limit of this isolation is exact: a frame whose scan never ends keeps the receiver from everyone, and the table goes
  on serving if and only if no sender's frames alone would stop it (`Isolation.TableServesIffSendersDo`,
  `Isolation.TableServesIffSlotsDo`). One sender's honest 65535 bytes in slots of 1024 stop every sender
  (`Isolation.LongestMessageStopsAll`).
- A package of at most 256 slices and 65535 bytes is delivered if and only if it is addressable: nothing wraps, or
  the message length plus the largest power of two in the slot size is at most 65536. Otherwise its completing slice
  makes the receiver hang, whatever the order of arrival (`Runs.RunFailsIffNotAddressable`, `Runs.DeliveredOnce`);
  65535 bytes in slots of 1024 are such a package (`Runs.LongestMessageHangs`). "Within the bound" below means such a
  package that is addressable.
- Over frames of any content the first copy of a slice stands: what comes again for it in the same cycle may be left
  out without changing any other outcome, and what is delivered for a slice are the bytes that came first
  (`Repeats.SlotDropsRepeat`, `Repeats.DeliversFirstCopies`, and the same for the table and the embedded receiver).
- Breaking the discipline has a price, stated as runs of the table from the start: a slot left with nothing but an
  empty terminator truncates the package that inherits it (`Discipline.StaleTerminatorTruncates`), and one late frame
  of an earlier epoch drops the package half received (`Discipline.LateFrameLosesPackage`).
- The tool's output is at every moment exactly the contiguous part of the message (`ToolReceiver.StreamsInOrder`).
- The C core's senders emit the eager segmentation for every way of splitting their input into pieces of at most 65535
  bytes, and only for those (`StreamSender.EmbeddedEncoder.Encode`). Whatever the calls, the frames of the C# writer
  carry what was written; they are its eager segmentation if and only if no hint exceeds what is left of the slot in
  which the bytes written so far end (`BufferWriter.WriteAll`). The C++ encoder emits the lazy one if and only if its
  buffer is exactly one transmission unit long and nothing is given back except part of the last window
  (`ZeroCopySender.TxEncoderCore.Push`). What the first condition costs is proved too: a receiver hands out what was
  written before the offending call as a whole message (`EndToEnd.AskingTooMuchTruncates`). What the second costs is
  that bytes given back are sent and delivered all the same.

An honest frame is one whose header names a slice of its package and whose payload is that slice; the padding behind
it is arbitrary. The last slice may be marked by the flag, or by being shorter than a full slice but not empty, which
the receiver takes for the end just as well.

Where the code and its documentation disagree the model follows the code. The header of the receive stream says
that a COMPLETE event always comes with a moved watermark; `Runs.CompletionMovesWatermark` states exactly when it
does. The design document says that the terminator is never needed as an empty slice, yet the C core always sends
one for an exact multiple; both segmentations are modelled. It also says that a lost end flag does no harm on a slice
that is not full; that holds exactly unless the slice is empty, and then a package completes with a slice missing
(`Reassembly.FlagMattersIffEmpty`, `Malformed.LostFlagLosesASlice`). The C++ encoder's header asks for a buffer of at least
one transmission unit and promises frames of exactly one; the stream hands out and sends the whole buffer, so only a
buffer of exactly one unit gives the frames promised (`ZeroCopySender.TxEncoderCore.Push`).

Bits of the header and of the bitmap are Dafny bit-vectors. Offsets, counters and identifiers are bounded integers
with an explicit function for every cast of the C code. `(sender << 8) | package` is written as
`sender * 256 + package`, which is the same number for these ranges.

## Model

| member | source | states |
|---|---|---|
| Common.HeaderRoundTrip | src/core/customdata-common.h:84-127 | packing a header, writing it as four little-endian bytes, reading and unpacking gives it back if and only if its fields fit their wire width |
| Common.HeaderToBytes | src/core/customdata-common.h:84-105 | the four bytes on the wire for any header, as numbers, least significant first: package, slice, then sender + 8 * flag + 16 * (size % 16), then the rest of the 12-bit size |
| Common.HeaderFromBytes | src/core/customdata-common.h:92-127 | what a receiver reads from any four bytes, as numbers |
| Common.HeaderFits | src/core/customdata-common.h:113-127 | whatever four bytes arrive, the header read from them is within its wire widths, so a slot index never leaves the table |
| Packages.SegmentedIsHonest | src/core/customdata-tx.h:38-77 | every frame of either segmentation of a package of at most 256 slices and 65535 bytes reads back as the right slice: number, size, end mark, payload, sender, package |
| Packages.SliceHeader | src/core/customdata-tx.h:38-59 | the n-th slice of such a package carries slice number n although it is computed from a 16-bit offset |
| Packages.FrameOnWire | README.md:14-23 | the first four bytes of every frame of a package, as numbers |
| EndToEnd.AddressAgreement | src/core/customdata-rx.h:80-96 | a coordinate survives header, wire and reconstruction exactly when the sender fits three bits and the offset starts one of 256 slots |
| Bitmap.InsertRepresents | src/core/customdata-rx.h:164-179 | setting a bit in the eight words is inserting into the set they stand for |
| Bitmap.RepresentsUnique | src/core/customdata-rx.h:12-20 | a set of slice numbers is represented by one bitmap only |
| Rx.AdvanceWatermark | src/core/customdata-rx.h:98-130 | the scan loop computes the scan function wherever that has a result |
| Rx.ScanEndsIffSomeOffsetStops | src/core/customdata-rx.h:113-123 | the scan function has a result if and only if some iteration of the machine loop, however late and after however many wraps, stops it |
| Rx.CalcSliceStep | src/core/customdata-rx.h:156-207 | the step computes the step function: duplicate, bitmap, termination, counter, watermark, event |
| Watermark.ScanEndsInTime | src/core/customdata-rx.h:104-130 | from an aligned offset in any state, if a clear bit or a known end lies ahead the scan stops within one iteration per remaining slice number, at the nearer of the two |
| Watermark.FullMapNeverEnds | src/core/customdata-rx.h:113-123 | with all 256 bits set and no known end the loop never ends |
| Watermark.StepFailsIffNotAddressable | src/core/customdata-rx.h:156-207 | over honest slices of any package of at most 256 slices and 65535 bytes, the step does not return exactly when a slice completes a package that is not addressable; otherwise it raises the right event and keeps the closed form |
| Watermark.OverhangEndsIff | src/core/customdata-rx.h:104-130 | when the last slot ends past the address space the completing scan ends if and only if the message length plus the largest power of two in the slot size is at most 65536 |
| Watermark.StepHonest | src/core/customdata-rx.h:156-207 | one honest slice of a package within the bound keeps the closed form of all four fields, and the event is a function of the set received: duplicate, complete, out of order or in order |
| Wrapping.VisitsLast | src/core/customdata-rx.h:122 | a wrapping 16-bit walk in steps of m reaches the last multiple of the largest power of two in m, from any multiple of m |
| ClosedForm.CounterTest | src/core/customdata-rx.h:58-78 | the cheap counter test holds exactly when every data slice and the terminator have arrived |
| ClosedForm.ScanStopsAtGap | src/core/customdata-rx.h:104-130 | as long as no offset can wrap the scan stops at the first missing slice or at the message's end |
| Runs.StateIsClosedForm | src/core/customdata-rx.h:156-207 | after any word of slices of a package of at most 256 slices and 65535 bytes that leaves one out, addressable or not, the state is the closed form of the set of its members |
| Runs.OrderDoesNotMatter | doc/design-philosophy.md:107 | two words with the same members reach the same state |
| Runs.RunFailsIffNotAddressable | src/core/customdata-rx.h:104-207 | a run from the zero state over any order of a package's slices fails to return at the completing slice exactly when the package is not addressable |
| Runs.LongestMessageHangs | src/core/customdata-rx.h:113-123 | it does happen: the 64 slices of any 65535 bytes in slots of 1024, in order from the zero state |
| Runs.BitmapRefinesSet | src/core/customdata-rx.h:164-188 | over arbitrary slices the words are exactly the set of numbers seen, a duplicate changes nothing, and the counter is the size of that set without the numbers first seen as empty terminators |
| Runs.CompletionMovesWatermark | src/core/customdata-stream-rx.h:64-67 | a completing slice moves the watermark, to the message length, except when it is an empty terminator |
| Reassembly.ReceiveHonest | src/csharp/RxDecoder.cs:32-55 | a slot fed an honest frame does what a machine on sets of slice numbers does, whatever its buffer held and whatever the padding is |
| Reassembly.StoreHolds | src/csharp/RxCoordinator.cs:19-23 | growing the buffer and storing a slice puts its bytes in place and disturbs no other byte of the message, in both table implementations |
| Reassembly.RepeatIsInert | src/csharp/RxDecoder.cs:37-40 | a frame of any content for a slice seen in this cycle leaves state, buffer and generation of its slot as they are |
| Reassembly.CutFrameIsShort | src/csharp/RxDecoder.cs:26 | a frame that holds less than its header announces is taken as if it had announced what it holds; cut inside its payload it ends the package |
| Runs.SlotRefinesSets | src/csharp/RxDecoder.cs:32-55 | a slot's outcomes along any word of honest frames are those of the machine on sets; of a package that is not addressable, along any word that leaves a slice out |
| Runs.GreedyCovering | src/core/customdata-stream-rx.c:31-40 | deliveries happen at exactly the positions where the frames since the previous delivery first cover the package, and each is the message |
| Runs.DeliveredOnce | src/core/customdata-stream-rx.c:31-40 | a word that covers the package with its last frame and not before delivers it once, there, and leaves the state zero; or hangs there, exactly when the package is not addressable |
| Reassembly.FlagMattersIffEmpty | doc/design-philosophy.md:73-75 | on a new slice that is not full the step is the same with and without the end flag exactly when the slice is not empty or its scan never ends |
| Reassembly.ShortSliceEnds | src/core/customdata-rx.h:181-183 | a slice that is neither full nor empty ends the package whether it carries the flag or not, new or repeated |
| Malformed.LostFlagLosesASlice | doc/design-philosophy.md:73-75 | the terminator of two full slots arrives without its flag: with slice 0 the package completes without slice 1, and a slot hands out what its buffer holds there, or overruns in C++ when it holds too little |
| SlotTable.NoOverrun | src/csharp/RxDecoder.cs:45-53 | one frame of any content: the C# slot does not deliver past the end of its buffer, and keeps the known end of the package stored |
| SlotTable.NeverOverruns | src/csharp/RxDecoder.cs:19-61 | from a fresh table, over any number of frames of any content, the C# decoder never hands out more than its buffer holds |
| SlotTable.StoppedIffFatal | src/core/customdata-rx.h:113-123 | a run is over exactly when some frame's scan never ended or its read overran; nothing later is processed |
| SlotTable.RepeatedOnlyClocks | src/cpp/customdata-protobuf-rx.cpp:141-153 | a repeated frame of any content does no more to the table than the two generation hooks |
| Repeats.AgainIffSeen | src/core/customdata-rx.h:164-179 | over frames of any content, a frame is a repeat exactly when a frame for its slice has come since the last delivery |
| Repeats.SlotDropsRepeat | src/csharp/RxDecoder.cs:37-40 | leaving a repeated frame out changes neither the slot in the end nor what any other frame causes |
| Repeats.DeliversFirstCopies | src/csharp/RxDecoder.cs:35-55 | over frames that stay in their slots, whatever else they hold, the bytes delivered for a slice are those of the first frame for it since the last delivery |
| Repeats.BufferKeeps | src/csharp/RxCoordinator.cs:19-23 | the buffer never shrinks and no byte changes that no frame covers, deliveries included |
| Repeats.TableDropsRepeat | src/csharp/RxDecoder.cs:19-61 | within an epoch a repeated frame may be left out of the table's run: it goes on or not just as well, with the same slots and the same other outcomes |
| Repeats.TableDeliversFirstCopies | src/cpp/customdata-protobuf-rx.cpp:121-194 | what the table delivers in its first epoch has the first copy of every slice in its place |
| Malformed.CppOverrunIff | src/cpp/customdata-protobuf-rx.cpp:71-90 | any C++ slot reads past its buffer exactly when a frame completes a package and either ends it itself, empty and behind everything stored, or the end recorded before lies behind everything stored with this frame |
| Malformed.EmptySlicesOverrun | src/cpp/customdata-protobuf-rx.cpp:166-183 | it does on forged frames: slices 0 and 1, both empty and neither final |
| Isolation.SendersIsolated | src/csharp/RxCoordinator.cs:36-65 | from any table and over any frames that it has taken, everything held of a sender and everything its frames cause is as if it were alone |
| Isolation.TableServesIffSendersDo | src/csharp/RxDecoder.cs:19-61 | from any table and over any frames, the receiver goes on exactly as long as no sender's frames alone would stop it |
| Isolation.SlotsIsolated | src/csharp/RxDecoder.cs:28-55 | from any table and over any frames that it has taken, as long as one sender's ids do not fall by more than 127, each of its slots (state, buffer, generation) and what its frames cause are those of a lone receiver that starts from that slot and sees only its frames |
| Isolation.TableServesIffSlotsDo | src/csharp/RxDecoder.cs:28-55 | within an epoch the receiver goes on exactly as long as no slot's frames alone would stop a lone receiver |
| Isolation.SlotsIsolatedFromStart | src/cpp/customdata-protobuf-rx.cpp:121-194 | the same isolation from a fresh table, where the lone receiver starts from a fresh slot |
| Isolation.KeptForGood | src/core/customdata-rx.h:113-123 | the slices of an honest package that is not addressable, in any covering order, end in a hang, and every later frame of any sender is lost |
| Isolation.LongestMessageStopsAll | src/core/customdata-rx.h:113-123 | it takes no forgery: the 64 frames a sender makes of any 65535 bytes in slots of 1024 |
| Serials.GenerationTracksEpoch | src/csharp/RxCoordinator.cs:48-54 | after the generation hook the wrapping generation is the epoch modulo 256 exactly when the serial stepped back by at most 127 within its epoch or forward by at most 128 into the next |
| Serials.DisplacedIffFresh | src/csharp/RxCoordinator.cs:39-46 | a slot left by an earlier serial behaves as a fresh one exactly when nothing is left of that package, or it counted a data slice and its epoch differs modulo 256 |
| Serials.TableStepRefines | src/csharp/RxDecoder.cs:19-61 | one legal arrival: table and map cause the same outcome and stay related |
| Serials.TableRefinesMap | src/csharp/RxCoordinator.cs:36-65 | along every disciplined trace the table causes, frame by frame, what a map keyed by sender and unbounded serial causes |
| Serials.OnlyMessagesDelivered | src/cpp/customdata-protobuf-rx.cpp:121-194 | along such a trace every frame causes nothing or the delivery of its own package's message; no scan hangs and no stored byte is missing |
| Serials.GenerationAlongTrace | src/cpp/customdata-protobuf-rx.cpp:53-59 | along such a trace each sender's generation is its current epoch modulo 256 |
| Serials.DeliveriesIsolated | src/csharp/RxDecoder.cs:28-55 | along a disciplined trace of any number of epochs, each package's frames cause what they cause in a lone receiver that sees only them |
| Serials.OwnerAgrees | src/csharp/RxCoordinator.cs:56-65 | while a package owns its slot in such a trace, the slot's state is that lone receiver's and both buffers hold the message's bytes of every slice collected; behind them the buffers may differ, being never cleared |
| Discipline.StaleTerminatorTruncates | src/csharp/RxCoordinator.cs:43-44 | after any disciplined trace from a fresh table that leaves a slot with nothing but an empty terminator, a later package in that slot is handed out cut off at the terminator's end, once the slices before it have come, in any order |
| Discipline.LateFrameDropsPartial | src/csharp/RxCoordinator.cs:48-54 | from a fresh table: half a package, one frame of the sender with an id more than 127 above, the other half: the second half causes what it would cause alone |
| Discipline.LateFrameLosesPackage | src/csharp/RxCoordinator.cs:48-54 | so a package whose slices all came, and which is delivered without the late frame, is not delivered with it |
| CSharpDecoder.RxCoordinator.AdvanceGeneration | src/csharp/RxCoordinator.cs:48-54 | the hook changes one sender's metadata as specified and nothing else |
| CSharpDecoder.RxCoordinator.SlotAt | src/csharp/RxCoordinator.cs:39-65 | the indexer resets and restamps one slot as specified and nothing else |
| CSharpDecoder.RxDecoder.Decode | src/csharp/RxDecoder.cs:19-61 | the whole table after a frame and the package handed out are those of the specification; the delivered span is always inside the buffer; a repeated slice does no more than the hooks and hands out nothing |
| CppDecoder.Coordinator.PutPayload | src/cpp/customdata-protobuf-rx.cpp:71-83 | stores a non-empty payload in one slot, after that slot's clock hook |
| CppDecoder.Decoder.Push | src/cpp/customdata-protobuf-rx.cpp:121-194 | the whole table after a block and the package handed out are those of the specification, although every accessor runs the clock hook again; a block without a header changes nothing; a repeated slice does no more than the hooks |
| ToolReceiver.RxSession.Feed | src/core/customdata-stream-rx.c:6-52 | state, assembly buffer and output after a frame are those of the specification; a block without a header or a repeated slice changes nothing |
| ToolReceiver.RxSession.Flush | src/tools/rx.c:66-92 | the flush loop writes exactly the bytes between the two watermarks, however slots and partial writes split them |
| ToolReceiver.RxSession.FeedAll | src/tools/rx.c:128-139 | the main loop is the run of the step over all blocks |
| ToolReceiver.StreamsInOrder | src/tools/rx.c:41-93 | after every word of honest frames the output is the message once per completed cycle, then exactly the contiguous prefix received in the current one |
| ToolReceiver.BackToBack | src/tools/rx.c:15-93 | packages arriving one after another, each shuffled and repeated at will, produce the concatenation of all messages |
| EmbeddedDecoder.PullStream.Locate | src/embedded/customdata-embedded-decode.c:28-45 | each turn of the read loop copies from inside the package and makes progress until it is exhausted, and stays inside the current slot of the 256; behind them, where only a forged end lies, the wrapping subtraction yields the rest of the package |
| EmbeddedDecoder.PullStream.Read | src/embedded/customdata-embedded-decode.c:23-55 | the read loop terminates and hands over exactly the next bytes of the package, or skips them |
| EmbeddedDecoder.ReadsConcatenate | src/embedded/customdata-embedded-decode.c:23-55 | reads of any sizes concatenate to the matching part of the package |
| EmbeddedDecoder.Decoder.Feed | src/embedded/customdata-embedded-decode.c:98-141 | state and buffer after a frame, and on completion the reads of the message decoder, are those of the specification; a block without a header or a repeated slice changes nothing |
| EmbeddedDecoder.EmbeddedHonest | src/embedded/customdata-embedded-decode.c:98-141 | fed an honest frame it does what the machine on sets does |
| EmbeddedDecoder.EmbeddedCovering | src/embedded/customdata-embedded-decode.c:98-141 | over any word of honest frames it hands a package to its reader at exactly the positions where the frames since the last one first cover it, and any sequence of reads then yields the message from its start |
| Repeats.DroppedIsInert | src/core/customdata-stream-rx.c:12-31 | the embedded and the command line receiver drop a block without a header and a repeated slice, whoever sent it, without a trace |
| Repeats.EmbeddedDropsRepeat | src/core/customdata-stream-rx.c:12-31 | leaving such a frame out changes no other outcome of the embedded receiver |
| Repeats.ToolDropsRepeat | src/core/customdata-stream-rx.c:12-31 | nor the end of a run of the command line receiver |
| Repeats.EmbeddedRunIsSlotRun | src/embedded/customdata-embedded-decode.c:98-141 | within its memory the embedded receiver is a lone C++ slot, on frames of any content |
| Repeats.EmbeddedDeliversFirstCopies | src/embedded/customdata-embedded-decode.c:98-141 | what it hands to its reader has the first copy of every slice in its place, whichever sender later ones come from |
| Repeats.ToolStepIsSlot | src/tools/rx.c:15-93 | on frames of any content the command line receiver keeps state and bytes as a lone C++ slot does and writes what lies between the watermarks |
| StreamSender.BlockSink.Push | src/tools/tx.c:18-54 | data lands behind what is already in the block, a header closes and sends the block, and no write passes the transmission unit |
| StreamSender.TxStream.Feed | src/core/customdata-stream-tx.c:6-48 | fed data is appended to the package and every slice that fills is sent; between calls less than a slice is pending, the sink's counter agrees and the cursor stands at the slice being filled |
| StreamSender.TxStream.Finalize | src/core/customdata-stream-tx.c:50-62 | the frames of the package are the eager segmentation of everything fed |
| StreamSender.ToolSender.Transmit | src/tools/tx.c:56-97 | for every split of the input the frames are the eager segmentation of the whole, and the next package starts at the next id |
| StreamSender.EmbeddedEncoder.Encode | src/embedded/customdata-embedded-encode.c:9-87 | the same for the embedded encoder, for pieces of any size: the frames are the eager segmentation of the message exactly when no piece is longer than 65535 bytes, of which the stream takes only the length modulo 65536; an empty message sends nothing, a failed encoding leaves its full slices without a final one |
| StreamSender.TakenWholeIff | src/embedded/customdata-embedded-encode.c:9-18 | what the stream takes is shorter than the message exactly when some piece is longer than 65535 bytes |
| BufferWriter.EagerIffFull | src/csharp/TxEncoder.cs:34-62 | a finished writer's frames are the eager segmentation if and only if every slice but the last went out full |
| BufferWriter.FullIffNeverAsksTooMuch | src/csharp/TxEncoder.cs:50-81 | for every sequence of calls no byte is lost or reordered, and every slice goes out full if and only if no hint exceeds the room left in a started slice |
| BufferWriter.NeverAsksTooMuchIffHintsFit | src/csharp/TxEncoder.cs:50-56 | that condition in hints and lengths alone: before every call the bytes written end with a slot, or the hint is at most what is left of it |
| BufferWriter.WriteAll | src/csharp/TxEncoder.cs:34-81 | for every sequence of calls whose commits fit their windows: nothing written emits nothing; the payloads on the wire concatenate to what was written, short slices or not, with the end flag on the last frame; and the frames are the eager segmentation if and only if all hints fit and the length is not a multiple of both the slot size and 65536 |
| BufferWriter.EndedCarries | src/csharp/TxEncoder.cs:34-62 | what a finished writer has put on the wire carries everything committed |
| BufferWriter.TxWriter.GetSpan | src/csharp/TxEncoder.cs:50-56 | hands out the rest of the slice; a hint of at most the room left emits nothing, a larger one emits a started slice short as exactly one frame; nothing committed is lost |
| BufferWriter.TxWriter.Advance | src/csharp/TxEncoder.cs:64-69 | commits the next bytes and emits the slice when it is full |
| BufferWriter.TxWriter.Dispose | src/csharp/TxEncoder.cs:34-62 | what is pending goes out as the final slice unless nothing is pending at offset zero; the frames are the eager segmentation of what was committed exactly when no slice went out short and a wrapped offset did not make the terminator look like an unused writer's |
| BufferWriter.TxEncoder.CreateWriter | src/csharp/TxEncoder.cs:83-103 | every writer starts the sender's next package at offset zero |
| ZeroCopySender.TxStream.Next | src/cpp/customdata-protobuf-tx.cpp:47-62 | a further window commits the previous one in full, even what had been given back, as a frame pinned byte for byte |
| ZeroCopySender.TxStream.Finalize | src/cpp/customdata-protobuf-tx.cpp:74-110 | in a buffer of one unit the frames are the lazy segmentation of the windows committed and the part of the last one that was kept, or all of it when nothing was; in any buffer the last frame is pinned byte for byte |
| ZeroCopySender.SentIsIntended | src/cpp/customdata-protobuf-tx.cpp:47-87 | for every sequence of windows and counts given back, what goes out is never less than what the client means to send, and it is that exactly when nothing is given back except part of the last window |
| ZeroCopySender.TxEncoderCore.Push | src/cpp/customdata-protobuf-tx.cpp:131-147 | for every such sequence and every buffer of at least one unit, the frames are the lazy segmentation of what the client means to send if and only if the buffer is exactly one unit long and nothing is given back except part of the last window; a failed serialization leaves full windows without a final slice; in any buffer every frame is the header of its slice with the size cut to 16 bits, then its window, byte for byte |
| EndToEnd.TransmittableIsBounded | src/core/customdata-common.h:156-169 | one arithmetic condition on length and slot size puts both segmentations within the bound |
| EndToEnd.DeliveredEndToEnd | src/core/customdata-rx.h:156-207 | from the frames of either segmentation, in any order and with any duplicates before completion, a slot delivers the message once, at the last missing slice; or hangs there, exactly when the message is not addressable |
| EndToEnd.PipeThroughTools | test/tools-test.sh:94-118 | command line sender fed in pieces of any size, command line receiver fed the frames in any covering order: the output is the input |
| EndToEnd.SendFromEmbedded | src/csharp/RxDecoder.cs:19-61 | embedded encoder to C# decoder through the real slot table: the message is handed out once |
| EndToEnd.SendFromCSharp | src/csharp/TxEncoder.cs:83-103 | C# writer, with any calls that never ask too much, to C# decoder: what was written is handed out once |
| EndToEnd.SendFromCpp | src/cpp/customdata-protobuf-tx.cpp:131-147 | C++ encoder, with any windows of which only the last is partly given back, to C# decoder: what was meant is handed out once |
| EndToEnd.AskingTooMuchTruncates | src/csharp/TxEncoder.cs:50-56 | the slices emitted until the first call that asks too much, in any order and with any duplicates, make a slot hand out what was written before that call as a whole message |

## Left out

- Protobuf and nanopb encoding and decoding, arenas and prototypes: the message is a byte sequence, and the calls
  the codecs make are arbitrary legal call sequences.
- Session files, memory mapping, argument parsing and I/O errors: output is a byte sequence, `write` may split it at
  will but does not fail, and the assembly buffer's length is a parameter.
- Concurrency and re-entrant callbacks: the streams are documented as not concurrent.
- The native-endian cast in `mp_rx_stream_feed`: modelled as the little-endian read used elsewhere.
- The uninitialised sender metadata of the C++ table: the model starts from zeroed tables, as the C# code does.
- Forged or inconsistent frames: covered by the bitmap, scan, buffer-bound, isolation and lost-flag results only.
- The duplicated read `GetMemory` of the C# writer: it is `GetSpan` with another return type.
- Runs of frames assume that each holds a header; on a shorter one the C# code throws and the C++ code returns.
- CSharpDecoder.RxDecoder.Decode: asks for a frame that holds a header, where the source throws, and for a scan that
  ends, where the source would not return.
- CppDecoder.Decoder.Push: asks that the scan ends and that the source's own assertion on the stored length holds; both
  are proved for disciplined traces.
- ToolReceiver.RxSession.Feed: asks that the frame holds the payload its header announces and that the buffer has room,
  because the core checks neither.
- BufferWriter.TxWriter.Advance: asks for a count within the window handed out, as the buffer writer contract does.
- BufferWriter.WriteAll: asks that every commit fits the window handed out for it, as the buffer writer contract does.
- EmbeddedDecoder.Decoder.Feed: asks that the frame holds the payload its header announces and that the buffer has
  room, because the core checks neither.
- Serials.TableRefinesMap: assumes that the message behind each key does not change while its frames arrive.

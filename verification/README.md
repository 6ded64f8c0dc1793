# Gator: the data path, modelled and proved in Dafny

Gator is the target side of Arm Streamline.  A daemon collects profiling data
and sends it to a host; a small C client lets applications annotate their own
timeline; the barman agent does the same work on bare-metal systems.  This
project models the parts that move, encode and keep that data, and proves what
they promise.  `dafny verify dfyconfig.toml` checks everything.

The modules, from the bottom up:

| module | what it is |
|---|---|
| Options, Bytes, Rings | optional values, words and byte strings, positions and stretches in a ring |
| Leb128 | signed LEB128, as in section 7.6 of the DWARF Debugging Information Format Version 5 |
| SpscRing, RingStores | one producer and one consumer on a byte ring, one shared access at a time |
| Records | records of tag, length and body, and the parser of a stream of them |
| FrameBuffer, FrameStream | the daemon's `Buffer` in place, and its frame protocol over every interleaving |
| Drain, Passes | any number of sources and the sender thread that drains them, and what each of its passes delivers |
| BlockCounter, CounterItems, BlockCounterClasses | the counter compressor, its reader, exactly what it takes and writes, and its objects in place |
| ExternalSource | copying external connections into frames |
| Annotations, AnnotationReader, AnnotateRing | the annotation client: its messages, a reader of them, and its ring in place |
| AnnotateStream, AnnotateRepeat, AnnotateTorn | the client's threads, sender and connections over every interleaving, a client that repeats one message, and exactly when connections are whole |
| Delivery, EndToEnd | what reaches the host: frames of any source, counters, external connections, annotations |
| StringSearch, StringTable, StringRuns, Slots, Pmu, PmuFamilies | the barman agent: string search, string table and where it loses a prefix, record slots and timestamps, PMU life cycle, PMU families |
| Fifo, Topology, Kallsyms, KallsymsReads | the FIFO with a ragged end, filling in CPU ids, re-chunking a text file at newlines |

## How things are modelled

- Shared memory is sequentially consistent.  A protocol is a state machine whose
  steps are single shared accesses, so a run is an interleaving.  Theorems about
  runs quantify over every run.
- `pos & mask` with a power-of-two size is `Wrap`: the position, less the size
  once it reaches it.  A difference that the code corrects by adding the size
  when negative is `Dist`.
- `x >>= 7` on a signed value is floor division by 128, which is Dafny's `/` for
  a positive divisor.  An OR of disjoint bits is a sum.
- Results of `send`, `read`, `connect`, PMU drivers, clocks and of
  `bytesAvailable` at each check are inputs, so every claim holds for all of
  them.  A wait is modelled from the point where it ends.
- The host is not part of this repository.  The reader of counter frames follows
  what daemon/IBlockCounterFrameBuilder.h says of each item; the readers of frames
  and of annotation messages are the model's own, and show that what is sent is
  unambiguous.
- Objects that the source updates in place are classes, and each method is
  proved against a function of the old state; the theorems are about those
  functions.
- The lookup of a PMU family compares MIDRs under a mask while registration
  compares them whole, so the comment that settings hold at most one family per
  core is not what the code gives (`PmuFamilies.OneFamilyPerCore` has the exact
  condition).  A core set marks the cores a family may use, although the comment
  on the type says excluded.
- The comment above `barman_try_change_pmu_state` allows going from
  uninitialised to should-stop; the code refuses it, and so does the model.
- A few natural claims are false of the code.  Each is replaced by the exact
  condition under which it holds, with a witness that it fails otherwise:

| claim | exact condition | witness |
|---|---|---|
| the string search is a naive search | `StringSearch.SearchIsNaive` | `StringSearch.TrapMisses`, `StringRuns.TrapReachable` |
| an insert keeps the longest prefix | `StringRuns.InsertLongestExactly` | `StringRuns.HidingLoses` |
| counters read back as accepted | `BlockCounter.DecodesToAccepted` | `BlockCounter.ReservedKeyLost` |
| connections carry whole messages | `AnnotateTorn.SoundExactly` | `AnnotateTorn.ZeroTears`, `AnnotateTorn.CounterAndMarkerTear` |
| and lose nothing while open | `AnnotateTorn.FaithfulExactly` | `AnnotateTorn.OverrunLoses` |
| a counter definition fits its reservation | `Annotations.CounterFits` | `Annotations.CounterOutgrows` |
| a FIFO is full when less than a block is left in one piece | `Fifo.FullExactly` | `Fifo.FullWithRoom` |
| asking whether a write will fill the FIFO forecasts it | `Fifo.ForecastExactly` | `Fifo.ForecastWrong` |
| the overlap test refuses only overlaps | `Kallsyms.OverlapTest` | the lone newline in it |
| unforced commits are a rate apart | `BlockCounterClasses.SpacingExactly` | the check at the same time in it |
| a core has at most one PMU family | `PmuFamilies.OneFamilyPerCore` | `PmuFamilies.RegisterTwins` |

## Model

| member | source | states |
|---|---|---|
| Bytes.LE32RoundTrip | daemon/BufferUtils.h:22-42 | every 32-bit word read back from its four little-endian bytes is itself |
| Leb128.PackMeans | daemon/BufferUtils.cpp:22-70 | the bytes written are a well-formed signed LEB128 field whose value is the number packed |
| Leb128.PackLength | daemon/BufferUtils.cpp:22-70 | a number takes at most n bytes if and only if it fits in 7n bits, sign included |
| Leb128.PackSizes | daemon/BufferUtils.h:10-11 | every int32 takes 1 to 5 bytes and every int64 1 to 10 |
| Leb128.PackShortest | daemon/BufferUtils.cpp:22-70 | no well-formed field with the same value is shorter, and one as short is the same bytes |
| Leb128.UnpackPack | daemon/BufferUtils.cpp:72-108 | unpacking what was packed, with anything after it, gives the number and the length of its field, for both widths |
| Leb128.PackPrefixFree | daemon/BufferUtils.cpp:22-70 | if one packed number is a prefix of another they are the same number |
| Leb128.UnpackAllPackAll | daemon/BufferUtils.cpp:22-108 | any list of packed numbers decodes to exactly that list |
| Leb128.PackInto | daemon/BufferUtils.cpp:22-70 | the loop stores exactly the packed bytes, flat or around the ring, changes nothing else and advances the position by their number |
| Leb128.UnpackFrom | daemon/BufferUtils.cpp:72-108 | the loop with its shifts and sign extension returns the value of the field at the position and moves past it, or reports that no byte ends one or that it is too long for the width |
| Rings.PutSlice | daemon/Buffer.cpp:162-171 | bytes stored one by one under the mask are read back in order around the ring |
| Rings.PutMiddle | daemon/Buffer.cpp:162-171 | a store at an offset replaces exactly its own stretch of what is read from a position |
| SpscRing.StoreMissesPublished | daemon/Buffer.cpp:162-171 | no store of the producer changes a byte between the read and commit positions, whatever the consumer has loaded |
| SpscRing.StepKeepsInv | daemon/Buffer.cpp:49-105 | every shared access of either side keeps: the slack is free, bytes handed over plus bytes held are the published messages, a loaded position is a message end |
| SpscRing.EveryRun | daemon/Buffer.cpp:49-105 | in every run equal positions mean an empty ring, and what went out is a prefix of the published messages, all of them once the ring is empty |
| RingStores.AppendOpen | daemon/Buffer.cpp:162-171 | an append adds exactly its data to the bytes since the commit position and leaves the committed ones alone |
| RingStores.AppendRuns | daemon/Buffer.cpp:162-171 | an append is a run of single stores of the ring machine |
| Records.ParseFirst | daemon/Buffer.cpp:212-238 | a stream that starts with an encoded record parses to that record and the rest |
| Records.ParseStream | daemon/Buffer.cpp:212-238 | any prefix of a stream of records parses to a prefix of them, the whole stream to all: never torn, reordered or invented |
| FrameBuffer.Buffer.constructor | daemon/Buffer.cpp:21-41 | a new buffer of a power-of-two size above 8192 is empty |
| FrameBuffer.Buffer.BytesAvailable | daemon/Buffer.cpp:88-105 | returns the largest write that still leaves 200 cells free, committed or not |
| FrameBuffer.Buffer.ContiguousSpaceAvailable | daemon/Buffer.cpp:124-132 | returns the most that fits before the end of the array, zero only when not one byte fits |
| FrameBuffer.Buffer.PackInt | daemon/Buffer.cpp:152-160 | appends exactly the packed bytes to the open frame |
| FrameBuffer.Buffer.WriteBytes | daemon/Buffer.cpp:162-171 | appends exactly the data to the open frame |
| FrameBuffer.Buffer.WriteString | daemon/Buffer.cpp:173-182 | appends the packed length, then the bytes |
| FrameBuffer.Buffer.BeginFrame | daemon/Buffer.cpp:184-194 | opens a frame: response type if included, four bytes left for the length, frame type |
| FrameBuffer.Buffer.WriteRawFrame | daemon/Buffer.cpp:196-205 | opens a frame with a body made elsewhere |
| FrameBuffer.Buffer.AbortFrame | daemon/Buffer.cpp:207-210 | drops the open bytes, committed ones untouched |
| FrameBuffer.Buffer.EndFrame | daemon/Buffer.cpp:212-238 | patches the body length over the four bytes, wrapped or not, and commits; a frame with nothing but its type is dropped |
| FrameBuffer.Buffer.AdvanceWrite | daemon/Buffer.cpp:254-257 | accounts for bytes stored directly |
| FrameBuffer.Buffer.WriteDirect | daemon/Buffer.cpp:259-264 | stores the data from any index on around the ring, exactly there, and moves no position |
| FrameBuffer.Buffer.Write | daemon/Buffer.cpp:49-86 | with no producer step inside the call: hands over exactly the committed bytes, in two halves when they wrap, releases them, posts to the producer if there were any, and returns the done flag |
| FrameBuffer.Buffer.SetDone | daemon/Buffer.cpp:240-247 | sets the flag, posts to the sender even with nothing new, and leaves the ring alone |
| FrameBuffer.Buffer.Flush | daemon/Buffer.cpp:134-140 | posts to the sender exactly when something committed is waiting |
| FrameBuffer.Buffer.NeedsFlush | daemon/Buffer.cpp:142-150 | the open bytes take three quarters of the buffer or more |
| FrameStream.AccessKeepsInv | daemon/Buffer.cpp:152-238 | every access of the frame protocol keeps: published bytes are the encodings of the frames ended with a body, open bytes are tag, patched length and body |
| FrameStream.EveryInterleaving | daemon/Buffer.cpp:49-86 | in every interleaving, wire plus ring is the in-order encoding of exactly the frames ended with a body, and the wire parses to a prefix of them, to all once the ring is empty |
| FrameStream.PatchedIsEncoding | daemon/Buffer.cpp:228-230 | a patched frame read around the ring is the encoding of its record |
| FrameStream.AppendIsRun | daemon/Buffer.cpp:152-182 | each append method is a run of single-byte accesses of the protocol |
| FrameStream.BeginIsRun | daemon/Buffer.cpp:184-205 | beginning a frame is such a run |
| FrameStream.EndIsRun | daemon/Buffer.cpp:212-238 | ending a frame is such a run, with the ring the method leaves; it adds the frame if it has a body and drops it otherwise |
| Drain.EventKeepsInv | daemon/Child.cpp:664-683 | every event of any source and of the sender keeps the capture's invariant |
| Drain.ExitDeliversAll | daemon/Child.cpp:664-691 | in every run, when the sender has left, every source is done and empty, the log holds each source's frames complete and in order, and the host parses the connection into that log and the end-of-capture mark |
| Drain.SenderNotStuck | daemon/Child.cpp:674-683 | in every reachable state the sender can go on unless it left or waits on a zero semaphore, and that wait cannot happen once every source has posted its done flag |
| Drain.SenderLeaves | daemon/Child.cpp:664-683 | once every source has posted its done flag, at most eight events per source and three more of the sender alone make it leave |
| Drain.SendCompletes | daemon/Buffer.cpp:57-80 | a finished send put on the wire exactly the frames committed before its load |
| Passes.PassDelivers | daemon/Child.cpp:664-683 | in every run, from any point of a pass to its end: of every source not polled yet at that point, done or not, all frames committed by then are in the log and in the host's parse when the pass ends |
| Passes.PostDelivers | daemon/Child.cpp:664-683 | in every reachable state with a post on the semaphore, at most eight events per source and three more of the sender alone give the host everything committed by then |
| Passes.FlushDelivers | daemon/Child.cpp:664-683 | so does a flush in any reachable state |
| BlockCounter.ItemFits | daemon/BlockCounterFrameBuilder.cpp:14-79 | no item takes more bytes than its space check asks for |
| BlockCounter.ReadItemsMeans | daemon/IBlockCounterFrameBuilder.h:15-48 | reading a frame's bytes gives the messages its items stand for: a timestamp resets the tid, keys 0, 1 and 2 set time, tid and core |
| BlockCounter.SendTracks | daemon/BlockCounterMessageConsumer.cpp:7-44 | one call, with any room at each check and any commit, keeps the remembered time, core and tid equal to what a reader of the frame has, and adds the message exactly when it returns true |
| BlockCounter.DecodesToAccepted | daemon/BlockCounterMessageConsumer.cpp:7-44 | for every sequence of calls, space failures and frame splits, the frames read back as exactly the accepted messages if and only if no accepted key is 0, 1 or 2 |
| BlockCounter.ReservedKeyLost | daemon/BlockCounterMessageConsumer.cpp:7-44 | every message with a reserved key is accepted when there is room, and does not read back |
| CounterItems.AcceptsExactly | daemon/BlockCounterMessageConsumer.cpp:7-44 | after any sequence of calls a message is accepted if and only if each item it needs finds its room, and a new frame room for its header; then exactly these are added: the time unless it is the last in this frame, the core if it differs from the last in this frame, the tid if it differs from the last since that time, the value; and the frame ends if due |
| CounterItems.AmpleAcceptsAll | daemon/BlockCounterMessageConsumer.cpp:7-44 | with ample room at every check every message is accepted, wherever frames end |
| BlockCounterClasses.CommitTimeChecker.Check | daemon/CommitTimeChecker.h:11-20 | answers and updates the next commit time as the specification does, wrapping at 2^64 |
| BlockCounterClasses.CommitSpacing | daemon/CommitTimeChecker.h:11-20 | an unforced commit waits for the next commit time, and is a whole rate after the last one when that sum stayed below 2^64 |
| BlockCounterClasses.SpacingExactly | daemon/CommitTimeChecker.h:11-20 | after a commit, forced or not, every later unforced one is a rate away if and only if time plus rate does not wrap |
| BlockCounterClasses.DueExactly | daemon/CommitTimeChecker.h:11-20 | since a commit, forced or not, an unforced check commits if and only if the rate is set and the time has reached that of the commit plus the rate; before any, the rate |
| BlockCounterClasses.FrameBuilder.EnsureFrameStarted | daemon/BlockCounterFrameBuilder.cpp:101-115 | starts a frame exactly when none is open and there is room for its header |
| BlockCounterClasses.FrameBuilder.Event | daemon/BlockCounterFrameBuilder.cpp:14-79 | appends the item or, without room, nothing |
| BlockCounterClasses.FrameBuilder.EndFrame | daemon/BlockCounterFrameBuilder.cpp:117-125 | moves the open frame to the ended ones |
| BlockCounterClasses.FrameBuilder.Check | daemon/BlockCounterFrameBuilder.cpp:81-94 | ends the frame exactly when a commit is due and one is open, and flushes exactly when one is due |
| BlockCounterClasses.FrameBuilder.Flush | daemon/BlockCounterFrameBuilder.cpp:89-94 | ends the open frame, if any, and has the raw builder flush |
| BlockCounterClasses.MessageConsumer.ThreadCounterMessage | daemon/BlockCounterMessageConsumer.cpp:7-44 | the method in place is the specified step |
| Drain.HostHas | daemon/Child.cpp:664-691 | at every moment the host has parsed the log and some of the frames under way; between sends it has parsed exactly the log, and the end-of-capture mark once the sender has left |
| Delivery.RunAdvances | daemon/Buffer.cpp:152-238 | in every run a source's frames are decided by its own producer's accesses alone |
| Delivery.KindReachesHost | daemon/Child.cpp:664-691 | when one source alone ends frames of a type, in every run the frames of that type the host has parsed are the front of that source's, and all of them once the sender has left |
| EndToEnd.CountersReachHost | daemon/Child.cpp:664-691 | the producer of one of any number of sources makes the compressor's frames access by access, and no other ends counter frames: after the sender has left, the frames of that type in the host's parse read back as the accepted messages |
| EndToEnd.ConnectionsReachHost | daemon/ExternalSource.cpp:319-357 | the producer of one of any number of sources copies connections access by access, and no other ends external frames: in every interleaving the host collects per connection a prefix of the bytes read from it in order, and all of them once all is done; likewise the closes it is told of |
| EndToEnd.AttemptRuns | daemon/ExternalSource.cpp:319-357 | in the room waited for, and room for the data, those accesses of a transfer can all be taken, and end exactly the frame it leaves |
| ExternalSource.Transfer | daemon/ExternalSource.cpp:319-357 | never asks for a zero-byte read; takes what there is up to what was asked for; data and close frames fit in the room waited for; pending bytes grow by exactly the one frame, or not at all when there is nothing to read |
| ExternalSource.EndedPublishes | daemon/Buffer.cpp:212-238 | ending a frame with a body adds its encoding to what is pending |
| ExternalSource.EachConnectionInOrder | daemon/ExternalSource.cpp:319-357 | for any sequence of frames that transfers leave, a reader of any prefix of the stream collects per connection a prefix of the bytes read from it in order, and all of them from the whole stream; likewise the connections reported closed |
| ExternalSource.TakeTurn | daemon/ExternalSource.cpp:57-66 | a transfer with the drain that ends its wait: sent plus pending grows by exactly the frame its reading calls for |
| ExternalSource.TransferAll | daemon/ExternalSource.cpp:319-357 | any number of transfers with whole drains between them leave exactly the stream of their frames, so what was sent gives every connection a prefix of its bytes in order |
| Annotations.BuilderFits | annotate/streamline_annotate.c:839-1382 | every builder but the counter definition writes at most the bytes it reserved |
| Annotations.CounterFits | annotate/streamline_annotate.c:1005-1056 | the counter definition exceeds its reservation if and only if it has more activities than its twelve integers leave bytes unused, and by at most one byte per activity |
| Annotations.CounterOutgrows | annotate/streamline_annotate.c:1005-1056 | a definition that does exceed it, with a reservation the client accepts |
| AnnotationReader.MessageRoundTrip | annotate/streamline_annotate.c:839-1382 | a reader that knows only the marker and the payload recovers every annotation, its integers cut to the widths they are sent with |
| EndToEnd.AnnotationsReachHost | annotate/streamline_annotate.c:598-630 | in every run of a client that meets the exact condition, whatever any connection carried reads back as annotations its thread published, in order from one of them on |
| AnnotateRing.MessageOpen | annotate/streamline_annotate.c:812-837 | marker, payload and patched size stored around the ring read back as the encoding of the record, published bytes untouched |
| AnnotateRing.MessageIsRun | annotate/streamline_annotate.c:812-837 | writing a message is a run of single stores that publishes exactly that encoding |
| AnnotateRing.ThreadRing.constructor | annotate/streamline_annotate.c:736-742 | a new ring is empty |
| AnnotateRing.ThreadRing.Free | annotate/streamline_annotate.c:785-788 | used plus free is the size less one |
| AnnotateRing.ThreadRing.Used | annotate/streamline_annotate.c:790-793 | the published bytes not yet sent |
| AnnotateRing.ThreadRing.WriteByte | annotate/streamline_annotate.c:308-314 | stores the byte and moves on, wrapping |
| AnnotateRing.ThreadRing.WriteFour | annotate/streamline_annotate.c:316-336 | stores four bytes around the ring: a size or a colour |
| AnnotateRing.ThreadRing.WriteBytes | annotate/streamline_annotate.c:397-416 | the one or two copies store exactly the data around the ring and nothing else |
| AnnotateRing.ThreadRing.WriteField | annotate/streamline_annotate.c:338-390 | integers are stored as the same bytes the daemon packs, every field where the last one ended |
| AnnotateRing.ThreadRing.Annotate | annotate/streamline_annotate.c:795-860 | a message that reserved over half the ring is not written; any other that fits in what is free is published whole behind what was pending, its size field being its payload length; one that does not fit runs over the read position by exactly the excess |
| AnnotateRing.RoomSuffices | annotate/streamline_annotate.c:795-837 | the room waited for suffices unless a counter has more activities than spare bytes, and then does not when only that room was free |
| AnnotateRing.ThreadRing.Send | annotate/streamline_annotate.c:464-506 | for any answers of the one or two sends, what goes out is the front of what was published, as many bytes as they took, and exactly that is released; it fails exactly when a send it made did |
| AnnotateStream.ActKeepsInv | annotate/streamline_annotate.c:448-506 | with the message fitting in what is free when its builder starts, and no connection on descriptor zero, every store, publish and sender act keeps: carried and pending bytes are the messages since the last drop, and past connections stay whole |
| AnnotateStream.EveryInterleaving | annotate/streamline_annotate.c:598-630 | for any number of threads, short sends, failures and reconnects: with neither descriptor zero nor a counter that outgrows its reservation, each connection carries a prefix of its thread's whole messages from the start of one, and an open one loses nothing |
| AnnotateStream.WholeParses | annotate/streamline_annotate.c:812-837 | such a connection parses to records of the thread, in order from one point on |
| AnnotateStream.OutgrowsMeans | annotate/streamline_annotate.c:795-837 | a message is longer than its reservation exactly when it is a counter with more activities than spare bytes; one that is accepted is shorter than the ring and is the encoding of its record |
| AnnotateTorn.ZeroTears | annotate/streamline_annotate.c:448-461 | for any annotation the client writes: a run on descriptor zero, which stopping does not close, after which the connection carries part of one message followed by another, whole from no point on |
| AnnotateTorn.OverrunTears | annotate/streamline_annotate.c:1005-1056 | for any counter that outgrows its reservation, any other message and any descriptor above zero: a run writing only these two after which what the connection carried is no prefix of its messages |
| AnnotateTorn.SeamTears | annotate/streamline_annotate.c:1005-1056 | such a counter alone does the same, unless copies of it fit around the ring without a seam |
| AnnotateTorn.OverrunLoses | annotate/streamline_annotate.c:1005-1056 | such a counter alone, on any descriptor above zero, leads to an open connection that has lost bytes |
| AnnotateTorn.CounterAndMarkerTear | annotate/streamline_annotate.c:964-1056 | a definite counter and a marker that tear any connection above descriptor zero |
| AnnotateRepeat.SeamlessSound | annotate/streamline_annotate.c:598-630 | a client that writes only one message without a seam, and never gets descriptor zero, has whole connections in every run, overruns included |
| AnnotateTorn.FaithfulExactly | annotate/streamline_annotate.c:448-837 | for any set of descriptors and class of annotations: in every run connections are whole and open ones lose nothing, if and only if there is no connection, nothing accepted to write, or neither descriptor zero nor an accepted counter with more activities than spare bytes |
| AnnotateTorn.SoundExactly | annotate/streamline_annotate.c:448-837 | for any set of descriptors and class of annotations: in every run connections are whole, if and only if that holds, or the class is one message without a seam and zero is not a descriptor |
| StringSearch.SearchIsNaive | barman/src/barman-protocol.c:536-570 | the search with restart offsets agrees with the naive one on every table if and only if the string does not start with three equal characters |
| StringSearch.NaiveMeans | barman/src/barman-protocol.c:536-570 | the naive search returns the least offset of the string, or the longest match at any offset |
| StringSearch.TrapMisses | barman/src/barman-protocol.c:561-563 | for every string that does start so, a table that holds it where the search does not find it |
| StringRuns.TrapReachable | barman/src/barman-protocol.c:514-614 | that table is what inserting the string behind one more copy of its first character into an empty table leaves |
| StringTable.InsertNamed | barman/src/barman-protocol.c:514-614 | every insert succeeds, keeps the table terminated and within 1024 bytes, adds at most the prefix it names, names a terminated prefix, and the whole string when it fits |
| StringTable.MissingNotEmpty | barman/src/barman-protocol.c:577-583 | the corrupted branch is unreachable |
| StringTable.InsertLongest | barman/src/barman-protocol.c:572-596 | the prefix kept is the longest that is in the table, terminated, or fits; it is named at its least offset, and nothing is added when it was there |
| StringRuns.InsertLongestExactly | barman/src/barman-protocol.c:572-596 | for every C string, that holds for every table that inserts can leave if and only if the string does not start with between 3 and 1022 equal characters |
| StringRuns.HidingLoses | barman/src/barman-protocol.c:572-596 | for each string that does, a table two inserts leave in which an insert keeps less than the table holds |
| StringRuns.RunSearch | barman/src/barman-protocol.c:536-570 | on a string of one character for longer than the table, the search visits the start of every run of it |
| StringTable.EveryRun | barman/src/barman-protocol.c:514-614 | over every sequence of inserts from an empty table, none fails, the table stays within its bounds, and every offset ever returned still names a terminated prefix of its own string, no longer than its max_length, and as long as string and max_length allow when that fitted in the table the inserts before it had left |
| StringTable.Table.MatchAt | barman/src/barman-protocol.c:540-565 | the inner loop computes the match length, the longest so far and the restart offset |
| StringTable.Table.Find | barman/src/barman-protocol.c:536-570 | the outer loop is the specified search |
| StringTable.Table.Append | barman/src/barman-protocol.c:599-605 | the string and its terminator are appended, the rest unchanged |
| StringTable.Table.CutLength | barman/src/barman-protocol.c:526-532 | the length of the string or the maximum, whichever is less |
| StringTable.Table.InsertString | barman/src/barman-protocol.c:514-614 | the method in place, with cutting, searching, shortening and the corrupted branch, is the specified insert; in a terminated table the offset names a prefix within max_length, all that it allows when that fits, and at most that prefix is added |
| Slots.StepKeepsInv | barman/src/barman-protocol.c:912-981 | every step of any concurrent call, spurious failures included, keeps the tables, every call's own state and every completed update, and never lowers the last timestamp |
| Slots.EveryInterleaving | barman/src/barman-protocol.c:912-981 | in every interleaving of record and update calls counts equal slots claimed and stay within the maximum, refusals happen only when full, successful calls have distinct slots that keep their records, and the last timestamp is at least that of every completed update, that of a refused mmap record included |
| Slots.Monotone | barman/src/barman-protocol.c:477-486 | the last timestamp never decreases along a run |
| Slots.LastIsSomeCalls | barman/src/barman-protocol.c:477-486 | the last timestamp is the initial one or that of some call |
| Slots.CallReturns | barman/src/barman-protocol.c:912-981 | in every reachable state a call left alone, without spurious failures, returns within seven turns: done if and only if it claims slots and has one or its table has room, updated if and only if it claims none |
| Pmu.StepKeepsInv | barman/src/barman-api.c:154-266 | every step of the sampler and of any enabling or disabling thread keeps the core's invariant; an initialised core stays so with the same header |
| Pmu.EveryInterleaving | barman/src/barman-api.c:283-543 | started or stopped implies initialised for good; with the sampler idle the state is what the last PMU command said; every sample record was written after the settings reached the header and has their number of counters |
| Pmu.SampleSettles | barman/src/barman-api.c:480-543 | left alone, a sample on a core that should start or stop settles it and issues the matching command in at most eleven steps, however the initialiser's exchange behaves |
| Pmu.SampleAlone | barman/src/barman-api.c:480-735 | every undisturbed sample returns within thirteen steps, settles a pending core with the matching command or leaves it uninitialised when the driver or the header refuses, and writes exactly one record when the core is then started, has counters and the sample is not skipped for coming too soon, none otherwise |
| Pmu.EveryAnswer | barman/src/barman-api.c:311-470 | in every run enabling always succeeds and at that access the core is to be started or started; disabling succeeds exactly when the state seen is not uninitialised, the core then being to be stopped or stopped; a refusal changes nothing |
| Pmu.AskThenSample | barman/src/barman-api.c:620-735 | from every reachable state with an idle sampler: enabling and an undisturbed accepted sample end started with the last command to start and one record if there is something to record; disabling an initialised core, stopped with the last command to stop |
| PmuFamilies.ShareByte | barman/src/barman-api.c:591-600 | the byte by byte overlap test finds a common core exactly when there is one |
| PmuFamilies.Overlap | barman/src/barman-api.c:591-600 | the loop decides whether two core sets share a core |
| PmuFamilies.Settings.InitializeFamily | barman/src/barman-api.c:569-618 | a family is added exactly when sampling has not started, there is room and no family of the same MIDR shares a core |
| PmuFamilies.Settings.FindFamily | barman/src/barman-api.c:193-200 | returns the first family that matches the CPU id and allows the core |
| PmuFamilies.OneFamilyPerCore | barman/src/barman-api.c:193-200 | two registered families match one processor on a core if and only if their MIDRs differ in the ignored bits alone and both allow it |
| PmuFamilies.RegisterTwins | barman/src/barman-api.c:569-618 | two registrations that both succeed and leave two families for one core |
| Fifo.RoomToWrite | daemon/Fifo.cpp:63-103 | a write pointer of a FIFO that is not full has a whole block of cells in bounds, none unread |
| Fifo.DrainedNotFull | daemon/Fifo.cpp:63-76 | a FIFO with nothing unread is not full |
| Fifo.FullExactly | daemon/Fifo.cpp:61-76 | the exact condition for full, and exactly when a FIFO is full with a whole block free in one piece |
| Fifo.ForecastExactly | daemon/Fifo.cpp:61-76 | asking whether a write will fill the FIFO gives what the write leaves except in exactly two cases |
| Fifo.ForecastWrong | daemon/Fifo.cpp:61-76 | both cases happen: a full FIFO not foreseen, and a foreseen one that is not full |
| Fifo.FullWithRoom | daemon/Fifo.cpp:61-76 | a run with blocks of 4 and a threshold of 10 that ends full with 7 free cells in one piece |
| Fifo.StepKeepsInv | daemon/Fifo.cpp:78-135 | every store, write, read and release keeps: released plus unread is written, what the consumer holds is intact |
| Fifo.EveryRun | daemon/Fifo.cpp:78-135 | over every run released data is a prefix of written data, what the consumer holds is the next part, unread bytes are never overwritten |
| Fifo.TwoRoundsDrain | daemon/Fifo.cpp:106-135 | two read-and-release rounds empty the FIFO and let a waiting producer go on |
| Fifo.ReadAnswers | daemon/Fifo.cpp:79-135 | in every run a read gets nothing at all exactly when all is released and no write has ended the stream, and zero bytes exactly when all is released and one has |
| Fifo.Fifo.constructor | daemon/Fifo.cpp:12-33 | a new FIFO is empty |
| Fifo.Fifo.WillFill | daemon/Fifo.cpp:63-76 | full now exactly when there is a ragged end and the gap before the read position is at most a block plus what the last block reaches past the threshold |
| Fifo.Fifo.Write | daemon/Fifo.cpp:79-104 | the block is added to the unread bytes, the ragged end kept when it crosses the threshold |
| Fifo.Fifo.Read | daemon/Fifo.cpp:121-135 | the consumer gets the front of the unread bytes, all that lies in one piece; the retry on a negative length is not needed |
| Fifo.Fifo.ReleaseRead | daemon/Fifo.cpp:106-118 | exactly what the last read handed out leaves the unread bytes |
| Topology.FilledIs | daemon/CpuUtils_Topology.cpp:44-63 | an unknown CPU whose cluster has exactly one known id receives that id |
| Topology.KnownSame | daemon/CpuUtils_Topology.cpp:44-63 | filling CPUs in changes no cluster's known ids |
| Topology.AnyOrder | daemon/CpuUtils_Topology.cpp:44-66 | the in-place pass in any order, with any repetitions, equals filling every CPU at once |
| Topology.SecondRun | daemon/CpuUtils_Topology.cpp:8-69 | running the update again changes nothing |
| Topology.UpdateAnswers | daemon/CpuUtils_Topology.cpp:8-69 | each CPU ends with its id from the MIDR map, else the single one of its cluster, else its own; and when that is unknown, with the one id its known siblings have, if they have one |
| Topology.SiblingIds | daemon/CpuUtils_Topology.cpp:52-59 | the loop over siblings collects exactly the cluster's known ids |
| Topology.Reverse | daemon/CpuUtils_Topology.cpp:37-41 | the reverse map lists exactly the CPUs of each cluster |
| Topology.FirstPassInPlace | daemon/CpuUtils_Topology.cpp:13-35 | the first pass in place is the specified one |
| Topology.UpdateCpuIds | daemon/CpuUtils_Topology.cpp:8-69 | both passes in place are the specified update |
| Kallsyms.EveryReadPattern | daemon/Proc.cpp:98-149 | for every pattern of short reads of a file without nulls, each chunk ends in a newline and they are a prefix of the file, all of it on a normal end; each failure is explained: an unfinished last line, a line that fills the buffer, a chunk followed by a line about as long, or a failed read |
| KallsymsReads.OutcomeExactly | daemon/Proc.cpp:98-149 | for every file without nulls and every pattern of reads: the first read that finds no room, fails, meets the end of the file or leaves too much to move decides the outcome, the reading stops as told if and only if every read goes, and what was passed on is all up to the last newline delivered |
| KallsymsReads.Complete | daemon/Proc.cpp:98-149 | with more reads than bytes and no such trouble, a file that ends in a newline is passed on whole and its end reported |
| KallsymsReads.FullReadsComplete | daemon/Proc.cpp:98-149 | so is every file of lines of one to 2046 characters read with full reads |
| Kallsyms.OverlapTest | daemon/Proc.cpp:133-140 | the overlap test catches every overlap and also refuses exactly three lengths of rest that do not overlap, a lone newline among them |
| Kallsyms.LastNewline | daemon/Proc.cpp:125-128 | finds the last newline |
| Kallsyms.PassLines | daemon/Proc.cpp:128-142 | passes on the complete lines and moves the rest to the front; the copied ranges are disjoint |
| Kallsyms.ReadKallsyms | daemon/Proc.cpp:98-149 | the loop over the fixed buffer, every access in bounds, gives the specified chunks and outcome |

## Left out

- Visual annotations: their data bypasses the ring, and a send with an empty ring and such data pending takes the wrap branch (annotate/streamline_annotate.c:481).
- Fork handling, thread-list reclamation, and the resending of counters and tracks in the annotation client: the messages are covered, the bookkeeping is pointer housekeeping.
- Waiting for space in `Buffer::waitForSpace` and in the annotation client: no claim that a wait ends, because `supportsWriteOfSize` ignores the 200 bytes kept free.
- Weak memory ordering: only sequentially consistent interleavings are covered.
- Concurrent string-table inserts: the length is published before the bytes, so each insert is one step here.
- StringTable.Table.InsertString: lengths are unbounded, so a string within 1025 bytes of 4 GiB, whose 32-bit sum would wrap in the source, is treated by its true length.
- Racing PMU initialisers of one core: the loop at barman/src/barman-api.c:174-191 repeats on success, so two can proceed; one sampler per core is assumed, and on single-core builds the transition that enable and disable make themselves is the sampler's.
- Slots.EveryInterleaving: the M-profile build, where the timestamp is not updated, is not covered.
- Fifo: `write` is one step up to the point where it waits, not one per field it stores.
- Drain: senders that throw, and the cap on response length, are not covered; nor is a capture without sources.
- FrameBuffer.Buffer.Write: the call is one step here; `FrameStream.EveryInterleaving` has its loads, sends and store as separate steps.
- ExternalSource.Transfer: the wait for room, the forced flush after a frame and the removal of a closed descriptor from the monitor are not covered.
- AnnotateRing.ThreadRing.Annotate: an annotation whose reservation reaches 2^32, where the 32-bit sum would wrap, is outside its contract.
- AnnotateStream: handshake bytes are not part of what a connection carries; the bytes of one field are stored one by one in order, where the source may copy a string at once; reservations are unbounded, so one that reaches 2^32 counts as refused.
- ExternalSource.TransferAll: the sender drains in whole calls between transfers; `EndToEnd.ConnectionsReachHost` has every interleaving.
- Kallsyms: opening and closing the file, and the consumer of the chunks.
- SummaryBuffer, CCN counters, the private readers of the external driver, `readLELong`, XML, the command line, drivers, perf sources, data-store back ends and the Python generator: input and output, option plumbing, or code that would add only easy members.

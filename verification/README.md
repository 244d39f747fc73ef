# Verification models of Rhodium's event runtime, SRAM mapper, cores and host memory path

This project models five parts of the Rhodium repository in Dafny and proves what each is for. Verify it
with `dafny verify dfyconfig.toml`.

1. **Live event tracing** (`rheg/`). The collector turns simulator callbacks into settled batches; the
   exporter orders each batch, gives every occurrence a flow identity, joins consecutive stall
   observations into open intervals, interns strings and writes protobuf packets. Proved: the output
   depends only on what was recorded, never on how cycles were grouped into batches; the event stream
   expands to every occurrence once, with its captured words and its parents; the bytes of a trace read
   back to every packet; the batches of a stream partition the graph; the collector's batches are
   accepted by the exporter exactly when four display conditions hold; and any script of callbacks ends
   in a trace of exactly what was handed out. A packet carries a timestamp in nanoseconds, not a cycle,
   so a trace determines the recorded graph exactly when the clock is at most 1 GHz or no site is a
   stall, and captions tell the slices of each track apart (`ExportSession.TraceDeterminesIff`), and
   then a reader computes the graph from the bytes (`Reading.TraceIsGraph`); `Ambiguity.TwoGigahertz` gives
   two recordings with one trace. For circuits whose captured fields are values the second condition is
   decided from the manifest alone (`SitesAlike.TraceTellsIff`).
   `Machine`, `Options`, `Ordering`, `Collections`, `EventModel`, `Tracks`, `Worklist`, `Encoder`,
   `Runs`, `Batching`, `Merging`, `History`, `Decoding`, `Lossless`, `Stamping`, `Ambiguity`, `Readback`,
   `PerfettoWriter`, `ExportSession`, `Wire`, `Interning`, `PendingInterns`, `Packets`, `PacketWriter`,
   `Trace`, `ByteHistory`, `Streams`, `Collector`, `Delivery`, `LiveRun`, `Words`, `Capture`, `Printing`,
   `Captions`, `Naming`, `Showing`, `Telling`, `SitesAlike`, `Reading`, `Opening`.
2. **SRAM mapping** (`sram/map-memories.py`). The rendered wrapper is a netlist of expressions, and a
   step machine interprets it over a grid of macros; whenever the text is legal it refines the flat
   masked memory, for every depth, width, mask granularity and macro. It is legal exactly when the macro
   has an address bit and the word more than one bit (`SramNetlist.LegalIff`): a one-row macro's address
   is cut to `[-1:0]`, and a one-bit word is selected from a port declared without a range, although the
   mapper plans both. `Power`, `SramPlan`, `SramWrapper`, `SramRefinement`, `SramNetlist`.
3. **Iterative arithmetic** (`cores/divider.rhdl`, `cores/multiplier.rhdl`). Clocked units at any
   width under any backpressure: exact results, one stable response for each request, in order, and a
   bound on the wait; the laws of the pins hold in every run, and only one trace keeps them.
   `OneAtATime`, `Division`, `Divider`, `Multiplication`, `Multiplier`.
4. **ALU** (`cores/alu.rhdl`). The shared shifter, subtractor and counter compute what each
   instruction asks for, for XLEN 32 and 64. `BitVectors`, `Alu`.
5. **Host memory path** (`chi/subordinate/dpi/`, `sims/fesvr/`). The sparse store is a flat array;
   registration and the region map never overlap; the chunk engine is flat write, clear and read over
   those stores and a target reached one clocked request at a time; the request handshake serves the
   host's requests once and in order and publishes the boot entry only after loading. `SparseMemory`,
   `BeatAccess`, `ImageMap`, `ChiImageMap`, `AddressSpace`, `ChunkEngine`, `Handshake`.

Conventions. Code that updates fields is a class whose methods are proved against specification
functions, and the properties are lemmas about those functions. Specification functions are ghost, so a
method computes by code of its own; a function that code and specification share has lemmas that say on
fields, digits or bits what it is. Exceptions are `Option` results,
booleans or an outcome datatype. Machine integers are subset types where their range matters
(`U64`, `U32`, `Byte`); widths of the arithmetic units are arbitrary, with wrap-around written as a
remainder by a power of two. What the environment decides (whether output was delivered, the target's
pins, the text of an instruction, the inputs of each clock) is a parameter or a script held by the model.

## Model

| member | source | states |
|---|---|---|
| Tracks.Describe | rheg/perfetto/rheg_perfetto.cc:65-128 | a site table is accepted exactly when identities are distinct and nonempty, each stall observes a transfer, dependencies join known sites from a transfer, and either no site lists captured fields or every site lists fields that fit its payload; then the description is valid, exactly the observed tracks are shared, its dependencies are those given, and each site is displayed as the table says |
| Tracks.CheckSchema | rheg/perfetto/rheg_perfetto.cc:73-107 | either no site lists its fields or every site lists fields that pass validation |
| Tracks.AssignTracks | rheg/perfetto/rheg_perfetto.cc:106-118 | transfers keep their own track, stalls take the track of the transfer they observe; fails exactly when one observes none |
| Tracks.CollectDependencies | rheg/perfetto/rheg_perfetto.cc:119-126 | accepted exactly when every endpoint is known and no parent is a stall |
| Worklist.OrderElements | rheg/perfetto/rheg_perfetto.cc:480-487 | the emission order lists occurrences of the batch, each at most once |
| Worklist.CompleteTakesAll | rheg/perfetto/rheg_perfetto.cc:480-487 | an order of full length is a permutation of the batch |
| Worklist.ParentsFirst | rheg/perfetto/rheg_perfetto.cc:480-487 | every parent in the batch comes before its child |
| Worklist.OrderByCycle | rheg/perfetto/rheg_perfetto.cc:480-487 | cycles never decrease along the order |
| Worklist.ShortIffSameCycleLoop | rheg/perfetto/rheg_perfetto.cc:482-487 | the order comes up short exactly when dependencies within one cycle form a loop |
| Worklist.CompleteSplits | rheg/perfetto/rheg_perfetto.cc:480-487 | a batch can be ordered exactly when its early and its late cycles can |
| Worklist.OrderSplits | rheg/perfetto/rheg_perfetto.cc:480-487 | the order of a batch is the order of its early cycles followed by that of its late ones |
| Worklist.OrderPerCycle | rheg/perfetto/rheg_perfetto.cc:480-487 | the cycles below any bound can be ordered exactly when each can, and their order is the orders of the cycles one after another |
| Worklist.BatchPerCycle | rheg/perfetto/rheg_perfetto.cc:480-487 | a batch can be ordered exactly when each of its cycles can, and its order is the concatenation of the orders of all its cycles |
| Worklist.OrderDependsOnLeft | rheg/perfetto/rheg_perfetto.cc:480-487 | batches that agree on the occurrences still waiting order them the same |
| Worklist.Index | rheg/perfetto/rheg_perfetto.cc:472-479 | parent sets are complete, child sets and in-degrees count exactly the edges inside the batch |
| Worklist.Release | rheg/perfetto/rheg_perfetto.cc:485 | releasing a taken occurrence's children leaves exactly the unblocked ones ready |
| Worklist.Drain | rheg/perfetto/rheg_perfetto.cc:480-487 | the in-degree worklist produces the order that repeatedly takes the least unblocked occurrence |
| Worklist.LeastFirst | rheg/perfetto/rheg_perfetto.cc:480-487 | in the order of a batch, of two occurrences either the earlier one is below the later one by cycle, then site, then sequence, or the later one waited for a parent that is between them or the earlier one itself |
| Runs.OnlyContinuation | rheg/perfetto/rheg_perfetto.cc:499-521 | an occurrence on the track of an open stall is the one that continues it |
| Runs.AfterRuns | rheg/perfetto/rheg_perfetto.cc:491-521 | after any prefix of a batch each open stall has reached the current cycle or waits for its continuation later in it |
| Runs.NoneWaitsAtEnd | rheg/perfetto/rheg_perfetto.cc:491-571 | at the end of a batch no open stall is still waiting |
| Runs.AfterKnown | rheg/perfetto/rheg_perfetto.cc:512-514 | the occurrences emitted so far have exactly the next flow identities, in emission order |
| Batching.EncodedUniform | rheg/perfetto/rheg_perfetto.cc:493-571 | after a batch all open stalls were last observed in one cycle, no later than the batch's |
| Batching.EarlyCloseThenCycle | rheg/perfetto/rheg_perfetto.cc:498-511 | closing at a batch boundary closes only what the next cycle would close, in the same order |
| Batching.EarlyCloseThenBoundary | rheg/perfetto/rheg_perfetto.cc:571 | closing at one boundary and then a later one closes what the later one alone would, in the same order |
| Batching.SameAfter | rheg/perfetto/rheg_perfetto.cc:493-570 | batches that agree on a span of cycles are emitted the same over it |
| Batching.WrittenKnown | rheg/perfetto/rheg_perfetto.cc:572-576 | a written batch adds exactly its occurrences to those known |
| Batching.WriteKeepsInv | rheg/perfetto/rheg_perfetto.cc:451-577 | writing an accepted batch keeps the writer's invariant |
| Merging.MergeOrder | rheg/perfetto/rheg_perfetto.cc:480-487 | the order of two successive batches joined is their orders in turn |
| Merging.MergeLaw | rheg/perfetto/rheg_perfetto.cc:451-577 | writing two accepted batches in turn is writing their union: accepted, same events, same state |
| Merging.CutLaw | rheg/perfetto/rheg_perfetto.cc:451-577 | an accepted batch can be cut at any cycle: both parts are accepted in turn with the same result |
| History.FeedIsOneWrite | rheg/perfetto/rheg_perfetto.cc:451-577 | any run of accepted and refused batches leaves the writer as one write of everything accepted would |
| History.BatchIndependence | rheg/perfetto/rheg_perfetto.cc:402-416 | two runs that recorded the same occurrences and edges, however grouped and with whatever refused batches between, finish with the same event sequence |
| History.AnyGroupingAccepted | rheg/perfetto/rheg_perfetto.cc:451-577 | an accepted batch may be delivered in any number of pieces cut at increasing cycles: all are accepted and the result is the same |
| History.FlowIdentities | rheg/perfetto/rheg_perfetto.cc:512-514 | over a whole run flow identities are 1, 2, 3, ... in emission order, one for each recorded occurrence |
| Lossless.ParentResolves | rheg/perfetto/rheg_perfetto.cc:560-564 | every arrow into an occurrence carries the identity of its true parent, whose start was emitted earlier |
| Lossless.BeginsInTime | rheg/perfetto/rheg_perfetto.cc:458-462 | a slice on a shared track never begins before the last one there has ended |
| Lossless.StreamLossless | rheg/perfetto/rheg_perfetto.cc:402-577 | the event stream of any finished run, in which an end has its exact cycle, pairs each begin with one end, keeps shared tracks free of overlap, and expands to exactly the recorded occurrences, each in one interval with its words and parents |
| Stamping.CycleOf | rheg/perfetto/rheg_perfetto.cc:417-421 | at one cycle a nanosecond or fewer, the cycle is the first whose timestamp is reached, so a timestamp has one cycle |
| Stamping.RunShaped | rheg/perfetto/rheg_perfetto.cc:491-570 | in the stream of any run a slice that starts a flow is of a site that may be a parent, its arrows carry its cycle, and without stalls it ends one cycle after it began |
| Stamping.UnstampStamp | rheg/perfetto/rheg_perfetto.cc:417-436 | reading timestamps, counters and captions alone gives back every event with its exact cycles, when the packets are readable |
| Stamping.StampedLossless | rheg/perfetto/rheg_perfetto.cc:402-577 | when the packets are readable, their timestamps, counters and captions give back every recorded occurrence once, with its words and parents |
| Ambiguity.TwoGigahertz | rheg/perfetto/rheg_perfetto.cc:417-421 | at 2 GHz a stall at cycle 1 and the same stall at cycles 1 and 2 are both accepted and give the same packets |
| Ambiguity.LengthsAlike | rheg/perfetto/rheg_perfetto.cc:437-449 | a stall and its repetition in the next cycle give the same packets wherever the two ends have one timestamp |
| Ambiguity.FastClock | rheg/perfetto/rheg_perfetto.cc:417-421 | above 1 GHz two successive ends have one timestamp somewhere |
| Ambiguity.CaptionsAlike | rheg/perfetto/rheg_perfetto.cc:515-559 | two slices of one track shown alike give two accepted recordings with the same packets |
| Ambiguity.ExpandsOnce | rheg/perfetto/rheg_perfetto.cc:402-577 | what an event stream expands to is one recording only |
| Ambiguity.ReadableDetermines | rheg/perfetto/rheg_perfetto.cc:402-577 | readable packets that are equal were written for one graph, however the runs grouped it |
| Ambiguity.ReadableIff | rheg/perfetto/rheg_perfetto.cc:402-577 | equal packets always mean equal recordings exactly when the clock is at most 1 GHz or no site is a stall, and captions tell the slices of each track apart |
| Readback.NumberTextOnce | rheg/perfetto/rheg_perfetto.cc:529-530 | a counter is recovered from its decimal text |
| Readback.BytesAreStamps | rheg/perfetto/rheg_perfetto.cc:402-577 | two finished runs wrote the same bytes exactly when their timestamps, counters, captions and flow identities are the same |
| Readback.BytesDetermineIff | rheg/perfetto/rheg_perfetto.cc:402-577 | the bytes of finished runs determine the graphs exactly when the packets are readable |
| Reading.CounterRoundTrip | rheg/perfetto/rheg_perfetto.cc:529-530 | the text of a counter is parsed back to it |
| Reading.ReadsStamps | rheg/perfetto/rheg_perfetto.cc:422-450 | the packets of an event stream, as a reader sees them, are parsed back to their timestamps, counters and captions by the names and phases of the format, and nothing else is taken for one |
| Reading.ArrowPhases | rheg/perfetto/rheg_perfetto.cc:430-436 | the packet of a flow start has phase s and that of a flow end phase f, with the identity of the flow |
| Reading.PacketsInBytes | rheg/perfetto/rheg_perfetto.cc:302-577 | the packet that a reader finds at each place in the bytes of an event stream is that of the event there |
| Reading.PhasesInBytes | rheg/perfetto/rheg_perfetto.cc:560-566 | and so it reads from the bytes of any finished run: each arrow leaves its parent with phase s and arrives with phase f |
| Reading.GraphRead | rheg/perfetto/rheg_perfetto.cc:402-577 | the slices, expanded one occurrence after another, are exactly the nodes and edges recorded |
| Reading.TraceIsGraph | rheg/perfetto/rheg_perfetto.cc:302-577 | from the bytes of a finished run a reader computes the graph it recorded, when the packets are readable |
| PerfettoWriter.CloseStalls | rheg/perfetto/rheg_perfetto.cc:437-450 | the ends of the closing slices, in (last cycle, track) order, one cycle after each last observation |
| Encoder.EndsInOrder | rheg/perfetto/rheg_perfetto.cc:437-449 | the ends of closing slices are one for each, a cycle after its last observation, strictly increasing by cycle, then track |
| PerfettoWriter.PointFrom | rheg/perfetto/rheg_perfetto.cc:560-563 | the arrows of the parents, by site and sequence |
| Encoder.ArrowsInOrder | rheg/perfetto/rheg_perfetto.cc:560-563 | the arrows into an occurrence are exactly one for each parent, with its flow identity, strictly increasing by site, then sequence |
| PerfettoWriter.FindBreaking | rheg/perfetto/rheg_perfetto.cc:499-510 | exactly the open stalls whose next sequence number is not in this cycle with the same words and parents |
| PerfettoWriter.Preflight | rheg/perfetto/rheg_perfetto.cc:454-487 | passes exactly when all acceptance conditions but the supply of identities hold, and then gives the emission order |
| PerfettoWriter.CheckNodes | rheg/perfetto/rheg_perfetto.cc:458-471 | passes exactly when every occurrence is new, in the open interval, complete, with timestamps that fit, and no shared track has two in one cycle |
| PerfettoWriter.CheckEdges | rheg/perfetto/rheg_perfetto.cc:472-476 | passes exactly when every edge is permitted, its child is in the batch and its parent is in the batch or known and no later |
| PerfettoWriter.EmitBatch | rheg/perfetto/rheg_perfetto.cc:488-570 | the staged emission loop refines the specification, and stops short exactly when identities run out |
| PerfettoWriter.EncodeStaged | rheg/perfetto/rheg_perfetto.cc:488-571 | the staged state and stream of a whole batch are the specified ones |
| PerfettoWriter.Exporter.Prepare | rheg/perfetto/rheg_perfetto.cc:488-571 | staging a batch computes its events, describes its slices, serializes them with staged dictionaries, and commits nothing |
| PerfettoWriter.Exporter.Take | rheg/perfetto/rheg_perfetto.cc:572-577 | committing a staged batch is the specified step, with bytes, dictionaries and events in agreement |
| PerfettoWriter.Exporter.Write | rheg/perfetto/rheg_perfetto.cc:451-577 | succeeds exactly for an acceptable, delivered batch, with the specified new state, and the bytes, dictionaries and events grow together; a refused batch changes nothing; an undelivered one makes the writer fail for good and leaves bytes and dictionaries |
| PerfettoWriter.Exporter.Finish | rheg/perfetto/rheg_perfetto.cc:402-416 | closes every open slice once and delivers the ends; repeating it changes nothing, and a failed delivery leaves bytes and dictionaries |
| PerfettoWriter.Exporter.constructor | rheg/perfetto/rheg_perfetto.cc:302-390 | a new writer has nothing open or known and its bytes are the heading |
| Opening.Open | rheg/perfetto/rheg_perfetto.cc:321-390 | an exporter is opened exactly when the site table is well formed and the compiled descriptor has its widths, dependencies and fields; it then works from the table, shows slices as the table says, and has written the heading made from it |
| Opening.BuildHeading | rheg/perfetto/rheg_perfetto.cc:335-390 | the heading has the frequency and epoch, the top name and the lanes of the table |
| Opening.LanesExact | rheg/perfetto/rheg_perfetto.cc:375-388 | the lanes are the tracks of their own, each once, in site order, under the title of their site |
| Opening.EventsOnLanes | rheg/perfetto/rheg_perfetto.cc:375-449 | every event of a finished run is on a track that the heading introduced |
| Opening.TracksInBytes | rheg/perfetto/rheg_perfetto.cc:375-449 | in the bytes of a finished run the identifier each event carries is that of a lane, its site plus one |
| Showing.ShowEvents | rheg/perfetto/rheg_perfetto.cc:422-559 | every event is shown as its packet: a slice by the description of its occurrence and its exact counters, the rest by timestamp and track, with the names and phases of the format |
| Showing.EncodeSettled | rheg/perfetto/rheg_perfetto.cc:454-571 | every slice an accepted batch begins is of a settled occurrence of its site, so describing it cannot fail |
| PerfettoWriter.SerializePackets | rheg/perfetto/rheg_perfetto.cc:422-450 | serializing packets through the staged dictionaries appends exactly their bytes and leaves their dictionaries |
| ExportSession.Export | rheg/perfetto/rheg_perfetto.cc:579-584 | over any batches and deliveries the bytes are the heading and the packets of the events; when it succeeds these are the specified stream, which decodes to exactly what was recorded; when it fails, a delivery failed and they are those of the batches before it |
| ExportSession.TraceDeterminesIff | rheg/perfetto/rheg_perfetto.cc:302-584 | whole traces determine the recorded graphs exactly when the packets are readable |
| Wire.AppendVarint | rheg/perfetto/rheg_perfetto.cc:139-142 | appends the base-128 groups, low group first |
| Wire.AppendInteger | rheg/perfetto/rheg_perfetto.cc:143-145 | appends an integer field |
| Wire.AppendBytes | rheg/perfetto/rheg_perfetto.cc:146-148 | appends a length-delimited field |
| Wire.VarintRoundTrip | rheg/perfetto/rheg_perfetto.cc:139-142 | reading a varint gives back the number and the bytes after it |
| Wire.FieldRoundTrip | rheg/perfetto/rheg_perfetto.cc:143-148 | reading a field gives back its number, wire type and payload, and the bytes after it |
| Wire.MessageRoundTrip | rheg/perfetto/rheg_perfetto.cc:143-149 | a written message reads back field by field whatever the payloads contain |
| Interning.ReferenceTeaches | rheg/perfetto/rheg_perfetto.cc:166-185 | the definitions waiting for the next packet teach a reader exactly the strings added, with identifiers 1 to n in each dictionary |
| Interning.ReferenceReads | rheg/perfetto/rheg_perfetto.cc:166-185 | a reference resolves to its string, interned or inline, now and after any later additions |
| Interning.ReferenceKeepsLimits | rheg/perfetto/rheg_perfetto.cc:174-178 | no dictionary passes 4096 strings, 1 MiB of text or 1024 bytes a string |
| PendingInterns.Interns.Refer | rheg/perfetto/rheg_perfetto.cc:166-185 | appends to the message the field of the specified reference, and looking in committed then staged entries is looking in one dictionary |
| PendingInterns.Interns.Admit | rheg/perfetto/rheg_perfetto.cc:179-184 | stages a string as the next of its dictionary, with its definition appended to those waiting |
| PendingInterns.Interns.Commit | rheg/perfetto/rheg_perfetto.cc:186-191 | the committed entries become the whole dictionary |
| PendingInterns.Interns.TakePending | rheg/perfetto/rheg_perfetto.cc:427 | the definitions go out once, with the next packet |
| Packets.PacketRoundTrip | rheg/perfetto/rheg_perfetto.cc:422-436 | a packet reads back from its own definitions and the dictionaries before it |
| Packets.StreamRoundTrip | rheg/perfetto/rheg_perfetto.cc:422-436 | from the bytes after the heading alone a reader recovers every packet with every string and integer |
| Packets.BytesConcat | rheg/perfetto/rheg_perfetto.cc:572-573 | carrying dictionaries from batch to batch gives the bytes of encoding everything at once |
| Packets.StreamLimits | rheg/perfetto/rheg_perfetto.cc:174-178 | the dictionary limits hold however long the stream |
| PacketWriter.AppendAnnotations | rheg/perfetto/rheg_perfetto.cc:193-200 | appends the annotations of a slice in turn, as specified |
| PacketWriter.WriteBody | rheg/perfetto/rheg_perfetto.cc:422-450 | the body of each kind of packet is the specified message |
| PacketWriter.AppendPacket | rheg/perfetto/rheg_perfetto.cc:422-430 | appends one packet with the definitions that were waiting |
| PacketWriter.AppendPackets | rheg/perfetto/rheg_perfetto.cc:422-450 | appends a stream of packets, leaving the specified dictionaries |
| Trace.WriteHeading | rheg/perfetto/rheg_perfetto.cc:335-390 | writes the run-wide metadata and one descriptor for each track |
| Trace.TraceRoundTrip | rheg/perfetto/rheg_perfetto.cc:335-450 | a reader of a whole trace skips the heading and recovers every event packet |
| Trace.HeadingRoundTrip | rheg/perfetto/rheg_perfetto.cc:335-390 | a reader that knows the field numbers finds the metadata, the top name, the number of sites and every lane of the heading in the bytes |
| ByteHistory.BytesAreOneStream | rheg/perfetto/rheg_perfetto.cc:402-577 | serializing batch by batch gives the bytes of serializing the finished event stream |
| ByteHistory.ByteIndependence | rheg/perfetto/rheg_perfetto.cc:402-577 | runs that recorded the same occurrences and edges wrote the same bytes |
| ByteHistory.RunReadsBack | rheg/perfetto/rheg_perfetto.cc:402-577 | whatever packet each event is shown as, the bytes of any finished run read back to every packet, with dictionaries within limits |
| Streams.OneBatchEach | rheg/runtime/rheg.cc:158-179 | an occurrence is in one batch only, and its node there is the final one |
| Streams.OneBatchEachEdge | rheg/runtime/rheg.cc:158-179 | an edge is in one batch only, that of its child |
| Streams.InAllNodes | rheg/runtime/rheg.cc:158-179 | the graph has exactly the occurrences of the batches |
| Streams.CyclesIncrease | rheg/runtime/rheg.cc:158-179 | cycles of successive batches lie in disjoint increasing intervals |
| Streams.BatchesValidateWhole | rheg/runtime/rheg.cc:199-230 | validating each batch against what came before validates the whole graph |
| Collector.Graph.BindTiming | rheg/runtime/rheg.cc:180-186 | timing is bound once, positive, before any callback |
| Collector.Graph.BeginStream | rheg/runtime/rheg.cc:141-150 | starts exactly on an empty graph with bound timing that is not streaming |
| Collector.Graph.RecordNode | rheg/runtime/rheg.cc:288-299 | refused exactly when its cycle was streamed or its identity is complete; otherwise only that node changes |
| Collector.Graph.RecordPayload | rheg/runtime/rheg.cc:300-308 | refused exactly for a streamed occurrence or a word given before; otherwise only that word is added |
| Collector.Graph.RecordEdge | rheg/runtime/rheg.cc:309-316 | refused exactly when the child was streamed |
| Collector.Graph.FinishCycle | rheg/runtime/rheg.cc:158-179 | hands out exactly what is pending when all of it is settled and valid, and otherwise changes nothing |
| Collector.Graph.CheckPending | rheg/runtime/rheg.cc:163-174 | passes exactly when every pending node and edge is settled and valid |
| Collector.Graph.EndStream | rheg/runtime/rheg.cc:151-157 | ends exactly when nothing is pending; the graph is then the union of the batches and valid as a whole |
| Delivery.NextAccepted | rheg/perfetto/rheg_perfetto.cc:451-487 | the exporter accepts the collector's next batch exactly when it has no same-cycle loop, no shared track twice in a cycle, timestamps that fit, and identities remain |
| Delivery.StreamDelivered | rheg/perfetto/rheg_perfetto.cc:451-577 | a stream of displayable batches is accepted batch by batch and records the whole graph |
| Delivery.TakenIff | rheg/perfetto/rheg_perfetto.cc:451-577 | all batches of a stream are accepted exactly when all are displayable and identities suffice |
| Delivery.EventsSurvive | rheg/runtime/rheg.cc:151-179 | what the callbacks recorded is what the event stream expands to |
| Delivery.GraphSurvives | rheg/runtime/rheg.cc:151-179 | when the packets are readable, what the callbacks recorded is what a reader of their timestamps, counters and captions gets back |
| LiveRun.Observe | rheg/runtime/rheg.cc:158-316 | each callback changes the record as specified: late and repeated ones are refused, and a settled cycle hands out exactly what is pending |
| LiveRun.Live | rheg/runtime/rheg.cc:141-316 | any script of callbacks into a graph whose settled cycles go to an exporter: what is recorded and handed out is what the script specifies, it ends exactly when nothing is pending, every batch is accepted exactly when all are displayable and identities suffice, the bytes are the trace of the batches, and at the end these are the whole graph, which the event stream gives back, and which a reader computes from the bytes when the packets are readable |
| Capture.ValidateSymbols | rheg/runtime/rheg.cc:32-42 | accepts exactly symbols that are nonempty, fit the field and are distinct in value and in name |
| Capture.ValidateField | rheg/runtime/rheg.cc:20-63 | the rules for one field: identifier and reserved names, encoding, symbols, label, architecture, program counter and boolean width |
| Capture.ValidateSite | rheg/runtime/rheg.cc:14-67 | accepts exactly well-formed fields with distinct names and at most one label that run from the top of the payload to bit 0 without gap |
| Capture.ValidateSchema | rheg/runtime/rheg.cc:10-68 | accepts exactly a manifest without fields or one whose every site is accepted |
| Capture.PcFound | rheg/runtime/rheg.cc:54-58 | the program counter named by an instruction is found, and is one field only |
| Capture.BitsPartitioned | rheg/runtime/rheg.cc:28-66 | every payload bit is in exactly one field and no field reaches outside |
| Capture.FieldsReconstruct | rheg/runtime/rheg.cc:28-66 | the field values at their offsets add up to the payload |
| Capture.FieldsRecorded | rheg/runtime/rheg.cc:69-84 | a complete occurrence has every word any field of an accepted schema needs |
| Capture.PayloadRecovered | rheg/runtime/rheg.cc:10-84 | the fields of a complete occurrence together give back its whole payload |
| Capture.ReadChunk | rheg/runtime/rheg.cc:74-81 | up to 32 bits across at most two words, failing exactly when one is missing |
| Capture.CaptureField | rheg/runtime/rheg.cc:69-84 | succeeds exactly for a range inside a present node with its words recorded, and gives payload div 2^offset mod 2^width with nothing above the width |
| Printing.Decimal | rheg/runtime/rheg.cc:102-124 | canonical decimal text of the unsigned or two's-complement value at any width; fails exactly when words are missing or a signed value has no bits |
| Printing.ScaleDigits | rheg/runtime/rheg.cc:108-112 | rewriting digits in place with a carry computes the digits of the number, or of its double, plus the carry |
| Printing.ScaledValue | rheg/runtime/rheg.cc:106-119 | those digits are worth the number, or its double, plus the carry |
| Printing.ScaledMinimal | rheg/runtime/rheg.cc:105-119 | doubling and incrementing introduce no leading zero |
| Printing.CanonicalUnique | rheg/runtime/rheg.cc:102-124 | there is one canonical text for each integer |
| Printing.HexText | rheg/runtime/rheg.cc:85-90 | fixed-length text that parses back to the bits its digits cover |
| Printing.HexIsRaw | rheg/runtime/rheg.cc:85-90 | for a captured value those bits are the raw value |
| Printing.HexUnique | rheg/runtime/rheg.cc:85-90 | a hexadecimal text of a length is of one number |
| Printing.UnsignedValue | rheg/runtime/rheg.cc:91-94 | the low one or two words as a number, failing exactly above 64 bits or without the words |
| Printing.SignedValue | rheg/runtime/rheg.cc:95-101 | the two's-complement reading when the sign bit is set, otherwise the low words as a signed 64-bit integer; never out of range, the minimum included |
| Printing.SignedIsMeaning | rheg/runtime/rheg.cc:95-101 | for a captured value both readings are the two's-complement value |
| Captions.CaptureAnnotation | rheg/perfetto/rheg_perfetto.cc:201-215 | a field is shown as hexadecimal text, as decimal text when no scalar holds it, or as the scalar of its encoding, with exactly the value its bits have in the payload |
| Captions.Formatter.Render | rheg/perfetto/rheg_perfetto.cc:223-265 | the text of an instruction depends only on its architecture, address, bits and width, whatever the cache holds |
| Captions.Describe | rheg/perfetto/rheg_perfetto.cc:523-559 | showing a settled occurrence of an accepted site never fails; annotations are those of all its fields in order, or its words where no schema is listed, and the name is stall, the selected symbol, the one mnemonic or the site's title |
| Naming.MnemonicIsFirstWord | rheg/perfetto/rheg_perfetto.cc:534-537 | a mnemonic is the text of an instruction up to its first space |
| Naming.LabelIs | rheg/perfetto/rheg_perfetto.cc:540-546 | a selected field gives its first symbol for the value, or the value in hexadecimal where no symbol has it |
| Naming.CalledStall | rheg/perfetto/rheg_perfetto.cc:553-559 | a stall is called stall |
| Naming.CalledByLabel | rheg/perfetto/rheg_perfetto.cc:553-559 | a transfer is called what its selected field gives |
| Naming.CalledByInstruction | rheg/perfetto/rheg_perfetto.cc:553-559 | with no field selected and exactly one instruction, a transfer is called by its mnemonic |
| Naming.CalledBySite | rheg/perfetto/rheg_perfetto.cc:553-559 | with no field selected and no instruction, or several, a transfer is called what its site is |
| Naming.ListedSplits | rheg/perfetto/rheg_perfetto.cc:548-552 | between the commas of a payload shown as a list are its words in order, each as canonical decimal text |
| Naming.ListShown | rheg/perfetto/rheg_perfetto.cc:548-552 | where no fields are listed, a slice shows that list in brackets, under the name of the payload words |
| Captions.DescribesCaption | rheg/perfetto/rheg_perfetto.cc:523-559 | that is the caption of the occurrence in the trace |
| Telling.RawTold | rheg/perfetto/rheg_perfetto.cc:201-215 | what is shown of a field tells its value |
| Telling.ListedTold | rheg/perfetto/rheg_perfetto.cc:548-552 | a list of payload words in text is of one list of words |
| Telling.PayloadTold | rheg/perfetto/rheg_perfetto.cc:531-552 | without instruction fields, what is shown of an occurrence tells its whole payload |
| Telling.ToldIff | rheg/perfetto/rheg_perfetto.cc:515-559 | without instruction fields, captions tell slices apart exactly when they tell sites apart |
| Telling.CaptionsPlain | rheg/perfetto/rheg_perfetto.cc:193-215 | every captured value fits its annotation |
| SitesAlike.AlikeCompatible | rheg/perfetto/rheg_perfetto.cc:201-215 | fields that are ever shown alike are both hexadecimal of one length, both shown as decimal text at times, or scalars of one kind |
| SitesAlike.SharedShown | rheg/perfetto/rheg_perfetto.cc:201-215 | and such fields have a value that both show alike |
| SitesAlike.PackedRaw | rheg/runtime/rheg.cc:28-66 | for any values of the fields of a schema there is a payload in which every field has its value |
| SitesAlike.SitesToldIff | rheg/perfetto/rheg_perfetto.cc:515-559 | without instruction fields, slices of different sites never look alike exactly when the manifest tells them apart: no two sites of a track and role have the same field names, compatible fields, and names a stall and a transfer can share |
| SitesAlike.TraceTellsIff | rheg/perfetto/rheg_perfetto.cc:302-584 | for circuits without instruction fields, traces determine the recorded graphs exactly when the clock is at most 1 GHz or no site is a stall, and the manifest tells the sites of every track apart |
| SitesAlike.NamesTell | rheg/perfetto/rheg_perfetto.cc:515-559 | sites whose field names differ are never shown alike |
| SitesAlike.TwinStalls | rheg/perfetto/rheg_perfetto.cc:515-559 | two stalls that observe one transfer through the same fields are not told apart |
| SramPlan.PlanMemory | sram/map-memories.py:364-395 | picks the first best-scored compatible macro, and none exactly when none is compatible |
| SramPlan.Cheapest | sram/map-memories.py:364-395 | the chosen macro has no more total area over its tiles than any eligible one; at equal area it leaves no more bits unused, then needs no more instances, and at a full tie it is the earliest |
| SramPlan.InGrid | sram/map-memories.py:378-383 | every address has a bank and every bit a slice |
| SramPlan.BankSelectWidth | sram/map-memories.py:527-531 | the bank select is exactly the address bits above the macro address |
| SramPlan.OneBankFits | sram/map-memories.py:519-526 | with one bank the logical address fits the macro's |
| SramPlan.LanesNest | sram/map-memories.py:353-361 | no macro lane straddles two lanes of the logical mask |
| SramWrapper.AddressFits | sram/map-memories.py:519-526 | the padded or truncated address is the logical address modulo the macro depth |
| SramWrapper.BankWordBits | sram/map-memories.py:593-601 | bit i of a bank's read word is bit i mod width of slice i div width |
| SramRefinement.SelectsHolder | sram/map-memories.py:539-546 | exactly the bank that holds an address is selected |
| SramRefinement.WiredData | sram/map-memories.py:548-555 | a macro sees the logical data bit |
| SramRefinement.WiredMask | sram/map-memories.py:556-569 | a macro lane sees the logical mask bit of each of its bits |
| SramRefinement.StoredBitAfter | sram/map-memories.py:571-591 | a stored bit changes only by an enabled write to its address under its mask bit, to the data bit |
| SramRefinement.ReadDelivers | sram/map-memories.py:593-621 | the clock after a read shows the logical word |
| SramRefinement.ReadDataHolds | sram/map-memories.py:531-537 | any other clock keeps showing the word last read |
| SramRefinement.ClockRefines | sram/map-memories.py:502-623 | one clock of the wrapper refines one clock of the flat memory |
| SramRefinement.PlannedRefines | sram/map-memories.py:502-623 | over any run, a grid wired as planned stores what the flat memory stores and shows the word it last read |
| SramRefinement.StartsRefined | sram/map-memories.py:571-591 | whatever the macros hold at power-up is some flat memory |
| SramNetlist.Render | sram/map-memories.py:502-623 | the rendered netlist has the address, bank and column expressions of the plan: every column its stretch of the word, its padding, the driver of each mask lane and the part of the macro word it reads |
| SramNetlist.LegalIff | sram/map-memories.py:492-623 | every select the text writes is legal on its signal as declared exactly when the macro has an address bit and the word more than one bit |
| SramNetlist.OneRowMacroIllegal | sram/map-memories.py:519-526 | a four-word memory on a one-row macro is planned, and any rendering of it cuts the address to an illegal part-select |
| SramNetlist.OneBitMemoryIllegal | sram/map-memories.py:492-499 | a one-bit memory is planned on an ordinary macro, and any rendering of it selects a bit of a port without a range |
| SramNetlist.Wired | sram/map-memories.py:548-569 | the rendered expressions give every macro exactly the planned data and mask bits |
| SramNetlist.AddressWired | sram/map-memories.py:519-531 | the rendered expressions give every macro the planned address and the bank register the planned bank |
| SramNetlist.SelectedNumber | sram/map-memories.py:520-533 | a select on an address is the number of the bits it selects |
| SramNetlist.ClockPlanned | sram/map-memories.py:502-591 | one clock of a legal rendered netlist is one clock of the planned wiring |
| SramNetlist.ReadPlanned | sram/map-memories.py:593-621 | the read data of a legal rendered netlist is the planned read data |
| SramNetlist.WrapperRefines | sram/map-memories.py:502-623 | whatever is rendered for a plan, if legal, refines the flat masked memory over every sequence of reads and masked writes |
| Division.TruncationLaws | cores/divider.rhdl:56-60 | n = q d + r with the remainder smaller than d and of the sign of n |
| Division.UnsignedExact | cores/divider.rhdl:56-60 | the unsigned response is the exact quotient and remainder |
| Division.SignedExact | cores/divider.rhdl:56-60 | the signed response satisfies the division identity, except the one overflow, which wraps to the minimum with remainder zero |
| OneAtATime.ServedInOrder | cores/divider.rhdl:40-91 | every run of a unit that serves one request at a time answers the requests it takes once, correctly and in order |
| OneAtATime.BehaviourLawful | cores/divider.rhdl:40-91 | its pins keep the laws of readiness, offering, holding and time |
| OneAtATime.LawfulIff | cores/multiplier.rhdl:38-79 | and whatever keeps these laws is its trace: for every input and every backpressure there is one |
| OneAtATime.AllAnswered | cores/multiplier.rhdl:38-79 | after enough quiet clocks nothing is owed |
| Divider.TrialSubtraction | cores/divider.rhdl:50-54 | the extra bit of the difference is exactly the borrow |
| Divider.RestoringStep | cores/divider.rhdl:50-55 | an iteration reads one more dividend bit and writes one more quotient bit, keeping the division identity on the bits read |
| Divider.RestoringDone | cores/divider.rhdl:56-60 | after all bits the registers hold quotient and remainder of the magnitudes |
| Divider.Finalize | cores/divider.rhdl:56-60 | conditional negation gives the wrapped signed results |
| Divider.Capture | cores/divider.rhdl:46-49 | the captured magnitudes and signs are those of the requested reading |
| Divider.Finished | cores/divider.rhdl:56-60 | the response register receives the specified response, divide by zero included |
| Divider.IterativeDivider.Load | cores/divider.rhdl:63-74 | taking a request establishes the iteration invariant |
| Divider.IterativeDivider.Advance | cores/divider.rhdl:75-89 | each clock of an unfinished request keeps the invariant and is one closer to the response |
| Divider.IterativeDivider.Clock | cores/divider.rhdl:40-91 | each edge moves the registers as the three-stage unit moves: takes a request exactly on fire, gives the response exactly on fire, holds an untaken response unchanged, and offers the specified response width + 1 edges after the request |
| Divider.Run | cores/divider.rhdl:40-91 | the pins of a run: requests taken and responses given at the clocks where both sides agree, each request answered once, correctly and in order, a response offered width + 2 clocks after its request was taken and held until it is taken, a request taken exactly when nothing is owed, and all answered after width + 2 quiet clocks; these laws leave one trace for every input |
| Multiplication.ProductExact | cores/multiplier.rhdl:44-52 | the double-width response is the exact product in all four modes |
| Multiplication.LowHalf | cores/multiplier.rhdl:44-52 | the low half does not depend on the mode |
| Multiplier.NoOverflow | cores/multiplier.rhdl:49-50 | partial products and the shifted multiplicand fit twice the width |
| Multiplier.SummingStep | cores/multiplier.rhdl:73-77 | an iteration adds one partial product without losing a bit |
| Multiplier.SummingDone | cores/multiplier.rhdl:69-72 | after all bits the accumulator is the product of the magnitudes |
| Multiplier.RestoreSign | cores/multiplier.rhdl:52 | conditional negation gives the specified product |
| Multiplier.Prepare | cores/multiplier.rhdl:46-48 | the preparing clock leaves the operands' magnitudes |
| Multiplier.IterativeMultiplier.Load | cores/multiplier.rhdl:54-64 | taking a request records its operands and signs |
| Multiplier.IterativeMultiplier.Advance | cores/multiplier.rhdl:65-77 | each clock of an unfinished request keeps the invariant and is one closer to the response |
| Multiplier.IterativeMultiplier.Clock | cores/multiplier.rhdl:38-79 | each edge moves the registers as the three-stage unit moves: takes and gives exactly on fire, holds an untaken response unchanged, and offers the exact product width + 1 edges after the request |
| Multiplier.Run | cores/multiplier.rhdl:38-79 | the pins of a run: requests taken and responses given at the clocks where both sides agree, each request answered once, correctly and in order, a response offered width + 2 clocks after its request was taken and held until it is taken, a request taken exactly when nothing is owed, and all answered after width + 2 quiet clocks; these laws leave one trace for every input |
| BitVectors.LeftNat | cores/alu.rhdl:122-129 | a left shift multiplies by a power of two modulo the width |
| BitVectors.LogicalRightNat | cores/alu.rhdl:123-127 | a logical right shift divides, rounding down |
| BitVectors.ArithmeticRightSigned | cores/alu.rhdl:123-127 | an arithmetic right shift divides the signed number, rounding down |
| Alu.AdderExact | cores/alu.rhdl:70-77 | sums and differences with a shifted left operand, modulo the bits worked on, full and word |
| Alu.LessExact | cores/alu.rhdl:79-83 | the comparison read off the subtraction is the signed or unsigned order |
| Alu.CompareExact | cores/alu.rhdl:79-83 | the delivered bit is that order |
| Alu.MinMaxExact | cores/alu.rhdl:84 | the result is an operand and neither operand is beyond it |
| Alu.AmountExact | cores/alu.rhdl:114-134 | the amount is the right operand modulo the bits worked on, and the complement is what is left of them |
| Alu.SharedShiftExact | cores/alu.rhdl:122-129 | the shared shifter is a right shift as such and a left shift when reversed around, the latter exactly unless a set bit is filled in |
| Alu.ShiftExact | cores/alu.rhdl:112-130 | full and word shifts in both directions with both fills |
| Alu.ShiftNumbers | cores/alu.rhdl:112-130 | as numbers, a left shift multiplies modulo the width and right shifts divide rounding down |
| Alu.UnsignedWordShift | cores/alu.rhdl:117-130 | SLLI.UW shifts the zero-extended word |
| Alu.ExtractExact | cores/alu.rhdl:130 | BEXT delivers the addressed bit alone |
| Alu.HalvesRotate | cores/alu.rhdl:131-139 | the two shifted halves joined are the rotation, amount zero included |
| Alu.RotateExact | cores/alu.rhdl:131-139 | full and word rotates in both directions by any amount |
| Alu.PopCountIsSize | cores/alu.rhdl:154-155 | the population count is the number of places with a set bit |
| Alu.TrailingZerosAt | cores/alu.rhdl:141-153 | the trailing zeros end at the lowest set bit, or are all the bits |
| Alu.LeadingZerosAt | cores/alu.rhdl:141-153 | the leading zeros end at the highest set bit, or are all the bits |
| Alu.CountValueExact | cores/alu.rhdl:141-155 | one encoder counts the leading zeros, the trailing zeros or the set bits of the bits worked on, zero input included |
| Alu.CountExact | cores/alu.rhdl:141-155 | the delivered number is the count, full and word |
| SparseMemory.Memory.Read | chi/subordinate/dpi/chi_memory.cc:66-83 | reads the flat contents, failing exactly out of bounds |
| SparseMemory.Memory.Write | chi/subordinate/dpi/chi_memory.cc:85-94 | changes exactly the addressed bytes and allocates exactly the pages touched; out of bounds nothing changes |
| SparseMemory.Memory.Zero | chi/subordinate/dpi/chi_memory.cc:96-108 | clears exactly the addressed bytes, drops exactly the pages wholly covered, and never allocates one |
| SparseMemory.Memory.constructor | chi/subordinate/dpi/chi_memory.cc:62-64 | a new memory is all zeros and holds no page |
| SparseMemory.Memory.WritePages | chi/subordinate/dpi/chi_memory.cc:87-93 | the page loop writes the whole span |
| SparseMemory.Memory.ClearPages | chi/subordinate/dpi/chi_memory.cc:99-107 | visiting the pages in any order clears the whole range |
| SparseMemory.WriteOn | chi/subordinate/dpi/chi_memory.cc:87-93 | one page-sized piece extends what has been written |
| SparseMemory.ClearOn | chi/subordinate/dpi/chi_memory.cc:100-107 | visiting one page clears its part of the range |
| BeatAccess.Registry.Obtain | chi/subordinate/dpi/chi_memory.cc:110-116 | an identity has one memory of one capacity, all zeros when it is first asked for; refused exactly for another capacity or a new one of no bytes |
| BeatAccess.Registry.Register | chi/subordinate/dpi/chi_memory.cc:22-45 | accepted exactly for a repeat or, before the freeze, for a well-formed window that clashes with none and whose identity has no memory of another capacity; it gets the memory of its identity, new and zero if there was none; any refusal is final |
| BeatAccess.Registry.Initialized | chi/subordinate/dpi/chi_memory.cc:47-53 | gives the first memory registered under the identity with that capacity, unless a registration failed |
| BeatAccess.Registry.Freeze | chi/subordinate/dpi/chi_memory.cc:55-60 | closes registration and gives all windows, unless a registration failed |
| BeatAccess.OnlyOne | chi/subordinate/dpi/chi_memory.cc:28-38 | stopping at the first clash misses no repeat |
| BeatAccess.LaneOfPacked | chi/subordinate/dpi/chi_dpi_memory_dpi.cc:18-30 | a lane read from packed words is the byte packed there |
| BeatAccess.SetPackedByte | chi/subordinate/dpi/chi_dpi_memory_dpi.cc:24-30 | or-ing a byte into a zero lane, which is adding it there, sets that lane and no other |
| BeatAccess.MergeLanes | chi/subordinate/dpi/chi_dpi_memory_dpi.cc:79-81 | exactly the enabled lanes take the bus data |
| BeatAccess.PackLanes | chi/subordinate/dpi/chi_dpi_memory_dpi.cc:84-85 | the bus carries the beat in its low lanes and zeros above |
| BeatAccess.MaskBit | chi/subordinate/dpi/chi_dpi_memory_dpi.cc:79-81 | a lane is enabled exactly when the bit of the mask at its place is set |
| BeatAccess.OnlyEnabledBytes | chi/subordinate/dpi/chi_dpi_memory_dpi.cc:68-82 | a masked beat write changes exactly the enabled bytes of the aligned beat that holds the address |
| BeatAccess.OnlySetBits | chi/subordinate/dpi/chi_dpi_memory_dpi.cc:68-82 | stated on the bits of the mask: a byte of the beat becomes the byte of the bus exactly where its bit is set, and no other byte changes |
| BeatAccess.EmptyMask | chi/subordinate/dpi/chi_dpi_memory_dpi.cc:79-81 | an empty mask changes nothing |
| BeatAccess.FullMask | chi/subordinate/dpi/chi_dpi_memory_dpi.cc:79-81 | a full mask replaces the beat |
| BeatAccess.OneBitMask | chi/subordinate/dpi/chi_dpi_memory_dpi.cc:79-81 | a single bit replaces a single byte |
| BeatAccess.AccessMemory | chi/subordinate/dpi/chi_dpi_memory_dpi.cc:74-86 | a write merges into the beat, a read returns it, and a beat outside the memory changes nothing |
| BeatAccess.Access | chi/subordinate/dpi/chi_dpi_memory_dpi.cc:48-91 | the status says exactly which check failed, missing data buffers included; only the addressed memory changes, and only by a successful write; a read returns the beat |
| ImageMap.ImageMemoryMap.Add | sims/fesvr/image_memory.h:32-46 | accepted exactly for a well-formed region that clashes with none; regions stay sorted, disjoint and otherwise the same |
| ImageMap.ImageMemoryMap.Freeze | sims/fesvr/image_memory.h:48 | the regions stay and nothing more is accepted |
| ImageMap.ImageMemoryMap.FindSegment | sims/fesvr/image_memory.h:51-61 | the longest stretch from the address that one region, or none, serves, with its place in the store |
| ImageMap.Located | sims/fesvr/image_memory.h:51-61 | at most one region serves an address |
| ChiImageMap.NeverClashes | sims/verilator/chi_image_memory.h:9-19 | registered memories never clash as regions |
| ChiImageMap.BuildImageMap | sims/verilator/chi_image_memory.h:9-19 | the map takes every registered memory and nothing else |
| ChiImageMap.StorageApart | sims/verilator/chi_image_memory.h:9-19 | different owners have different memories, each as large as its region says |
| ChiImageMap.BuildLoader | sims/verilator/chi_image_memory.h:9-19 | a loader over the registry reaches exactly the registered memories, each behind the region of its owner |
| AddressSpace.LittleEndianRoundTrip | sims/fesvr/direct_mem_htif.cc:15-27 | loading and storing little-endian bytes are inverse |
| AddressSpace.LowBytesAt | sims/fesvr/direct_mem_htif.cc:23-27 | byte i of a word is its bits from eight times i on |
| AddressSpace.RegionWrite | sims/fesvr/direct_mem_htif.cc:139-155 | a store write inside one region's window changes just those addresses |
| AddressSpace.WroteMapped | sims/fesvr/direct_mem_htif.cc:139-155 | after a store call the range written is longer by the piece and no transaction was sent |
| AddressSpace.WroteUnmapped | sims/fesvr/direct_mem_htif.cc:139-155 | after a transaction the range written is longer by the piece, or stopped before it |
| AddressSpace.FetchedMore | sims/fesvr/direct_mem_htif.cc:121-137 | after a store call or a transaction the range read is longer by the piece, or stopped before it |
| ChunkEngine.Engine.Transact | sims/fesvr/direct_mem_htif.cc:192-227 | refused exactly for a bad or wrapping length or a loading write on the boot register; otherwise one request of the transport, clocked until it is answered, which acts on the target exactly when the answer is success |
| ChunkEngine.Engine.NextSegment | sims/fesvr/direct_mem_htif.cc:144-145 | region routing applies only while loading |
| ChunkEngine.Engine.Await | sims/fesvr/direct_mem_htif.cc:216-218 | clocks the request until it is answered; the answer is the one answer added to the history |
| ChunkEngine.Engine.WriteChunk | sims/fesvr/direct_mem_htif.cc:139-155 | a flat write of the range over the sparse memories behind its regions and the target: refused exactly when it wraps or touches the boot register while loading, else complete or stopped at a request not served; unmapped bytes are sent once each, in order, 1 to 8 at a time, and the host may go on exactly when it is complete; each request is as long as eight bytes, the range and the regions allow |
| ChunkEngine.Engine.ClearChunk | sims/fesvr/direct_mem_htif.cc:157-170 | the same with zeros, through the clears of the sparse memories: no page is allocated |
| ChunkEngine.Engine.ReadChunk | sims/fesvr/direct_mem_htif.cc:121-137 | the bytes the address space holds, changing nothing, with unmapped bytes fetched once each in order; each request is as long as eight bytes, the range and the regions allow |
| ChunkEngine.Engine.Publish | sims/fesvr/direct_mem_htif.cc:111-119 | publishes a nonzero entry that fits, in one eight-byte write that is awaited; from then on no region is in force |
| Handshake.Transport.Sample | sims/fesvr/direct_mem_htif.cc:71-90 | a request is taken exactly when offered and ready, answered exactly when taken and answered, and a failing status stops the host |
| Handshake.Transport.Reply | sims/fesvr/direct_mem_htif.cc:80-87 | an answer ends the request it was taken for, and only success lets the host go on |
| Handshake.TracksTaken | sims/fesvr/direct_mem_htif.cc:71-90 | taking a request keeps the history sound and in step with the wires |
| Handshake.TracksAnswered | sims/fesvr/direct_mem_htif.cc:71-90 | answering a request keeps the history sound and in step with the wires |
| Handshake.Transport.Transact | sims/fesvr/direct_mem_htif.cc:192-217 | a request starts exactly when it is transferable and, while loading, not a write on the boot register |
| Handshake.Transport.Boot | sims/fesvr/direct_mem_htif.cc:111-119 | publishes a nonzero entry that fits the target in one eight-byte write, and ends loading |
| Handshake.Transport.Tick | sims/fesvr/direct_mem_htif.cc:71-119 | an offered request stays unchanged until taken, nothing new starts while one is outstanding, and a host that may run starts exactly the acceptable request it asks for |
| Handshake.SoundIssued | sims/fesvr/direct_mem_htif.cc:192-227 | a request after a successful answer keeps the history sound |
| Handshake.SoundPublished | sims/fesvr/direct_mem_htif.cc:111-119 | publishing after all loading answers keeps the history sound |
| Handshake.Run | sims/fesvr/direct_mem_htif.cc:71-227 | every run is the one its inputs determine: what is requested, taken, answered and published, and what the pins show; requests are taken at the clocks where one is on offer and the target is ready, each once and in order, an offered request stays unchanged until taken, no loading write reaches the boot register, and the nonzero entry follows only completed loading |
| Handshake.ShowsService | sims/fesvr/direct_mem_htif.cc:71-109 | the pins show everything the target took and answered |
| Handshake.RunLawful | sims/fesvr/direct_mem_htif.cc:71-109 | what is on offer is the next request not yet taken, unchanged until then, and an answer is awaited exactly between taking and answering |
| Handshake.OfferedSoon | sims/fesvr/direct_mem_htif.cc:203-218 | a request is on offer from the second clock after the host makes it |
| Handshake.StopsForGood | sims/fesvr/direct_mem_htif.cc:58-69 | a host that has failed asks for nothing more |
| Handshake.EntryAsked | sims/fesvr/direct_mem_htif.cc:111-119 | the published entry is nonzero and one the host asked for |

## Left out

- Lossless.StreamLossless: its ends carry exact cycles; what timestamps in nanoseconds leave of it is Stamping.StampedLossless, with Ambiguity.ReadableIff saying where they are enough.
- SramPlan.PlanMemory: scores are exact reals, where the program multiplies floating-point areas, so near ties may be broken differently.
- Printing.SignedValue: a width of zero shifts by a negative amount in the program and is excluded.
- Tracks.Describe: takes the site table after JSON parsing, numbers already in range; a symbols list on a field that is no enumeration is refused where it is not empty.
- Opening.Open: the text that describes a site, with its source location and fields, is a parameter; gzip is not modelled, and instruction sets are not looked up.
- Captions.Formatter.Render: the disassembler's text, with its fallback for unknown instructions and with branch targets resolved, is a function of what the program caches it by.
- Telling.PayloadTold: instruction fields are excluded, since a disassembler need not give different bits different texts.
- Handshake.Run: the host program is any sequence of requests and entries; the coroutine switch is one step a clock.
- ChunkEngine.Engine.Await: the target's pins are a finite script, and a request still open at its end is one that was not served; a request not answered with success is taken to change nothing on the target.
- Collector: resets and epochs, manifest binding, snapshots outside a stream, JSON text.
- Exporter: gzip, and what a failed flush left in the output stream; a heading that cannot be written leaves no exporter.
- Alu: the logic unit (bitwise, one-hot and conditional masks) and the byte-wise unary transforms, which share nothing.
- SRAM: catalog and policy files, MLIR parsing, collateral checks, the second macro port, and unknown read data before the first read beyond `None`.
- FESVR's own loader, VPI and DPI glue, the exit word and the maximum chunk size.
- CHI devices and Homes, the NoC, flow queues, load-store and branch units, the bootrom and the UART.

/** A whole live run: simulator callbacks in any order fill the graph, settled cycles go to the exporter as
    they are finished, and the trace is closed at the end. */
module LiveRun {
  import opened Options
  import opened Machine
  import opened EventModel
  import opened Encoder
  import opened Streams
  import opened Collector
  import opened Delivery
  import opened Decoding
  import History
  import Wire
  import Trace
  import ByteHistory
  import PerfettoWriter
  import Captions
  import Showing
  import Readback
  import Stamping
  import Telling
  import Reading
  import ExportSession

  /** What the simulator does next. Callbacks that the graph refuses leave it unchanged. */
  datatype Callback =
    | NodeSeen(ref: Ref, cycle: U64, width: nat)
    | WordSeen(ref: Ref, index: nat, word: U32)
    | EdgeSeen(parent: Ref, child: Ref)
    | Settle(cycle: U64)

  /** What has been recorded, and the batches handed out; the rest of the recording is pending. */
  datatype Record = Record(nodes: map<Ref, Node>, edges: set<Edge>, batches: seq<Batch>)

  ghost function PendingNodes(s: Record): map<Ref, Node> {
    map r | r in s.nodes && r !in AllNodes(s.batches) :: s.nodes[r]
  }

  ghost function PendingEdges(s: Record): set<Edge> {
    s.edges - AllEdges(s.batches)
  }

  /** Everything pending is complete, permitted and in the open interval that `cycle` closes. */
  ghost predicate Settled(m: Manifest, s: Record, cycle: U64) {
    && Newer(LastCycle(s.batches), cycle)
    && (forall r :: r in PendingNodes(s) ==>
          s.nodes[r].present && s.nodes[r].cycle <= cycle && Newer(LastCycle(s.batches), s.nodes[r].cycle) &&
            NodeValid(m, r, s.nodes[r]))
    && (forall e :: e in PendingEdges(s) ==> e.child in PendingNodes(s) && EdgeValid(m, s.nodes, e))
  }

  /** What a callback does to the record. One that comes too late or twice is refused. */
  ghost function Next(m: Manifest, s: Record, c: Callback): Record {
    match c
    case NodeSeen(r, cycle, width) =>
      if Newer(LastCycle(s.batches), cycle) && !(r in s.nodes && s.nodes[r].present) then
        s.(nodes := s.nodes[r := Node(true, cycle, width, if r in s.nodes then s.nodes[r].words else map[])])
      else s
    case WordSeen(r, index, word) =>
      var node := if r in s.nodes then s.nodes[r] else BLANK;
      if r !in AllNodes(s.batches) && index !in node.words
        then s.(nodes := s.nodes[r := node.(words := node.words[index := word])])
      else s
    case EdgeSeen(parent, child) =>
      if child !in AllNodes(s.batches) then s.(edges := s.edges + {Edge(parent, child)}) else s
    case Settle(cycle) =>
      if Settled(m, s, cycle) then s.(batches := s.batches + [Batch(cycle, PendingNodes(s), PendingEdges(s))]) else s
  }

  ghost function After(m: Manifest, script: seq<Callback>): Record {
    if script == [] then Record(map[], {}, []) else Next(m, After(m, script[..|script| - 1]), script[|script| - 1])
  }

  /** The graph holds the record. */
  ghost predicate Keeps(graph: Graph, s: Record)
    reads graph
  {
    graph.nodes == s.nodes && graph.edges == s.edges && graph.batches == s.batches
  }

  /** What a streaming graph has pending is what its record has not handed out. */
  lemma SamePending(graph: Graph, s: Record)
    requires graph.Valid() && graph.streaming && Keeps(graph, s)
    ensures graph.pendingNodes == PendingNodes(s).Keys && graph.pendingEdges == PendingEdges(s)
    ensures graph.finishedCycle == LastCycle(s.batches)
  {
    hide Streamed;
    var handed := graph.nodes - graph.pendingNodes;
    assert forall r :: r in handed <==> r in AllNodes(s.batches);
    assert graph.edges - graph.pendingEdges == AllEdges(s.batches);
  }

  lemma SameSettled(graph: Graph, s: Record, cycle: U64)
    requires graph.Valid() && graph.streaming && Keeps(graph, s)
    ensures Settled(graph.manifest, s, cycle) <==> Newer(graph.finishedCycle, cycle) && graph.Settled(cycle)
  {
    hide Streamed, AllNodes, AllEdges, NodeValid, EdgeValid, Graph.Valid;
    SamePending(graph, s);
  }

  /** One callback reaches the graph as specified. */
  method Observe(graph: Graph, c: Callback, ghost s: Record) returns (batch: Option<Batch>)
    requires graph.Valid() && graph.streaming && Keeps(graph, s)
    modifies graph
    ensures graph.Valid() && graph.streaming && Keeps(graph, Next(graph.manifest, s, c))
    ensures graph.batches == old(graph.batches) + (if batch.Some? then [batch.value] else [])
  {
    hide Graph.Valid, Graph.Settled, Settled, AllNodes, AllEdges, LastCycle;
    batch := None;
    match c {
      case NodeSeen(r, cycle, width) =>
        var ok := graph.RecordNode(r, cycle, width);
      case WordSeen(r, index, word) =>
        var ok := graph.RecordPayload(r, index, word);
      case EdgeSeen(parent, child) =>
        var ok := graph.RecordEdge(parent, child);
      case Settle(cycle) =>
        SamePending(graph, s);
        SameSettled(graph, s, cycle);
        batch := graph.FinishCycle(cycle);
        if batch.Some? {
          assert batch.value.nodes == PendingNodes(s);
        }
    }
  }

  /** Graph and exporter in the middle of a run: the exporter has been offered every batch handed out. */
  ghost predicate Running(d: Description, m: Manifest, display: ByteHistory.Display, h: Trace.Heading,
                          graph: Graph, exporter: PerfettoWriter.Exporter, taken: bool)
    reads graph, exporter, exporter.formatter
  {
    && graph.Valid() && exporter.Valid() && graph.manifest == m && graph.streaming
    && exporter.description == d && exporter.display == display && exporter.heading == h
    && !exporter.failed && !exporter.finished
    && exporter.State() == History.Feed(d, graph.batches) && (taken <==> AllTaken(d, graph.batches))
  }

  lemma Offered(d: Description, bs: seq<Batch>, b: Batch)
    ensures History.Feed(d, bs + [b]) == History.Attempt(d, History.Feed(d, bs), b)
    ensures AllTaken(d, bs + [b]) <==> AllTaken(d, bs) && Accepts(d, History.Feed(d, bs), b)
  {
    hide History.Attempt, Accepts;
    assert (bs + [b])[..|bs|] == bs;
  }

  /** One callback, and the batch it settles on its way to the exporter. */
  method Step(ghost d: Description, ghost m: Manifest, ghost display: ByteHistory.Display, ghost h: Trace.Heading,
              graph: Graph, exporter: PerfettoWriter.Exporter, c: Callback, taken: bool, ghost s: Record)
    returns (taken': bool, batch: Option<Batch>)
    requires Running(d, m, display, h, graph, exporter, taken) && Keeps(graph, s)
    modifies graph, exporter, exporter.formatter
    ensures Running(d, m, display, h, graph, exporter, taken') && Keeps(graph, Next(m, s, c))
    ensures graph.batches == old(graph.batches) + (if batch.Some? then [batch.value] else [])
  {
    hide Accepts, Encoder.Write, Graph.Valid, PerfettoWriter.Exporter.Valid, AllTaken, History.Feed, Next;
    taken' := taken;
    ghost var before := graph.batches;
    batch := Observe(graph, c, s);
    if batch.Some? {
      Offered(d, before, batch.value);
      var accepted := exporter.Write(batch.value, true);
      taken' := taken && accepted;
    } else {
      assert graph.batches == before;
    }
  }

  /** Runs a script of callbacks into a fresh graph and exporter. What is recorded and handed out is as the
      script says. `taken` says whether every batch was accepted; that is so exactly when all are
      displayable and identities suffice, and then, once nothing is pending, the trace is that of a stream
      that gives back the whole graph. */
  method Live(d: Description, m: Manifest, views: seq<Captions.View>, dis: Captions.Disassembler, h: Trace.Heading,
              script: seq<Callback>)
    returns (ended: bool, taken: bool, nodes: map<Ref, Node>, edges: set<Edge>, bytes: Wire.Text, batches: seq<Batch>)
    requires SameManifest(d, m) && Captions.Viewed(d, views)
    ensures Record(nodes, edges, batches) == After(m, script)
    ensures ended <==> PendingNodes(After(m, script)) == map[] && PendingEdges(After(m, script)) == {}
    ensures Streamed(m, batches) && (taken <==> AllDisplayable(d, batches))
    ensures bytes == ExportSession.TraceBytes(h, Showing.DisplayOf(d, views, dis), Finish(History.Feed(d, batches)))
    ensures ended ==> nodes == AllNodes(batches) && edges == AllEdges(batches) && EntriesValid(m, nodes, edges, nodes)
    ensures ended && taken ==>
      var dec := Decode(d, EMPTY, Finish(History.Feed(d, batches)));
      dec.Decoder? && dec.open == map[] && Expands(nodes, edges, dec.done)
    ensures ended && taken && Stamping.Readable(d, Captions.CaptionOf(d, views, dis)) ==>
      Reading.ReadGraph(d, Captions.CaptionOf(d, views, dis), bytes) == Some((nodes, edges))
  {
    hide Stamping.Readable, Reading.ReadGraph, ExportSession.TraceBytes, Captions.CaptionOf;
    hide Captions.Viewed, Showing.DisplayOf, Running, Keeps, Next, PendingNodes, PendingEdges, AllDisplayable;
    hide Streamed, EntriesValid, Decode, Expands, SameManifest, Finish, History.Feed;
    ghost var display := Showing.DisplayOf(d, views, dis);
    var graph, exporter := Start(d, m, views, dis, h);
    taken, batches := true, [];
    for i := 0 to |script|
      invariant fresh(graph) && fresh(exporter) && fresh(exporter.formatter) &&
        Running(d, m, display, h, graph, exporter, taken)
      invariant Keeps(graph, After(m, script[..i])) && batches == graph.batches
    {
      assert script[..i + 1][..i] == script[..i];
      var batch;
      taken, batch := Step(d, m, display, h, graph, exporter, script[i], taken, After(m, script[..i]));
      batches := batches + (if batch.Some? then [batch.value] else []);
    }
    assert script[..|script|] == script;
    ended, nodes, edges, bytes := Close(d, m, display, h, graph, exporter, taken, After(m, script));
    TakenIff(d, m, batches);
    if ended && taken {
      Everything(d, m, batches);
      if Stamping.Readable(d, Captions.CaptionOf(d, views, dis)) {
        ReadsAll(d, m, views, dis, h, batches);
      }
    }
  }

  method Start(d: Description, m: Manifest, views: seq<Captions.View>, dis: Captions.Disassembler, h: Trace.Heading)
    returns (graph: Graph, exporter: PerfettoWriter.Exporter)
    requires SameManifest(d, m) && Captions.Viewed(d, views)
    ensures fresh(graph) && fresh(exporter) && fresh(exporter.formatter) &&
      Running(d, m, Showing.DisplayOf(d, views, dis), h, graph, exporter, true) && graph.batches == [] &&
        Keeps(graph, After(m, []))
  {
    hide PerfettoWriter.Exporter.Valid, Graph.Valid, Captions.Viewed, Showing.DisplayOf;
    graph := new Graph(m);
    var bound := graph.BindTiming(d.frequency);
    var begun := graph.BeginStream();
    exporter := new PerfettoWriter.Exporter(d, views, dis, h);
    StartTaken(d, m);
  }

  method Close(ghost d: Description, ghost m: Manifest, ghost display: ByteHistory.Display, ghost h: Trace.Heading,
               graph: Graph, exporter: PerfettoWriter.Exporter, ghost taken: bool, ghost s: Record)
    returns (ended: bool, nodes: map<Ref, Node>, edges: set<Edge>, bytes: Wire.Text)
    requires Running(d, m, display, h, graph, exporter, taken) && Keeps(graph, s)
    modifies graph, exporter, exporter.formatter
    ensures s == Record(nodes, edges, old(graph.batches)) && Streamed(m, s.batches) &&
      (taken <==> AllTaken(d, s.batches))
    ensures ended <==> PendingNodes(s) == map[] && PendingEdges(s) == {}
    ensures bytes == ExportSession.TraceBytes(h, display, Finish(History.Feed(d, s.batches)))
    ensures ended ==>
      nodes == AllNodes(s.batches) && edges == AllEdges(s.batches) && EntriesValid(m, nodes, edges, nodes)
  {
    hide EntriesValid, Streamed, History.Feed, AllTaken, Finish, WriterInv, Accepts, PendingNodes, PendingEdges;
    SamePending(graph, s);
    nodes, edges := graph.nodes, graph.edges;
    ended := graph.EndStream();
    var done := exporter.Finish(true);
    bytes := exporter.bytes;
  }

  lemma StartTaken(d: Description, m: Manifest)
    ensures AllTaken(d, []) && History.Feed(d, []) == FRESH
  {
  }

  lemma Everything(d: Description, m: Manifest, bs: seq<Batch>)
    requires SameManifest(d, m) && Streamed(m, bs) && AllDisplayable(d, bs)
    ensures var dec := Decode(d, EMPTY, Finish(History.Feed(d, bs)));
      dec.Decoder? && dec.open == map[] && Expands(AllNodes(bs), AllEdges(bs), dec.done)
  {
    hide Displayable, Decode, Finish, Expands, Streamed;
    EventsSurvive(d, m, bs);
  }

  /** A reader of the trace computes the whole graph. */
  lemma ReadsAll(d: Description, m: Manifest, views: seq<Captions.View>, dis: Captions.Disassembler, h: Trace.Heading,
                 bs: seq<Batch>)
    requires SameManifest(d, m) && Streamed(m, bs) && AllDisplayable(d, bs)
    requires Stamping.Readable(d, Captions.CaptionOf(d, views, dis))
    ensures Reading.ReadGraph(d, Captions.CaptionOf(d, views, dis),
                              ExportSession.TraceBytes(h, Showing.DisplayOf(d, views, dis),
                                Finish(History.Feed(d, bs)))) ==
            Some((AllNodes(bs), AllEdges(bs)))
  {
    hide Displayable, Finish, Streamed, Stamping.Readable, Reading.ReadGraph, ExportSession.TraceBytes;
    hide Captions.CaptionOf, History.Feed;
    hide Readback.PlainCaptions;
    StreamDelivered(d, m, bs);
    Telling.CaptionsPlain(d, views, dis);
    Reading.TraceIsGraph(h, d, Captions.CaptionOf(d, views, dis), bs);
  }
}

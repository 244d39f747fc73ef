/** Reading a trace: from its bytes to the packets, from these to the events with their cycles, and from the
    slices to the recorded graph. */
module Reading {
  import opened Options
  import opened Machine
  import opened EventModel
  import opened Worklist
  import opened Encoder
  import opened Decoding
  import opened History
  import opened Wire
  import opened Packets
  import opened ByteHistory
  import opened Printing
  import opened Stamping
  import opened Ambiguity
  import opened Readback
  import Trace
  import ExportSession

  // ---------------------------------------------------------------- counters

  ghost function Unascii(t: Text): (s: string)
    ensures |s| == |t| && forall i :: 0 <= i < |s| ==> s[i] == t[i] as char
  {
    seq(|t|, i requires 0 <= i < |t| => t[i] as char)
  }

  lemma {:induction false} AsciiAt(s: string)
    requires Narrow(s)
    ensures |Ascii(s)| == |s| && forall i :: 0 <= i < |s| ==> Ascii(s)[i] == s[i] as int
  {
    if s != "" {
      AsciiAt(s[1..]);
    }
  }

  /** The counter that a decimal text stands for. */
  ghost function ParseCounter(t: Text): (n: nat)
  {
    var s := Unascii(t);
    if Canonical(s) && 0 <= ParseInt(s) then ParseInt(s) else 0
  }

  lemma CounterRoundTrip(n: nat)
    ensures ParseCounter(NumberText(n)) == n
  {
    hide DecimalText, Canonical, ParseInt, Ascii;
    CanonicalNarrow(DecimalText(n));
    AsciiAt(DecimalText(n));
    assert Unascii(NumberText(n)) == DecimalText(n);
  }

  // ---------------------------------------------------------------- packets

  /** What a packet says, as its reader sees it: an event of the exporter's, or nothing. Arrows leave with
      phase `s` and arrive with phase `f`. */
  ghost function StampShown(p: Packet): Option<Stamped<Look>> {
    if p.track == 0 then None else
    var track := p.track - 1;
    match p.body
    case Closing => Some(Closes(track, p.timestamp))
    case Arrow(name, category, phase, id) =>
      if name != Ascii("dependency") || category != Ascii("rhodium.flow") then None
      else if phase == 's' as int then Some(Starts(track, p.timestamp, id))
      else if phase == 'f' as int then Some(Arrives(track, p.timestamp, id))
      else None
    case Opening(category, shown, name) =>
      if category != Ascii("rhodium.event") || |shown| < 2 || shown[0].name != Ascii("sequence")
        || shown[1].name != Ascii("cycle") || !shown[0].shown.Words? || !shown[1].shown.Words? then None
      else
        var sequence := ParseCounter(shown[0].shown.text);
        if sequence > U64_MAX then None
        else Some(Opens(track, p.timestamp, sequence, ParseCounter(shown[1].shown.text), Look(name, shown[2..])))
  }

  lemma ReadsStamp(s: Stamped<Look>)
    requires PlainStamp(s)
    ensures StampShown(VisiblePacket(ShowStamped(s))) == Some(s)
  {
    hide Counters, NumberText, VisibleAnnotations, Ascii, Plain, ParseCounter;
    if s.Opens? {
      VisibleOpening(s.sequence, s.cycle, s.look);
      CounterRoundTrip(s.sequence);
      CounterRoundTrip(s.cycle);
    }
  }

  /** The events of a trace, unless some packet is none. */
  ghost function StampsShown(ps: seq<Packet>): Option<seq<Stamped<Look>>> {
    if ps == [] then Some([])
    else
      match (StampsShown(ps[..|ps| - 1]), StampShown(ps[|ps| - 1]))
      case (Some(front), Some(last)) => Some(front + [last])
      case _ => None
  }

  lemma {:induction false} StampsAt(ps: seq<Packet>, ss: seq<Stamped<Look>>)
    requires |ps| == |ss| && forall i :: 0 <= i < |ps| ==> StampShown(ps[i]) == Some(ss[i])
    ensures StampsShown(ps) == Some(ss)
    decreases |ps|
  {
    hide StampShown;
    if ps != [] {
      StampsAt(ps[..|ps| - 1], ss[..|ss| - 1]);
      assert ss[..|ss| - 1] + [ss[|ss| - 1]] == ss;
    }
  }

  /** The packets of an event stream, seen by their reader, say what was stamped. */
  lemma ReadsStamps(d: Description, caption: Caption<Look>, es: seq<Event>)
    requires PlainCaptions(caption)
    ensures StampsShown(VisiblePackets(Render(Show(d, caption), es))) == Some(Stamp(d, caption, es))
  {
    hide ShowStamped, StampOne, VisiblePacket, Plain, PlainStamp, StampShown, StampsShown;
    var ps := Render(Show(d, caption), es);
    VisibleAt(ps);
    StampAt(d, caption, es);
    forall i | 0 <= i < |es|
      ensures StampShown(VisiblePackets(ps)[i]) == Some(Stamp(d, caption, es)[i])
    {
      PlainOne(d, caption, es[i]);
      ReadsStamp(StampOne(d, caption, es[i]));
    }
    StampsAt(VisiblePackets(ps), Stamp(d, caption, es));
  }

  /** An arrow leaves its parent in phase `s` and reaches its child in phase `f`. */
  lemma ArrowPhases(d: Description, caption: Caption<Look>, t: nat, c: nat, id: nat)
    ensures Show(d, caption)(FlowStart(t, c, id)).body ==
      Arrow(Ascii("dependency"), Ascii("rhodium.flow"), 's' as int, id)
    ensures Show(d, caption)(FlowEnd(t, c, id)).body ==
      Arrow(Ascii("dependency"), Ascii("rhodium.flow"), 'f' as int, id)
  {
    hide Ascii, Counters, NumberText;
  }

  /** In the bytes of a finished run a reader finds the heading and the packet of every event. */
  lemma PacketsInBytes(h: Trace.Heading, d: Description, caption: Caption<Look>, es: seq<Event>)
    requires PlainCaptions(caption)
    ensures var bytes := ExportSession.TraceBytes(h, Show(d, caption), es);
      var read := Trace.ReadTrace(bytes);
      && Trace.ReadHeading(bytes) == Some(h)
      && read.Some? && |read.value.1| == |es|
      && forall i :: 0 <= i < |es| ==> read.value.1[i] == VisiblePacket(Show(d, caption)(es[i]))
  {
    hide Show, StreamBytes, EncodeStream, VisiblePacket, VisiblePackets, Encodable, PlainCaptions;
    hide Trace.ReadTrace, Trace.ReadHeading, Trace.HeadingBytes;
    var ps := Render(Show(d, caption), es);
    RunEncodable(d, caption, es);
    Trace.TraceRoundTrip(h, ps);
    Trace.HeadingRoundTrip(h, ps);
    VisibleAt(ps);
  }

  /** So a reader of the bytes finds the phases of the arrows. */
  lemma PhasesInBytes(h: Trace.Heading, d: Description, caption: Caption<Look>, es: seq<Event>, i: nat)
    requires PlainCaptions(caption) && i < |es|
    ensures var read := Trace.ReadTrace(ExportSession.TraceBytes(h, Show(d, caption), es));
      && read.Some? && i < |read.value.1|
      && (es[i].FlowStart? ==> PhaseIs(read.value.1[i], 's', es[i].id))
      && (es[i].FlowEnd? ==> PhaseIs(read.value.1[i], 'f', es[i].id))
  {
    hide Show, VisibleAnnotations, Trace.ReadTrace, PlainCaptions, ExportSession.TraceBytes;
    PacketsInBytes(h, d, caption, es);
    match es[i]
    case FlowStart(t, c, id) => ArrowPhases(d, caption, t, c, id);
    case FlowEnd(t, c, id) => ArrowPhases(d, caption, t, c, id);
    case Begin(_, _, _, _) =>
    case End(_, _) =>
  }

  ghost predicate PhaseIs(p: Packet, phase: char, id: nat) {
    p.body.Arrow? && p.body.phase == phase as int && p.body.id == id
  }

  // ---------------------------------------------------------------- slices

  ghost function WidthOf(d: Description, site: nat): nat {
    if site < |d.widths| then d.widths[site] else 0
  }

  /** The first `n` occurrences a slice stands for. */
  ghost function RefsIn(iv: Interval, n: nat): (refs: set<Ref>)
    ensures forall r :: r in refs <==> r.site == iv.ref.site && iv.ref.sequence <= r.sequence < iv.ref.sequence + n
  {
    if n == 0 then {}
    else
      var last: nat := iv.ref.sequence + n - 1;
      RefsIn(iv, n - 1) + if last <= U64_MAX then {Ref(iv.ref.site, last)} else {}
  }

  /** What a slice says of them. */
  ghost function NodesIn(d: Description, iv: Interval): map<Ref, Node> {
    map r | r in RefsIn(iv, iv.length) && iv.cycle + (r.sequence - iv.ref.sequence) <= U64_MAX ::
      Node(true, iv.cycle + (r.sequence - iv.ref.sequence), WidthOf(d, iv.ref.site), iv.words)
  }

  ghost function EdgesIn(iv: Interval): set<Edge> {
    set r, p | r in RefsIn(iv, iv.length) && p in iv.parents :: Edge(p, r)
  }

  ghost function NodesOf(d: Description, done: seq<Interval>): map<Ref, Node> {
    if done == [] then map[] else NodesOf(d, done[..|done| - 1]) + NodesIn(d, done[|done| - 1])
  }

  ghost function EdgesOf(done: seq<Interval>): set<Edge> {
    if done == [] then {} else EdgesOf(done[..|done| - 1]) + EdgesIn(done[|done| - 1])
  }

  /** Occurrences as an exporter accepts them, and edges between them. */
  ghost predicate Recordable(d: Description, nodes: map<Ref, Node>, edges: set<Edge>) {
    && (forall r :: r in nodes ==> nodes[r].present && nodes[r].width == WidthOf(d, r.site))
    && (forall e :: e in edges ==> e.child in nodes)
  }

  lemma SliceRead(d: Description, nodes: map<Ref, Node>, edges: set<Edge>, iv: Interval)
    requires Recordable(d, nodes, edges) && Faithful(nodes, edges, nodes.Keys, iv)
    ensures forall r :: r in NodesIn(d, iv) <==> Spans(iv, r)
    ensures forall r :: r in NodesIn(d, iv) ==> r in nodes && NodesIn(d, iv)[r] == nodes[r]
    ensures forall e :: e in EdgesIn(iv) <==> Spans(iv, e.child) && e in edges
  {
    hide RefsIn;
    forall r | Spans(iv, r)
      ensures r in NodesIn(d, iv) && r in nodes && NodesIn(d, iv)[r] == nodes[r]
    {
      assert nodes[r].cycle == iv.cycle + (r.sequence - iv.ref.sequence);
    }
    forall e
      ensures e in EdgesIn(iv) <==> Spans(iv, e.child) && e in edges
    {
      ParentsMember(edges, e.parent, e.child);
      assert e == Edge(e.parent, e.child);
    }
  }

  ghost predicate Spanned(done: seq<Interval>, r: Ref) {
    exists i :: 0 <= i < |done| && Spans(done[i], r)
  }

  lemma SpannedLast(done: seq<Interval>, r: Ref)
    requires done != []
    ensures Spanned(done, r) <==> Spanned(done[..|done| - 1], r) || Spans(done[|done| - 1], r)
  {
    var front := done[..|done| - 1];
    if Spanned(front, r) {
      var i :| 0 <= i < |front| && Spans(front[i], r);
      assert Spans(done[i], r);
    }
    if Spanned(done, r) {
      var i :| 0 <= i < |done| && Spans(done[i], r);
      assert i < |front| ==> Spans(front[i], r);
    }
  }

  lemma {:induction false} SlicesRead(d: Description, nodes: map<Ref, Node>, edges: set<Edge>, done: seq<Interval>)
    requires Recordable(d, nodes, edges) && forall i :: 0 <= i < |done| ==> Faithful(nodes, edges, nodes.Keys, done[i])
    ensures forall r :: r in NodesOf(d, done) <==> Spanned(done, r)
    ensures forall r :: r in NodesOf(d, done) ==> r in nodes && NodesOf(d, done)[r] == nodes[r]
    ensures forall e :: e in EdgesOf(done) <==> Spanned(done, e.child) && e in edges
  {
    hide Faithful, Spans, NodesIn, EdgesIn, Spanned, Recordable;
    if done == [] {
      NoneSpanned();
    } else {
      SlicesRead(d, nodes, edges, done[..|done| - 1]);
      SliceRead(d, nodes, edges, done[|done| - 1]);
      forall r
        ensures Spanned(done, r) <==> Spanned(done[..|done| - 1], r) || Spans(done[|done| - 1], r)
      {
        SpannedLast(done, r);
      }
    }
  }

  lemma NoneSpanned()
    ensures forall r :: !Spanned([], r)
  {
  }

  /** The slices are the graph. */
  lemma GraphRead(d: Description, nodes: map<Ref, Node>, edges: set<Edge>, done: seq<Interval>)
    requires Recordable(d, nodes, edges) && Expands(nodes, edges, done)
    ensures NodesOf(d, done) == nodes && EdgesOf(done) == edges
  {
    hide Faithful, Spans, NodesOf, EdgesOf;
    SlicesRead(d, nodes, edges, done);
    assert forall r :: r in nodes ==> Spanned(done, r);
    assert forall e :: e in edges ==> e.child in nodes;
  }

  // ---------------------------------------------------------------- the whole way

  /** The graph that a trace shows. */
  ghost function ReadGraph(d: Description, caption: Caption<Look>, bytes: Text): Option<(map<Ref, Node>, set<Edge>)> {
    match Trace.ReadTrace(bytes)
    case None => None
    case Some((_, packets)) =>
      match StampsShown(packets)
      case None => None
      case Some(stamps) =>
        var dec := Decode(d, EMPTY, Unstamp(d, caption, stamps, 0));
        if dec.Broken? || dec.open != map[] then None else Some((NodesOf(d, dec.done), EdgesOf(dec.done)))
  }

  /** From the bytes of a finished run a reader computes the graph it recorded, whenever the packets are
      readable. */
  lemma TraceIsGraph(h: Trace.Heading, d: Description, caption: Caption<Look>, bs: seq<Batch>)
    requires d.Valid() && PlainCaptions(caption) && Readable(d, caption)
    ensures ReadGraph(d, caption, ExportSession.TraceBytes(h, Show(d, caption), Finish(Feed(d, bs)))) ==
            Some((RecordedNodes(d, bs), RecordedEdges(d, bs)))
  {
    hide Finish, Feed, Show, Render, StreamBytes, EncodeStream, VisiblePackets, Encodable, PlainCaptions, Readable;
    hide Trace.ReadTrace, Trace.HeadingBytes, Decode, Unstamp, Stamp, StampsShown, Expands, NodesOf, EdgesOf;
    hide Recordable, Graph;
    var es := Finish(Feed(d, bs));
    RunEncodable(d, caption, es);
    RenderedEncodable(d, caption, es);
    Trace.TraceRoundTrip(h, Render(Show(d, caption), es));
    ReadsStamps(d, caption, es);
    StampedLossless(d, caption, bs);
    RecordedRecordable(d, bs);
    var dec := Decode(d, EMPTY, Unstamp(d, caption, Stamp(d, caption, es), 0));
    GraphRead(d, RecordedNodes(d, bs), RecordedEdges(d, bs), dec.done);
  }

  lemma RenderedEncodable(d: Description, caption: Caption<Look>, es: seq<Event>)
    requires forall i :: 0 <= i < |es| ==> Encodable(Show(d, caption)(es[i]))
    ensures var ps := Render(Show(d, caption), es); forall i :: 0 <= i < |ps| ==> Encodable(ps[i])
  {
    hide Encodable, Show;
  }

  lemma RecordedRecordable(d: Description, bs: seq<Batch>)
    requires d.Valid()
    ensures Recordable(d, RecordedNodes(d, bs), RecordedEdges(d, bs))
  {
    hide Feed, Recorded, RecordedNodes, RecordedEdges, Complete, TracksDisjoint, PayloadComplete, TimestampFits;
    RecordedGraph(d, bs);
    var u := Graph(Recorded(d, bs));
    forall r | r in u.nodes
      ensures u.nodes[r].present && u.nodes[r].width == WidthOf(d, r.site)
    {
      assert NodeAccepted(d, FRESH, u, r);
    }
    forall e | e in u.edges
      ensures e.child in u.nodes
    {
      assert EdgeAccepted(d, FRESH, u, e);
    }
  }
}

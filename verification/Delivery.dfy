/** The contract between collector and exporter: what the one hands out, the other takes. */
module Delivery {
  import opened Collections
  import opened Options
  import opened Machine
  import opened EventModel
  import opened Worklist
  import opened Encoder
  import opened Runs
  import opened Batching
  import opened Merging
  import opened History
  import opened Decoding
  import opened Lossless
  import opened Stamping
  import opened Streams

  /** Collector and exporter were given the same compiler manifest. */
  ghost predicate SameManifest(d: Description, m: Manifest) {
    d.Valid() && m.widths == d.widths && m.dependencies == d.dependencies
  }

  ghost predicate TimestampsFit(d: Description, nodes: map<Ref, Node>) {
    forall r :: r in nodes ==> TimestampFits(d, nodes[r].cycle) && TimestampFits(d, nodes[r].cycle + 1)
  }

  /** What an exporter asks of a batch beyond what the collector has checked. */
  ghost predicate Displayable(d: Description, b: Batch) {
    && TracksDisjoint(d, b.nodes)
    && TimestampsFit(d, b.nodes)
    && !exists walk :: SameCycleLoop(b.nodes, b.edges, walk)
  }

  /** The writer has taken exactly the batches handed out so far. */
  ghost predicate UpToDate(w: Writer, bs: seq<Batch>) {
    && w.stage.known.Keys == AllNodes(bs).Keys
    && (forall r :: r in AllNodes(bs) ==> r in w.stage.known && w.stage.known[r].cycle == AllNodes(bs)[r].cycle)
    && w.watermark == LastCycle(bs)
  }

  lemma NodeMeets(d: Description, m: Manifest, bs: seq<Batch>, w: Writer, b: Batch, r: Ref)
    requires SameManifest(d, m) && Extending(m, bs, b) && UpToDate(w, bs) && r in b.nodes
    ensures NodeAccepted(d, w, b, r) <==> TimestampFits(d, b.nodes[r].cycle) && TimestampFits(d, b.nodes[r].cycle + 1)
  {
    hide TimestampFits, PayloadComplete, EdgeValid;
    assert NodeValid(m, r, b.nodes[r]);
    assert r !in AllNodes(bs);
  }

  lemma EdgeMeets(d: Description, m: Manifest, bs: seq<Batch>, w: Writer, b: Batch, e: Edge)
    requires SameManifest(d, m) && Extending(m, bs, b) && UpToDate(w, bs) && e in b.edges
    ensures EdgeAccepted(d, w, b, e)
  {
    hide NodeValid;
    assert EdgeValid(m, AllNodes(bs) + b.nodes, e);
    assert e.child in b.nodes;
  }

  /** The next batch is accepted exactly when it is displayable and flow identities remain. */
  lemma NextAccepted(d: Description, m: Manifest, bs: seq<Batch>, w: Writer, b: Batch)
    requires SameManifest(d, m) && Extending(m, bs, b) && UpToDate(w, bs)
    ensures Accepts(d, w, b) <==> Displayable(d, b) && |w.stage.known| + |b.nodes| <= U64_MAX
  {
    hide NodeAccepted, EdgeAccepted, TracksDisjoint, Complete, SameCycleLoop, TimestampFits, EntriesValid, UpToDate;
    forall r | r in b.nodes
      ensures NodeAccepted(d, w, b, r) <==> TimestampFits(d, b.nodes[r].cycle) && TimestampFits(d, b.nodes[r].cycle + 1)
    {
      NodeMeets(d, m, bs, w, b, r);
    }
    forall e | e in b.edges
      ensures EdgeAccepted(d, w, b, e)
    {
      EdgeMeets(d, m, bs, w, b, e);
    }
    UpToDateWatermark(w, bs);
    CheckedCausal(d, w, b);
    ShortIffSameCycleLoop(b.nodes, b.edges);
  }

  lemma UpToDateWatermark(w: Writer, bs: seq<Batch>)
    requires UpToDate(w, bs)
    ensures w.watermark == LastCycle(bs)
  {
  }

  lemma StaysUpToDate(d: Description, m: Manifest, bs: seq<Batch>, w: Writer)
    requires SameManifest(d, m) && bs != [] && UpToDate(w, bs[..|bs| - 1]) && Accepts(d, w, bs[|bs| - 1])
    requires Extending(m, bs[..|bs| - 1], bs[|bs| - 1])
    ensures UpToDate(Write(d, w, bs[|bs| - 1]), bs)
  {
    hide Accepts, Write, EntriesValid;
    var front, b := bs[..|bs| - 1], bs[|bs| - 1];
    WrittenKnown(d, w, b);
    WrittenWatermark(d, w, b);
    forall r | r in AllNodes(bs)
      ensures Write(d, w, b).stage.known[r].cycle == AllNodes(bs)[r].cycle
    {
      WrittenMark(d, w, b, r);
    }
  }

  /** A whole stream of displayable batches is accepted batch by batch, and records the whole graph. */
  lemma {:induction false} StreamDelivered(d: Description, m: Manifest, bs: seq<Batch>)
    requires SameManifest(d, m) && Streamed(m, bs)
    requires (forall i :: 0 <= i < |bs| ==> Displayable(d, bs[i])) && |AllNodes(bs)| <= U64_MAX
    ensures UpToDate(Feed(d, bs), bs)
    ensures bs != [] ==> Accepts(d, Feed(d, bs[..|bs| - 1]), bs[|bs| - 1])
    ensures RecordedNodes(d, bs) == AllNodes(bs) && RecordedEdges(d, bs) == AllEdges(bs)
    ensures Recorded(d, bs) == None <==> bs == []
  {
    hide Displayable, Accepts, Write, UpToDate;
    if bs == [] {
      FreshUpToDate();
    } else {
      var front, b := bs[..|bs| - 1], bs[|bs| - 1];
      AllNodesGrow(m, bs);
      StreamDelivered(d, m, front);
      var w := Feed(d, front);
      KnownSize(w, front);
      NextAccepted(d, m, front, w, b);
      StaysUpToDate(d, m, bs, w);
      DeliveredRecords(d, bs);
    }
  }

  lemma FreshUpToDate()
    ensures UpToDate(FRESH, [])
  {
  }

  lemma AllNodesGrow(m: Manifest, bs: seq<Batch>)
    requires bs != [] && Extending(m, bs[..|bs| - 1], bs[|bs| - 1])
    ensures |AllNodes(bs)| == |AllNodes(bs[..|bs| - 1])| + |bs[|bs| - 1].nodes|
  {
    hide EntriesValid;
    UnionSize(AllNodes(bs[..|bs| - 1]), bs[|bs| - 1].nodes);
  }

  lemma KnownSize(w: Writer, bs: seq<Batch>)
    requires UpToDate(w, bs)
    ensures |w.stage.known| == |AllNodes(bs)|
  {
    assert |w.stage.known.Keys| == |AllNodes(bs).Keys|;
  }

  lemma DeliveredRecords(d: Description, bs: seq<Batch>)
    requires bs != [] && Accepts(d, Feed(d, bs[..|bs| - 1]), bs[|bs| - 1])
    requires RecordedNodes(d, bs[..|bs| - 1]) == AllNodes(bs[..|bs| - 1])
    requires RecordedEdges(d, bs[..|bs| - 1]) == AllEdges(bs[..|bs| - 1])
    requires Recorded(d, bs[..|bs| - 1]) == None <==> bs[..|bs| - 1] == []
    ensures RecordedNodes(d, bs) == AllNodes(bs) && RecordedEdges(d, bs) == AllEdges(bs) && Recorded(d, bs) != None
  {
    hide Accepts, Feed;
    var front, b := bs[..|bs| - 1], bs[|bs| - 1];
    if front == [] {
      assert map[] + b.nodes == b.nodes && {} + b.edges == b.edges;
    }
  }

  /** What the callbacks recorded is what the exporter's events expand to; their ends carry exact cycles,
      which packets do not. */
  lemma EventsSurvive(d: Description, m: Manifest, bs: seq<Batch>)
    requires SameManifest(d, m) && Streamed(m, bs)
    requires (forall i :: 0 <= i < |bs| ==> Displayable(d, bs[i])) && |AllNodes(bs)| <= U64_MAX
    ensures var dec := Decode(d, EMPTY, Finish(Feed(d, bs)));
      dec.Decoder? && dec.open == map[] && Expands(AllNodes(bs), AllEdges(bs), dec.done)
  {
    hide Displayable, Expands, Decode, Finish, Feed;
    StreamDelivered(d, m, bs);
    StreamLossless(d, bs);
  }

  /** End to end: wherever the packets are readable, what the callbacks recorded is what a reader of the
      timestamps, counters and captions in the finished stream gets back. */
  lemma GraphSurvives<L(!new)>(d: Description, m: Manifest, caption: Caption<L>, bs: seq<Batch>)
    requires SameManifest(d, m) && Streamed(m, bs) && Readable(d, caption)
    requires (forall i :: 0 <= i < |bs| ==> Displayable(d, bs[i])) && |AllNodes(bs)| <= U64_MAX
    ensures var dec := Decode(d, EMPTY, Unstamp(d, caption, Stamp(d, caption, Finish(Feed(d, bs))), 0));
      dec.Decoder? && dec.open == map[] && Expands(AllNodes(bs), AllEdges(bs), dec.done)
  {
    hide Displayable, Expands, Decode, Finish, Feed, Stamp, Unstamp, Readable;
    StreamDelivered(d, m, bs);
    StampedLossless(d, caption, bs);
  }

  // ---------------------------------------------------------------- whole streams

  /** The exporter accepted every batch when it was offered. */
  ghost predicate AllTaken(d: Description, bs: seq<Batch>) {
    bs == [] || (AllTaken(d, bs[..|bs| - 1]) && Accepts(d, Feed(d, bs[..|bs| - 1]), bs[|bs| - 1]))
  }

  ghost predicate AllDisplayable(d: Description, bs: seq<Batch>) {
    (forall i :: 0 <= i < |bs| ==> Displayable(d, bs[i])) && |AllNodes(bs)| <= U64_MAX
  }

  /** All batches of a stream are accepted exactly when all are displayable and identities suffice. */
  lemma {:induction false} TakenIff(d: Description, m: Manifest, bs: seq<Batch>)
    requires SameManifest(d, m) && Streamed(m, bs)
    ensures AllTaken(d, bs) <==> AllDisplayable(d, bs)
    decreases |bs|
  {
    hide Displayable, Accepts, Feed, UpToDate, Streamed, SameManifest;
    if bs == [] {
      assert AllNodes(bs) == map[];
    } else {
      var front, b := bs[..|bs| - 1], bs[|bs| - 1];
      StreamedFront(m, bs);
      AllNodesGrow(m, bs);
      TakenIff(d, m, front);
      FrontDisplayable(d, bs);
      if AllDisplayable(d, front) {
        StreamDelivered(d, m, front);
        KnownSize(Feed(d, front), front);
        NextAccepted(d, m, front, Feed(d, front), b);
      }
    }
  }

  lemma StreamedFront(m: Manifest, bs: seq<Batch>)
    requires Streamed(m, bs) && bs != []
    ensures Streamed(m, bs[..|bs| - 1]) && Extending(m, bs[..|bs| - 1], bs[|bs| - 1])
  {
  }

  lemma FrontDisplayable(d: Description, bs: seq<Batch>)
    requires bs != [] && |AllNodes(bs)| == |AllNodes(bs[..|bs| - 1])| + |bs[|bs| - 1].nodes|
    ensures AllDisplayable(d, bs) <==>
      AllDisplayable(d, bs[..|bs| - 1]) && Displayable(d, bs[|bs| - 1]) && |AllNodes(bs)| <= U64_MAX
  {
    hide Displayable, AllNodes;
    var front := bs[..|bs| - 1];
    assert forall i :: 0 <= i < |front| ==> front[i] == bs[i];
  }
}

/** A whole exporter session as its caller sees it: offer batches, then finish. */
module ExportSession {
  import opened EventModel
  import opened Encoder
  import opened Decoding
  import Wire
  import Packets
  import Interning
  import Trace
  import ByteHistory
  import History
  import Lossless
  import PerfettoWriter
  import Captions
  import Showing
  import opened Stamping
  import opened Ambiguity
  import opened Readback

  /** What the output stream holds after `events`. */
  ghost function TraceBytes(h: Trace.Heading, display: ByteHistory.Display, events: seq<Event>): Wire.Text {
    Trace.HeadingBytes(h) + Packets.StreamBytes(Interning.NO_TABLES, ByteHistory.Render(display, events))
  }

  /** Offers batches, delivering each as the environment decides, and finishes. If nothing that was
      accepted failed to be delivered, the bytes are the whole trace of the specified event stream, and
      that stream gives back every recorded occurrence once, with its captured words and parents. A failed
      delivery leaves the trace of the batches before it. */
  method Export(d: Description, views: seq<Captions.View>, dis: Captions.Disassembler, h: Trace.Heading,
                batches: seq<Batch>,
                deliveries: seq<bool>)
    returns (ok: bool, bytes: Wire.Text, ghost events: seq<Event>)
    requires d.Valid() && Captions.Viewed(d, views) && |deliveries| == |batches| + 1
    ensures bytes == TraceBytes(h, Showing.DisplayOf(d, views, dis), events)
    ensures ok ==> events == Finish(History.Feed(d, batches))
    ensures ok ==>
      var dec := Decode(d, EMPTY, events);
      dec.Decoder? && dec.open == map[] &&
        Expands(History.RecordedNodes(d, batches), History.RecordedEdges(d, batches), dec.done)
    ensures !ok ==> exists n ::
      0 <= n <= |batches| && !deliveries[n] && events == History.Feed(d, batches[..n]).stage.out
    ensures (forall n :: 0 <= n <= |batches| ==> deliveries[n]) ==> ok
  {
    hide Accepts, Write, Finish, Decode, Expands, Captions.Viewed, Showing.DisplayOf, PerfettoWriter.Exporter.Shows;
    ghost var display := Showing.DisplayOf(d, views, dis);
    var exporter := new PerfettoWriter.Exporter(d, views, dis, h);
    for i := 0 to |batches|
      invariant fresh(exporter) && fresh(exporter.formatter) && exporter.Valid() && exporter.description == d &&
        exporter.display == display && exporter.heading == h
      invariant !exporter.failed && !exporter.finished
      invariant exporter.State() == History.Feed(d, batches[..i])
    {
      assert batches[..i + 1][..i] == batches[..i];
      var accepted := exporter.Write(batches[i], deliveries[i]);
      if exporter.failed {
        assert exporter.State() == History.Feed(d, batches[..i]);
        return false, exporter.bytes, exporter.output;
      }
    }
    assert batches[..|batches|] == batches;
    ok := exporter.Finish(deliveries[|batches|]);
    if ok {
      Lossless.StreamLossless(d, batches);
    }
    bytes, events := exporter.bytes, exporter.output;
  }

  /** The traces of two finished runs are the same bytes. */
  ghost predicate SameTrace(h: Trace.Heading, d: Description, caption: Caption<Look>, xs: seq<Batch>, ys: seq<Batch>) {
    TraceBytes(h, Show(d, caption), Finish(History.Feed(d, xs))) ==
      TraceBytes(h, Show(d, caption), Finish(History.Feed(d, ys)))
  }

  lemma TraceIsBytes(h: Trace.Heading, d: Description, caption: Caption<Look>, xs: seq<Batch>, ys: seq<Batch>)
    ensures SameTrace(h, d, caption, xs, ys) <==> SameBytes(d, caption, xs, ys)
  {
    hide Finish, Show, ByteHistory.FinishedBytes, Packets.StreamBytes, Trace.HeadingBytes;
    ByteHistory.BytesAreOneStream(d, Show(d, caption), xs);
    ByteHistory.BytesAreOneStream(d, Show(d, caption), ys);
    var head := Trace.HeadingBytes(h);
    var x := Packets.StreamBytes(Interning.NO_TABLES,
      ByteHistory.Render(Show(d, caption), Finish(History.Feed(d, xs))));
    var y := Packets.StreamBytes(Interning.NO_TABLES,
      ByteHistory.Render(Show(d, caption), Finish(History.Feed(d, ys))));
    if head + x == head + y {
      SplitSame(head, x, head, y);
    }
  }

  /** A whole trace determines the graph that was recorded exactly when the packets are readable: cycles of
      a nanosecond or more, or no stalls, and captions that tell the slices of a track apart. */
  lemma TraceDeterminesIff(h: Trace.Heading, d: Description, caption: Caption<Look>)
    requires d.Valid() && PlainCaptions(caption)
    ensures Readable(d, caption) <==> forall xs, ys :: SameTrace(h, d, caption, xs, ys) ==> SameGraph(d, xs, ys)
  {
    hide Readable, SameTrace, SameBytes, SameGraph, PlainCaptions;
    BytesDetermineIff(d, caption);
    forall xs, ys
      ensures SameTrace(h, d, caption, xs, ys) <==> SameBytes(d, caption, xs, ys)
    {
      TraceIsBytes(h, d, caption, xs, ys);
    }
  }
}

/** Bytes of a whole run: each batch is serialized when it is written, with the dictionaries left by
    the batches before it. */
module ByteHistory {
  import opened Options
  import opened EventModel
  import opened Collections
  import opened Encoder
  import opened History
  import opened Wire
  import opened Interning
  import opened Packets

  /** How an event is displayed: track and timestamp, names and captured annotations. */
  type Display = Event -> Packet

  ghost function Render(display: Display, es: seq<Event>): seq<Packet> {
    seq(|es|, i requires 0 <= i < |es| => display(es[i]))
  }

  lemma RenderConcat(display: Display, a: seq<Event>, b: seq<Event>)
    ensures Render(display, a + b) == Render(display, a) + Render(display, b)
  {
  }

  // ---------------------------------------------------------------- output only grows

  lemma {:induction false} AfterExtends(d: Description, b: Batch, order: seq<Ref>, st: Stage, n: nat)
    requires n <= |order| && Within(b, order)
    ensures st.out <= After(d, b, order, st, n).out
  {
    hide Emit, Settle;
    if n > 0 {
      AfterExtends(d, b, order, st, n - 1);
      var before := After(d, b, order, st, n - 1);
      SettleExtends(b, order, before, n - 1);
      EmitExtends(d, b, Settle(b, order, before, n - 1), order[n - 1]);
    }
  }

  lemma SettleExtends(b: Batch, order: seq<Ref>, st: Stage, n: nat)
    requires n < |order| && Within(b, order)
    ensures st.out <= Settle(b, order, st, n).out
  {
  }

  lemma EmitExtends(d: Description, b: Batch, st: Stage, r: Ref)
    requires r in b.nodes
    ensures st.out <= Emit(d, b, st, r).out
  {
    hide Slice;
  }

  lemma WriteExtends(d: Description, w: Writer, b: Batch)
    ensures w.stage.out <= Write(d, w, b).stage.out
  {
    hide After, BatchOrder;
    AfterExtends(d, b, BatchOrder(b), w.stage, |BatchOrder(b)|);
  }

  lemma FinishExtends(w: Writer)
    ensures w.stage.out <= Finish(w)
  {
  }

  // ---------------------------------------------------------------- bytes, batch by batch

  datatype Sink = Sink(tables: Tables, bytes: Text)

  /** Appends the events a write added, continuing with the dictionaries so far. */
  ghost function Append(display: Display, s: Sink, es: seq<Event>): Sink {
    var ps := Render(display, es);
    Sink(EncodeStream(s.tables, ps).0, s.bytes + StreamBytes(s.tables, ps))
  }

  ghost function FeedBytes(d: Description, display: Display, bs: seq<Batch>): Sink {
    if bs == [] then Sink(NO_TABLES, []) else
    var front, b := bs[..|bs| - 1], bs[|bs| - 1];
    var before, after := Feed(d, front), Feed(d, bs);
    AttemptExtends(d, before, b);
    Append(display, FeedBytes(d, display, front), after.stage.out[|before.stage.out|..])
  }

  lemma AttemptExtends(d: Description, w: Writer, b: Batch)
    ensures w.stage.out <= Attempt(d, w, b).stage.out
  {
    WriteExtends(d, w, b);
    hide Write, Accepts;
  }

  /** Every byte written by `finish`, after every byte written before it. */
  ghost function FinishedBytes(d: Description, display: Display, bs: seq<Batch>): Text {
    FinishExtends(Feed(d, bs));
    Append(display, FeedBytes(d, display, bs), Finish(Feed(d, bs))[|Feed(d, bs).stage.out|..]).bytes
  }

  ghost function Whole(display: Display, es: seq<Event>): Sink {
    Append(display, Sink(NO_TABLES, []), es)
  }

  lemma AppendConcat(display: Display, a: seq<Event>, b: seq<Event>)
    ensures Append(display, Whole(display, a), b) == Whole(display, a + b)
  {
    hide EncodeStream, StreamBytes;
    var p, q := Render(display, a), Render(display, b);
    RenderConcat(display, a, b);
    BytesConcat(NO_TABLES, p, q);
    EncodeConcat(NO_TABLES, p, q);
  }

  lemma AppendSuffix(display: Display, a: seq<Event>, c: seq<Event>)
    requires a <= c
    ensures Append(display, Whole(display, a), c[|a|..]) == Whole(display, c)
  {
    hide Append, Whole;
    AppendConcat(display, a, c[|a|..]);
    assert a + c[|a|..] == c;
  }

  lemma WholeNothing(display: Display)
    ensures Whole(display, []) == Sink(NO_TABLES, [])
  {
    assert Render(display, []) == [];
    assert StreamBytes(NO_TABLES, []) == [];
  }

  lemma {:induction false} FeedBytesWhole(d: Description, display: Display, bs: seq<Batch>)
    ensures FeedBytes(d, display, bs) == Whole(display, Feed(d, bs).stage.out)
  {
    hide Whole, Append, Attempt;
    if bs == [] {
      WholeNothing(display);
    } else {
      var front, b := bs[..|bs| - 1], bs[|bs| - 1];
      FeedBytesWhole(d, display, front);
      AttemptExtends(d, Feed(d, front), b);
      AppendSuffix(display, Feed(d, front).stage.out, Feed(d, bs).stage.out);
    }
  }

  /** Serializing batch by batch gives the bytes of serializing the finished event stream at once. */
  lemma BytesAreOneStream(d: Description, display: Display, bs: seq<Batch>)
    ensures FinishedBytes(d, display, bs) == StreamBytes(NO_TABLES, Render(display, Finish(Feed(d, bs))))
  {
    hide StreamBytes, EncodeStream, Finish, Feed, FeedBytes;
    var w := Feed(d, bs);
    FeedBytesWhole(d, display, bs);
    FinishExtends(w);
    AppendSuffix(display, w.stage.out, Finish(w));
  }

  /** Two runs that recorded the same occurrences and dependencies wrote the same bytes. */
  lemma ByteIndependence(d: Description, display: Display, xs: seq<Batch>, ys: seq<Batch>)
    requires d.Valid()
    requires RecordedNodes(d, xs) == RecordedNodes(d, ys) && RecordedEdges(d, xs) == RecordedEdges(d, ys)
    ensures FinishedBytes(d, display, xs) == FinishedBytes(d, display, ys)
  {
    hide FinishedBytes, Finish, Feed, RecordedNodes, RecordedEdges;
    BatchIndependence(d, xs, ys);
    BytesAreOneStream(d, display, xs);
    BytesAreOneStream(d, display, ys);
  }

  /** The bytes of any finished run read back to every packet it displayed, and the dictionaries they
      define are numbered 1, 2, 3, ... within their limits. */
  lemma RunReadsBack(d: Description, display: Display, bs: seq<Batch>)
    requires forall i :: 0 <= i < |Finish(Feed(d, bs))| ==> Encodable(display(Finish(Feed(d, bs))[i]))
    ensures var ps := Render(display, Finish(Feed(d, bs)));
      && ReadStream(NO_TABLES, FinishedBytes(d, display, bs)) ==
           Some((EncodeStream(NO_TABLES, ps).0, VisiblePackets(ps)))
      && WithinLimits(EncodeStream(NO_TABLES, ps).0)
  {
    hide EncodeStream, StreamBytes, ReadStream, Finish, Feed, FinishedBytes, VisiblePackets, Encodable;
    var ps := Render(display, Finish(Feed(d, bs)));
    BytesAreOneStream(d, display, bs);
    StreamRoundTrip(NO_TABLES, ps);
    StreamLimits(NO_TABLES, ps);
  }
}

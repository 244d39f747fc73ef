/** Events become packets: every slice is described from its occurrence, everything else from the event. */
module Showing {
  import opened Options
  import opened Machine
  import opened EventModel
  import opened Encoder
  import opened Ordering
  import opened History
  import opened Stamping
  import opened Readback
  import opened Captions
  import opened Printing
  import Packets
  import Capture
  import Worklist
  import ByteHistory

  /** How the exporter of these sites shows an event. */
  ghost function DisplayOf(d: Description, views: seq<View>, dis: Disassembler): ByteHistory.Display {
    Show(d, CaptionOf(d, views, dis))
  }

  /** An event that begins a slice begins it from a settled occurrence of its site. */
  ghost predicate Settled(d: Description, e: Event) {
    e.Begin? ==>
      && e.track == TrackOf(d, e.ref.site)
      && e.ref.site < |d.widths| && e.node.present && e.node.width == d.widths[e.ref.site]
      && PayloadComplete(e.node)
  }

  ghost predicate AllSettled(d: Description, es: seq<Event>) {
    forall i :: 0 <= i < |es| ==> Settled(d, es[i])
  }

  /** The packet of one event; a slice is described from its occurrence. */
  method ShowEvent(d: Description, views: seq<View>, formatter: Formatter, e: Event) returns (p: Packets.Packet)
    requires Viewed(d, views) && formatter.Valid() && Settled(d, e)
    modifies formatter
    ensures formatter.Valid() && p == DisplayOf(d, views, formatter.dis)(e)
  {
    hide PayloadComplete, Formatter.Valid, LookOf, Capture.SiteFormed, Ascii, DecimalText;
    var ns := Timestamp(d, e.cycle);
    match e {
      case Begin(t, c, r, node) =>
        assert SiteViewed(d, views, r.site);
        DescribesCaption(d, views, formatter.dis, r.site, node);
        var look := Describe(views[r.site], formatter, node);
        var counters := [
          Packets.Annotation(Ascii("sequence"), Packets.Words(Ascii(DecimalText(r.sequence)), false)),
          Packets.Annotation(Ascii("cycle"), Packets.Words(Ascii(DecimalText(c)), false))];
        p := Packets.Packet(ns, t + 1, Packets.Opening(Ascii("rhodium.event"), counters + look.captures, look.name));
      case End(t, c) =>
        p := Packets.Packet(ns, t + 1, Packets.Closing);
      case FlowStart(t, c, id) =>
        p := Packets.Packet(ns, t + 1,
          Packets.Arrow(Ascii("dependency"), Ascii("rhodium.flow"), 's' as int, id));
      case FlowEnd(t, c, id) =>
        p := Packets.Packet(ns, t + 1,
          Packets.Arrow(Ascii("dependency"), Ascii("rhodium.flow"), 'f' as int, id));
    }
  }

  method ShowEvents(d: Description, views: seq<View>, formatter: Formatter, es: seq<Event>)
    returns (packets: seq<Packets.Packet>)
    requires Viewed(d, views) && formatter.Valid() && AllSettled(d, es)
    modifies formatter
    ensures formatter.Valid() && packets == ByteHistory.Render(DisplayOf(d, views, formatter.dis), es)
  {
    hide Viewed, Settled, DisplayOf, Formatter.Valid;
    packets := [];
    for i := 0 to |es|
      invariant formatter.Valid()
      invariant |packets| == i && forall j :: 0 <= j < i ==> packets[j] == DisplayOf(d, views, formatter.dis)(es[j])
    {
      var p := ShowEvent(d, views, formatter, es[i]);
      packets := packets + [p];
    }
  }

  // ---------------------------------------------------------------- the exporter's events are settled

  lemma SettledConcat(d: Description, a: seq<Event>, b: seq<Event>)
    ensures AllSettled(d, a + b) <==> AllSettled(d, a) && AllSettled(d, b)
  {
    hide Settled;
    assert forall i :: 0 <= i < |b| ==> (a + b)[|a| + i] == b[i];
    assert forall i :: 0 <= i < |a| ==> (a + b)[i] == a[i];
  }

  lemma {:induction false} EndsSettled(d: Description, keys: seq<Key>)
    ensures AllSettled(d, EndEvents(keys))
  {
    if keys != [] {
      EndsSettled(d, keys[1..]);
      SettledConcat(d, [End(keys[0].b, keys[0].a + 1)], EndEvents(keys[1..]));
    }
  }

  lemma {:induction false} ArrowsSettled(d: Description, track: nat, cycle: nat, known: map<Ref, Mark>, keys: seq<Key>)
    requires forall k :: k in keys ==> k.c <= U64_MAX
    ensures AllSettled(d, FlowEnds(track, cycle, known, keys))
  {
    if keys != [] {
      ArrowsSettled(d, track, cycle, known, keys[1..]);
      SettledConcat(d, [FlowEnd(track, cycle, IdOf(known, KeyRef(keys[0])))], FlowEnds(track, cycle, known, keys[1..]));
    }
  }

  lemma EmitSettled(d: Description, b: Batch, st: Stage, r: Ref)
    requires r in b.nodes && AllSettled(d, st.out) &&
      Settled(d, Begin(TrackOf(d, r.site), b.nodes[r].cycle, r, b.nodes[r]))
    ensures AllSettled(d, Emit(d, b, st, r).out)
  {
    hide PayloadComplete, EndEvents, FlowEnds, CanParent, IsStall, InOrder;
    var track: nat, cycle: nat := TrackOf(d, r.site), b.nodes[r].cycle;
    var known := st.known[r := Mark(|st.known| + 1, cycle)];
    InOrderEnumerates(Parents(b.edges, r));
    var first, arrows := [Begin(track, cycle, r, b.nodes[r])],
      FlowEnds(track, cycle, known, InOrder(Parents(b.edges, r)));
    var flow := if CanParent(d, r.site) then [FlowStart(track, cycle, |st.known| + 1)] else [];
    var last := if IsStall(d, r.site) then [] else [End(track, cycle + 1)];
    ArrowsSettled(d, track, cycle, known, InOrder(Parents(b.edges, r)));
    SettledConcat(d, first, arrows);
    SettledConcat(d, first + arrows, flow);
    SettledConcat(d, first + arrows + flow, last);
    SettledConcat(d, st.out, first + arrows + flow + last);
  }

  lemma CloseSettled(d: Description, st: Stage, closing: set<nat>)
    requires AllSettled(d, st.out) && closing <= st.stalls.Keys
    ensures AllSettled(d, Close(st, closing).out)
  {
    EndsSettled(d, Sorted(Endings(st.stalls, closing)));
    SettledConcat(d, st.out, EndEvents(Sorted(Endings(st.stalls, closing))));
  }

  lemma {:induction false} AfterSettled(d: Description, w: Writer, b: Batch, order: seq<Ref>, n: nat)
    requires AllSettled(d, w.stage.out) && Within(b, order) && n <= |order|
    requires forall r :: r in b.nodes ==> NodeAccepted(d, w, b, r)
    ensures AllSettled(d, After(d, b, order, w.stage, n).out)
  {
    hide Emit, AllSettled, PayloadComplete, TimestampFits, Breaking, Close;
    if n > 0 {
      AfterSettled(d, w, b, order, n - 1);
      var before := After(d, b, order, w.stage, n - 1);
      assert NodeAccepted(d, w, b, order[n - 1]);
      if NewCycle(b, order, n - 1) {
        BreakingOpen(b, before.stalls, b.nodes[order[n - 1]].cycle);
        CloseSettled(d, before, Breaking(b, before.stalls, b.nodes[order[n - 1]].cycle));
      }
      EmitSettled(d, b, Settle(b, order, before, n - 1), order[n - 1]);
    }
  }

  /** Everything an accepted batch adds to the stream can be shown. */
  lemma EncodeSettled(d: Description, w: Writer, b: Batch)
    requires Accepts(d, w, b) && AllSettled(d, w.stage.out)
    ensures AllSettled(d, Encode(d, w.stage, b).out)
  {
    hide After, AllSettled, TracksDisjoint, Worklist.Complete, EdgeAccepted, NodeAccepted, Close, EndEvents;
    var order := BatchOrder(b);
    AfterSettled(d, w, b, order, |order|);
    var st := After(d, b, order, w.stage, |order|);
    CloseSettled(d, st, Stale(st.stalls, b.cycle));
  }

  /** So can the whole stream of a run. */
  lemma RunSettled(d: Description, bs: seq<Batch>)
    requires d.Valid()
    ensures AllSettled(d, Finish(Feed(d, bs)))
  {
    hide Feed, Recorded, Accepts, AllSettled, Encode;
    FeedIsOneWrite(d, bs);
    FreshSettled(d);
    if Recorded(d, bs) != None {
      EncodeSettled(d, FRESH, Recorded(d, bs).value);
    }
    var w := Feed(d, bs);
    CloseSettled(d, w.stage, w.stage.stalls.Keys);
  }

  lemma FreshSettled(d: Description)
    ensures AllSettled(d, FRESH.stage.out)
  {
  }
}

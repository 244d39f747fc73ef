/** Opening a trace from a manifest: the site table and the compiled descriptor must agree, and the heading has
    one lane for every track that events use. */
module Opening {
  import opened Options
  import opened Machine
  import opened EventModel
  import opened Encoder
  import opened Decoding
  import opened Capture
  import opened Captions
  import opened Tracks
  import Wire
  import Trace
  import Showing
  import History
  import Lossless
  import Readback
  import Stamping
  import Reading
  import Telling
  import Packets
  import ExportSession
  import PerfettoWriter

  /** What the compiler says of the same sites: widths, permitted pairs, fields or none. */
  datatype Descriptor = Descriptor(widths: seq<nat>, dependencies: set<(nat, nat)>, fields: seq<seq<Field>>)

  function SchemaOf(sites: seq<Site>): seq<seq<Field>> {
    if sites == [] || sites[0].fields == None then []
    else seq(|sites|, i requires 0 <= i < |sites| => if sites[i].fields.Some? then sites[i].fields.value else [])
  }

  /** The text that describes a site, and the stalls that share its track. */
  type Portrait = nat -> Wire.Text

  // ---------------------------------------------------------------- lanes

  ghost predicate HasLane(d: Description, t: nat) {
    t < |d.tracks| && d.tracks[t] == t
  }

  /** A lane for each of the first `n` sites that has a track of its own, in site order. */
  ghost function LanesOf(d: Description, views: seq<View>, portrait: Portrait, n: nat): seq<Trace.Lane>
    requires n <= |views| == |d.tracks|
  {
    if n == 0 then []
    else
      LanesOf(d, views, portrait, n - 1) +
      (if d.tracks[n - 1] == n - 1 then [Trace.Lane(n - 1, views[n - 1].title, portrait(n - 1))] else [])
  }

  method BuildLanes(d: Description, views: seq<View>, portrait: Portrait) returns (lanes: seq<Trace.Lane>)
    requires |views| == |d.tracks|
    ensures lanes == LanesOf(d, views, portrait, |views|)
  {
    lanes := [];
    for i := 0 to |views|
      invariant lanes == LanesOf(d, views, portrait, i)
    {
      if d.tracks[i] == i {
        lanes := lanes + [Trace.Lane(i, views[i].title, portrait(i))];
      }
    }
  }

  /** The lanes are the tracks of their own, each once, under the title of its site. */
  lemma {:induction false} LanesExact(d: Description, views: seq<View>, portrait: Portrait, n: nat)
    requires n <= |views| == |d.tracks|
    ensures var lanes := LanesOf(d, views, portrait, n);
      && (forall lane <- lanes :: HasLane(d, lane.site) && lane.site < n && lane.title == views[lane.site].title)
      && (forall t :: 0 <= t < n && HasLane(d, t) ==> exists lane <- lanes :: lane.site == t)
      && (forall i, j :: 0 <= i < j < |lanes| ==> lanes[i].site < lanes[j].site)
  {
    if 0 < n {
      LanesExact(d, views, portrait, n - 1);
      var front, lanes := LanesOf(d, views, portrait, n - 1), LanesOf(d, views, portrait, n);
      forall t | 0 <= t < n && HasLane(d, t)
        ensures exists lane <- lanes :: lane.site == t
      {
        if t < n - 1 {
          var lane :| lane in front && lane.site == t;
          assert lane in lanes;
        } else {
          assert lanes[|front|].site == t && lanes[|front|] in lanes;
        }
      }
      OneMoreLane(front, lanes, n - 1);
    }
  }

  lemma OneMoreLane(front: seq<Trace.Lane>, lanes: seq<Trace.Lane>, n: nat)
    requires (forall lane <- front :: lane.site < n) &&
      (forall i, j :: 0 <= i < j < |front| ==> front[i].site < front[j].site)
    requires lanes == front || (|lanes| == |front| + 1 && front <= lanes && lanes[|front|].site == n)
    ensures forall i, j :: 0 <= i < j < |lanes| ==> lanes[i].site < lanes[j].site
  {
    forall i, j | 0 <= i < j < |lanes|
      ensures lanes[i].site < lanes[j].site
    {
      assert lanes[i] == front[i] && front[i] in front;
    }
  }

  ghost const FREQUENCY: Wire.Text := Readback.Ascii("rheg.clock_frequency_hz")
  ghost const EPOCH: Wire.Text := Readback.Ascii("rheg.epoch_id")

  ghost function HeadingOf(d: Description, views: seq<View>, epoch: U64, top: Wire.Text,
                           portrait: Portrait): Trace.Heading
    requires |views| == |d.tracks|
  {
    Trace.Heading([(FREQUENCY, Readback.NumberText(d.frequency)), (EPOCH, Readback.NumberText(epoch))], top, |views|,
                  LanesOf(d, views, portrait, |views|))
  }

  // ---------------------------------------------------------------- events are on lanes

  lemma {:induction false} BrokenStays(d: Description, es: seq<Event>)
    ensures Decode(d, Broken, es) == Broken
    decreases |es|
  {
    if es != [] {
      BrokenStays(d, es[1..]);
    }
  }

  /** What can be decoded closes and points only where a slice was begun. */
  lemma {:induction false} DecodedOnLanes(d: Description, dec: Decoder, es: seq<Event>)
    requires Decode(d, dec, es).Decoder? && dec.Decoder? && forall t :: t in dec.open ==> HasLane(d, t)
    requires forall i :: 0 <= i < |es| && es[i].Begin? ==> HasLane(d, es[i].track)
    ensures forall i :: 0 <= i < |es| ==> HasLane(d, es[i].track)
    decreases |es|
  {
    if es != [] {
      var next := Step(d, dec, es[0]);
      if next.Broken? {
        BrokenStays(d, es[1..]);
      } else {
        DecodedOnLanes(d, next, es[1..]);
      }
    }
  }

  /** Every event of a finished run is on a track that the heading introduced. */
  lemma EventsOnLanes(d: Description, bs: seq<Batch>)
    requires d.Valid()
    ensures var es := Finish(History.Feed(d, bs)); forall i :: 0 <= i < |es| ==> HasLane(d, es[i].track)
  {
    hide Finish, History.Feed, Expands, Decode;
    Lossless.StreamLossless(d, bs);
    Showing.RunSettled(d, bs);
    var es := Finish(History.Feed(d, bs));
    forall i | 0 <= i < |es| && es[i].Begin?
      ensures HasLane(d, es[i].track)
    {
      hide PayloadComplete;
      assert Showing.Settled(d, es[i]);
    }
    DecodedOnLanes(d, EMPTY, es);
  }

  /** In the bytes of a finished run a reader finds the heading, and in it a track of the identifier that each
      event carries. */
  lemma TracksInBytes(d: Description, views: seq<View>, epoch: U64, top: Wire.Text, portrait: Portrait,
                      dis: Disassembler,
                      bs: seq<Batch>, i: nat)
    requires d.Valid() && |views| == |d.tracks| && i < |Finish(History.Feed(d, bs))|
    ensures var h := HeadingOf(d, views, epoch, top, portrait);
      var bytes := ExportSession.TraceBytes(h, Showing.DisplayOf(d, views, dis), Finish(History.Feed(d, bs)));
      var read := Trace.ReadTrace(bytes);
      && Trace.ReadHeading(bytes) == Some(h)
      && read.Some? && i < |read.value.1|
      && exists lane <- h.lanes :: lane.site + 1 == read.value.1[i].track
  {
    hide Finish, History.Feed, Readback.Show, Readback.PlainCaptions, Trace.ReadTrace, Trace.ReadHeading, LanesOf;
    hide CaptionOf;
    hide ExportSession.TraceBytes, Packets.VisiblePacket, HasLane, Stamping.Stamp, Description.Valid;
    var es := Finish(History.Feed(d, bs));
    var caption := CaptionOf(d, views, dis);
    Telling.CaptionsPlain(d, views, dis);
    Reading.PacketsInBytes(HeadingOf(d, views, epoch, top, portrait), d, caption, es);
    EventsOnLanes(d, bs);
    ShownTrack(d, caption, es[i]);
    LaneFor(d, views, portrait, es[i].track);
  }

  lemma LaneFor(d: Description, views: seq<View>, portrait: Portrait, t: nat)
    requires |views| == |d.tracks| && HasLane(d, t)
    ensures exists lane <- LanesOf(d, views, portrait, |views|) :: lane.site == t
  {
    LanesExact(d, views, portrait, |views|);
  }

  lemma ShownTrack(d: Description, caption: Stamping.Caption<Readback.Look>, e: Event)
    ensures Packets.VisiblePacket(Readback.Show(d, caption)(e)).track == e.track + 1
  {
    hide Readback.Counters, Readback.Ascii, Packets.VisibleBody;
  }

  // ---------------------------------------------------------------- opening

  /** An exporter that works from a site table, with the heading made from it. */
  ghost predicate MadeFrom(w: PerfettoWriter.Exporter, sites: seq<Site>, epoch: U64, top: Wire.Text,
                           portrait: Portrait, dis: Disassembler) {
    hide Describes, Showing.DisplayOf, HeadingOf, LanesOf, ViewOf;
    && |w.description.tracks| == |sites| && Describes(sites, w.description)
    && w.display == Showing.DisplayOf(w.description, ViewsOf(sites), dis)
    && w.heading == HeadingOf(w.description, ViewsOf(sites), epoch, top, portrait)
  }

  /** Nothing has been written but the heading. */
  ghost predicate Untouched(w: PerfettoWriter.Exporter)
    reads w
  {
    w.State() == FRESH && !w.failed && !w.finished && w.bytes == Trace.HeadingBytes(w.heading)
  }

  /** Opens an exporter on a manifest. The site table must be well formed and say what the compiled descriptor
      says; then the exporter works from the table, and its bytes begin with the heading made from it. */
  method Open(sites: seq<Site>, dependencies: seq<Dependency>, frequency: U64, epoch: U64, top: Wire.Text,
              compiled: Descriptor,
              portrait: Portrait, dis: Disassembler) returns (exporter: Option<PerfettoWriter.Exporter>)
    ensures exporter.Some? <==>
      && SitesWellFormed(sites) && SchemaFormed(sites) && 0 < frequency && (forall e <- dependencies :: Known(sites, e))
      && Agrees(sites, dependencies, compiled)
    ensures exporter.Some? ==>
      && fresh(exporter.value) && fresh(exporter.value.formatter) && exporter.value.Valid()
      && Untouched(exporter.value) && MadeFrom(exporter.value, sites, epoch, top, portrait, dis)
      && exporter.value.description.frequency == frequency &&
           exporter.value.description.dependencies == compiled.dependencies
  {
    hide SitesWellFormed, SchemaFormed, Known, Translates, Viewed, Description.Valid, Describes, Agrees, MadeFrom;
    hide Untouched, PerfettoWriter.Exporter.Valid;
    var described := Tracks.Describe(sites, dependencies, frequency);
    if described == None {
      return None;
    }
    var d, views := described.value.0, described.value.1;
    var same := Compare(sites, dependencies, d, compiled);
    if !same {
      return None;
    }
    var writer := Start(sites, d, views, epoch, top, portrait, dis);
    exporter := Some(writer);
  }

  method Compare(sites: seq<Site>, dependencies: seq<Dependency>, d: Description, compiled: Descriptor)
    returns (same: bool)
    requires Describes(sites, d) && Translates(sites, dependencies, d.dependencies)
    ensures same <==> Agrees(sites, dependencies, compiled)
    ensures same ==> d.dependencies == compiled.dependencies
  {
    hide Describes, Translates, SchemaOf, FieldsAgree;
    SchemaAgrees(sites, compiled.fields);
    TranslatedOnce(sites, dependencies, d.dependencies);
    SameWidths(sites, d);
    same := d.widths == compiled.widths && d.dependencies == compiled.dependencies &&
      SchemaOf(sites) == compiled.fields;
  }

  method Start(ghost sites: seq<Site>, d: Description, views: seq<View>, epoch: U64, top: Wire.Text,
               portrait: Portrait, dis: Disassembler)
    returns (w: PerfettoWriter.Exporter)
    requires d.Valid() && Describes(sites, d) && views == ViewsOf(sites) && Viewed(d, views)
    ensures fresh(w) && fresh(w.formatter) && w.Valid() && Untouched(w)
    ensures MadeFrom(w, sites, epoch, top, portrait, dis) && w.description == d
  {
    hide Describes, Viewed, Description.Valid, PerfettoWriter.Exporter.Valid, Showing.DisplayOf, MadeFrom, LanesOf;
    hide Trace.HeadingBytes;
    SameWidths(sites, d);
    var heading := BuildHeading(d, views, epoch, top, portrait);
    w := new PerfettoWriter.Exporter(d, views, dis, heading);
    MadeHere(w, sites, epoch, top, portrait, dis);
  }

  method BuildHeading(d: Description, views: seq<View>, epoch: U64, top: Wire.Text, portrait: Portrait)
    returns (h: Trace.Heading)
    requires |views| == |d.tracks|
    ensures h == HeadingOf(d, views, epoch, top, portrait)
  {
    var lanes := BuildLanes(d, views, portrait);
    var metadata := [
      (Readback.Ascii("rheg.clock_frequency_hz"), Readback.NumberText(d.frequency)),
      (Readback.Ascii("rheg.epoch_id"), Readback.NumberText(epoch))];
    h := Trace.Heading(metadata, top, |views|, lanes);
  }

  lemma MadeHere(w: PerfettoWriter.Exporter, sites: seq<Site>, epoch: U64, top: Wire.Text, portrait: Portrait,
                 dis: Disassembler)
    requires |w.description.tracks| == |sites| && Describes(sites, w.description)
    requires w.display == Showing.DisplayOf(w.description, ViewsOf(sites), dis)
    requires w.heading == HeadingOf(w.description, ViewsOf(sites), epoch, top, portrait)
    ensures MadeFrom(w, sites, epoch, top, portrait, dis)
  {
  }

  /** The compiled descriptor says what the site table says. */
  ghost predicate Agrees(sites: seq<Site>, dependencies: seq<Dependency>, compiled: Descriptor) {
    && |compiled.widths| == |sites| && (forall i :: 0 <= i < |sites| ==> compiled.widths[i] == sites[i].width)
    && Translates(sites, dependencies, compiled.dependencies)
    && FieldsAgree(sites, compiled.fields)
  }

  /** The fields of every site, or none at all where the first site lists none. */
  ghost predicate FieldsAgree(sites: seq<Site>, fields: seq<seq<Field>>) {
    if sites == [] || sites[0].fields == None then fields == []
    else |fields| == |sites| && forall i :: 0 <= i < |sites| ==> fields[i] == ViewOf(sites[i]).Captured()
  }

  lemma SchemaAgrees(sites: seq<Site>, fields: seq<seq<Field>>)
    ensures FieldsAgree(sites, fields) <==> fields == SchemaOf(sites)
  {
  }

  lemma TranslatedOnce(sites: seq<Site>, dependencies: seq<Dependency>, pairs: set<(nat, nat)>)
    requires Translates(sites, dependencies, pairs)
    ensures forall other :: Translates(sites, dependencies, other) <==> other == pairs
  {
    forall other | Translates(sites, dependencies, other)
      ensures other == pairs
    {
      assert forall p :: p in other <==> p in pairs;
    }
  }

  lemma SameWidths(sites: seq<Site>, d: Description)
    requires Describes(sites, d)
    ensures forall widths: seq<nat> ::
              widths == d.widths <==> |widths| == |sites| && forall i :: 0 <= i < |sites| ==>
                widths[i] == sites[i].width
    ensures |d.tracks| == |sites|
  {
    hide OnTrack, Observed;
  }
}

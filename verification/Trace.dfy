/** A whole trace file: run-wide metadata and track descriptors, then the packets of the run. */
module Trace {
  import opened Collections
  import opened Options
  import opened Wire
  import opened Interning
  import opened Packets

  /** A track of its own: its site, title and description. */
  datatype Lane = Lane(site: nat, title: Text, description: Text)

  /** What precedes every occurrence: names and values of the run, the top module, the site count and the
      tracks. */
  datatype Heading = Heading(metadata: seq<(Text, Text)>, top: Text, sites: nat, lanes: seq<Lane>)

  ghost function MetadataItem(item: (Text, Text)): Field {
    BytesField(2, WriteMessage([BytesField(1, item.0), BytesField(2, item.1)]))
  }

  ghost function MetadataItems(items: seq<(Text, Text)>): (fs: seq<Field>)
    ensures |fs| == |items|
  {
    seq(|items|, i requires 0 <= i < |items| => MetadataItem(items[i]))
  }

  ghost function LaneFields(sites: nat, lane: Lane): seq<Field> {
    [IntField(1, lane.site + 1), IntField(5, sites + 1), BytesField(2, lane.title), IntField(15, 2),
      BytesField(14, lane.description)]
  }

  ghost function LanePacket(sites: nat, lane: Lane): Field {
    BytesField(1, WriteMessage([BytesField(60, WriteMessage(LaneFields(sites, lane)))]))
  }

  ghost function LanePackets(sites: nat, lanes: seq<Lane>): (fs: seq<Field>)
    ensures |fs| == |lanes|
  {
    seq(|lanes|, i requires 0 <= i < |lanes| => LanePacket(sites, lanes[i]))
  }

  ghost function HeadingPackets(h: Heading): seq<Field> {
    [BytesField(1, WriteMessage([IntField(10, 1), IntField(13, 1),
      BytesField(5, WriteMessage(MetadataItems(h.metadata)))])),
     BytesField(1, WriteMessage([BytesField(60,
       WriteMessage([IntField(1, h.sites + 1), BytesField(2, h.top), IntField(11, 1), IntField(15, 2)]))]))]
    + LanePackets(h.sites, h.lanes)
  }

  ghost function HeadingBytes(h: Heading): Text {
    WriteMessage(HeadingPackets(h))
  }

  // ---------------------------------------------------------------- reading a trace

  ghost predicate HasEvent(fs: seq<Field>) {
    exists i :: 0 <= i < |fs| && fs[i].number == 11
  }

  /** A packet with a track event. */
  ghost predicate IsEvent(f: Field) {
    f.BytesField? && f.number == 1 && ReadMessage(f.payload).Some? && HasEvent(ReadMessage(f.payload).value)
  }

  ghost function EventPackets(fs: seq<Field>): seq<Field> {
    if fs == [] then []
    else (if IsEvent(fs[0]) then [fs[0]] else []) + EventPackets(fs[1..])
  }

  /** A reader of event packets skips the others. */
  ghost function ReadTrace(bytes: Text): Option<(Tables, seq<Packet>)> {
    match ReadMessage(bytes)
    case None => None
    case Some(fs) => ReadPackets(NO_TABLES, EventPackets(fs))
  }

  lemma {:induction false} SkipsOthers(fs: seq<Field>, gs: seq<Field>)
    requires (forall f <- fs :: !IsEvent(f)) && (forall g <- gs :: IsEvent(g))
    ensures EventPackets(fs + gs) == gs
    decreases |fs|
  {
    hide IsEvent;
    if fs != [] {
      assert (fs + gs)[1..] == fs[1..] + gs;
      SkipsOthers(fs[1..], gs);
    } else {
      NothingBefore(gs);
      KeepsEvents(gs);
    }
  }

  lemma {:induction false} KeepsEvents(gs: seq<Field>)
    requires forall g <- gs :: IsEvent(g)
    ensures EventPackets(gs) == gs
    decreases |gs|
  {
    hide IsEvent;
    if gs != [] {
      KeepsEvents(gs[1..]);
    }
  }

  lemma NotEvent(fs: seq<Field>)
    requires !HasEvent(fs)
    ensures !IsEvent(BytesField(1, WriteMessage(fs)))
  {
    MessageRoundTrip(fs);
  }

  lemma LanesNotEvents(sites: nat, lanes: seq<Lane>)
    ensures forall f <- LanePackets(sites, lanes) :: !IsEvent(f)
  {
    hide IsEvent;
    forall f <- LanePackets(sites, lanes)
      ensures !IsEvent(f)
    {
      var i :| 0 <= i < |lanes| && LanePackets(sites, lanes)[i] == f;
      NotEvent([BytesField(60, WriteMessage(LaneFields(sites, lanes[i])))]);
    }
  }

  lemma HeadingNotEvents(h: Heading)
    ensures forall f <- HeadingPackets(h) :: !IsEvent(f)
  {
    hide IsEvent, WriteMessage;
    LanesNotEvents(h.sites, h.lanes);
    NotEvent([IntField(10, 1), IntField(13, 1), BytesField(5, WriteMessage(MetadataItems(h.metadata)))]);
    NotEvent([BytesField(60, WriteMessage([IntField(1, h.sites + 1), BytesField(2, h.top), IntField(11, 1),
      IntField(15, 2)]))]);
  }

  lemma PacketIsEvent(t: Tables, p: Packet)
    ensures IsEvent(EncodePacket(t, p).1)
  {
    hide EncodeBody, WriteMessage, ReadMessage;
    var (s, body) := EncodeBody(Session(t, []), p.body, p.track);
    var definitions := if s.pending == [] then [] else [BytesField(12, WriteMessage(s.pending))];
    var fs := Header(p.timestamp) + definitions + [BytesField(11, WriteMessage(body))];
    MessageRoundTrip(fs);
    assert fs[|fs| - 1].number == 11;
  }

  lemma {:induction false} StreamIsEvents(t: Tables, ps: seq<Packet>)
    ensures forall f <- EncodeStream(t, ps).1 :: IsEvent(f)
    decreases |ps|
  {
    hide IsEvent, EncodePacket;
    if ps != [] {
      StreamIsEvents(t, ps[..|ps| - 1]);
      PacketIsEvent(EncodeStream(t, ps[..|ps| - 1]).0, ps[|ps| - 1]);
    }
  }

  /** From the bytes of a whole trace a reader recovers every event packet of the run. */
  lemma TraceRoundTrip(h: Heading, ps: seq<Packet>)
    requires forall i :: 0 <= i < |ps| ==> Encodable(ps[i])
    ensures ReadTrace(HeadingBytes(h) + StreamBytes(NO_TABLES, ps)) ==
      Some((EncodeStream(NO_TABLES, ps).0, VisiblePackets(ps)))
  {
    hide WriteMessage, ReadMessage, ReadPackets, EncodeStream, Encodable, VisiblePackets, EventPackets, IsEvent;
    hide HeadingPackets;
    var fs, gs := HeadingPackets(h), EncodeStream(NO_TABLES, ps).1;
    WriteConcat(fs, gs);
    MessageRoundTrip(fs + gs);
    HeadingNotEvents(h);
    StreamIsEvents(NO_TABLES, ps);
    SkipsOthers(fs, gs);
    PacketsRoundTrip(NO_TABLES, ps);
  }

  // ---------------------------------------------------------------- reading the heading

  /** The packets that are no events. */
  ghost function Others(fs: seq<Field>): seq<Field> {
    if fs == [] then []
    else (if IsEvent(fs[0]) then [] else [fs[0]]) + Others(fs[1..])
  }

  lemma {:induction false} OthersAreHeading(fs: seq<Field>, gs: seq<Field>)
    requires (forall f <- fs :: !IsEvent(f)) && (forall g <- gs :: IsEvent(g))
    ensures Others(fs + gs) == fs
    decreases |fs| + |gs|
  {
    hide IsEvent;
    if fs != [] {
      assert (fs + gs)[1..] == fs[1..] + gs;
      OthersAreHeading(fs[1..], gs);
    } else if gs != [] {
      assert (fs + gs)[1..] == fs + gs[1..];
      OthersAreHeading(fs, gs[1..]);
    }
  }

  /** The one field of a packet that holds a track descriptor. */
  ghost function ReadDescriptor(f: Field): Option<seq<Field>> {
    if !f.BytesField? || f.number != 1 then None else
    match ReadMessage(f.payload)
    case None => None
    case Some(fs) => if |fs| == 1 && fs[0].BytesField? && fs[0].number == 60 then ReadMessage(fs[0].payload) else None
  }

  /** A descriptor with an identifier, the identifier of its group, a title and a description. */
  ghost function ReadLane(group: nat, f: Field): Option<Lane> {
    match ReadDescriptor(f)
    case None => None
    case Some(fs) =>
      if |fs| == 5 && fs[0].IntField? && fs[0].number == 1 && 0 < fs[0].value && fs[1] == IntField(5, group)
        && fs[2].BytesField? && fs[2].number == 2 && fs[3] == IntField(15, 2) && fs[4].BytesField? && fs[4].number == 14
      then Some(Lane(fs[0].value - 1, fs[2].payload, fs[4].payload))
      else None
  }

  ghost function ReadLanes(group: nat, fs: seq<Field>): Option<seq<Lane>> {
    if fs == [] then Some([])
    else
      match (ReadLane(group, fs[0]), ReadLanes(group, fs[1..]))
      case (Some(lane), Some(rest)) => Some([lane] + rest)
      case _ => None
  }

  ghost function ReadItems(fs: seq<Field>): Option<seq<(Text, Text)>> {
    if fs == [] then Some([])
    else if !fs[0].BytesField? || fs[0].number != 2 then None
    else
      match (ReadMessage(fs[0].payload), ReadItems(fs[1..]))
      case (Some(item), Some(rest)) =>
        if |item| == 2 && item[0].BytesField? && item[0].number == 1 && item[1].BytesField? && item[1].number == 2
        then Some([(item[0].payload, item[1].payload)] + rest)
        else None
      case _ => None
  }

  ghost function ReadMetadata(f: Field): Option<seq<(Text, Text)>> {
    if !f.BytesField? || f.number != 1 then None else
    match ReadMessage(f.payload)
    case None => None
    case Some(fs) =>
      if |fs| != 3 || fs[0] != IntField(10, 1) || fs[1] != IntField(13, 1) || !fs[2].BytesField? || fs[2].number != 5
      then None
      else match ReadMessage(fs[2].payload) case None => None case Some(items) => ReadItems(items)
  }

  /** The metadata of a trace, its top module and its tracks. */
  ghost function ReadHeading(bytes: Text): Option<Heading> {
    match ReadMessage(bytes)
    case None => None
    case Some(fs) =>
      var hs := Others(fs);
      if |hs| < 2 then None else
      match (ReadMetadata(hs[0]), ReadDescriptor(hs[1]))
      case (Some(metadata), Some(root)) =>
        if |root| != 4 || !root[0].IntField? || root[0].number != 1 || root[0].value == 0 || !root[1].BytesField?
          || root[1].number != 2 || root[2] != IntField(11, 1) || root[3] != IntField(15, 2) then None
        else
          (match ReadLanes(root[0].value, hs[2..])
           case None => None
           case Some(lanes) => Some(Heading(metadata, root[1].payload, root[0].value - 1, lanes)))
      case _ => None
  }

  lemma LaneRoundTrip(sites: nat, lane: Lane)
    ensures ReadLane(sites + 1, LanePacket(sites, lane)) == Some(lane)
  {
    hide WriteMessage, ReadMessage;
    var fs := LaneFields(sites, lane);
    MessageRoundTrip(fs);
    MessageRoundTrip([BytesField(60, WriteMessage(fs))]);
  }

  lemma {:induction false} LanesRoundTrip(sites: nat, lanes: seq<Lane>)
    ensures ReadLanes(sites + 1, LanePackets(sites, lanes)) == Some(lanes)
  {
    hide LanePacket, ReadLane;
    if lanes != [] {
      LaneRoundTrip(sites, lanes[0]);
      LanesRoundTrip(sites, lanes[1..]);
      assert LanePackets(sites, lanes)[1..] == LanePackets(sites, lanes[1..]);
      assert [lanes[0]] + lanes[1..] == lanes;
    }
  }

  lemma {:induction false} ItemsRoundTrip(items: seq<(Text, Text)>)
    ensures ReadItems(MetadataItems(items)) == Some(items)
  {
    hide WriteMessage, ReadMessage;
    if items != [] {
      ItemsRoundTrip(items[1..]);
      MessageRoundTrip([BytesField(1, items[0].0), BytesField(2, items[0].1)]);
      assert MetadataItems(items)[1..] == MetadataItems(items[1..]);
      assert [items[0]] + items[1..] == items;
    }
  }

  lemma MetadataRoundTrip(items: seq<(Text, Text)>)
    ensures ReadMetadata(BytesField(1,
              WriteMessage([IntField(10, 1), IntField(13, 1), BytesField(5, WriteMessage(MetadataItems(items)))]))) ==
                Some(items)
  {
    hide WriteMessage, ReadMessage, ReadItems, MetadataItems;
    ItemsRoundTrip(items);
    MessageRoundTrip(MetadataItems(items));
    MessageRoundTrip([IntField(10, 1), IntField(13, 1), BytesField(5, WriteMessage(MetadataItems(items)))]);
  }

  lemma RootRoundTrip(root: seq<Field>)
    ensures ReadDescriptor(BytesField(1, WriteMessage([BytesField(60, WriteMessage(root))]))) == Some(root)
  {
    hide WriteMessage, ReadMessage;
    MessageRoundTrip(root);
    MessageRoundTrip([BytesField(60, WriteMessage(root))]);
  }

  /** From the bytes of a whole trace a reader recovers the heading. */
  lemma HeadingRoundTrip(h: Heading, ps: seq<Packet>)
    ensures ReadHeading(HeadingBytes(h) + StreamBytes(NO_TABLES, ps)) == Some(h)
  {
    hide WriteMessage, ReadMessage, EncodeStream, Others, IsEvent, ReadMetadata, ReadDescriptor, ReadLanes;
    hide LanePackets, MetadataItems;
    var fs, gs := HeadingPackets(h), EncodeStream(NO_TABLES, ps).1;
    WriteConcat(fs, gs);
    MessageRoundTrip(fs + gs);
    HeadingNotEvents(h);
    StreamIsEvents(NO_TABLES, ps);
    OthersAreHeading(fs, gs);
    MetadataRoundTrip(h.metadata);
    RootRoundTrip([IntField(1, h.sites + 1), BytesField(2, h.top), IntField(11, 1), IntField(15, 2)]);
    LanesRoundTrip(h.sites, h.lanes);
    assert fs[2..] == LanePackets(h.sites, h.lanes);
  }

  // ---------------------------------------------------------------- writing the heading

  /** A message of these fields, one by one. */
  method WriteAll(fs: seq<Field>) returns (out: Text)
    ensures out == WriteMessage(fs)
  {
    out := [];
    assert WriteMessage(fs[..0]) == [];
    for n := 0 to |fs|
      invariant out == WriteMessage(fs[..n])
    {
      hide WriteMessage, WriteField;
      PrefixGrows(fs, n);
      WriteGrows(fs[..n], fs[n]);
      match fs[n]
      case IntField(number, value) => out := AppendInteger(out, number, value);
      case BytesField(number, value) => out := AppendBytes(out, number, value);
    }
    assert fs[..|fs|] == fs;
  }

  method WriteMetadata(items: seq<(Text, Text)>) returns (out: Text)
    ensures out == WriteMessage(MetadataItems(items))
  {
    ghost var fs := MetadataItems(items);
    out := [];
    assert WriteMessage(fs[..0]) == [];
    for n := 0 to |items|
      invariant out == WriteMessage(fs[..n])
    {
      hide WriteField, WriteMessage, MetadataItem;
      PrefixGrows(fs, n);
      WriteGrows(fs[..n], fs[n]);
      out := AppendMetadata(out, items[n]);
    }
    assert fs[..|items|] == fs;
  }

  method AppendMetadata(out: Text, item: (Text, Text)) returns (out': Text)
    ensures out' == out + WriteField(MetadataItem(item))
  {
    hide WriteField, WriteMessage;
    var message := WriteAll([BytesField(1, item.0), BytesField(2, item.1)]);
    out' := AppendBytes(out, 2, message);
  }

  /** Appends a packet that holds a track descriptor. */
  method AppendDescriptor(out: Text, fs: seq<Field>) returns (out': Text)
    ensures out' == out + WriteField(BytesField(1, WriteMessage([BytesField(60, WriteMessage(fs))])))
  {
    hide WriteField, WriteMessage;
    var descriptor := WriteAll(fs);
    var packet := WriteAll([BytesField(60, descriptor)]);
    out' := AppendBytes(out, 1, packet);
  }

  method DescribeLane(sites: nat, lane: Lane) returns (fs: seq<Field>)
    ensures fs == LaneFields(sites, lane)
  {
    fs := [IntField(1, lane.site + 1), IntField(5, sites + 1)];
    fs := fs + [BytesField(2, lane.title), IntField(15, 2), BytesField(14, lane.description)];
  }

  method AppendLanes(out: Text, sites: nat, lanes: seq<Lane>) returns (out': Text)
    ensures out' == out + WriteMessage(LanePackets(sites, lanes))
  {
    ghost var fs := LanePackets(sites, lanes);
    out' := out;
    assert WriteMessage(fs[..0]) == [] && out + [] == out;
    for n := 0 to |lanes|
      invariant out' == out + WriteMessage(fs[..n])
    {
      hide WriteField, WriteMessage, LaneFields;
      PrefixGrows(fs, n);
      WriteGrows(fs[..n], fs[n]);
      Associate(out, WriteMessage(fs[..n]), WriteField(fs[n]));
      var descriptor := DescribeLane(sites, lanes[n]);
      out' := AppendDescriptor(out', descriptor);
    }
    assert fs[..|lanes|] == fs;
  }

  /** Writes the metadata, the root descriptor and one descriptor for each track. */
  method WriteHeading(h: Heading) returns (out: Text)
    ensures out == HeadingBytes(h)
  {
    hide WriteField, WriteMessage, LanePackets, MetadataItems;
    var metadata := WriteMetadata(h.metadata);
    var packet := WriteAll([IntField(10, 1), IntField(13, 1), BytesField(5, metadata)]);
    ghost var first := BytesField(1, packet);
    var root := [IntField(1, h.sites + 1), BytesField(2, h.top), IntField(11, 1), IntField(15, 2)];
    ghost var second := BytesField(1, WriteMessage([BytesField(60, WriteMessage(root))]));
    WriteOne(first);
    WriteGrows([first], second);
    assert [first] + [second] == [first, second];
    WriteConcat([first, second], LanePackets(h.sites, h.lanes));
    NothingBefore(WriteField(first));
    out := AppendBytes([], 1, packet);
    out := AppendDescriptor(out, root);
    out := AppendLanes(out, h.sites, h.lanes);
  }
}

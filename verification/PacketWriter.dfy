/** Serializing packets field by field, interning as it goes. */
module PacketWriter {
  import opened Collections
  import opened EventModel
  import opened Wire
  import opened Interning
  import opened Packets
  import opened PendingInterns

  // ---------------------------------------------------------------- annotations

  /** Appends an annotation to an event's fields. */
  method AppendAnnotation(out: Text, interns: Interns, a: Annotation) returns (out': Text)
    requires interns.Valid()
    modifies interns
    ensures interns.Valid() && interns.State() == EncodeAnnotation(old(interns.State()), a).0
    ensures out' == out + WriteField(EncodeAnnotation(old(interns.State()), a).1)
  {
    hide Reference, WriteField, EncodeShown;
    ghost var s := interns.State();
    ghost var name := Reference(s, 1, 10, AnnotationName, a.name).1;
    ghost var s1 := Reference(s, 1, 10, AnnotationName, a.name).0;
    ghost var shown := EncodeShown(s1, a.shown).1;
    WriteGrows([name], shown);
    WriteOne(name);
    assert [name] + [shown] == [name, shown];
    hide WriteMessage;
    var arg := interns.Refer([], 1, 10, AnnotationName, a.name);
    assert arg == WriteField(name);
    arg := AppendShown(arg, interns, a.shown);
    out' := AppendBytes(out, 4, arg);
  }

  method AppendShown(out: Text, interns: Interns, v: Shown) returns (out': Text)
    requires interns.Valid()
    modifies interns
    ensures interns.Valid() && interns.State() == EncodeShown(old(interns.State()), v).0
    ensures out' == out + WriteField(EncodeShown(old(interns.State()), v).1)
  {
    hide Reference, WriteField;
    match v
    case Words(text, interned) =>
      if interned {
        out' := interns.Refer(out, 17, 6, Value, text);
      } else {
        out' := AppendBytes(out, 6, text);
      }
    case Flag(bit) => out' := AppendInteger(out, 2, bit);
    case Unsigned(n) => out' := AppendInteger(out, 3, n);
    case Signed(n) => out' := AppendInteger(out, 4, n % 0x1_0000_0000_0000_0000);
  }

  lemma AnnotationsStep(s: Session, annotations: seq<Annotation>, n: nat)
    requires n < |annotations|
    ensures var (s1, fs) := EncodeAnnotations(s, annotations[..n]);
      var (s2, f) := EncodeAnnotation(s1, annotations[n]);
      EncodeAnnotations(s, annotations[..n + 1]) == (s2, fs + [f])
  {
    assert annotations[..n + 1][..n] == annotations[..n];
  }

  method AppendAnnotations(out: Text, interns: Interns, annotations: seq<Annotation>) returns (out': Text)
    requires interns.Valid()
    modifies interns
    ensures interns.Valid() && interns.State() == EncodeAnnotations(old(interns.State()), annotations).0
    ensures out' == out + WriteMessage(EncodeAnnotations(old(interns.State()), annotations).1)
  {
    out' := out;
    ghost var s := interns.State();
    assert WriteMessage([]) == [] && out + [] == out;
    for n := 0 to |annotations|
      invariant interns.Valid() && interns.State() == EncodeAnnotations(s, annotations[..n]).0
      invariant out' == out + WriteMessage(EncodeAnnotations(s, annotations[..n]).1)
    {
      hide EncodeAnnotation, EncodeAnnotations, WriteMessage, WriteField;
      ghost var (s1, fs) := EncodeAnnotations(s, annotations[..n]);
      ghost var f := EncodeAnnotation(s1, annotations[n]).1;
      AnnotationsStep(s, annotations, n);
      WriteGrows(fs, f);
      Associate(out, WriteMessage(fs), WriteField(f));
      out' := AppendAnnotation(out', interns, annotations[n]);
    }
    assert annotations[..|annotations|] == annotations;
  }

  // ---------------------------------------------------------------- events

  lemma OpeningFields(first: Field, c: Field, fs: seq<Field>, n: Field, track: Field)
    ensures WriteMessage([first, c] + fs + [n, track]) ==
      WriteField(first) + WriteField(c) + WriteMessage(fs) + WriteField(n) + WriteField(track)
  {
    hide WriteField, WriteMessage;
    WriteOne(first);
    WriteGrows([first], c);
    assert [first] + [c] == [first, c];
    WriteConcat([first, c], fs);
    WriteGrows([first, c] + fs, n);
    WriteGrows([first, c] + fs + [n], track);
    assert [first, c] + fs + [n, track] == [first, c] + fs + [n] + [track];
  }

  lemma FourFields(a: Field, b: Field, c: Field, e: Field)
    ensures WriteMessage([a, b, c, e]) == WriteField(a) + WriteField(b) + WriteField(c) + WriteField(e)
    ensures WriteMessage([a, b, c]) == WriteField(a) + WriteField(b) + WriteField(c)
    ensures WriteMessage([a, b]) == WriteField(a) + WriteField(b)
  {
    hide WriteField, WriteMessage;
    WriteOne(a);
    WriteGrows([a], b);
    WriteGrows([a, b], c);
    WriteGrows([a, b, c], e);
    assert [a] + [b] == [a, b] && [a, b] + [c] == [a, b, c] && [a, b, c] + [e] == [a, b, c, e];
  }

  /** The fields of a track event. */
  method WriteBody(interns: Interns, body: Body, track: nat) returns (out: Text)
    requires interns.Valid()
    modifies interns
    ensures interns.Valid() && interns.State() == EncodeBody(old(interns.State()), body, track).0
    ensures out == WriteMessage(EncodeBody(old(interns.State()), body, track).1)
  {
    hide Reference, WriteField, WriteMessage, EncodeAnnotations;
    ghost var s := interns.State();
    match body {
      case Opening(category, annotations, name) =>
        ghost var (s1, c) := Reference(s, 3, 22, Category, category);
        ghost var (s2, fs) := EncodeAnnotations(s1, annotations);
        ghost var n := Reference(s2, 10, 23, Name, name).1;
        OpeningFields(IntField(9, 1), c, fs, n, IntField(11, track));
        out := AppendInteger([], 9, 1);
        assert out == WriteField(IntField(9, 1));
        out := interns.Refer(out, 3, 22, Category, category);
        out := AppendAnnotations(out, interns, annotations);
        out := interns.Refer(out, 10, 23, Name, name);
        out := AppendInteger(out, 11, track);
      case Closing =>
        FourFields(IntField(9, 2), IntField(11, track), IntField(9, 2), IntField(9, 2));
        out := AppendInteger([], 9, 2);
        assert out == WriteField(IntField(9, 2));
        out := AppendInteger(out, 11, track);
      case Arrow(name, category, phase, id) =>
        ghost var (s1, n) := Reference(s, 10, 23, Name, name);
        ghost var c := Reference(s1, 3, 22, Category, category).1;
        FourFields(IntField(2, phase), IntField(6, id), IntField(12, 1), IntField(12, 1));
        FourFields(n, c, BytesField(6, WriteMessage(LegacyFields(phase, id))), IntField(11, track));
        out := interns.Refer([], 10, 23, Name, name);
        assert out == WriteField(n);
        out := interns.Refer(out, 3, 22, Category, category);
        var legacy := AppendInteger([], 2, phase);
        assert legacy == WriteField(IntField(2, phase));
        legacy := AppendInteger(legacy, 6, id);
        legacy := AppendInteger(legacy, 12, 1);
        out := AppendBytes(out, 6, legacy);
        out := AppendInteger(out, 11, track);
    }
  }

  lemma PacketFields(timestamp: nat, definitions: seq<Field>, body: Field)
    ensures WriteMessage(Header(timestamp) + definitions + [body]) ==
      WriteField(IntField(8, timestamp)) + WriteField(IntField(58, 6)) + WriteField(IntField(10, 1)) +
        WriteField(IntField(13, 2))
      + WriteMessage(definitions) + WriteField(body)
  {
    hide WriteField, WriteMessage;
    FourFields(IntField(8, timestamp), IntField(58, 6), IntField(10, 1), IntField(13, 2));
    WriteConcat(Header(timestamp), definitions);
    WriteGrows(Header(timestamp) + definitions, body);
  }

  /** Appends one packet, with the definitions it is the first to use. */
  method AppendPacket(out: Text, interns: Interns, p: Packet) returns (out': Text)
    requires interns.Valid() && interns.State().pending == []
    modifies interns
    ensures interns.Valid() && interns.State() == Interning.Session(EncodePacket(old(interns.State().tables), p).0, [])
    ensures out' == out + WriteField(EncodePacket(old(interns.State().tables), p).1)
  {
    hide WriteField, EncodeBody;
    ghost var t := interns.State().tables;
    ghost var (s, fs) := EncodeBody(Interning.Session(t, []), p.body, p.track);
    ghost var definitions := if s.pending == [] then [] else [BytesField(12, WriteMessage(s.pending))];
    assert WriteMessage([]) == [];
    WriteOne(BytesField(12, WriteMessage(s.pending)));
    PacketFields(p.timestamp, definitions, BytesField(11, WriteMessage(fs)));
    NonemptyMessage(s.pending);
    hide WriteMessage;
    var body := WriteBody(interns, p.body, p.track);
    var packet := AppendInteger([], 8, p.timestamp);
    assert packet == WriteField(IntField(8, p.timestamp));
    packet := AppendInteger(packet, 58, 6);
    packet := AppendInteger(packet, 10, 1);
    packet := AppendInteger(packet, 13, 2);
    ghost var header := packet;
    var pending := interns.TakePending();
    if pending != [] {
      packet := AppendBytes(packet, 12, pending);
    }
    assert packet == header + WriteMessage(definitions);
    packet := AppendBytes(packet, 11, body);
    out' := AppendBytes(out, 1, packet);
  }

  lemma NonemptyMessage(fs: seq<Field>)
    ensures WriteMessage(fs) == [] <==> fs == []
  {
  }

  /** Appends a run of packets, carrying the dictionaries from one to the next. */
  method AppendPackets(out: Text, interns: Interns, ps: seq<Packet>) returns (out': Text)
    requires interns.Valid() && interns.State().pending == []
    modifies interns
    ensures interns.Valid() && interns.State() == Interning.Session(EncodeStream(old(interns.State().tables), ps).0, [])
    ensures out' == out + StreamBytes(old(interns.State().tables), ps)
  {
    out' := out;
    ghost var t := interns.State().tables;
    assert StreamBytes(t, ps[..0]) == [] && out + [] == out;
    for n := 0 to |ps|
      invariant interns.Valid() && interns.State() == Interning.Session(EncodeStream(t, ps[..n]).0, [])
      invariant out' == out + StreamBytes(t, ps[..n])
    {
      hide EncodePacket, EncodeStream, WriteMessage, WriteField;
      ghost var (t1, fs) := EncodeStream(t, ps[..n]);
      ghost var f := EncodePacket(t1, ps[n]).1;
      StreamStep(t, ps, n);
      WriteGrows(fs, f);
      Associate(out, WriteMessage(fs), WriteField(f));
      out' := AppendPacket(out', interns, ps[n]);
    }
    assert ps[..|ps|] == ps;
  }

  lemma StreamStep(t: Tables, ps: seq<Packet>, n: nat)
    requires n < |ps|
    ensures var (t1, fs) := EncodeStream(t, ps[..n]);
      var (t2, f) := EncodePacket(t1, ps[n]);
      EncodeStream(t, ps[..n + 1]) == (t2, fs + [f])
  {
    assert ps[..n + 1][..n] == ps[..n];
  }
}

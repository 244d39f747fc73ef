/** Trace packets as bytes and back: slices with annotations, slice ends and dependency arrows. */
module Packets {
  import opened Collections
  import opened Options
  import opened Wire
  import opened Interning

  ghost const TWO_64: int := 0x1_0000_0000_0000_0000
  ghost const TWO_63: int := 0x8000_0000_0000_0000

  /** Captured values: text (interned or always inline), or native scalars. */
  datatype Shown =
    | Words(text: Text, interned: bool)
    | Flag(bit: nat)
    | Unsigned(magnitude: nat)
    | Signed(number: int)

  datatype Annotation = Annotation(name: Text, shown: Shown)

  datatype Body =
    | Opening(category: Text, annotations: seq<Annotation>, name: Text)
    | Closing
    | Arrow(name: Text, category: Text, phase: nat, id: nat)

  datatype Packet = Packet(timestamp: nat, track: nat, body: Body)

  /** Signed scalars fit 64 bits. */
  ghost predicate Encodable(p: Packet) {
    p.body.Opening? ==> forall i :: 0 <= i < |p.body.annotations| ==> Fits(p.body.annotations[i].shown)
  }

  ghost predicate Fits(v: Shown) {
    v.Signed? ==> -TWO_63 <= v.number < TWO_63
  }

  // ---------------------------------------------------------------- values and annotations

  ghost function EncodeShown(s: Session, v: Shown): (Session, Field) {
    match v
    case Words(text, true) => Reference(s, 17, 6, Value, text)
    case Words(text, false) => (s, BytesField(6, text))
    case Flag(bit) => (s, IntField(2, bit))
    case Unsigned(n) => (s, IntField(3, n))
    case Signed(n) => (s, IntField(4, n % TWO_64))
  }

  ghost function ReadShown(t: Tables, f: Field): Option<Shown> {
    if f.IntField? && f.number == 2 then Some(Flag(f.value))
    else if f.IntField? && f.number == 3 then Some(Unsigned(f.value))
    else if f.IntField? && f.number == 4 then
      Some(Signed(if f.value < TWO_63 then f.value else f.value - TWO_64))
    else
      match ReadReference(t, 17, 6, Value, f)
      case None => None
      case Some(text) => Some(Words(text, true))
  }

  /** What a reader sees: whether text was interned is not visible. */
  ghost function Visible(v: Shown): Shown {
    if v.Words? then Words(v.text, true) else v
  }

  lemma ShownRoundTrip(t: Tables, s: Session, v: Shown, u: Tables)
    requires Teaches(t, s) && Fits(v)
    ensures Teaches(t, EncodeShown(s, v).0) && Extends(s.tables, EncodeShown(s, v).0.tables)
    ensures Extends(EncodeShown(s, v).0.tables, u) ==> ReadShown(u, EncodeShown(s, v).1) == Some(Visible(v))
  {
    hide Reference, LearnAll, ReadReference;
    match v
    case Words(text, interned) =>
      if interned {
        ReferenceTeaches(t, s, 17, 6, Value, text);
        ReferenceNumber(s, 17, 6, Value, text);
        if Extends(EncodeShown(s, v).0.tables, u) {
          ReferenceReads(s, 17, 6, Value, text, u);
        }
      } else {
        InlineReads(u, 17, 6, Value, text);
      }
    case Flag(_) =>
    case Unsigned(_) =>
    case Signed(n) =>
      Wraps(n);
  }

  lemma Wraps(n: int)
    requires -TWO_63 <= n < TWO_63
    ensures n % TWO_64 == if n < 0 then n + TWO_64 else n
  {
  }

  lemma InlineReads(u: Tables, iidField: nat, inlineField: nat, k: Kind, text: Text)
    ensures ReadReference(u, iidField, inlineField, k, BytesField(inlineField, text)) == Some(text)
  {
  }

  lemma ReferenceNumber(s: Session, iidField: nat, inlineField: nat, k: Kind, text: Text)
    ensures var f := Reference(s, iidField, inlineField, k, text).1; f.number == if f.IntField? then iidField
      else inlineField
  {
    hide Total, IndexOf;
  }

  ghost function EncodeAnnotation(s: Session, a: Annotation): (Session, Field) {
    var (s1, name) := Reference(s, 1, 10, AnnotationName, a.name);
    var (s2, shown) := EncodeShown(s1, a.shown);
    (s2, BytesField(4, WriteMessage([name, shown])))
  }

  ghost function ReadAnnotation(t: Tables, f: Field): Option<Annotation> {
    if !f.BytesField? || f.number != 4 then None else
    match ReadMessage(f.payload)
    case None => None
    case Some(fs) =>
      if |fs| != 2 then None else
      var name, shown := ReadReference(t, 1, 10, AnnotationName, fs[0]), ReadShown(t, fs[1]);
      if name == None || shown == None then None else Some(Annotation(name.value, shown.value))
  }

  ghost function VisibleAnnotation(a: Annotation): Annotation {
    a.(shown := Visible(a.shown))
  }

  lemma AnnotationRoundTrip(t: Tables, s: Session, a: Annotation, u: Tables)
    requires Teaches(t, s) && Fits(a.shown)
    ensures var (s', f) := EncodeAnnotation(s, a);
      && Teaches(t, s') && Extends(s.tables, s'.tables)
      && (Extends(s'.tables, u) ==> ReadAnnotation(u, f) == Some(VisibleAnnotation(a)))
  {
    hide Reference, EncodeShown, ReadReference, ReadShown, Visible, Teaches, Extends, Fits, WriteMessage, ReadMessage;
    var (s1, name) := Reference(s, 1, 10, AnnotationName, a.name);
    var (s2, shown) := EncodeShown(s1, a.shown);
    ReferenceTeaches(t, s, 1, 10, AnnotationName, a.name);
    ShownRoundTrip(t, s1, a.shown, u);
    ExtendsTransitive(s.tables, s1.tables, s2.tables);
    MessageRoundTrip([name, shown]);
    if Extends(s2.tables, u) {
      ExtendsTransitive(s1.tables, s2.tables, u);
      ReferenceReads(s, 1, 10, AnnotationName, a.name, u);
    }
  }

  ghost function EncodeAnnotations(s: Session, annotations: seq<Annotation>): (r: (Session, seq<Field>))
    ensures |r.1| == |annotations|
  {
    if annotations == [] then (s, []) else
    var (s1, fs) := EncodeAnnotations(s, annotations[..|annotations| - 1]);
    var (s2, f) := EncodeAnnotation(s1, annotations[|annotations| - 1]);
    (s2, fs + [f])
  }

  ghost function ReadAnnotations(t: Tables, fs: seq<Field>): Option<seq<Annotation>>
    decreases |fs|
  {
    if fs == [] then Some([]) else
    var before, last := ReadAnnotations(t, fs[..|fs| - 1]), ReadAnnotation(t, fs[|fs| - 1]);
    if before == None || last == None then None else Some(before.value + [last.value])
  }

  ghost function VisibleAnnotations(annotations: seq<Annotation>): seq<Annotation> {
    if annotations == [] then []
    else VisibleAnnotations(annotations[..|annotations| - 1]) + [VisibleAnnotation(annotations[|annotations| - 1])]
  }

  lemma {:induction false} AnnotationsRoundTrip(t: Tables, s: Session, annotations: seq<Annotation>, u: Tables)
    requires Teaches(t, s) && forall i :: 0 <= i < |annotations| ==> Fits(annotations[i].shown)
    ensures var (s', fs) := EncodeAnnotations(s, annotations);
      && Teaches(t, s') && Extends(s.tables, s'.tables)
      && (Extends(s'.tables, u) ==> ReadAnnotations(u, fs) == Some(VisibleAnnotations(annotations)))
    decreases |annotations|
  {
    hide EncodeAnnotation, ReadAnnotation, VisibleAnnotation, Teaches, Fits;
    if annotations != [] {
      var front, a := annotations[..|annotations| - 1], annotations[|annotations| - 1];
      AnnotationsRoundTrip(t, s, front, u);
      var (s1, fs) := EncodeAnnotations(s, front);
      AnnotationRoundTrip(t, s1, a, u);
      var (s2, f) := EncodeAnnotation(s1, a);
      assert (fs + [f])[..|fs + [f]| - 1] == fs;
    }
  }

  // ---------------------------------------------------------------- bodies

  ghost function LegacyFields(phase: nat, id: nat): seq<Field> {
    [IntField(2, phase), IntField(6, id), IntField(12, 1)]
  }

  ghost function EncodeBody(s: Session, body: Body, track: nat): (Session, seq<Field>) {
    match body
    case Opening(category, annotations, name) =>
      var (s1, c) := Reference(s, 3, 22, Category, category);
      var (s2, fs) := EncodeAnnotations(s1, annotations);
      var (s3, n) := Reference(s2, 10, 23, Name, name);
      (s3, [IntField(9, 1), c] + fs + [n, IntField(11, track)])
    case Closing =>
      (s, [IntField(9, 2), IntField(11, track)])
    case Arrow(name, category, phase, id) =>
      var (s1, n) := Reference(s, 10, 23, Name, name);
      var (s2, c) := Reference(s1, 3, 22, Category, category);
      (s2, [n, c, BytesField(6, WriteMessage(LegacyFields(phase, id))), IntField(11, track)])
  }

  ghost function ReadOpening(t: Tables, fs: seq<Field>): Option<Body>
    requires |fs| >= 4
  {
    var category, name := ReadReference(t, 3, 22, Category, fs[1]), ReadReference(t, 10, 23, Name, fs[|fs| - 2]);
    var annotations := ReadAnnotations(t, fs[2..|fs| - 2]);
    if category == None || name == None || annotations == None then None
    else Some(Opening(category.value, annotations.value, name.value))
  }

  ghost function ReadArrow(t: Tables, fs: seq<Field>): Option<Body>
    requires |fs| == 4
  {
    var name, category := ReadReference(t, 10, 23, Name, fs[0]), ReadReference(t, 3, 22, Category, fs[1]);
    if name == None || category == None || !fs[2].BytesField? || fs[2].number != 6 then None else
    match ReadMessage(fs[2].payload)
    case None => None
    case Some(legacy) =>
      if |legacy| == 3 && legacy[0].IntField? && legacy[0].number == 2 && legacy[1].IntField? && legacy[1].number == 6
        && legacy[2] == IntField(12, 1)
      then Some(Arrow(name.value, category.value, legacy[0].value, legacy[1].value))
      else None
  }

  ghost function ReadBody(t: Tables, fs: seq<Field>): Option<(Body, nat)> {
    if |fs| < 2 || !fs[|fs| - 1].IntField? || fs[|fs| - 1].number != 11 then None else
    var track := fs[|fs| - 1].value;
    if |fs| == 2 && fs[0] == IntField(9, 2) then Some((Closing, track))
    else if |fs| >= 4 && fs[0] == IntField(9, 1) then
      var body := ReadOpening(t, fs);
      if body == None then None else Some((body.value, track))
    else if |fs| == 4 then
      var body := ReadArrow(t, fs);
      if body == None then None else Some((body.value, track))
    else None
  }

  ghost function VisibleBody(b: Body): Body {
    if b.Opening? then b.(annotations := VisibleAnnotations(b.annotations)) else b
  }

  lemma OpeningRoundTrip(t: Tables, s: Session, category: Text, annotations: seq<Annotation>, name: Text, track: nat)
    requires Teaches(t, s) && forall i :: 0 <= i < |annotations| ==> Fits(annotations[i].shown)
    ensures var (s', fs) := EncodeBody(s, Opening(category, annotations, name), track);
      Teaches(t, s') && ReadBody(s'.tables, fs) ==
        Some((Opening(category, VisibleAnnotations(annotations), name), track))
  {
    hide Reference, EncodeAnnotations, ReadReference, ReadAnnotations, VisibleAnnotations, Teaches, Extends, Fits;
    hide ReadBody;
    var (s1, c) := Reference(s, 3, 22, Category, category);
    ReferenceTeaches(t, s, 3, 22, Category, category);
    var (s2, fs) := EncodeAnnotations(s1, annotations);
    var (s3, n) := Reference(s2, 10, 23, Name, name);
    AnnotationsRoundTrip(t, s1, annotations, s3.tables);
    ReferenceTeaches(t, s2, 10, 23, Name, name);
    ExtendsTransitive(s1.tables, s2.tables, s3.tables);
    ReferenceReads(s, 3, 22, Category, category, s3.tables);
    assert Extends(s3.tables, s3.tables) by {
      ExtendsItself(s3.tables);
    }
    ReferenceReads(s2, 10, 23, Name, name, s3.tables);
    OpeningParses(s3.tables, c, fs, n, track, category, VisibleAnnotations(annotations), name);
  }

  lemma OpeningParses(t: Tables, c: Field, fs: seq<Field>, n: Field, track: nat, category: Text,
                      annotations: seq<Annotation>, name: Text)
    requires ReadReference(t, 3, 22, Category, c) == Some(category)
    requires ReadAnnotations(t, fs) == Some(annotations)
    requires ReadReference(t, 10, 23, Name, n) == Some(name)
    ensures ReadBody(t, [IntField(9, 1), c] + fs + [n, IntField(11, track)]) ==
      Some((Opening(category, annotations, name), track))
  {
    hide ReadReference, ReadAnnotations;
    var all := [IntField(9, 1), c] + fs + [n, IntField(11, track)];
    assert all[2..|all| - 2] == fs;
    assert |all| >= 4 && all[0] == IntField(9, 1) && all[1] == c && all[|all| - 2] == n &&
      all[|all| - 1] == IntField(11, track);
  }


  lemma ExtendsItself(t: Tables)
    ensures Extends(t, t)
  {
  }

  lemma ArrowRoundTrip(t: Tables, s: Session, name: Text, category: Text, phase: nat, id: nat, track: nat)
    requires Teaches(t, s)
    ensures var (s', fs) := EncodeBody(s, Arrow(name, category, phase, id), track);
      Teaches(t, s') && ReadBody(s'.tables, fs) == Some((Arrow(name, category, phase, id), track))
  {
    hide Reference, ReadReference, Teaches, Extends, WriteMessage, ReadMessage;
    var (s1, n) := Reference(s, 10, 23, Name, name);
    var (s2, c) := Reference(s1, 3, 22, Category, category);
    ReferenceTeaches(t, s, 10, 23, Name, name);
    ReferenceTeaches(t, s1, 3, 22, Category, category);
    ExtendsItself(s2.tables);
    ReferenceReads(s, 10, 23, Name, name, s2.tables);
    ReferenceReads(s1, 3, 22, Category, category, s2.tables);
    ReferenceNumber(s, 10, 23, Name, name);
    MessageRoundTrip(LegacyFields(phase, id));
  }

  lemma BodyRoundTrip(t: Tables, s: Session, p: Packet)
    requires Teaches(t, s) && Encodable(p)
    ensures var (s', fs) := EncodeBody(s, p.body, p.track);
      Teaches(t, s') && ReadBody(s'.tables, fs) == Some((VisibleBody(p.body), p.track))
  {
    hide EncodeBody, ReadBody, Teaches;
    match p.body
    case Opening(category, annotations, name) =>
      OpeningRoundTrip(t, s, category, annotations, name, p.track);
    case Closing =>
      ClosingRoundTrip(s, p.track);
    case Arrow(name, category, phase, id) =>
      ArrowRoundTrip(t, s, name, category, phase, id, p.track);
  }

  lemma ClosingRoundTrip(s: Session, track: nat)
    ensures EncodeBody(s, Closing, track) == (s, [IntField(9, 2), IntField(11, track)])
    ensures ReadBody(s.tables, [IntField(9, 2), IntField(11, track)]) == Some((Closing, track))
  {
  }

  // ---------------------------------------------------------------- packets and streams

  ghost function Header(timestamp: nat): seq<Field> {
    [IntField(8, timestamp), IntField(58, 6), IntField(10, 1), IntField(13, 2)]
  }

  ghost function EncodePacket(t: Tables, p: Packet): (Tables, Field) {
    var (s, body) := EncodeBody(Session(t, []), p.body, p.track);
    var definitions := if s.pending == [] then [] else [BytesField(12, WriteMessage(s.pending))];
    (s.tables, BytesField(1, WriteMessage(Header(p.timestamp) + definitions + [BytesField(11, WriteMessage(body))])))
  }

  /** Definitions first, then the body they are for. */
  ghost function ReadPacket(t: Tables, f: Field): Option<(Tables, Packet)> {
    if !f.BytesField? || f.number != 1 then None else
    match ReadMessage(f.payload)
    case None => None
    case Some(fs) =>
      if |fs| < 5 || |fs| > 6 || !fs[0].IntField? || fs[0].number != 8 then None else
      if fs[1] != IntField(58, 6) || fs[2] != IntField(10, 1) || fs[3] != IntField(13, 2) then None else
      var definitions := if |fs| == 5 then Some([]) else if fs[4].BytesField? && fs[4].number == 12
        then ReadMessage(fs[4].payload) else None;
      var payload := fs[|fs| - 1];
      if definitions == None || !payload.BytesField? || payload.number != 11 then None else
      var tables, body := LearnAll(t, definitions.value), ReadMessage(payload.payload);
      if tables == None || body == None then None else
      match ReadBody(tables.value, body.value)
      case None => None
      case Some((b, track)) => Some((tables.value, Packet(fs[0].value, track, b)))
  }

  ghost function VisiblePacket(p: Packet): Packet {
    p.(body := VisibleBody(p.body))
  }

  lemma PacketRoundTrip(t: Tables, p: Packet)
    requires Encodable(p)
    ensures var (t', f) := EncodePacket(t, p); ReadPacket(t, f) == Some((t', VisiblePacket(p)))
  {
    hide EncodeBody, ReadBody, VisibleBody, WriteMessage, ReadMessage, Encodable;
    var (s, body) := EncodeBody(Session(t, []), p.body, p.track);
    TeachesNothing(t);
    BodyRoundTrip(t, Session(t, []), p);
    var definitions := if s.pending == [] then [] else [BytesField(12, WriteMessage(s.pending))];
    var fs := Header(p.timestamp) + definitions + [BytesField(11, WriteMessage(body))];
    MessageRoundTrip(s.pending);
    MessageRoundTrip(body);
    MessageRoundTrip(fs);
    assert fs[..4] == Header(p.timestamp);
    TeachesLearns(t, s);
    hide Teaches, LearnAll;
  }

  lemma TeachesNothing(t: Tables)
    ensures Teaches(t, Session(t, []))
  {
  }

  lemma TeachesLearns(t: Tables, s: Session)
    requires Teaches(t, s)
    ensures LearnAll(t, s.pending) == Some(s.tables)
  {
  }

  ghost function EncodeStream(t: Tables, ps: seq<Packet>): (Tables, seq<Field>)
    decreases |ps|
  {
    if ps == [] then (t, []) else
    var (t1, fs) := EncodeStream(t, ps[..|ps| - 1]);
    var (t2, f) := EncodePacket(t1, ps[|ps| - 1]);
    (t2, fs + [f])
  }

  ghost function ReadPackets(t: Tables, fs: seq<Field>): Option<(Tables, seq<Packet>)>
    decreases |fs|
  {
    if fs == [] then Some((t, [])) else
    match ReadPackets(t, fs[..|fs| - 1])
    case None => None
    case Some((t1, ps)) =>
      match ReadPacket(t1, fs[|fs| - 1])
      case None => None
      case Some((t2, p)) => Some((t2, ps + [p]))
  }

  /** The bytes of a stream that continues one whose dictionaries are `t`. */
  ghost function StreamBytes(t: Tables, ps: seq<Packet>): Text {
    WriteMessage(EncodeStream(t, ps).1)
  }

  ghost function ReadStream(t: Tables, bytes: Text): Option<(Tables, seq<Packet>)> {
    match ReadMessage(bytes)
    case None => None
    case Some(fs) => ReadPackets(t, fs)
  }

  ghost function VisiblePackets(ps: seq<Packet>): seq<Packet> {
    if ps == [] then [] else VisiblePackets(ps[..|ps| - 1]) + [VisiblePacket(ps[|ps| - 1])]
  }

  lemma {:induction false} PacketsRoundTrip(t: Tables, ps: seq<Packet>)
    requires forall i :: 0 <= i < |ps| ==> Encodable(ps[i])
    ensures var (t', fs) := EncodeStream(t, ps); ReadPackets(t, fs) == Some((t', VisiblePackets(ps)))
    decreases |ps|
  {
    hide EncodePacket, ReadPacket, VisiblePacket, Encodable;
    if ps != [] {
      var front, p := ps[..|ps| - 1], ps[|ps| - 1];
      PacketsRoundTrip(t, front);
      var (t1, fs) := EncodeStream(t, front);
      PacketRoundTrip(t1, p);
      var (t2, f) := EncodePacket(t1, p);
      assert (fs + [f])[..|fs + [f]| - 1] == fs;
    }
  }

  /** From the bytes alone a reader recovers every packet, with every string and integer, whether it
      was interned or fell back to inline text, and ends with the encoder's dictionaries. */
  lemma StreamRoundTrip(t: Tables, ps: seq<Packet>)
    requires forall i :: 0 <= i < |ps| ==> Encodable(ps[i])
    ensures ReadStream(t, StreamBytes(t, ps)) == Some((EncodeStream(t, ps).0, VisiblePackets(ps)))
  {
    hide WriteMessage, ReadMessage, ReadPackets, EncodeStream, Encodable, VisiblePackets;
    MessageRoundTrip(EncodeStream(t, ps).1);
    PacketsRoundTrip(t, ps);
  }

  lemma {:induction false} EncodeConcat(t: Tables, a: seq<Packet>, b: seq<Packet>)
    ensures var (t1, fs) := EncodeStream(t, a);
      var (t2, gs) := EncodeStream(t1, b);
      EncodeStream(t, a + b) == (t2, fs + gs)
    decreases |b|
  {
    hide EncodePacket;
    var (t1, fs) := EncodeStream(t, a);
    if b == [] {
      assert a + b == a && fs + [] == fs;
    } else {
      var front, p := b[..|b| - 1], b[|b| - 1];
      EncodeConcat(t, a, front);
      assert (a + b)[..|a + b| - 1] == a + front && (a + b)[|a + b| - 1] == p;
      var (t3, hs) := EncodeStream(t1, front);
      Associate(fs, hs, [EncodePacket(t3, p).1]);
    }
  }

  /** Carrying the dictionaries from batch to batch gives the bytes of encoding everything at once. */
  lemma BytesConcat(t: Tables, a: seq<Packet>, b: seq<Packet>)
    ensures StreamBytes(t, a + b) == StreamBytes(t, a) + StreamBytes(EncodeStream(t, a).0, b)
  {
    hide EncodeStream, WriteMessage;
    EncodeConcat(t, a, b);
    WriteConcat(EncodeStream(t, a).1, EncodeStream(EncodeStream(t, a).0, b).1);
  }

  // ---------------------------------------------------------------- dictionary limits

  lemma ShownLimits(s: Session, v: Shown)
    requires WithinLimits(s.tables)
    ensures WithinLimits(EncodeShown(s, v).0.tables)
  {
    hide Reference, WithinLimits;
    if v.Words? && v.interned {
      ReferenceKeepsLimits(s, 17, 6, Value, v.text);
    }
  }

  lemma {:induction false} AnnotationsLimits(s: Session, annotations: seq<Annotation>)
    requires WithinLimits(s.tables)
    ensures WithinLimits(EncodeAnnotations(s, annotations).0.tables)
    decreases |annotations|
  {
    hide Reference, EncodeShown, WithinLimits;
    if annotations != [] {
      var front, a := annotations[..|annotations| - 1], annotations[|annotations| - 1];
      AnnotationsLimits(s, front);
      var s1 := EncodeAnnotations(s, front).0;
      ReferenceKeepsLimits(s1, 1, 10, AnnotationName, a.name);
      ShownLimits(Reference(s1, 1, 10, AnnotationName, a.name).0, a.shown);
    }
  }

  lemma BodyLimits(s: Session, body: Body, track: nat)
    requires WithinLimits(s.tables)
    ensures WithinLimits(EncodeBody(s, body, track).0.tables)
  {
    hide Reference, EncodeAnnotations, WithinLimits;
    match body
    case Opening(category, annotations, name) =>
      var s1 := Reference(s, 3, 22, Category, category).0;
      ReferenceKeepsLimits(s, 3, 22, Category, category);
      AnnotationsLimits(s1, annotations);
      ReferenceKeepsLimits(EncodeAnnotations(s1, annotations).0, 10, 23, Name, name);
    case Closing =>
    case Arrow(name, category, _, _) =>
      ReferenceKeepsLimits(s, 10, 23, Name, name);
      ReferenceKeepsLimits(Reference(s, 10, 23, Name, name).0, 3, 22, Category, category);
  }

  /** However long the stream, every dictionary stays within its limits. */
  lemma {:induction false} StreamLimits(t: Tables, ps: seq<Packet>)
    requires WithinLimits(t)
    ensures WithinLimits(EncodeStream(t, ps).0)
    decreases |ps|
  {
    hide EncodeBody, WithinLimits;
    if ps != [] {
      StreamLimits(t, ps[..|ps| - 1]);
      BodyLimits(Session(EncodeStream(t, ps[..|ps| - 1]).0, []), ps[|ps| - 1].body, ps[|ps| - 1].track);
    }
  }
}

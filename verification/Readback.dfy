/** The packets the exporter writes for its events, and when their bytes determine what was recorded. */
module Readback {
  import opened EventModel
  import opened Encoder
  import opened History
  import opened Wire
  import opened Interning
  import opened Packets
  import opened ByteHistory
  import opened Stamping
  import opened Ambiguity
  import opened Printing

  // ---------------------------------------------------------------- text

  /** Text of plain characters as bytes. */
  function Ascii(s: string): Text {
    if s == "" then [] else [s[0] as nat % 256] + Ascii(s[1..])
  }

  /** Text of plain characters loses nothing. */
  lemma {:induction false} AsciiOnce(s: string, t: string)
    requires Narrow(s) && Narrow(t) && Ascii(s) == Ascii(t)
    ensures s == t
  {
    if s != "" && t != "" {
      assert Ascii(s)[0] == Ascii(t)[0] && Ascii(s)[1..] == Ascii(t)[1..];
      AsciiOnce(s[1..], t[1..]);
      assert s == [s[0]] + s[1..] && t == [t[0]] + t[1..];
    }
  }

  /** A number as decimal text. */
  function NumberText(n: int): Text {
    Ascii(DecimalText(n))
  }

  lemma NumberTextOnce(n: int, m: int)
    requires NumberText(n) == NumberText(m)
    ensures n == m
  {
    hide DecimalText, Canonical, ParseInt, Ascii, Narrow;
    CanonicalNarrow(DecimalText(n));
    CanonicalNarrow(DecimalText(m));
    AsciiOnce(DecimalText(n), DecimalText(m));
  }

  // ---------------------------------------------------------------- packets

  /** The name of a slice and its captured annotations. */
  datatype Look = Look(name: Text, captures: seq<Annotation>)

  ghost const EVENT: Text := Ascii("rhodium.event")
  ghost const FLOW: Text := Ascii("rhodium.flow")
  ghost const DEPENDENCY: Text := Ascii("dependency")
  ghost const SEQUENCE: Text := Ascii("sequence")
  ghost const CYCLE: Text := Ascii("cycle")
  ghost const STARTS: nat := 's' as int
  ghost const FINISHES: nat := 'f' as int

  /** Counters are exact text that is never interned. */
  ghost function Counters(sequence: nat, cycle: nat): seq<Annotation> {
    [Annotation(SEQUENCE, Words(NumberText(sequence), false)), Annotation(CYCLE, Words(NumberText(cycle), false))]
  }

  ghost function ShowStamped(s: Stamped<Look>): Packet {
    match s
    case Opens(t, ns, sequence, cycle, look) => Packet(ns, t + 1,
      Opening(EVENT, Counters(sequence, cycle) + look.captures, look.name))
    case Closes(t, ns) => Packet(ns, t + 1, Closing)
    case Starts(t, ns, id) => Packet(ns, t + 1, Arrow(DEPENDENCY, FLOW, STARTS, id))
    case Arrives(t, ns, id) => Packet(ns, t + 1, Arrow(DEPENDENCY, FLOW, FINISHES, id))
  }

  /** How the exporter displays an event. */
  ghost function Show(d: Description, caption: Caption<Look>): Display {
    e => ShowStamped(StampOne(d, caption, e))
  }

  ghost predicate Interned(a: Annotation) {
    a.shown.Words? ==> a.shown.interned
  }

  /** Captured values are interned text or scalars that fit. */
  ghost predicate Plain(look: Look) {
    forall i :: 0 <= i < |look.captures| ==> Packets.Fits(look.captures[i].shown) && Interned(look.captures[i])
  }

  ghost predicate PlainCaptions(caption: Caption<Look>) {
    forall s, w :: Plain(caption(s, w))
  }

  ghost predicate PlainStamp(s: Stamped<Look>) {
    s.Opens? ==> Plain(s.look)
  }

  lemma {:induction false} PlainVisible(captures: seq<Annotation>)
    requires forall i :: 0 <= i < |captures| ==> Interned(captures[i])
    ensures VisibleAnnotations(captures) == captures
    decreases |captures|
  {
    if captures != [] {
      hide Interned;
      var front, last := captures[..|captures| - 1], captures[|captures| - 1];
      PlainVisible(front);
      InternedVisible(last);
      assert front + [last] == captures;
    }
  }

  lemma InternedVisible(a: Annotation)
    requires Interned(a)
    ensures VisibleAnnotation(a) == a
  {
  }

  lemma {:induction false} VisibleConcat(a: seq<Annotation>, b: seq<Annotation>)
    ensures VisibleAnnotations(a + b) == VisibleAnnotations(a) + VisibleAnnotations(b)
    decreases |b|
  {
    if b == [] {
      assert a + b == a && VisibleAnnotations(b) == [];
    } else {
      var front, last := b[..|b| - 1], b[|b| - 1];
      VisibleConcat(a, front);
      assert (a + b)[..|a + b| - 1] == a + front && (a + b)[|a + b| - 1] == last;
    }
  }

  lemma VisibleSingle(a: Annotation)
    ensures VisibleAnnotations([a]) == [VisibleAnnotation(a)]
  {
    assert [a][..0] == [];
  }

  lemma VisibleCounters(sequence: nat, cycle: nat)
    ensures VisibleAnnotations(Counters(sequence, cycle)) ==
      [Annotation(SEQUENCE, Words(NumberText(sequence), true)), Annotation(CYCLE, Words(NumberText(cycle), true))]
  {
    hide VisibleAnnotations, NumberText, Ascii;
    var a, b := Counters(sequence, cycle)[0], Counters(sequence, cycle)[1];
    VisibleConcat([a], [b]);
    assert [a] + [b] == Counters(sequence, cycle);
    VisibleSingle(a);
    VisibleSingle(b);
  }

  lemma VisibleOpening(sequence: nat, cycle: nat, look: Look)
    requires Plain(look)
    ensures VisibleAnnotations(Counters(sequence, cycle) + look.captures) ==
      [Annotation(SEQUENCE, Words(NumberText(sequence), true)), Annotation(CYCLE, Words(NumberText(cycle), true))] +
        look.captures
  {
    VisibleConcat(Counters(sequence, cycle), look.captures);
    VisibleCounters(sequence, cycle);
    PlainVisible(look.captures);
  }

  /** What a reader sees of a packet tells which stamped event it shows. */
  lemma ShownOnce(a: Stamped<Look>, b: Stamped<Look>)
    requires PlainStamp(a) && PlainStamp(b)
    requires VisiblePacket(ShowStamped(a)) == VisiblePacket(ShowStamped(b))
    ensures a == b
  {
    hide Counters, NumberText, VisibleAnnotations, Ascii;
    if a.Opens? && b.Opens? {
      VisibleOpening(a.sequence, a.cycle, a.look);
      VisibleOpening(b.sequence, b.cycle, b.look);
      OpeningOnce(a, b);
    }
  }

  lemma OpeningOnce(a: Stamped<Look>, b: Stamped<Look>)
    requires a.Opens? && b.Opens? && a.track == b.track && a.ns == b.ns && a.look.name == b.look.name
    requires [Annotation(SEQUENCE, Words(NumberText(a.sequence), true)),
      Annotation(CYCLE, Words(NumberText(a.cycle), true))] + a.look.captures
          == [Annotation(SEQUENCE, Words(NumberText(b.sequence), true)),
            Annotation(CYCLE, Words(NumberText(b.cycle), true))] + b.look.captures
    ensures a == b
  {
    hide NumberText, Ascii;
    var x := [Annotation(SEQUENCE, Words(NumberText(a.sequence), true)),
      Annotation(CYCLE, Words(NumberText(a.cycle), true))];
    var y := [Annotation(SEQUENCE, Words(NumberText(b.sequence), true)),
      Annotation(CYCLE, Words(NumberText(b.cycle), true))];
    SplitSame(x, a.look.captures, y, b.look.captures);
    assert x[0] == y[0] && x[1] == y[1];
    NumberTextOnce(a.sequence, b.sequence);
    NumberTextOnce(a.cycle, b.cycle);
  }

  lemma SplitSame<T>(a: seq<T>, b: seq<T>, x: seq<T>, y: seq<T>)
    requires |a| == |x| && a + b == x + y
    ensures a == x && b == y
  {
    assert (a + b)[..|a|] == a && (x + y)[..|a|] == x;
    assert (a + b)[|a|..] == b && (x + y)[|a|..] == y;
  }

  // ---------------------------------------------------------------- bytes and stamped streams

  lemma {:induction false} StampAt<L(!new)>(d: Description, caption: Caption<L>, es: seq<Event>)
    ensures |Stamp(d, caption, es)| == |es|
    ensures forall i :: 0 <= i < |es| ==> Stamp(d, caption, es)[i] == StampOne(d, caption, es[i])
    decreases |es|
  {
    if es != [] {
      StampAt(d, caption, es[1..]);
    }
  }

  lemma {:induction false} VisibleAt(ps: seq<Packet>)
    ensures |VisiblePackets(ps)| == |ps|
    ensures forall i :: 0 <= i < |ps| ==> VisiblePackets(ps)[i] == VisiblePacket(ps[i])
    decreases |ps|
  {
    if ps != [] {
      VisibleAt(ps[..|ps| - 1]);
    }
  }

  lemma PlainOne(d: Description, caption: Caption<Look>, e: Event)
    requires PlainCaptions(caption)
    ensures PlainStamp(StampOne(d, caption, e)) && Encodable(Show(d, caption)(e))
  {
    hide Counters, NumberText, Ascii, Packets.Fits;
    if e.Begin? {
      var look := caption(e.ref.site, e.node.words);
      assert Plain(look);
      CountersFit(e.ref.sequence, e.cycle);
      var counters := Counters(e.ref.sequence, e.cycle);
      forall i | 0 <= i < |counters + look.captures|
        ensures Packets.Fits((counters + look.captures)[i].shown)
      {
        if i >= |counters| {
          assert (counters + look.captures)[i] == look.captures[i - |counters|];
        }
      }
    }
  }

  lemma CountersFit(sequence: nat, cycle: nat)
    ensures forall i :: 0 <= i < |Counters(sequence, cycle)| ==> Packets.Fits(Counters(sequence, cycle)[i].shown)
  {
  }

  /** Streams that look alike packet by packet are one stamped stream. */
  lemma VisibleStamps(d: Description, caption: Caption<Look>, es: seq<Event>, fs: seq<Event>)
    requires PlainCaptions(caption)
    requires VisiblePackets(Render(Show(d, caption), es)) == VisiblePackets(Render(Show(d, caption), fs))
    ensures Stamp(d, caption, es) == Stamp(d, caption, fs)
  {
    hide ShowStamped, StampOne, VisiblePacket, Plain, PlainStamp;
    var ps, qs := Render(Show(d, caption), es), Render(Show(d, caption), fs);
    VisibleAt(ps);
    VisibleAt(qs);
    StampAt(d, caption, es);
    StampAt(d, caption, fs);
    forall i | 0 <= i < |es|
      ensures Stamp(d, caption, es)[i] == Stamp(d, caption, fs)[i]
    {
      assert VisiblePackets(ps)[i] == VisiblePackets(qs)[i];
      PlainOne(d, caption, es[i]);
      PlainOne(d, caption, fs[i]);
      ShownOnce(StampOne(d, caption, es[i]), StampOne(d, caption, fs[i]));
    }
  }

  lemma StampsRender(d: Description, caption: Caption<Look>, es: seq<Event>, fs: seq<Event>)
    requires Stamp(d, caption, es) == Stamp(d, caption, fs)
    ensures Render(Show(d, caption), es) == Render(Show(d, caption), fs)
  {
    hide ShowStamped, StampOne;
    StampAt(d, caption, es);
    StampAt(d, caption, fs);
    forall i | 0 <= i < |es|
      ensures Show(d, caption)(es[i]) == Show(d, caption)(fs[i])
    {
      assert Stamp(d, caption, es)[i] == Stamp(d, caption, fs)[i];
    }
  }

  ghost predicate SameBytes(d: Description, caption: Caption<Look>, xs: seq<Batch>, ys: seq<Batch>) {
    FinishedBytes(d, Show(d, caption), xs) == FinishedBytes(d, Show(d, caption), ys)
  }

  /** Two finished runs wrote the same bytes exactly when their stamped streams are the same: timestamps,
      counters, captions and flow identities, and nothing else, survive serialization. */
  lemma BytesAreStamps(d: Description, caption: Caption<Look>, xs: seq<Batch>, ys: seq<Batch>)
    requires PlainCaptions(caption)
    ensures SameBytes(d, caption, xs, ys) <==> SameStream(d, caption, xs, ys)
  {
    hide FinishedBytes, Finish, Feed, Show, Stamp, Render, StreamBytes, EncodeStream, ReadStream, VisiblePackets;
    hide Encodable;
    var es, fs := Finish(Feed(d, xs)), Finish(Feed(d, ys));
    BytesAreOneStream(d, Show(d, caption), xs);
    BytesAreOneStream(d, Show(d, caption), ys);
    if SameBytes(d, caption, xs, ys) {
      RunEncodable(d, caption, es);
      RunEncodable(d, caption, fs);
      RunReadsBack(d, Show(d, caption), xs);
      RunReadsBack(d, Show(d, caption), ys);
      VisibleStamps(d, caption, es, fs);
    }
    if SameStream(d, caption, xs, ys) {
      StampsRender(d, caption, es, fs);
    }
  }

  lemma RunEncodable(d: Description, caption: Caption<Look>, es: seq<Event>)
    requires PlainCaptions(caption)
    ensures forall i :: 0 <= i < |es| ==> Encodable(Show(d, caption)(es[i]))
  {
    forall i | 0 <= i < |es|
      ensures Encodable(Show(d, caption)(es[i]))
    {
      PlainOne(d, caption, es[i]);
    }
  }

  /** The bytes of a finished run determine the graph it recorded exactly when cycles are no shorter than
      a nanosecond or no site is a stall, and captions tell the slices of a track apart. */
  lemma BytesDetermineIff(d: Description, caption: Caption<Look>)
    requires d.Valid() && PlainCaptions(caption)
    ensures Readable(d, caption) <==> forall xs, ys :: SameBytes(d, caption, xs, ys) ==> SameGraph(d, xs, ys)
  {
    hide Readable, SameBytes, SameStream, SameGraph, PlainCaptions;
    ReadableIff(d, caption);
    if Readable(d, caption) {
      forall xs, ys | SameBytes(d, caption, xs, ys)
        ensures SameGraph(d, xs, ys)
      {
        BytesAreStamps(d, caption, xs, ys);
      }
    } else {
      var xs, ys :| SameStream(d, caption, xs, ys) && !SameGraph(d, xs, ys);
      BytesAreStamps(d, caption, xs, ys);
    }
  }
}

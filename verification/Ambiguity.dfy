/** Recordings that the packets cannot tell apart: where a stamped stream does not determine what was
    recorded, and the exact condition under which it does. */
module Ambiguity {
  import opened Machine
  import opened Options
  import opened Collections
  import opened Power
  import opened Ordering
  import opened EventModel
  import opened Worklist
  import opened Encoder
  import opened Runs
  import opened Batching
  import opened Decoding
  import opened Lossless
  import opened History
  import opened Stamping

  // ---------------------------------------------------------------- small recordings

  /** A batch without dependencies can be ordered. */
  lemma NoLoops(nodes: map<Ref, Node>)
    ensures Complete(nodes, {}, nodes.Keys)
  {
    hide Complete;
    forall walk
      ensures !SameCycleLoop(nodes, {}, walk)
    {
      if SameCycleLoop(nodes, {}, walk) {
        FirstEdge({}, walk);
        assert false;
      }
    }
    ShortIffSameCycleLoop(nodes, {});
  }

  lemma FirstEdge(edges: set<Edge>, walk: seq<Ref>)
    requires Cycle(edges, walk)
    ensures Edge(walk[0], walk[1]) in edges
  {
  }

  ghost function Occurrence(d: Description, site: nat, cycle: U64, words: map<nat, U32>): Node
    requires site < |d.widths|
  {
    Node(true, cycle, d.widths[site], words)
  }

  /** One occurrence, first of its site. */
  ghost function Alone(d: Description, site: nat, cycle: U64, words: map<nat, U32>, boundary: U64): Batch
    requires site < |d.widths|
  {
    Batch(boundary, map[Ref(site, 0) := Occurrence(d, site, cycle, words)], {})
  }

  /** The same, repeated with the next sequence number in the next cycle. */
  ghost function Repeated(d: Description, site: nat, cycle: U64, words: map<nat, U32>, boundary: U64): Batch
    requires site < |d.widths| && cycle < U64_MAX
  {
    Batch(boundary, map[Ref(site, 0) := Occurrence(d, site, cycle, words),
                        Ref(site, 1) := Occurrence(d, site, cycle + 1, words)], {})
  }

  /** A fresh exporter takes any occurrence its site may have whose timestamps fit. */
  lemma FreshNode(d: Description, b: Batch, r: Ref)
    requires d.Valid() && r in b.nodes && Capturable(d, r.site, b.nodes[r].words)
    requires b.nodes[r] == Occurrence(d, r.site, b.nodes[r].cycle, b.nodes[r].words) && b.nodes[r].cycle <= b.cycle
    requires TimestampFits(d, b.nodes[r].cycle) && TimestampFits(d, b.nodes[r].cycle + 1)
    ensures NodeAccepted(d, FRESH, b, r)
  {
    hide TimestampFits;
  }

  lemma AloneAccepted(d: Description, site: nat, cycle: U64, words: map<nat, U32>, boundary: U64)
    requires d.Valid() && Capturable(d, site, words) && cycle <= boundary
    requires TimestampFits(d, cycle) && TimestampFits(d, cycle + 1)
    ensures Accepts(d, FRESH, Alone(d, site, cycle, words, boundary))
    ensures BatchOrder(Alone(d, site, cycle, words, boundary)) == [Ref(site, 0)]
  {
    var b, r := Alone(d, site, cycle, words, boundary), Ref(site, 0);
    FreshNode(d, b, r);
    NoLoops(b.nodes);
    AloneOrder(b, r);
    assert |b.nodes| == 1;
    hide NodeAccepted, TimestampFits, Capturable, Complete, Occurrence, BatchOrder;
  }

  lemma AloneOrder(b: Batch, r: Ref)
    requires b.nodes.Keys == {r} && Complete(b.nodes, b.edges, b.nodes.Keys)
    ensures BatchOrder(b) == [r]
  {
    var o := BatchOrder(b);
    assert |o| == |{r}| == 1;
    hide Order, Complete;
    assert o[0] in o;
  }

  lemma RepeatedAccepted(d: Description, site: nat, cycle: U64, words: map<nat, U32>, boundary: U64)
    requires d.Valid() && Capturable(d, site, words) && cycle < boundary
    requires TimestampFits(d, cycle) && TimestampFits(d, cycle + 1) && TimestampFits(d, cycle + 2)
    ensures Accepts(d, FRESH, Repeated(d, site, cycle, words, boundary))
    ensures BatchOrder(Repeated(d, site, cycle, words, boundary)) == [Ref(site, 0), Ref(site, 1)]
  {
    hide NodeAccepted, TimestampFits, Complete, BatchOrder, Accepts, PayloadComplete;
    var b, r, q := Repeated(d, site, cycle, words, boundary), Ref(site, 0), Ref(site, 1);
    FreshNode(d, b, r);
    FreshNode(d, b, q);
    hide Capturable, Occurrence;
    assert b.nodes.Keys == {r, q} && b.nodes[r].cycle < b.nodes[q].cycle;
    TwoAccepted(d, b, r, q);
    RepeatedOrder(d, b, r, q);
  }

  lemma TwoAccepted(d: Description, b: Batch, r: Ref, q: Ref)
    requires b.nodes.Keys == {r, q} && r != q && b.edges == {} && b.nodes[r].cycle < b.nodes[q].cycle
    requires NodeAccepted(d, FRESH, b, r) && NodeAccepted(d, FRESH, b, q)
    ensures Accepts(d, FRESH, b)
  {
    hide NodeAccepted, Complete;
    NoLoops(b.nodes);
    assert |b.nodes| == |b.nodes.Keys| == 2;
  }

  lemma RepeatedOrder(d: Description, b: Batch, r: Ref, q: Ref)
    requires d.Valid() && Accepts(d, FRESH, b)
    requires b.nodes.Keys == {r, q} && r != q && b.nodes[r].cycle < b.nodes[q].cycle
    ensures BatchOrder(b) == [r, q]
  {
    hide NodeAccepted, TracksDisjoint, Description.Valid, TimestampFits;
    AcceptedOrderly(d, FRESH, b);
    assert |BatchOrder(b)| == |{r, q}| == 2;
    hide Order, Accepts, BatchOrder;
    var o := BatchOrder(b);
    assert o[0] in o && o[1] in o && o[0] != o[1];
  }

  // ---------------------------------------------------------------- their streams

  lemma NoArrows(d: Description, b: Batch, known: map<Ref, Mark>, r: Ref, id: nat)
    requires r in b.nodes && b.edges == {}
    ensures Slice(d, b, known, r, id) ==
      [Begin(TrackOf(d, r.site), b.nodes[r].cycle, r, b.nodes[r])]
      + (if CanParent(d, r.site) then [FlowStart(TrackOf(d, r.site), b.nodes[r].cycle, id)] else [])
      + (if IsStall(d, r.site) then [] else [End(TrackOf(d, r.site), b.nodes[r].cycle + 1)])
  {
    InOrderEnumerates(Parents(b.edges, r));
    assert Parents(b.edges, r) == {};
    NoneInOrder(Parents(b.edges, r));
  }

  lemma NoneInOrder(refs: set<Ref>)
    requires refs == {}
    ensures InOrder(refs) == []
  {
    assert (set r | r in refs :: RefKey(r)) == {};
  }

  lemma CloseOnly(st: Stage, t: nat)
    requires st.stalls.Keys == {t}
    ensures Close(st, {t}).out == st.out + [End(t, st.stalls[t].node.cycle + 1)] && Close(st, {t}).stalls == map[]
  {
    var key := Key(st.stalls[t].node.cycle, t, 0);
    assert Endings(st.stalls, {t}) == {key};
    SortedOne(key);
    assert EndEvents([key]) == [End(t, key.a + 1)] + EndEvents([key][1..]);
    assert [key][1..] == [];
  }

  lemma SortedOne(k: Key)
    ensures Sorted({k}) == [k]
  {
    assert {k} - {k} == {};
  }

  /** What remains open closes the same way whether at the batch's end or at finish. */
  lemma ClosesOnce(st: Stage, t: nat, boundary: nat, watermark: Option<U64>)
    requires st.stalls.Keys == {t}
    ensures Finish(Writer(Close(st, Stale(st.stalls, boundary)), watermark)) ==
      st.out + [End(t, st.stalls[t].node.cycle + 1)]
  {
    CloseOnly(st, t);
    var stale := Stale(st.stalls, boundary);
    if st.stalls[t].node.cycle < boundary {
      assert stale == {t};
      CloseNone(Close(st, {t}));
      assert Close(st, {t}).stalls.Keys == {};
    } else {
      assert stale == {};
      CloseNone(st);
      assert st.stalls.Keys == {t};
    }
  }

  /** One occurrence is one slice of one cycle, whatever its kind. */
  lemma AloneStream(d: Description, site: nat, cycle: U64, words: map<nat, U32>, boundary: U64)
    requires d.Valid() && Capturable(d, site, words) && cycle <= boundary
    requires TimestampFits(d, cycle) && TimestampFits(d, cycle + 1)
    ensures var t, b := TrackOf(d, site), Alone(d, site, cycle, words, boundary);
      Finish(Write(d, FRESH, b)) ==
      [Begin(t, cycle, Ref(site, 0), Occurrence(d, site, cycle, words))]
      + (if CanParent(d, site) then [FlowStart(t, cycle, 1)] else []) + [End(t, cycle + 1)]
  {
    hide TimestampFits, PayloadComplete, Accepts, CanParent, Finish, After, BatchOrder, Close, Stale, Complete;
    var b, r, t := Alone(d, site, cycle, words, boundary), Ref(site, 0), TrackOf(d, site);
    AloneAccepted(d, site, cycle, words, boundary);
    var last := OneEmitted(d, b, BatchOrder(b), r);
    if IsStall(d, site) {
      StallIsNoParent(d, site);
      ClosesOnce(last, t, boundary, Some(boundary));
    } else {
      ClosesNothing(last, boundary, Some(boundary));
    }
  }

  lemma OneEmitted(d: Description, b: Batch, o: seq<Ref>, r: Ref) returns (last: Stage)
    requires o == [r] && Within(b, o) && b.edges == {}
    ensures last == After(d, b, o, FRESH.stage, 1)
    ensures last.out == [Begin(TrackOf(d, r.site), b.nodes[r].cycle, r, b.nodes[r])]
      + (if CanParent(d, r.site) then [FlowStart(TrackOf(d, r.site), b.nodes[r].cycle, 1)] else [])
      + (if IsStall(d, r.site) then [] else [End(TrackOf(d, r.site), b.nodes[r].cycle + 1)])
    ensures IsStall(d, r.site) ==>
      last.stalls.Keys == {TrackOf(d, r.site)} && last.stalls[TrackOf(d, r.site)].node.cycle == b.nodes[r].cycle
    ensures !IsStall(d, r.site) ==> last.stalls == map[]
  {
    hide CanParent, Slice;
    FirstEmitted(d, b, o);
    last := After(d, b, o, FRESH.stage, 1);
    NoArrows(d, b, FRESH.stage.known[r := Mark(1, b.nodes[r].cycle)], r, 1);
  }

  lemma ClosesNothing(st: Stage, boundary: nat, watermark: Option<U64>)
    requires st.stalls == map[]
    ensures Finish(Writer(Close(st, Stale(st.stalls, boundary)), watermark)) == st.out
  {
    CloseNone(st);
    assert Stale(st.stalls, boundary) == {} && st.stalls.Keys == {};
  }

  lemma FirstEmitted(d: Description, b: Batch, o: seq<Ref>)
    requires o != [] && Within(b, o)
    ensures After(d, b, o, FRESH.stage, 1) == Emit(d, b, FRESH.stage, o[0])
  {
    assert Breaking(b, FRESH.stage.stalls, b.nodes[o[0]].cycle) == {};
    CloseNone(FRESH.stage);
    assert After(d, b, o, FRESH.stage, 0) == FRESH.stage;
  }

  lemma NoneBreaks(b: Batch, stalls: map<nat, Run>, g: nat, next: Ref)
    requires b.edges == {} && next in b.nodes && b.nodes[next].cycle == g && 0 < next.sequence
    requires forall t :: t in stalls ==>
               && stalls[t].last == Ref(next.site, next.sequence - 1) && stalls[t].node.cycle + 1 == g
               && stalls[t].node.words == b.nodes[next].words && stalls[t].parents == {}
    ensures Breaking(b, stalls, g) == {}
  {
    assert Parents(b.edges, next) == {};
  }

  /** The second of two equal observations extends the slice the first one opened. */
  lemma TwoEmitted(d: Description, b: Batch, o: seq<Ref>, r: Ref, q: Ref) returns (last: Stage)
    requires o == [r, q] && Within(b, o) && b.edges == {} && IsStall(d, r.site) && !CanParent(d, r.site)
    requires r.sequence < U64_MAX && q == Ref(r.site, r.sequence + 1)
    requires b.nodes[q].cycle == b.nodes[r].cycle + 1 && b.nodes[q].words == b.nodes[r].words
    ensures last == After(d, b, o, FRESH.stage, 2)
    ensures last.out == [Begin(TrackOf(d, r.site), b.nodes[r].cycle, r, b.nodes[r])]
    ensures last.stalls.Keys == {TrackOf(d, r.site)} && last.stalls[TrackOf(d, r.site)].node.cycle == b.nodes[q].cycle
  {
    hide CanParent, Slice;
    FirstEmitted(d, b, o);
    var st := After(d, b, o, FRESH.stage, 1);
    NoArrows(d, b, FRESH.stage.known[r := Mark(1, b.nodes[r].cycle)], r, 1);
    NoneBreaks(b, st.stalls, b.nodes[q].cycle, q);
    CloseNone(st);
    last := After(d, b, o, FRESH.stage, 2);
    assert last == Emit(d, b, st, q);
  }

  /** A stall repeated in the next cycle is one slice of two cycles. */
  lemma RepeatedStream(d: Description, site: nat, cycle: U64, words: map<nat, U32>, boundary: U64)
    requires d.Valid() && Capturable(d, site, words) && cycle < boundary && IsStall(d, site)
    requires TimestampFits(d, cycle) && TimestampFits(d, cycle + 1) && TimestampFits(d, cycle + 2)
    ensures var t, b := TrackOf(d, site), Repeated(d, site, cycle, words, boundary);
      Finish(Write(d, FRESH, b)) ==
      [Begin(t, cycle, Ref(site, 0), Occurrence(d, site, cycle, words)), End(t, cycle + 2)]
  {
    hide TimestampFits, PayloadComplete, Accepts, CanParent, Capturable, Finish, After, BatchOrder, Close, Stale;
    hide Complete;
    var b, r, q, t := Repeated(d, site, cycle, words, boundary), Ref(site, 0), Ref(site, 1), TrackOf(d, site);
    RepeatedAccepted(d, site, cycle, words, boundary);
    var o := BatchOrder(b);
    StallIsNoParent(d, site);
    var last := TwoEmitted(d, b, o, r, q);
    ClosesOnce(last, t, boundary, Some(boundary));
  }

  // ---------------------------------------------------------------- recordings shown alike

  /** Two batches a fresh exporter accepts, recording different occurrences, shown exactly alike. */
  ghost predicate ShownAlike<L(!new)>(d: Description, caption: Caption<L>, u: Batch, v: Batch) {
    && Accepts(d, FRESH, u) && Accepts(d, FRESH, v) && u.nodes != v.nodes
    && Stamp(d, caption, Finish(Write(d, FRESH, u))) == Stamp(d, caption, Finish(Write(d, FRESH, v)))
  }

  lemma StampTwo<L(!new)>(d: Description, caption: Caption<L>, e: Event, f: Event)
    ensures Stamp(d, caption, [e, f]) == [StampOne(d, caption, e), StampOne(d, caption, f)]
  {
    assert [e, f][1..] == [f] && [f][1..] == [];
    assert Stamp(d, caption, [f]) == [StampOne(d, caption, f)];
  }

  /** A stall of one cycle and one of two, where their ends have one timestamp. */
  lemma LengthsAlike<L(!new)>(d: Description, caption: Caption<L>, site: nat, cycle: U64, words: map<nat, U32>,
                       boundary: U64)
    requires d.Valid() && IsStall(d, site) && Capturable(d, site, words) && cycle < boundary
    requires TimestampFits(d, cycle) && TimestampFits(d, cycle + 1) && TimestampFits(d, cycle + 2)
    requires Nanoseconds(d, cycle + 1) == Nanoseconds(d, cycle + 2)
    ensures ShownAlike(d, caption, Alone(d, site, cycle, words, boundary), Repeated(d, site, cycle, words, boundary))
  {
    hide TimestampFits, Capturable, Accepts, Write, Finish, Nanoseconds, Stamp, CanParent, Occurrence;
    var t, r, node := TrackOf(d, site), Ref(site, 0), Occurrence(d, site, cycle, words);
    var u, v := Alone(d, site, cycle, words, boundary), Repeated(d, site, cycle, words, boundary);
    assert Ref(site, 1) in v.nodes && Ref(site, 1) !in u.nodes;
    hide Alone, Repeated;
    StallIsNoParent(d, site);
    AloneAccepted(d, site, cycle, words, boundary);
    AloneStream(d, site, cycle, words, boundary);
    RepeatedAccepted(d, site, cycle, words, boundary);
    RepeatedStream(d, site, cycle, words, boundary);
    EndsAlike(d, caption, u, v, Begin(t, cycle, r, node), t, cycle + 1, cycle + 2);
  }

  lemma EndsAlike<L(!new)>(d: Description, caption: Caption<L>, u: Batch, v: Batch, first: Event, t: nat, x: nat,
                    y: nat)
    requires Accepts(d, FRESH, u) && Accepts(d, FRESH, v) && u.nodes != v.nodes
    requires Finish(Write(d, FRESH, u)) == [first, End(t, x)] && Finish(Write(d, FRESH, v)) == [first, End(t, y)]
    requires Nanoseconds(d, x) == Nanoseconds(d, y)
    ensures ShownAlike(d, caption, u, v)
  {
    hide Accepts, Write, Finish, Nanoseconds, Stamp;
    StampTwo(d, caption, first, End(t, x));
    StampTwo(d, caption, first, End(t, y));
  }

  /** At two gigahertz a stall recorded at cycle 1, and the same stall at cycles 1 and 2: both are shown
      from 0 to 1 ns. */
  lemma TwoGigahertz<L(!new)>(d: Description, caption: Caption<L>, site: nat, words: map<nat, U32>)
    requires d.Valid() && d.frequency == 2_000_000_000 && IsStall(d, site) && Capturable(d, site, words)
    ensures ShownAlike(d, caption, Alone(d, site, 1, words, 2), Repeated(d, site, 1, words, 2))
  {
    LengthsAlike(d, caption, site, 1, words, 2);
  }

  /** Above one cycle a nanosecond, stalls of one and two cycles are shown alike somewhere. */
  lemma FastClock(d: Description)
    requires SECOND < d.frequency
    ensures var f := d.frequency;
      Nanoseconds(d, f) == SECOND == Nanoseconds(d, f + 1) && Nanoseconds(d, f - 1) <= SECOND
  {
    var f := d.frequency;
    DivideUnique(f * SECOND, f, SECOND, 0);
    DivideUnique((f + 1) * SECOND, f, SECOND, SECOND);
    DivideUnique((f - 1) * SECOND, f, SECOND - 1, f - SECOND);
  }

  ghost function ZeroWords(n: nat): (words: map<nat, U32>)
    ensures |words| == n && forall i: nat :: i in words <==> i < n
    ensures forall i :: i in words ==> words[i] == 0
  {
    if n == 0 then map[]
    else
      AddedSize(ZeroWords(n - 1), n - 1, 0);
      ZeroWords(n - 1)[n - 1 := 0]
  }

  lemma ZeroCapturable(d: Description, site: nat)
    requires d.Valid() && site < |d.tracks|
    ensures Capturable(d, site, ZeroWords((d.widths[site] + 31) / 32))
  {
  }

  lemma StartFits(d: Description)
    requires 0 < d.frequency
    ensures TimestampFits(d, 0) && TimestampFits(d, 1)
  {
    Quotient(SECOND, d.frequency);
    AtLeastOnce(SECOND / d.frequency, d.frequency);
    MulGrows(SECOND / d.frequency, 1, d.frequency);
  }

  /** What a single occurrence shows. */
  ghost function AloneShown<L>(d: Description, t: nat, parent: bool, look: L): seq<Stamped<L>> {
    [Opens(t, Nanoseconds(d, 0), 0, 0, look)]
    + (if parent then [Starts(t, Nanoseconds(d, 0), 1)] else []) + [Closes(t, Nanoseconds(d, 1))]
  }

  lemma ShowsAlone<L(!new)>(d: Description, caption: Caption<L>, t: nat, parent: bool, look: L, s: nat,
                     w: map<nat, U32>)
    requires d.Valid() && ShownAs(d, caption, t, parent, look, s, w)
    ensures Accepts(d, FRESH, Alone(d, s, 0, w, 0))
    ensures Stamp(d, caption, Finish(Write(d, FRESH, Alone(d, s, 0, w, 0)))) == AloneShown(d, t, parent, look)
  {
    hide TimestampFits, Accepts, Write, Finish, CanParent, PayloadComplete, Nanoseconds;
    StartFits(d);
    AloneAccepted(d, s, 0, w, 0);
    AloneStream(d, s, 0, w, 0);
    var first := Begin(t, 0, Ref(s, 0), Occurrence(d, s, 0, w));
    StampTwo(d, caption, first, End(t, 1));
    StampCons(d, caption, first, [FlowStart(t, 0, 1), End(t, 1)]);
    StampTwo(d, caption, FlowStart(t, 0, 1), End(t, 1));
    assert [first] + [] + [End(t, 1)] == [first, End(t, 1)];
    assert [first] + [FlowStart(t, 0, 1)] + [End(t, 1)] == [first] + [FlowStart(t, 0, 1), End(t, 1)];
  }

  /** Two slices shown alike give two recordings shown alike. */
  lemma CaptionsAlike<L(!new)>(d: Description, caption: Caption<L>, t: nat, parent: bool, look: L,
                               s: nat, w: map<nat, U32>, s': nat, w': map<nat, U32>)
    requires d.Valid() && ShownAs(d, caption, t, parent, look, s, w) && ShownAs(d, caption, t, parent, look, s', w')
    requires s != s' || w != w'
    ensures ShownAlike(d, caption, Alone(d, s, 0, w, 0), Alone(d, s', 0, w', 0))
  {
    hide Accepts, Write, Finish, CanParent, PayloadComplete, Stamp, AloneShown;
    ShowsAlone(d, caption, t, parent, look, s, w);
    ShowsAlone(d, caption, t, parent, look, s', w');
    var u, v := Alone(d, s, 0, w, 0), Alone(d, s', 0, w', 0);
    assert Ref(s, 0) in u.nodes && u.nodes[Ref(s, 0)].words == w;
    assert Ref(s', 0) in v.nodes && v.nodes[Ref(s', 0)].words == w';
  }

  lemma StampCons<L(!new)>(d: Description, caption: Caption<L>, e: Event, es: seq<Event>)
    ensures Stamp(d, caption, [e] + es) == [StampOne(d, caption, e)] + Stamp(d, caption, es)
  {
    assert ([e] + es)[1..] == es;
  }

  /** Where a stream is not readable there are two recordings it does not tell apart. */
  lemma Unreadable<L(!new)>(d: Description, caption: Caption<L>) returns (u: Batch, v: Batch)
    requires d.Valid() && !Readable(d, caption)
    ensures ShownAlike(d, caption, u, v)
  {
    hide ShownAlike, ShownAs, Alone, Repeated, Capturable, Nanoseconds;
    if SECOND < d.frequency && HasStall(d) {
      var site :| 0 <= site < |d.stalls| && d.stalls[site];
      var words, f := ZeroWords((d.widths[site] + 31) / 32), d.frequency;
      ZeroCapturable(d, site);
      FastClock(d);
      LengthsAlike(d, caption, site, f - 1, words, f);
      u, v := Alone(d, site, f - 1, words, f), Repeated(d, site, f - 1, words, f);
    } else {
      var t, parent, look, s, w, s', w' :|
        ShownAs(d, caption, t, parent, look, s, w) && ShownAs(d, caption, t, parent, look, s', w') &&
          !(s == s' && w == w');
      CaptionsAlike(d, caption, t, parent, look, s, w, s', w');
      ShownSite(d, caption, t, parent, look, s, w);
      ShownSite(d, caption, t, parent, look, s', w');
      u, v := Alone(d, s, 0, w, 0), Alone(d, s', 0, w', 0);
    }
  }

  lemma ShownSite<L(!new)>(d: Description, caption: Caption<L>, t: nat, parent: bool, look: L, s: nat, w: map<nat, U32>)
    requires ShownAs(d, caption, t, parent, look, s, w)
    ensures s < |d.widths|
  {
  }

  // ---------------------------------------------------------------- when the stream determines the recording

  /** What a stream expands to is one recording only. */
  lemma ExpandsOnce(d: Description, u: Batch, v: Batch, done: seq<Interval>)
    requires Accepts(d, FRESH, u) && Accepts(d, FRESH, v)
    requires Expands(u.nodes, u.edges, done) && Expands(v.nodes, v.edges, done)
    ensures u.nodes == v.nodes && u.edges == v.edges
  {
    hide Accepts;
    NodesOnce(d, u, v, done);
    NodesOnce(d, v, u, done);
    assert u.nodes.Keys == v.nodes.Keys;
    EdgesOnce(d, u, v, done);
    EdgesOnce(d, v, u, done);
  }

  lemma NodesOnce(d: Description, u: Batch, v: Batch, done: seq<Interval>)
    requires Accepts(d, FRESH, u) && Accepts(d, FRESH, v)
    requires Expands(u.nodes, u.edges, done) && Expands(v.nodes, v.edges, done)
    ensures forall r :: r in u.nodes ==>
      r in v.nodes && u.nodes[r] == v.nodes[r] && Parents(u.edges, r) == Parents(v.edges, r)
  {
    hide Accepts, Faithful, Spans, Parents;
    forall r | r in u.nodes
      ensures r in v.nodes && u.nodes[r] == v.nodes[r] && Parents(u.edges, r) == Parents(v.edges, r)
    {
      var i :| 0 <= i < |done| && Spans(done[i], r);
      NodeOnce(d, u, v, done[i], r);
    }
  }

  lemma NodeOnce(d: Description, u: Batch, v: Batch, iv: Interval, r: Ref)
    requires Accepts(d, FRESH, u) && Accepts(d, FRESH, v) && Spans(iv, r)
    requires Faithful(u.nodes, u.edges, u.nodes.Keys, iv) && Faithful(v.nodes, v.edges, v.nodes.Keys, iv)
    ensures r in u.nodes && r in v.nodes && u.nodes[r] == v.nodes[r] && Parents(u.edges, r) == Parents(v.edges, r)
  {
    hide TracksDisjoint, Complete, PayloadComplete, TimestampFits, EdgeAccepted;
    assert NodeAccepted(d, FRESH, u, r) && NodeAccepted(d, FRESH, v, r);
    hide Accepts, Parents;
  }

  lemma EdgesOnce(d: Description, u: Batch, v: Batch, done: seq<Interval>)
    requires Accepts(d, FRESH, u)
    requires forall r :: r in u.nodes ==> Parents(u.edges, r) == Parents(v.edges, r)
    ensures u.edges <= v.edges
  {
    hide TracksDisjoint, Complete, NodeAccepted;
    forall e | e in u.edges
      ensures e in v.edges
    {
      assert EdgeAccepted(d, FRESH, u, e);
      ParentsMember(u.edges, e.parent, e.child);
      ParentsMember(v.edges, e.parent, e.child);
      assert e == Edge(e.parent, e.child);
    }
  }

  ghost function Graph(u: Option<Batch>): Batch {
    if u == None then Batch(0, map[], {}) else u.value
  }

  lemma RecordedGraph(d: Description, bs: seq<Batch>)
    requires d.Valid()
    ensures Accepts(d, FRESH, Graph(Recorded(d, bs)))
    ensures Graph(Recorded(d, bs)).nodes == RecordedNodes(d, bs) && Graph(Recorded(d, bs)).edges == RecordedEdges(d, bs)
  {
    FeedIsOneWrite(d, bs);
    NoLoops(map[]);
    hide Feed, Recorded, Complete;
  }

  /** The finished stamped streams of two runs are equal. */
  ghost predicate SameStream<L(!new)>(d: Description, caption: Caption<L>, xs: seq<Batch>, ys: seq<Batch>) {
    Stamp(d, caption, Finish(Feed(d, xs))) == Stamp(d, caption, Finish(Feed(d, ys)))
  }

  ghost predicate SameGraph(d: Description, xs: seq<Batch>, ys: seq<Batch>) {
    RecordedNodes(d, xs) == RecordedNodes(d, ys) && RecordedEdges(d, xs) == RecordedEdges(d, ys)
  }

  lemma ReadableDetermines<L(!new)>(d: Description, caption: Caption<L>, xs: seq<Batch>, ys: seq<Batch>)
    requires d.Valid() && Readable(d, caption) && SameStream(d, caption, xs, ys)
    ensures SameGraph(d, xs, ys)
  {
    hide Readable, Stamp, Unstamp, Decode, Finish, Feed, Expands, Accepts, Recorded, RecordedNodes, RecordedEdges;
    StampedLossless(d, caption, xs);
    StampedLossless(d, caption, ys);
    RecordedGraph(d, xs);
    RecordedGraph(d, ys);
    var dec := Decode(d, EMPTY, Unstamp(d, caption, Stamp(d, caption, Finish(Feed(d, xs))), 0));
    ExpandsOnce(d, Graph(Recorded(d, xs)), Graph(Recorded(d, ys)), dec.done);
  }

  lemma AloneRun(d: Description, u: Batch)
    requires Accepts(d, FRESH, u)
    ensures Feed(d, [u]) == Write(d, FRESH, u) && RecordedNodes(d, [u]) == u.nodes && RecordedEdges(d, [u]) == u.edges
  {
    hide Accepts, Write;
    assert [u][..0] == [];
    assert Feed(d, []) == FRESH && Recorded(d, []) == None;
  }

  /** Equal streams come from equal recordings. */
  ghost predicate Determines<L(!new)>(d: Description, caption: Caption<L>) {
    forall xs, ys :: SameStream(d, caption, xs, ys) ==> SameGraph(d, xs, ys)
  }

  /** The packets of a finished run determine the graph it recorded exactly when the stream is readable. */
  lemma ReadableIff<L(!new)>(d: Description, caption: Caption<L>)
    requires d.Valid()
    ensures Readable(d, caption) <==> Determines(d, caption)
  {
    hide Readable, SameStream, SameGraph;
    if Readable(d, caption) {
      forall xs, ys | SameStream(d, caption, xs, ys)
        ensures SameGraph(d, xs, ys)
      {
        ReadableDetermines(d, caption, xs, ys);
      }
    } else {
      NotDetermined(d, caption);
    }
  }

  lemma NotDetermined<L(!new)>(d: Description, caption: Caption<L>)
    requires d.Valid() && !Readable(d, caption)
    ensures !Determines(d, caption)
  {
    hide Readable, SameStream, SameGraph, ShownAlike;
    var u, v := Unreadable(d, caption);
    AlikeRuns(d, caption, u, v);
  }

  lemma AlikeRuns<L(!new)>(d: Description, caption: Caption<L>, u: Batch, v: Batch)
    requires ShownAlike(d, caption, u, v)
    ensures SameStream(d, caption, [u], [v]) && !SameGraph(d, [u], [v])
  {
    hide Stamp, Finish, Write, Accepts;
    AloneRun(d, u);
    AloneRun(d, v);
  }
}

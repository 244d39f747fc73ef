/** What the packets carry of the event stream. A packet has a timestamp in whole nanoseconds and a
    track; only the begin of a slice also has the exact cycle and sequence, as text, and a caption that
    shows the captured words and, on a shared track, the site. */
module Stamping {
  import opened Machine
  import opened Options
  import opened Power
  import opened Ordering
  import opened EventModel
  import opened Worklist
  import opened Encoder
  import opened Runs
  import opened Batching
  import opened History
  import opened Decoding
  import opened Lossless

  /** What a slice shows of its site and captured words. */
  type Caption<L> = (nat, map<nat, U32>) -> L

  datatype Stamped<L> =
    | Opens(track: nat, ns: nat, sequence: U64, cycle: nat, look: L)
    | Closes(track: nat, ns: nat)
    | Starts(track: nat, ns: nat, id: nat)
    | Arrives(track: nat, ns: nat, id: nat)

  ghost function StampOne<L(!new)>(d: Description, caption: Caption<L>, e: Event): Stamped<L> {
    match e
    case Begin(t, c, r, node) => Opens(t, Nanoseconds(d, c), r.sequence, c, caption(r.site, node.words))
    case End(t, c) => Closes(t, Nanoseconds(d, c))
    case FlowStart(t, c, id) => Starts(t, Nanoseconds(d, c), id)
    case FlowEnd(t, c, id) => Arrives(t, Nanoseconds(d, c), id)
  }

  ghost function Stamp<L(!new)>(d: Description, caption: Caption<L>, es: seq<Event>): seq<Stamped<L>> {
    if es == [] then [] else [StampOne(d, caption, es[0])] + Stamp(d, caption, es[1..])
  }

  // ---------------------------------------------------------------- what can be read back

  /** A node of this site that the exporter accepts may have these words. */
  ghost predicate Capturable(d: Description, site: nat, words: map<nat, U32>) {
    site < |d.tracks| == |d.widths| && PayloadComplete(Node(true, 0, d.widths[site], words))
  }

  ghost predicate HasStall(d: Description) {
    exists s :: 0 <= s < |d.stalls| && d.stalls[s]
  }

  /** A slice of `site` with these words would be shown like this. */
  ghost predicate ShownAs<L(!new)>(d: Description, caption: Caption<L>, track: nat, parent: bool, look: L, site: nat,
                            words: map<nat, U32>) {
    Capturable(d, site, words) && TrackOf(d, site) == track && CanParent(d, site) == parent &&
      caption(site, words) == look
  }

  /** No two sites or payloads of one track are shown alike. */
  ghost predicate TellsApart<L(!new)>(d: Description, caption: Caption<L>) {
    forall t, parent, look, s, w, s', w' ::
      ShownAs(d, caption, t, parent, look, s, w) && ShownAs(d, caption, t, parent, look, s', w') ==> s == s' && w == w'
  }

  /** Cycles no shorter than a nanosecond, or no stalls whose length a timestamp must tell; and captions
      that tell slices apart. */
  ghost predicate Readable<L(!new)>(d: Description, caption: Caption<L>) {
    (d.frequency <= SECOND || !HasStall(d)) && TellsApart(d, caption)
  }

  // ---------------------------------------------------------------- timestamps

  /** At one cycle or fewer a nanosecond, the cycle is the first that reaches the timestamp. */
  lemma CycleOf(d: Description, c: nat)
    requires 0 < d.frequency <= SECOND
    ensures FirstCycle(d, Nanoseconds(d, c)) == c
  {
    var f, ns := d.frequency, Nanoseconds(d, c);
    Quotient(c * SECOND, f);
    DivideUnique(ns * f + (SECOND - 1), SECOND, c, ns * f + (SECOND - 1) - c * SECOND);
  }

  ghost function FirstCycle(d: Description, ns: nat): nat {
    (ns * d.frequency + (SECOND - 1)) / SECOND
  }

  // ---------------------------------------------------------------- reading back

  /** The slice just begun goes on to start a flow. */
  ghost function StartsFlow<L(!new)>(ss: seq<Stamped<L>>): bool
    decreases |ss|
  {
    ss != [] && (ss[0].Starts? || (ss[0].Arrives? && StartsFlow(ss[1..])))
  }

  ghost function Identify<L(!new)>(d: Description, caption: Caption<L>, track: nat, parent: bool,
                            look: L): (nat, map<nat, U32>) {
    if exists s, w :: ShownAs(d, caption, track, parent, look, s, w) then
      var s, w :| ShownAs(d, caption, track, parent, look, s, w);
      (s, w)
    else (0, map[])
  }

  ghost function ReadOne<L(!new)>(d: Description, caption: Caption<L>, s: Stamped<L>, flows: bool, now: nat): Event {
    match s
    case Opens(t, ns, sequence, cycle, look) =>
      var (site, words) := Identify(d, caption, t, flows, look);
      Begin(t, cycle, Ref(site, sequence),
            Node(true, if cycle <= U64_MAX then cycle else 0, if site < |d.widths| then d.widths[site] else 0, words))
    case Closes(t, ns) => End(t, if d.frequency <= SECOND then FirstCycle(d, ns) else now + 1)
    case Starts(t, ns, id) => FlowStart(t, now, id)
    case Arrives(t, ns, id) => FlowEnd(t, now, id)
  }

  ghost function NowAfter(e: Event, now: nat): nat {
    if e.Begin? then e.cycle else now
  }

  /** The event stream behind a stamped one, `now` being the cycle of the slice begun last. */
  ghost function Unstamp<L(!new)>(d: Description, caption: Caption<L>, ss: seq<Stamped<L>>, now: nat): seq<Event>
    decreases |ss|
  {
    if ss == [] then []
    else
      var e := ReadOne(d, caption, ss[0], StartsFlow(ss[1..]), now);
      [e] + Unstamp(d, caption, ss[1..], NowAfter(e, now))
  }

  // ---------------------------------------------------------------- the shape of the exporter's stream

  ghost predicate FlowNext(es: seq<Event>)
    decreases |es|
  {
    es != [] && (es[0].FlowStart? || (es[0].FlowEnd? && FlowNext(es[1..])))
  }

  ghost predicate Fits(d: Description, e: Event, flows: bool, now: nat) {
    match e
    case Begin(t, c, r, node) =>
      && r.site < |d.tracks| && t == TrackOf(d, r.site) && CanParent(d, r.site) == flows
      && c <= U64_MAX && |d.tracks| == |d.widths| && node == Node(true, c, d.widths[r.site], node.words) &&
           PayloadComplete(node)
    case End(t, c) => !HasStall(d) ==> c == now + 1
    case FlowStart(t, c, id) => c == now
    case FlowEnd(t, c, id) => c == now
  }

  /** Arrows belong to the slice just begun; a slice shows whether it starts a flow; without stalls a
      slice ends a cycle after it begins. */
  ghost predicate Shaped(d: Description, es: seq<Event>, now: nat)
    decreases |es|
  {
    es == [] || (Fits(d, es[0], FlowNext(es[1..]), now) && Shaped(d, es[1..], NowAfter(es[0], now)))
  }

  lemma {:induction false} FlowStamped<L(!new)>(d: Description, caption: Caption<L>, es: seq<Event>)
    ensures StartsFlow(Stamp(d, caption, es)) == FlowNext(es)
    decreases |es|
  {
    if es != [] {
      FlowStamped(d, caption, es[1..]);
      assert Stamp(d, caption, es)[1..] == Stamp(d, caption, es[1..]);
    }
  }

  lemma ReadsOne<L(!new)>(d: Description, caption: Caption<L>, e: Event, flows: bool, now: nat)
    requires 0 < d.frequency && Readable(d, caption) && Fits(d, e, flows, now)
    ensures ReadOne(d, caption, StampOne(d, caption, e), flows, now) == e
  {
    hide Nanoseconds, FirstCycle, PayloadComplete, TellsApart;
    match e
    case Begin(t, c, r, node) =>
      IdentifiesShown(d, caption, t, flows, r.site, node);
    case End(t, c) =>
      if d.frequency <= SECOND {
        CycleOf(d, c);
      }
    case FlowStart(t, c, id) =>
    case FlowEnd(t, c, id) =>
  }

  lemma IdentifiesShown<L(!new)>(d: Description, caption: Caption<L>, t: nat, flows: bool, site: nat, node: Node)
    requires TellsApart(d, caption) && site < |d.tracks| == |d.widths| && t == TrackOf(d, site) &&
      CanParent(d, site) == flows
    requires PayloadComplete(node) && node.width == d.widths[site]
    ensures Identify(d, caption, t, flows, caption(site, node.words)) == (site, node.words)
  {
    assert ShownAs(d, caption, t, flows, caption(site, node.words), site, node.words);
  }

  /** A stream of the exporter's shape is recovered event by event. */
  lemma {:induction false} UnstampStamp<L(!new)>(d: Description, caption: Caption<L>, es: seq<Event>, now: nat)
    requires 0 < d.frequency && Readable(d, caption) && Shaped(d, es, now)
    ensures Unstamp(d, caption, Stamp(d, caption, es), now) == es
    decreases |es|
  {
    hide ReadOne, StampOne, Readable, Fits;
    if es != [] {
      var ss := Stamp(d, caption, es);
      assert ss[1..] == Stamp(d, caption, es[1..]);
      FlowStamped(d, caption, es[1..]);
      ReadsOne(d, caption, es[0], FlowNext(es[1..]), now);
      UnstampStamp(d, caption, es[1..], NowAfter(es[0], now));
    }
  }

  // ---------------------------------------------------------------- every run has that shape

  ghost function LastNow(es: seq<Event>, now: nat): nat
    decreases |es|
  {
    if es == [] then now else LastNow(es[1..], NowAfter(es[0], now))
  }

  /** A stream may be followed by one that does not continue its last slice's arrows. */
  lemma {:induction false} FlowConcat(a: seq<Event>, b: seq<Event>)
    requires b == [] || b[0].Begin? || b[0].End?
    ensures FlowNext(a + b) == FlowNext(a)
    decreases |a|
  {
    if a == [] {
      assert a + b == b;
    } else {
      assert (a + b)[1..] == a[1..] + b;
      FlowConcat(a[1..], b);
    }
  }

  lemma {:induction false} ShapedConcat(d: Description, a: seq<Event>, b: seq<Event>, now: nat)
    requires b == [] || b[0].Begin? || b[0].End?
    requires Shaped(d, a, now) && Shaped(d, b, LastNow(a, now))
    ensures Shaped(d, a + b, now)
    decreases |a|
  {
    hide Fits;
    if a == [] {
      assert a + b == b;
    } else {
      assert (a + b)[1..] == a[1..] + b;
      FlowConcat(a[1..], b);
      ShapedConcat(d, a[1..], b, NowAfter(a[0], now));
    }
  }

  lemma {:induction false} EndsShaped(d: Description, keys: seq<Key>, now: nat)
    requires keys != [] ==> HasStall(d)
    ensures Shaped(d, EndEvents(keys), now)
    decreases |keys|
  {
    if keys != [] {
      assert EndEvents(keys)[1..] == EndEvents(keys[1..]);
      EndsShaped(d, keys[1..], now);
    }
  }

  /** What follows the arrows into a slice. */
  lemma {:induction false} ArrowsShaped(d: Description, t: nat, c: nat, known: map<Ref, Mark>, keys: seq<Key>,
                                        rest: seq<Event>)
    requires (forall k :: k in keys ==> k.c <= U64_MAX) && Shaped(d, rest, c)
    ensures Shaped(d, FlowEnds(t, c, known, keys) + rest, c)
    ensures FlowNext(FlowEnds(t, c, known, keys) + rest) == FlowNext(rest)
    decreases |keys|
  {
    if keys == [] {
      assert [] + rest == rest;
    } else {
      ArrowsShaped(d, t, c, known, keys[1..], rest);
      var es := FlowEnds(t, c, known, keys) + rest;
      assert es[1..] == FlowEnds(t, c, known, keys[1..]) + rest;
    }
  }

  lemma TailShaped(d: Description, site: nat, t: nat, c: nat, id: nat)
    requires d.Valid() && site < |d.tracks|
    ensures var rest := (if CanParent(d, site) then [FlowStart(t, c, id)] else []) +
      (if IsStall(d, site) then [] else [End(t, c + 1)]);
      Shaped(d, rest, c) && FlowNext(rest) == CanParent(d, site)
  {
    var tail := if IsStall(d, site) then [] else [End(t, c + 1)];
    assert Shaped(d, tail, c) && !FlowNext(tail);
    if CanParent(d, site) {
      var es := [FlowStart(t, c, id)] + tail;
      assert es[1..] == tail;
    } else {
      assert [] + tail == tail;
    }
  }

  lemma SliceShaped(d: Description, b: Batch, known: map<Ref, Mark>, r: Ref, id: nat, now: nat)
    requires d.Valid() && r in b.nodes && r.site < |d.tracks|
    requires b.nodes[r].present && b.nodes[r].width == d.widths[r.site] && PayloadComplete(b.nodes[r])
    ensures Shaped(d, Slice(d, b, known, r, id), now) && Slice(d, b, known, r, id)[0].Begin?
  {
    hide PayloadComplete, Parents, CanParent, Shaped, FlowNext, FlowEnds;
    var t: nat, c: nat := TrackOf(d, r.site), b.nodes[r].cycle;
    var keys := InOrder(Parents(b.edges, r));
    InOrderEnumerates(Parents(b.edges, r));
    var rest := (if CanParent(d, r.site) then [FlowStart(t, c, id)] else []) +
      (if IsStall(d, r.site) then [] else [End(t, c + 1)]);
    TailShaped(d, r.site, t, c, id);
    ArrowsShaped(d, t, c, known, keys, rest);
    var es := Slice(d, b, known, r, id);
    assert es == [Begin(t, c, r, b.nodes[r])] + (FlowEnds(t, c, known, keys) + rest);
    ConsShaped(d, Begin(t, c, r, b.nodes[r]), FlowEnds(t, c, known, keys) + rest, now);
  }

  lemma ConsShaped(d: Description, e: Event, es: seq<Event>, now: nat)
    requires Fits(d, e, FlowNext(es), now) && Shaped(d, es, NowAfter(e, now))
    ensures Shaped(d, [e] + es, now)
  {
    assert ([e] + es)[1..] == es;
  }

  ghost predicate StageShaped(d: Description, st: Stage) {
    Shaped(d, st.out, 0) && (st.stalls != map[] ==> HasStall(d))
  }

  lemma CloseShaped(d: Description, st: Stage, closing: set<nat>)
    requires StageShaped(d, st) && closing <= st.stalls.Keys
    ensures StageShaped(d, Close(st, closing))
  {
    hide Shaped, HasStall;
    var keys := Sorted(Endings(st.stalls, closing));
    if st.stalls == map[] {
      assert Endings(st.stalls, closing) == {};
    }
    EndsShaped(d, keys, LastNow(st.out, 0));
    ShapedConcat(d, st.out, EndEvents(keys), 0);
    if st.stalls == map[] {
      assert st.stalls - closing == map[];
    }
  }

  lemma EmitShaped(d: Description, b: Batch, st: Stage, r: Ref)
    requires d.Valid() && StageShaped(d, st) && r in b.nodes && r.site < |d.tracks|
    requires b.nodes[r].present && b.nodes[r].width == d.widths[r.site] && PayloadComplete(b.nodes[r])
    ensures StageShaped(d, Emit(d, b, st, r))
  {
    hide Shaped, PayloadComplete, Slice;
    var track, id := TrackOf(d, r.site), |st.known| + 1;
    if IsStall(d, r.site) {
      assert HasStall(d);
    }
    if !(IsStall(d, r.site) && track in st.stalls) {
      var known := st.known[r := Mark(id, b.nodes[r].cycle)];
      SliceShaped(d, b, known, r, id, LastNow(st.out, 0));
      ShapedConcat(d, st.out, Slice(d, b, known, r, id), 0);
    }
  }

  lemma {:induction false} AfterShaped(d: Description, w: Writer, b: Batch, order: seq<Ref>, n: nat)
    requires d.Valid() && StageShaped(d, w.stage) && Within(b, order) && n <= |order|
    requires forall r :: r in b.nodes ==> NodeAccepted(d, w, b, r)
    ensures StageShaped(d, After(d, b, order, w.stage, n))
  {
    hide Emit, StageShaped, PayloadComplete, TimestampFits, Breaking;
    if n > 0 {
      AfterShaped(d, w, b, order, n - 1);
      var before := After(d, b, order, w.stage, n - 1);
      assert NodeAccepted(d, w, b, order[n - 1]);
      if NewCycle(b, order, n - 1) {
        BreakingOpen(b, before.stalls, b.nodes[order[n - 1]].cycle);
        CloseShaped(d, before, Breaking(b, before.stalls, b.nodes[order[n - 1]].cycle));
      }
      EmitShaped(d, b, Settle(b, order, before, n - 1), order[n - 1]);
    }
  }

  lemma BreakingOpen(b: Batch, stalls: map<nat, Run>, g: nat)
    ensures Breaking(b, stalls, g) <= stalls.Keys
  {
  }

  /** The finished stream of a run has the shape a reader relies on. */
  lemma RunShaped(d: Description, bs: seq<Batch>)
    requires d.Valid()
    ensures Shaped(d, Finish(Feed(d, bs)), 0)
  {
    hide Shaped, After, Close, BatchOrder, NodeAccepted;
    FeedIsOneWrite(d, bs);
    assert StageShaped(d, FRESH.stage) by {
      FreshShaped(d);
    }
    if Recorded(d, bs) == None {
      CloseShaped(d, FRESH.stage, FRESH.stage.stalls.Keys);
    } else {
      var b := Recorded(d, bs).value;
      var o := BatchOrder(b);
      AfterShaped(d, FRESH, b, o, |o|);
      var last := After(d, b, o, FRESH.stage, |o|);
      CloseShaped(d, last, Stale(last.stalls, b.cycle));
      var w := Write(d, FRESH, b);
      CloseShaped(d, w.stage, w.stage.stalls.Keys);
    }
  }

  lemma FreshShaped(d: Description)
    ensures StageShaped(d, FRESH.stage)
  {
  }

  // ---------------------------------------------------------------- nothing is lost

  /** From the stamped stream a reader gets back every recorded occurrence once, with its captured words
      and parents, whenever the stream is readable. */
  lemma StampedLossless<L(!new)>(d: Description, caption: Caption<L>, bs: seq<Batch>)
    requires d.Valid() && Readable(d, caption)
    ensures var dec := Decode(d, EMPTY, Unstamp(d, caption, Stamp(d, caption, Finish(Feed(d, bs))), 0));
      && dec.Decoder? && dec.open == map[]
      && Expands(RecordedNodes(d, bs), RecordedEdges(d, bs), dec.done)
  {
    hide Decode, Unstamp, Stamp, Finish, Feed, Shaped, Readable, Expands;
    RunShaped(d, bs);
    UnstampStamp(d, caption, Finish(Feed(d, bs)), 0);
    StreamLossless(d, bs);
  }
}

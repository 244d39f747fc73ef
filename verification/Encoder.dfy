/** What one accepted batch does to the exporter: which events it emits and which state it leaves.

    An event here is one packet before serialization; `Wire` and `Interning` turn events into bytes. */
module Encoder {
  import opened Ordering
  import opened Options
  import opened Machine
  import opened EventModel
  import opened Worklist
  import opened Power

  /** An open stall slice: its last observation, the node that opened it (with the last cycle), and
      the parent set every observation in it shares. */
  datatype Run = Run(last: Ref, node: Node, parents: set<Ref>)

  datatype Event =
    | Begin(track: nat, cycle: nat, ref: Ref, node: Node)
    | End(track: nat, cycle: nat)
    | FlowStart(track: nat, cycle: nat, id: nat)
    | FlowEnd(track: nat, cycle: nat, id: nat)

  /** Flow identity and cycle of a streamed occurrence. */
  datatype Mark = Mark(id: nat, cycle: U64)

  /** State staged while a batch is encoded; it is committed only after successful output. */
  datatype Stage = Stage(stalls: map<nat, Run>, known: map<Ref, Mark>, out: seq<Event>)

  datatype Writer = Writer(stage: Stage, watermark: Option<U64>)

  ghost const FRESH := Writer(Stage(map[], map[], []), None)

  ghost function TrackOf(d: Description, site: nat): nat {
    if site < |d.tracks| then d.tracks[site] else site
  }

  ghost predicate IsStall(d: Description, site: nat) {
    site < |d.stalls| && d.stalls[site]
  }

  ghost predicate CanParent(d: Description, site: nat) {
    exists e :: e in d.dependencies && e.0 == site
  }

  ghost function IdOf(known: map<Ref, Mark>, r: Ref): nat {
    if r in known then known[r].id else 0
  }

  // ---------------------------------------------------------------- closing stall slices

  ghost function Endings(stalls: map<nat, Run>, closing: set<nat>): set<Key>
    requires closing <= stalls.Keys
  {
    set t | t in closing :: Key(stalls[t].node.cycle, t, 0)
  }

  ghost function EndEvents(keys: seq<Key>): seq<Event> {
    if keys == [] then [] else [End(keys[0].b, keys[0].a + 1)] + EndEvents(keys[1..])
  }

  /** Slices close in (last cycle, track) order, one cycle after their last observation. */
  ghost function Close(st: Stage, closing: set<nat>): Stage
    requires closing <= st.stalls.Keys
  {
    st.(stalls := st.stalls - closing, out := st.out + EndEvents(Sorted(Endings(st.stalls, closing))))
  }

  /** The observation that would continue a run is in the batch at cycle `g`, next in sequence and
      cycle, with the same captured words and the same parents. */
  ghost predicate Continues(b: Batch, run: Run, g: nat) {
    && run.last.sequence < U64_MAX
    && var next := Ref(run.last.site, run.last.sequence + 1);
    && next in b.nodes
    && b.nodes[next].cycle == g
    && run.node.cycle + 1 == g
    && b.nodes[next].words == run.node.words
    && Parents(b.edges, next) == run.parents
  }

  ghost function Breaking(b: Batch, stalls: map<nat, Run>, g: nat): set<nat> {
    set t | t in stalls && !Continues(b, stalls[t], g)
  }

  ghost function Stale(stalls: map<nat, Run>, cycle: nat): set<nat> {
    set t | t in stalls && stalls[t].node.cycle < cycle
  }

  lemma {:induction false} EndEventsAt(keys: seq<Key>)
    ensures |EndEvents(keys)| == |keys| && forall i :: 0 <= i < |keys| ==>
      EndEvents(keys)[i] == End(keys[i].b, keys[i].a + 1)
  {
    if keys != [] {
      EndEventsAt(keys[1..]);
    }
  }

  /** Closing slices end one cycle after their last observation, by that cycle and then by track. */
  lemma EndsInOrder(stalls: map<nat, Run>, closing: set<nat>) returns (tracks: seq<nat>)
    requires closing <= stalls.Keys
    ensures forall t :: t in tracks <==> t in closing
    ensures forall i, j :: 0 <= i < j < |tracks| ==>
              stalls[tracks[i]].node.cycle < stalls[tracks[j]].node.cycle
              || (stalls[tracks[i]].node.cycle == stalls[tracks[j]].node.cycle && tracks[i] < tracks[j])
    ensures var ends := EndEvents(Sorted(Endings(stalls, closing)));
      && |ends| == |tracks|
      && forall i :: 0 <= i < |tracks| ==> ends[i] == End(tracks[i], stalls[tracks[i]].node.cycle + 1)
  {
    hide Sorted, EndEvents, Endings;
    var keys := Sorted(Endings(stalls, closing));
    EndingsSorted(stalls, closing, keys);
    EndEventsAt(keys);
    tracks := seq(|keys|, i requires 0 <= i < |keys| => keys[i].b);
    forall t | t in tracks
      ensures t in closing
    {
      var i :| 0 <= i < |tracks| && tracks[i] == t;
      assert keys[i].b == t;
    }
    forall t | t in closing
      ensures t in tracks
    {
      var i :| 0 <= i < |keys| && keys[i] == Key(stalls[t].node.cycle, t, 0);
      assert tracks[i] == t;
    }
  }

  lemma EndingsSorted(stalls: map<nat, Run>, closing: set<nat>, keys: seq<Key>)
    requires closing <= stalls.Keys && keys == Sorted(Endings(stalls, closing))
    ensures forall i :: 0 <= i < |keys| ==>
              keys[i].b in closing && keys[i] == Key(stalls[keys[i].b].node.cycle, keys[i].b, 0)
    ensures forall t :: t in closing ==> Key(stalls[t].node.cycle, t, 0) in keys
    ensures forall i, j :: 0 <= i < j < |keys| ==>
              keys[i].a < keys[j].a || (keys[i].a == keys[j].a && keys[i].b < keys[j].b)
  {
    hide Sorted, Increasing;
    var endings := Endings(stalls, closing);
    SortedEnumerates(endings);
    InFieldOrder(endings);
    forall i | 0 <= i < |keys|
      ensures keys[i] in endings
    {
      assert keys[i] in keys;
    }
  }

  // ---------------------------------------------------------------- one occurrence

  ghost function InOrder(refs: set<Ref>): seq<Key> {
    Sorted(set r | r in refs :: RefKey(r))
  }

  ghost function FlowEnds(track: nat, cycle: nat, known: map<Ref, Mark>, keys: seq<Key>): seq<Event>
    requires forall k :: k in keys ==> k.c <= U64_MAX
  {
    if keys == [] then []
    else [FlowEnd(track, cycle, IdOf(known, KeyRef(keys[0])))] + FlowEnds(track, cycle, known, keys[1..])
  }

  lemma InOrderEnumerates(refs: set<Ref>)
    ensures forall k :: k in InOrder(refs) <==> k.a == 0 && k.c <= U64_MAX && KeyRef(k) in refs
    ensures Increasing(InOrder(refs))
  {
    var keys := set r | r in refs :: RefKey(r);
    SortedEnumerates(keys);
    forall k
      ensures k in keys <==> k.a == 0 && k.c <= U64_MAX && KeyRef(k) in refs
    {
      if k.a == 0 && k.c <= U64_MAX && KeyRef(k) in refs {
        assert RefKey(KeyRef(k)) == k;
      }
    }
  }

  /** Arrows into an occurrence come from its parents, each once, by site and then sequence number. */
  lemma ArrowsInOrder(track: nat, cycle: nat, known: map<Ref, Mark>, refs: set<Ref>) returns (parents: seq<Ref>)
    ensures forall r :: r in parents <==> r in refs
    ensures forall i, j :: 0 <= i < j < |parents| ==>
              parents[i].site < parents[j].site
              || (parents[i].site == parents[j].site && parents[i].sequence < parents[j].sequence)
    ensures forall k :: k in InOrder(refs) ==> k.c <= U64_MAX
    ensures var arrows := FlowEnds(track, cycle, known, InOrder(refs));
      && |arrows| == |parents|
      && forall i :: 0 <= i < |parents| ==> arrows[i] == FlowEnd(track, cycle, IdOf(known, parents[i]))
  {
    hide Sorted, FlowEnds, IdOf, Increasing;
    InOrderEnumerates(refs);
    InFieldOrder(set r | r in refs :: RefKey(r));
    var keys := InOrder(refs);
    forall i | 0 <= i < |keys|
      ensures keys[i].c <= U64_MAX && KeyRef(keys[i]) in refs && keys[i].a == 0
    {
      assert keys[i] in keys;
    }
    FlowEndsAt(track, cycle, known, keys);
    parents := seq(|keys|, i requires 0 <= i < |keys| => KeyRef(keys[i]));
    forall r | r in refs
      ensures r in parents
    {
      assert RefKey(r) in keys;
      var i :| 0 <= i < |keys| && keys[i] == RefKey(r);
      assert parents[i] == r;
    }
  }

  lemma {:induction false} FlowEndsAt(track: nat, cycle: nat, known: map<Ref, Mark>, keys: seq<Key>)
    requires forall i :: 0 <= i < |keys| ==> keys[i].c <= U64_MAX
    requires forall k :: k in keys ==> k.c <= U64_MAX
    ensures |FlowEnds(track, cycle, known, keys)| == |keys|
    ensures forall i :: 0 <= i < |keys| ==>
              FlowEnds(track, cycle, known, keys)[i] == FlowEnd(track, cycle, IdOf(known, KeyRef(keys[i])))
  {
    if keys != [] {
      FlowEndsAt(track, cycle, known, keys[1..]);
    }
  }

  ghost function Slice(d: Description, b: Batch, known: map<Ref, Mark>, r: Ref, id: nat): seq<Event>
    requires r in b.nodes
  {
    InOrderEnumerates(Parents(b.edges, r));
    var track, cycle := TrackOf(d, r.site), b.nodes[r].cycle;
    [Begin(track, cycle, r, b.nodes[r])]
    + FlowEnds(track, cycle, known, InOrder(Parents(b.edges, r)))
    + (if CanParent(d, r.site) then [FlowStart(track, cycle, id)] else [])
    + (if IsStall(d, r.site) then [] else [End(track, cycle + 1)])
  }

  ghost function Emit(d: Description, b: Batch, st: Stage, r: Ref): Stage
    requires r in b.nodes
  {
    var node, id, track := b.nodes[r], |st.known| + 1, TrackOf(d, r.site);
    var known := st.known[r := Mark(id, node.cycle)];
    if IsStall(d, r.site) && track in st.stalls then
      var run := st.stalls[track];
      st.(stalls := st.stalls[track := run.(last := r, node := run.node.(cycle := node.cycle))], known := known)
    else
      Stage(
        if IsStall(d, r.site) then st.stalls[track := Run(r, node, Parents(b.edges, r))] else st.stalls,
        known,
        st.out + Slice(d, b, known, r, id))
  }

  // ---------------------------------------------------------------- one batch

  ghost predicate Within(b: Batch, order: seq<Ref>) {
    forall r :: r in order ==> r in b.nodes
  }

  ghost predicate NewCycle(b: Batch, order: seq<Ref>, n: nat)
    requires n < |order| && forall r :: r in order ==> r in b.nodes
  {
    n == 0 || b.nodes[order[n - 1]].cycle != b.nodes[order[n]].cycle
  }

  /** Before the first occurrence of a cycle, every slice that this cycle does not continue closes. */
  ghost function Settle(b: Batch, order: seq<Ref>, st: Stage, n: nat): Stage
    requires n < |order| && Within(b, order)
  {
    if NewCycle(b, order, n) then Close(st, Breaking(b, st.stalls, b.nodes[order[n]].cycle)) else st
  }

  /** The stage after the first `n` occurrences of the order. */
  ghost function After(d: Description, b: Batch, order: seq<Ref>, st: Stage, n: nat): Stage
    requires n <= |order| && Within(b, order)
  {
    if n == 0 then st
    else Emit(d, b, Settle(b, order, After(d, b, order, st, n - 1), n - 1), order[n - 1])
  }

  ghost predicate Newer(watermark: Option<U64>, cycle: nat) {
    watermark == None || watermark.value < cycle
  }

  ghost const SECOND: nat := 1_000_000_000

  /** The timestamp of a cycle, in whole nanoseconds. */
  ghost function Nanoseconds(d: Description, cycle: nat): nat {
    if d.frequency == 0 then 0 else cycle * SECOND / d.frequency
  }

  /** Timestamps are signed 64-bit nanoseconds. */
  ghost predicate TimestampFits(d: Description, cycle: nat) {
    0 < d.frequency && Nanoseconds(d, cycle) <= I64_MAX
  }

  /** All payload words present, and zero padding above the width. */
  ghost predicate PayloadComplete(node: Node) {
    && |node.words| == (node.width + 31) / 32
    && (forall i :: 0 <= i < |node.words| ==> i in node.words)
    && (node.width % 32 != 0 ==> node.words[|node.words| - 1] < Pow2(node.width % 32))
  }

  method CheckPayload(node: Node) returns (ok: bool)
    ensures ok <==> PayloadComplete(node)
  {
    if |node.words| != (node.width + 31) / 32 {
      return false;
    }
    for i := 0 to |node.words|
      invariant forall j :: 0 <= j < i ==> j in node.words
    {
      if i !in node.words {
        return false;
      }
    }
    if node.width % 32 == 0 {
      return true;
    }
    hide Pow2;
    ShiftedOut(node.words[|node.words| - 1], Pow2(node.width % 32));
    ok := node.words[|node.words| - 1] / Pow2(node.width % 32) == 0;
  }

  lemma ShiftedOut(x: nat, p: nat)
    requires 0 < p
    ensures x / p == 0 <==> x < p
  {
  }

  method TrackFor(d: Description, site: nat) returns (track: nat)
    ensures track == TrackOf(d, site)
  {
    track := if site < |d.tracks| then d.tracks[site] else site;
  }

  method Timestamp(d: Description, cycle: nat) returns (ns: nat)
    ensures ns == Nanoseconds(d, cycle)
  {
    ns := if d.frequency == 0 then 0 else cycle * 1_000_000_000 / d.frequency;
  }

  ghost predicate NodeAccepted(d: Description, w: Writer, b: Batch, r: Ref)
    requires r in b.nodes
  {
    var node := b.nodes[r];
    && r !in w.stage.known && r.site < |d.tracks| == |d.widths|
    && node.cycle <= b.cycle && Newer(w.watermark, node.cycle)
    && node.present && node.width == d.widths[r.site] && PayloadComplete(node)
    && TimestampFits(d, node.cycle) && TimestampFits(d, node.cycle + 1)
  }

  /** No shared track carries two occurrences in one cycle. */
  ghost predicate TracksDisjoint(d: Description, nodes: map<Ref, Node>) {
    forall r, q :: r in nodes && q in nodes && r != q && TrackOf(d, r.site) == TrackOf(d, q.site) &&
                   TrackOf(d, r.site) < |d.shared| && d.shared[TrackOf(d, r.site)] ==>
      nodes[r].cycle != nodes[q].cycle
  }

  ghost predicate EdgeAccepted(d: Description, w: Writer, b: Batch, e: Edge) {
    && e.child in b.nodes
    && (e.parent in b.nodes || e.parent in w.stage.known)
    && (e.parent.site, e.child.site) in d.dependencies
    && (if e.parent in b.nodes then b.nodes[e.parent].cycle
         else w.stage.known[e.parent].cycle) <= b.nodes[e.child].cycle
  }

  ghost predicate Accepts(d: Description, w: Writer, b: Batch) {
    && Newer(w.watermark, b.cycle)
    && (forall r :: r in b.nodes ==> NodeAccepted(d, w, b, r))
    && TracksDisjoint(d, b.nodes)
    && (forall e :: e in b.edges ==> EdgeAccepted(d, w, b, e))
    && Complete(b.nodes, b.edges, b.nodes.Keys)
    && |w.stage.known| + |b.nodes| <= U64_MAX
  }

  ghost function BatchOrder(b: Batch): (o: seq<Ref>)
    ensures Within(b, o)
  {
    OrderElements(b.nodes, b.edges, b.nodes.Keys);
    Order(b.nodes, b.edges, b.nodes.Keys)
  }

  ghost function Encode(d: Description, st: Stage, b: Batch): Stage {
    var o := BatchOrder(b);
    var last := After(d, b, o, st, |o|);
    Close(last, Stale(last.stalls, b.cycle))
  }

  ghost function Write(d: Description, w: Writer, b: Batch): Writer {
    Writer(Encode(d, w.stage, b), Some(b.cycle))
  }

  /** Everything emitted once the writer is finished: the open slices close too. */
  ghost function Finish(w: Writer): seq<Event> {
    Close(w.stage, w.stage.stalls.Keys).out
  }

  // ---------------------------------------------------------------- state kept between batches

  ghost predicate RunWellFormed(d: Description, t: nat, run: Run) {
    run.last.site < |d.tracks| && IsStall(d, run.last.site) && TrackOf(d, run.last.site) == t
  }

  ghost predicate WriterInv(d: Description, w: Writer) {
    && (forall t :: t in w.stage.stalls ==>
          RunWellFormed(d, t, w.stage.stalls[t]) && w.watermark == Some(w.stage.stalls[t].node.cycle))
    && (forall r :: r in w.stage.known ==> !Newer(w.watermark, w.stage.known[r].cycle))
  }
}

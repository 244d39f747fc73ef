/** The exporter itself: checks a batch, encodes it from staged copies of its state, and commits only
    after the output stream has taken every event. */
module PerfettoWriter {
  import opened Collections
  import Wire
  import Interning
  import PendingInterns
  import Packets
  import PacketWriter
  import Trace
  import ByteHistory
  import Captions
  import Showing
  import opened Ordering
  import opened Options
  import opened Machine
  import opened EventModel
  import opened Worklist
  import opened Encoder
  import opened Runs
  import opened Batching

  lemma SortedStep(s: set<Key>)
    requires s != {}
    ensures Sorted(s) == [Min(s)] + Sorted(s - {Min(s)})
  {
  }

  lemma EndEventsStep(k: Key, rest: seq<Key>)
    ensures EndEvents([k] + rest) == [End(k.b, k.a + 1)] + EndEvents(rest)
  {
    assert ([k] + rest)[1..] == rest;
  }

  lemma FlowEndsStep(track: nat, cycle: nat, known: map<Ref, Mark>, k: Key, rest: seq<Key>)
    requires k.c <= U64_MAX && forall q :: q in rest ==> q.c <= U64_MAX
    ensures FlowEnds(track, cycle, known, [k] + rest) ==
      [FlowEnd(track, cycle, IdOf(known, KeyRef(k)))] + FlowEnds(track, cycle, known, rest)
  {
    assert ([k] + rest)[1..] == rest;
  }

  /** Emits the end of each closing slice in (last cycle, track) order. */
  method CloseStalls(d: Description, stalls: map<nat, Run>, closing: set<nat>) returns (stream: seq<Event>)
    requires closing <= stalls.Keys && forall t :: t in stalls ==> RunWellFormed(d, t, stalls[t])
    ensures stream == EndEvents(Sorted(Endings(stalls, closing)))
  {
    hide Sorted, EndEvents;
    var endings := set t | t in closing :: Key(stalls[t].node.cycle, t, 0);
    assert endings == Endings(stalls, closing);
    ghost var all := endings;
    stream := [];
    EndsNothing();
    while endings != {}
      invariant endings <= all
      invariant stream + EndEvents(Sorted(endings)) == EndEvents(Sorted(all))
      decreases endings
    {
      SortedStep(endings);
      var k := FindMin(endings);
      assert k in all;
      EndEventsStep(k, Sorted(endings - {k}));
      Associate(stream, [End(k.b, k.a + 1)], EndEvents(Sorted(endings - {k})));
      var track := TrackFor(d, stalls[k.b].last.site);
      stream := stream + [End(track, k.a + 1)];
      endings := endings - {k};
    }
    EndsNothing();
  }

  lemma EndsNothing()
    ensures EndEvents(Sorted({})) == []
  {
  }

  /** Emits one arrow per parent, in reference order. */
  method PointFrom(track: nat, cycle: nat, known: map<Ref, Mark>, parents: set<Ref>) returns (stream: seq<Event>)
    ensures forall k :: k in InOrder(parents) ==> k.c <= U64_MAX
    ensures stream == FlowEnds(track, cycle, known, InOrder(parents))
  {
    InOrderEnumerates(parents);
    var todo := set r | r in parents :: RefKey(r);
    ghost var all := Sorted(todo);
    SortedEnumerates(todo);
    stream := [];
    while todo != {}
      invariant forall k :: k in todo ==> k.c <= U64_MAX
      invariant forall k :: k in Sorted(todo) ==> k.c <= U64_MAX
      invariant stream + FlowEnds(track, cycle, known, Sorted(todo)) == FlowEnds(track, cycle, known, all)
      decreases todo
    {
      SortedStep(todo);
      var k := FindMin(todo);
      ghost var rest := Sorted(todo - {k});
      assert forall q :: q in rest ==> q in Sorted(todo);
      FlowEndsStep(track, cycle, known, k, rest);
      Associate(stream, [FlowEnd(track, cycle, IdOf(known, KeyRef(k)))], FlowEnds(track, cycle, known, rest));
      var parent := KeyRef(k);
      stream := stream + [FlowEnd(track, cycle, if parent in known then known[parent].id else 0)];
      todo := todo - {k};
    }
  }

  lemma IndexedParents(edges: set<Edge>, parents: map<Ref, set<Ref>>, r: Ref)
    requires ParentIndex(edges, parents)
    ensures At(parents, r) == Parents(edges, r)
  {
    forall p
      ensures p in At(parents, r) <==> p in Parents(edges, r)
    {
      ParentsMember(edges, p, r);
    }
  }

  predicate ContinuesIndexed(b: Batch, parents: map<Ref, set<Ref>>, run: Run, g: nat) {
    && run.last.sequence < U64_MAX
    && var next := Ref(run.last.site, run.last.sequence + 1);
    && next in b.nodes
    && b.nodes[next].cycle == g
    && run.node.cycle + 1 == g
    && b.nodes[next].words == run.node.words
    && At(parents, next) == run.parents
  }

  method FindBreaking(b: Batch, parents: map<Ref, set<Ref>>, stalls: map<nat, Run>, g: nat) returns (closing: set<nat>)
    requires ParentIndex(b.edges, parents)
    ensures closing == Breaking(b, stalls, g) && closing <= stalls.Keys
  {
    closing := set t | t in stalls && !ContinuesIndexed(b, parents, stalls[t], g);
    forall t | t in stalls
      ensures ContinuesIndexed(b, parents, stalls[t], g) == Continues(b, stalls[t], g)
    {
      if stalls[t].last.sequence < U64_MAX {
        IndexedParents(b.edges, parents, Ref(stalls[t].last.site, stalls[t].last.sequence + 1));
      }
    }
  }

  /** The events of a slice that opens at `r`. */
  method OpenSlice(d: Description, b: Batch, parents: map<Ref, set<Ref>>, known: map<Ref, Mark>, r: Ref, id: nat)
    returns (stream: seq<Event>)
    requires r in b.nodes && ParentIndex(b.edges, parents)
    ensures stream == Slice(d, b, known, r, id)
  {
    IndexedParents(b.edges, parents, r);
    var track := TrackFor(d, r.site);
    var node := b.nodes[r];
    stream := [Begin(track, node.cycle, r, node)];
    var arrows := PointFrom(track, node.cycle, known, At(parents, r));
    stream := stream + arrows;
    if exists e <- d.dependencies :: e.0 == r.site {
      stream := stream + [FlowStart(track, node.cycle, id)];
    }
    if r.site >= |d.stalls| || !d.stalls[r.site] {
      stream := stream + [End(track, node.cycle + 1)];
    }
  }

  // ---------------------------------------------------------------- preflight

  /** The occurrences checked so far are acceptable and do not collide on shared tracks. */
  ghost predicate CheckedNodes(d: Description, w: Writer, b: Batch, done: set<Ref>, occupied: set<(nat, nat)>)
    requires done <= b.nodes.Keys
  {
    && (forall r :: r in done ==> NodeAccepted(d, w, b, r))
    && (forall r :: r in done && OnShared(d, r) ==> (TrackOf(d, r.site), b.nodes[r].cycle as nat) in occupied)
    && (forall o :: o in occupied ==>
         exists r :: r in done && OnShared(d, r) && o == (TrackOf(d, r.site), b.nodes[r].cycle as nat))
    && (forall r, q ::
          r in done && q in done && r != q && OnShared(d, r) && TrackOf(d, r.site) == TrackOf(d, q.site) ==>
            b.nodes[r].cycle != b.nodes[q].cycle)
  }

  ghost predicate OnShared(d: Description, r: Ref) {
    TrackOf(d, r.site) < |d.shared| && d.shared[TrackOf(d, r.site)]
  }

  /** A node is refused on its own, or because its shared track is occupied in that cycle. */
  lemma NodeRefused(d: Description, w: Writer, b: Batch, done: set<Ref>, occupied: set<(nat, nat)>, r: Ref)
    requires done <= b.nodes.Keys && CheckedNodes(d, w, b, done, occupied) && r in b.nodes && r !in done
    requires !NodeAccepted(d, w, b, r) || (OnShared(d, r) && (TrackOf(d, r.site), b.nodes[r].cycle as nat) in occupied)
    ensures !((forall q :: q in b.nodes ==> NodeAccepted(d, w, b, q)) && TracksDisjoint(d, b.nodes))
  {
    hide NodeAccepted;
  }

  lemma NodeChecked(d: Description, w: Writer, b: Batch, done: set<Ref>, occupied: set<(nat, nat)>, r: Ref)
    requires done <= b.nodes.Keys && CheckedNodes(d, w, b, done, occupied) && r in b.nodes && r !in done
    requires NodeAccepted(d, w, b, r)
    requires OnShared(d, r) ==> (TrackOf(d, r.site), b.nodes[r].cycle as nat) !in occupied
    ensures CheckedNodes(d, w, b, done + {r},
      if OnShared(d, r) then occupied + {(TrackOf(d, r.site), b.nodes[r].cycle as nat)} else occupied)
  {
    hide NodeAccepted;
  }

  method CheckNode(d: Description, ghost w: Writer, known: map<Ref, Mark>, watermark: Option<U64>, b: Batch, r: Ref)
    returns (ok: bool)
    requires w.stage.known == known && w.watermark == watermark && r in b.nodes
    ensures ok <==> NodeAccepted(d, w, b, r)
  {
    hide PayloadComplete;
    var node := b.nodes[r];
    if r in known || r.site >= |d.tracks| || |d.tracks| != |d.widths| {
      return false;
    }
    if node.cycle > b.cycle || (watermark.Some? && node.cycle <= watermark.value) {
      return false;
    }
    if !node.present || node.width != d.widths[r.site] || d.frequency == 0 {
      return false;
    }
    var complete := CheckPayload(node);
    var begins := Timestamp(d, node.cycle);
    var ends := Timestamp(d, node.cycle + 1);
    ok := complete && begins <= 0x7FFF_FFFF_FFFF_FFFF && ends <= 0x7FFF_FFFF_FFFF_FFFF;
  }

  method CheckNodes(d: Description, ghost w: Writer, known: map<Ref, Mark>, watermark: Option<U64>, b: Batch)
    returns (ok: bool)
    requires w.stage.known == known && w.watermark == watermark
    ensures ok <==> (forall r :: r in b.nodes ==> NodeAccepted(d, w, b, r)) && TracksDisjoint(d, b.nodes)
  {
    hide NodeAccepted, CheckedNodes, TracksDisjoint;
    var occupied: set<(nat, nat)> := {};
    var todo := b.nodes.Keys;
    CheckedNone(d, w, b);
    while todo != {}
      invariant todo <= b.nodes.Keys && CheckedNodes(d, w, b, b.nodes.Keys - todo, occupied)
      decreases todo
    {
      var r :| r in todo;
      var accepted := CheckNode(d, w, known, watermark, b, r);
      var track := TrackFor(d, r.site);
      var place, shared := (track, b.nodes[r].cycle as nat), track < |d.shared| && d.shared[track];
      if !accepted || (shared && place in occupied) {
        NodeRefused(d, w, b, b.nodes.Keys - todo, occupied, r);
        return false;
      }
      NodeChecked(d, w, b, b.nodes.Keys - todo, occupied, r);
      MoveOne(b.nodes.Keys, todo, r);
      if shared {
        occupied := occupied + {place};
      }
      todo := todo - {r};
    }
    assert b.nodes.Keys - todo == b.nodes.Keys;
    CheckedAll(d, w, b, occupied);
    ok := true;
  }

  lemma CheckedNone(d: Description, w: Writer, b: Batch)
    ensures CheckedNodes(d, w, b, b.nodes.Keys - b.nodes.Keys, {})
  {
  }

  lemma CheckedAll(d: Description, w: Writer, b: Batch, occupied: set<(nat, nat)>)
    requires CheckedNodes(d, w, b, b.nodes.Keys, occupied)
    ensures (forall r :: r in b.nodes ==> NodeAccepted(d, w, b, r)) && TracksDisjoint(d, b.nodes)
  {
    hide NodeAccepted;
  }

  method CheckEdges(d: Description, ghost w: Writer, known: map<Ref, Mark>, b: Batch) returns (ok: bool)
    requires w.stage.known == known
    ensures ok <==> forall e :: e in b.edges ==> EdgeAccepted(d, w, b, e)
  {
    var todo := b.edges;
    while todo != {}
      invariant todo <= b.edges && forall e :: e in b.edges - todo ==> EdgeAccepted(d, w, b, e)
      decreases todo
    {
      var e :| e in todo;
      if e.child !in b.nodes || (e.parent !in b.nodes && e.parent !in known) ||
         (e.parent.site, e.child.site) !in d.dependencies {
        return false;
      }
      var cycle := if e.parent in b.nodes then b.nodes[e.parent].cycle else known[e.parent].cycle;
      if cycle > b.nodes[e.child].cycle {
        return false;
      }
      todo := todo - {e};
    }
    ok := true;
  }

  // ---------------------------------------------------------------- emission

  /** Closes the slices the cycle of `order[n]` does not continue, if that cycle is new. */
  method SettleCycle(d: Description, b: Batch, parents: map<Ref, set<Ref>>, order: seq<Ref>, n: nat,
                     stalls: map<nat, Run>, ghost known: map<Ref, Mark>, ghost out: seq<Event>)
    returns (stalls': map<nat, Run>, stream: seq<Event>)
    requires n < |order| && Within(b, order) && ParentIndex(b.edges, parents)
    requires forall t :: t in stalls ==> RunWellFormed(d, t, stalls[t])
    ensures Settle(b, order, Stage(stalls, known, out), n) == Stage(stalls', known, out + stream)
    ensures forall t :: t in stalls' ==> RunWellFormed(d, t, stalls'[t])
  {
    hide Breaking, Sorted, Endings;
    if n == 0 || b.nodes[order[n - 1]].cycle != b.nodes[order[n]].cycle {
      var closing := FindBreaking(b, parents, stalls, b.nodes[order[n]].cycle);
      stream := CloseStalls(d, stalls, closing);
      stalls' := stalls - closing;
    } else {
      stalls', stream := stalls, [];
      assert out + [] == out;
    }
  }

  /** Emits one occurrence: extends the open slice of its track, or opens a new one. */
  method EmitOne(d: Description, b: Batch, parents: map<Ref, set<Ref>>, r: Ref, id: nat,
                 stalls: map<nat, Run>, ghost before: map<Ref, Mark>, known: map<Ref, Mark>, ghost out: seq<Event>)
    returns (stalls': map<nat, Run>, stream: seq<Event>)
    requires r in b.nodes && r.site < |d.tracks| && ParentIndex(b.edges, parents)
    requires id == |before| + 1 && known == before[r := Mark(id, b.nodes[r].cycle)]
    requires forall t :: t in stalls ==> RunWellFormed(d, t, stalls[t])
    ensures Emit(d, b, Stage(stalls, before, out), r) == Stage(stalls', known, out + stream)
    ensures forall t :: t in stalls' ==> RunWellFormed(d, t, stalls'[t])
  {
    hide Slice;
    IndexedParents(b.edges, parents, r);
    var track := TrackFor(d, r.site);
    var node := b.nodes[r];
    var stall := r.site < |d.stalls| && d.stalls[r.site];
    if stall && track in stalls {
      var run := stalls[track];
      stalls', stream := stalls[track := run.(last := r, node := run.node.(cycle := node.cycle))], [];
      assert out + [] == out;
    } else {
      stream := OpenSlice(d, b, parents, known, r, id);
      stalls' := if stall then stalls[track := Run(r, node, At(parents, r))] else stalls;
    }
  }

  /** Occurrences emitted so far, kept apart from those of earlier batches. */
  ghost predicate Added(order: seq<Ref>, n: nat, known: map<Ref, Mark>, additions: map<Ref, Mark>)
    requires n <= |order|
  {
    |additions| == n && (forall r :: r in additions <==> r in order[..n]) && known.Keys !! additions.Keys
  }

  lemma AddedStep(d: Description, b: Batch, order: seq<Ref>, n: nat, known: map<Ref, Mark>, additions: map<Ref, Mark>,
                  m: Mark)
    requires Orderly(d, b, order) && n < |order| && order[n] !in known && Added(order, n, known, additions)
    ensures Added(order, n + 1, known, additions[order[n] := m])
    ensures known + additions[order[n] := m] == (known + additions)[order[n] := m]
    ensures |known + additions| == |known| + n
  {
    assert order[n] !in order[..n];
    hide Orderly;
    UnionSize(known, additions);
    AddToUnion(known, additions, order[n], m);
    AddedSize(additions, order[n], m);
    PrefixGrows(order, n);
  }

  /** After `n` occurrences: the staged state is what the specification says. */
  ghost predicate Emitted(d: Description, b: Batch, order: seq<Ref>, st: Stage, n: nat,
                          stalls: map<nat, Run>, additions: map<Ref, Mark>, stream: seq<Event>)
  {
    && n <= |order| && Within(b, order)
    && Added(order, n, st.known, additions) && |additions| == n
    && After(d, b, order, st, n) == Stage(stalls, st.known + additions, st.out + stream)
    && (forall t :: t in stalls ==> RunWellFormed(d, t, stalls[t]))
  }

  method EmitBatch(d: Description, b: Batch, parents: map<Ref, set<Ref>>, order: seq<Ref>,
                   stalls: map<nat, Run>, known: map<Ref, Mark>, ghost st: Stage)
    returns (ok: bool, nextStalls: map<nat, Run>, additions: map<Ref, Mark>, stream: seq<Event>)
    requires st.stalls == stalls && st.known == known
    requires Orderly(d, b, order) && ParentIndex(b.edges, parents)
    requires forall r :: r in order ==> r !in known
    requires forall t :: t in stalls ==> RunWellFormed(d, t, stalls[t])
    ensures ok <==> order == [] || |known| + |order| <= U64_MAX
    ensures ok ==> Emitted(d, b, order, st, |order|, nextStalls, additions, stream)
  {
    nextStalls, additions, stream := stalls, map[], [];
    NothingEmitted(d, b, order, st);
    hide Emitted, Orderly, ParentIndex;
    var n := 0;
    while n < |order|
      invariant n <= |order| && Emitted(d, b, order, st, n, nextStalls, additions, stream)
      invariant 0 < n ==> |known| + n <= U64_MAX
    {
      AdditionsSize(d, b, order, st, n, nextStalls, additions, stream);
      if |known| >= U64_MAX - |additions| {
        return false, nextStalls, additions, stream;
      }
      nextStalls, additions, stream := EmitNext(d, b, parents, order, n, st, nextStalls, known, additions, stream);
      n := n + 1;
    }
    ok := true;
  }

  lemma AdditionsSize(d: Description, b: Batch, order: seq<Ref>, st: Stage, n: nat,
                      stalls: map<nat, Run>, additions: map<Ref, Mark>, stream: seq<Event>)
    requires Emitted(d, b, order, st, n, stalls, additions, stream)
    ensures |additions| == n
  {
  }

  lemma OrderlySite(d: Description, b: Batch, order: seq<Ref>, n: nat)
    requires Orderly(d, b, order) && n < |order|
    ensures order[n].site < |d.tracks|
  {
  }

  /** One round of the emission loop: settle the cycle, take the next flow identity, emit. */
  method EmitNext(d: Description, b: Batch, parents: map<Ref, set<Ref>>, order: seq<Ref>, n: nat, ghost st: Stage,
                  stalls: map<nat, Run>, known: map<Ref, Mark>, additions: map<Ref, Mark>, stream: seq<Event>)
    returns (stalls': map<nat, Run>, additions': map<Ref, Mark>, stream': seq<Event>)
    requires Orderly(d, b, order) && n < |order| && ParentIndex(b.edges, parents)
    requires order[n] !in known && st.known == known
    requires Emitted(d, b, order, st, n, stalls, additions, stream)
    ensures Emitted(d, b, order, st, n + 1, stalls', additions', stream')
  {
    hide Settle, Emit, RunWellFormed, After, Orderly, ParentIndex;
    OrderlySite(d, b, order, n);
    var r := order[n];
    var settled, ends := SettleCycle(d, b, parents, order, n, stalls, known + additions, st.out + stream);
    var id := |known| + |additions| + 1;
    AddedStep(d, b, order, n, known, additions, Mark(id, b.nodes[r].cycle));
    additions' := additions[r := Mark(id, b.nodes[r].cycle)];
    var slice;
    stalls', slice := EmitOne(d, b, parents, r, id, settled, known + additions, known + additions', st.out + stream +
      ends);
    AfterNext(d, b, order, st, n);
    Associate(st.out, stream, ends);
    Associate(st.out, stream + ends, slice);
    stream' := stream + ends + slice;
  }

  lemma NothingEmitted(d: Description, b: Batch, order: seq<Ref>, st: Stage)
    requires Orderly(d, b, order) && forall t :: t in st.stalls ==> RunWellFormed(d, t, st.stalls[t])
    ensures Emitted(d, b, order, st, 0, st.stalls, map[], [])
  {
    assert st.known + map[] == st.known && st.out + [] == st.out;
  }

  lemma AfterNext(d: Description, b: Batch, order: seq<Ref>, st: Stage, n: nat)
    requires n < |order| && Within(b, order)
    ensures After(d, b, order, st, n + 1) == Emit(d, b, Settle(b, order, After(d, b, order, st, n), n), order[n])
  {
    hide Emit, Settle;
  }

  // ---------------------------------------------------------------- one batch

  /** All checks but the supply of flow identities. */
  ghost predicate Checked(d: Description, w: Writer, b: Batch) {
    && (forall r :: r in b.nodes ==> NodeAccepted(d, w, b, r)) && TracksDisjoint(d, b.nodes)
    && (forall e :: e in b.edges ==> EdgeAccepted(d, w, b, e))
    && Complete(b.nodes, b.edges, b.nodes.Keys)
  }

  lemma AcceptsIsChecked(d: Description, w: Writer, b: Batch)
    ensures Accepts(d, w, b) <==>
      Newer(w.watermark, b.cycle) && Checked(d, w, b) && |w.stage.known| + |b.nodes| <= U64_MAX
  {
    hide NodeAccepted, EdgeAccepted, TracksDisjoint, Complete;
  }

  lemma CheckedFacts(d: Description, w: Writer, b: Batch)
    requires d.Valid() && Checked(d, w, b)
    ensures Orderly(d, b, BatchOrder(b)) && |BatchOrder(b)| == |b.nodes|
    ensures forall r :: r in BatchOrder(b) ==> r !in w.stage.known
  {
    CheckedOrderly(d, w, b);
  }

  method Preflight(d: Description, ghost w: Writer, known: map<Ref, Mark>, watermark: Option<U64>, b: Batch)
    returns (ok: bool, parents: map<Ref, set<Ref>>, order: seq<Ref>)
    requires d.Valid() && w.stage.known == known && w.watermark == watermark
    ensures ok <==> Checked(d, w, b)
    ensures ok ==> ParentIndex(b.edges, parents) && order == BatchOrder(b)
  {
    hide NodeAccepted, TracksDisjoint, Order, ChildIndex, Counts, ParentIndex;
    parents, order := map[], [];
    ok := CheckNodes(d, w, known, watermark, b);
    if !ok {
      return;
    }
    ok := CheckEdges(d, w, known, b);
    if !ok {
      return;
    }
    assert forall e :: e in b.edges ==> EdgeAccepted(d, w, b, e);
    var children, indegree;
    parents, children, indegree := Index(b.nodes, b.edges);
    order := Drain(b.nodes, b.edges, children, indegree);
    ok := |order| == |b.nodes|;
  }

  /** The slices that the end of a cycle leaves behind. */
  method FindStale(stalls: map<nat, Run>, cycle: nat) returns (stale: set<nat>)
    ensures stale == Stale(stalls, cycle)
  {
    stale := set t | t in stalls && stalls[t].node.cycle < cycle;
  }

  /** Stages a whole checked batch: its occurrences, then the slices its last cycle leaves behind. */
  method EncodeStaged(d: Description, ghost w: Writer, b: Batch, parents: map<Ref, set<Ref>>, order: seq<Ref>,
                      stalls: map<nat, Run>, known: map<Ref, Mark>)
    returns (ok: bool, stalls': map<nat, Run>, additions: map<Ref, Mark>, stream: seq<Event>)
    requires d.Valid() && WriterInv(d, w) && w.stage.stalls == stalls && w.stage.known == known
    requires Checked(d, w, b) && ParentIndex(b.edges, parents) && order == BatchOrder(b)
    ensures ok <==> b.nodes == map[] || |known| + |b.nodes| <= U64_MAX
    ensures ok ==> Encode(d, w.stage, b) == Stage(stalls', known + additions, w.stage.out + stream)
  {
    CheckedFacts(d, w, b);
    hide Checked, After, BatchOrder, Orderly, ParentIndex, Sorted, Endings, EndEvents;
    var nextStalls, emitted;
    ok, nextStalls, additions, emitted := EmitBatch(d, b, parents, order, stalls, known, w.stage);
    stalls', stream := nextStalls, emitted;
    if ok {
      var stale := FindStale(nextStalls, b.cycle);
      var ends := CloseStalls(d, nextStalls, stale);
      stalls', stream := nextStalls - stale, emitted + ends;
      Associate(w.stage.out, emitted, ends);
    }
  }

  // ---------------------------------------------------------------- bytes

  type Strings = map<Interning.Kind, PendingInterns.Dictionary>

  /** The committed dictionaries are these tables. */
  ghost predicate Hold(strings: Strings, tables: Interning.Tables) {
    forall k: Interning.Kind :: k in strings &&
      PendingInterns.Holds(strings[k], PendingInterns.NO_DICTIONARY, tables.Get(k))
  }

  const NO_STRINGS: Strings := map[
    Interning.Category := PendingInterns.NO_DICTIONARY, Interning.Name := PendingInterns.NO_DICTIONARY,
    Interning.AnnotationName := PendingInterns.NO_DICTIONARY, Interning.Value := PendingInterns.NO_DICTIONARY]

  lemma NothingInterned()
    ensures Hold(NO_STRINGS, Interning.NO_TABLES)
  {
    forall k: Interning.Kind
      ensures k in NO_STRINGS && NO_STRINGS[k] == PendingInterns.NO_DICTIONARY && Interning.NO_TABLES.Get(k) == []
    {
      match k
      case Category =>
      case Name =>
      case AnnotationName =>
      case Value =>
    }
  }

  /** Tables and bytes are those of the heading and all events output so far. */
  ghost predicate Serialized(heading: Trace.Heading, display: ByteHistory.Display, output: seq<Event>,
                             tables: Interning.Tables, bytes: Wire.Text) {
    && tables == Packets.EncodeStream(Interning.NO_TABLES, ByteHistory.Render(display, output)).0
    && bytes == Trace.HeadingBytes(heading) +
         Packets.StreamBytes(Interning.NO_TABLES, ByteHistory.Render(display, output))
  }

  lemma HeadingSerialized(heading: Trace.Heading, display: ByteHistory.Display)
    ensures Serialized(heading, display, [], Interning.NO_TABLES, Trace.HeadingBytes(heading))
  {
    assert ByteHistory.Render(display, []) == [];
    assert Packets.StreamBytes(Interning.NO_TABLES, []) == [];
    assert Trace.HeadingBytes(heading) + [] == Trace.HeadingBytes(heading);
  }

  lemma SerializedMore(heading: Trace.Heading, display: ByteHistory.Display, output: seq<Event>, stream: seq<Event>,
                       tables: Interning.Tables, bytes: Wire.Text)
    requires Serialized(heading, display, output, tables, bytes)
    ensures Serialized(heading, display, output + stream,
      Packets.EncodeStream(tables, ByteHistory.Render(display, stream)).0,
                       bytes + Packets.StreamBytes(tables, ByteHistory.Render(display, stream)))
  {
    hide Packets.EncodeStream, Packets.StreamBytes, Trace.HeadingBytes, ByteHistory.Render;
    var ps, qs := ByteHistory.Render(display, output), ByteHistory.Render(display, stream);
    ByteHistory.RenderConcat(display, output, stream);
    Packets.BytesConcat(Interning.NO_TABLES, ps, qs);
    Packets.EncodeConcat(Interning.NO_TABLES, ps, qs);
    Associate(Trace.HeadingBytes(heading), Packets.StreamBytes(Interning.NO_TABLES, ps),
      Packets.StreamBytes(tables, qs));
  }

  /** With every slice closed the writer still keeps its invariant. */
  lemma NoStallsLeft(d: Description, w: Encoder.Writer)
    requires WriterInv(d, w)
    ensures forall t :: t in w.stage.stalls ==> RunWellFormed(d, t, w.stage.stalls[t])
    ensures forall out :: WriterInv(d, Encoder.Writer(Stage(map[], w.stage.known, out), w.watermark))
    ensures Encoder.Finish(w) == w.stage.out + EndEvents(Sorted(Endings(w.stage.stalls, w.stage.stalls.Keys)))
  {
    hide RunWellFormed, EndEvents, Sorted, Endings;
  }

  /** Serializes packets with staged dictionaries; committing them is left to the caller. */
  method SerializePackets(packets: seq<Packets.Packet>, strings: Strings, ghost tables: Interning.Tables)
    returns (data: Wire.Text, staged: Strings)
    requires Hold(strings, tables)
    ensures data == Packets.StreamBytes(tables, packets)
    ensures Hold(staged, Packets.EncodeStream(tables, packets).0)
  {
    hide PendingInterns.Holds, Packets.EncodeStream, Packets.StreamBytes;
    var interns := new PendingInterns.Interns(strings, tables);
    data := PacketWriter.AppendPackets([], interns, packets);
    NothingBefore(Packets.StreamBytes(tables, packets));
    staged := interns.Commit();
  }

  // ---------------------------------------------------------------- the writer

  lemma WrittenSupply(d: Description, w: Writer, b: Batch)
    requires d.Valid() && WriterInv(d, w) && Accepts(d, w, b)
    ensures |Encoder.Write(d, w, b).stage.known| <= U64_MAX
  {
    WrittenKnown(d, w, b);
    hide Encode, TracksDisjoint, Complete, NodeAccepted, EdgeAccepted;
  }

  /** A batch encoded but not yet delivered. */
  datatype Prepared = Prepared(stalls: map<nat, Run>, additions: map<Ref, Mark>, stream: seq<Event>, data: Wire.Text,
                               strings: Strings)

  class Exporter {
    const description: Description
    /** How sites are shown, and the text of instructions. */
    const views: seq<Captions.View>
    const formatter: Captions.Formatter
    ghost const display: ByteHistory.Display
    const heading: Trace.Heading
    var stalls: map<nat, Run>
    var known: map<Ref, Mark>
    var watermark: Option<U64>
    var strings: Strings
    var failed: bool
    var finished: bool
    /** What the output stream has taken, and the events it stands for. */
    var bytes: Wire.Text
    var output: seq<Event>
    ghost var tables: Interning.Tables

    ghost function State(): Writer
      reads this
    {
      Writer(Stage(stalls, known, output), watermark)
    }

    /** The bytes taken are the heading and the packets of the events, and the dictionaries are theirs. */
    ghost predicate Sunk()
      reads this`strings, this`bytes, this`output, this`tables
    {
      Hold(strings, tables) && Serialized(heading, display, output, tables, bytes)
    }

    /** Slices are shown as their sites say. */
    ghost predicate Shows()
      reads formatter
    {
      && Captions.Viewed(description, views) && formatter.Valid()
      && display == Showing.DisplayOf(description, views, formatter.dis)
    }

    ghost predicate Valid()
      reads this, formatter
    {
      && description.Valid() && WriterInv(description, State()) && |known| <= U64_MAX && Sunk()
      && Shows() && Showing.AllSettled(description, output)
    }

    constructor (d: Description, sites: seq<Captions.View>, dis: Captions.Disassembler, h: Trace.Heading)
      requires d.Valid() && Captions.Viewed(d, sites)
      ensures Valid() && description == d && heading == h && display == Showing.DisplayOf(d, sites, dis)
      ensures State() == FRESH && !failed && !finished && bytes == Trace.HeadingBytes(h) && fresh(formatter)
    {
      hide Hold, Serialized, Captions.Viewed, Showing.DisplayOf, Captions.Formatter.Valid;
      var header := Trace.WriteHeading(h);
      NothingInterned();
      ghost var show := Showing.DisplayOf(d, sites, dis);
      HeadingSerialized(h, show);
      formatter := new Captions.Formatter(dis);
      description, views, display, heading := d, sites, show, h;
      stalls, known, watermark, strings := map[], map[], None, NO_STRINGS;
      failed, finished, output, bytes := false, false, [], header;
      tables := Interning.NO_TABLES;
    }

    /** The bytes and dictionaries that would follow for a stream. */
    ghost predicate Ready(stream: seq<Event>, data: Wire.Text, staged: Strings)
      reads this`tables
    {
      && data == Packets.StreamBytes(tables, ByteHistory.Render(display, stream))
      && Hold(staged, Packets.EncodeStream(tables, ByteHistory.Render(display, stream)).0)
    }

    method Serialize(stream: seq<Event>) returns (data: Wire.Text, staged: Strings)
      requires Sunk() && Shows() && Showing.AllSettled(description, stream)
      modifies formatter
      ensures Shows() && Ready(stream, data, staged)
    {
      hide Hold, Serialized, Captions.Viewed, Showing.DisplayOf, Captions.Formatter.Valid, Showing.AllSettled;
      var packets := Showing.ShowEvents(description, views, formatter, stream);
      data, staged := SerializePackets(packets, strings, tables);
    }

    /** Takes a serialized stream into the output. */
    method Flush(stream: seq<Event>, data: Wire.Text, staged: Strings)
      requires Sunk() && Ready(stream, data, staged)
      modifies this`bytes, this`output, this`strings, this`tables
      ensures Sunk() && output == old(output) + stream
    {
      hide Hold, Serialized, Packets.EncodeStream, Packets.StreamBytes;
      SerializedMore(heading, display, output, stream, tables, bytes);
      bytes := bytes + data;
      output := output + stream;
      strings := staged;
      tables := Packets.EncodeStream(tables, ByteHistory.Render(display, stream)).0;
    }

    /** Checks and encodes a batch from copies of the state. */
    method Prepare(batch: Batch) returns (r: Option<Prepared>)
      requires Valid()
      modifies formatter
      ensures Shows()
      ensures r.Some? ==> Showing.AllSettled(description, output + r.value.stream)
      ensures r.Some? <==> Accepts(description, State(), batch)
      ensures r.Some? ==> Ready(r.value.stream, r.value.data, r.value.strings)
      ensures r.Some? ==>
        Encode(description, State().stage, batch) ==
          Stage(r.value.stalls, known + r.value.additions, output + r.value.stream)
    {
      hide Accepts, Checked, Encode, WriterInv, ParentIndex, BatchOrder, Sunk, Ready, Shows, Showing.AllSettled;
      AcceptsIsChecked(description, State(), batch);
      if watermark.Some? && batch.cycle <= watermark.value {
        return None;
      }
      var checked, parents, order := Preflight(description, State(), known, watermark, batch);
      if !checked {
        return None;
      }
      var fits, stalls', additions, stream :=
        EncodeStaged(description, State(), batch, parents, order, stalls, known);
      if !fits {
        return None;
      }
      Showing.EncodeSettled(description, State(), batch);
      Showing.SettledConcat(description, output, stream);
      var data, staged := Serialize(stream);
      r := Some(Prepared(stalls', additions, stream, data, staged));
    }

    /** `delivered` says whether the output stream took the batch. A refused batch changes nothing; a
        batch that was not delivered leaves the writer failed for good. Dictionaries are committed only
        with the bytes that define them. */
    method Write(batch: Batch, delivered: bool) returns (ok: bool)
      requires Valid()
      modifies this, formatter
      ensures Valid()
      ensures ok <==> !old(failed) && !old(finished) && Accepts(description, old(State()), batch) && delivered
      ensures State() == if ok then Encoder.Write(description, old(State()), batch) else old(State())
      ensures !ok ==> bytes == old(bytes) && strings == old(strings)
      ensures failed <==> old(failed) || (!old(finished) && Accepts(description, old(State()), batch) && !delivered)
      ensures finished == old(finished)
    {
      hide Accepts, Encode, WriterInv, Sunk, Ready, Encoder.Write, Shows, Showing.AllSettled;
      if failed || finished {
        return false;
      }
      var prepared := Prepare(batch);
      if prepared == None {
        return false;
      }
      WriteKeepsInv(description, State(), batch);
      WrittenSupply(description, State(), batch);
      if !delivered {
        failed := true;
        return false;
      }
      Take(batch, prepared.value);
      ok := true;
    }

    /** Commits a delivered batch. */
    method Take(batch: Batch, p: Prepared)
      requires Sunk() && Ready(p.stream, p.data, p.strings)
      requires Encode(description, State().stage, batch) == Stage(p.stalls, known + p.additions, output + p.stream)
      modifies this`bytes, this`output, this`strings, this`tables, this`known, this`stalls, this`watermark
      ensures Sunk() && State() == Encoder.Write(description, old(State()), batch) && output == old(output) + p.stream
    {
      hide Sunk, Ready, Encode;
      Flush(p.stream, p.data, p.strings);
      known := known + p.additions;
      stalls := p.stalls;
      watermark := Some(batch.cycle);
    }

    /** Closes every open slice. Idempotent, unless delivery failed. */
    method Finish(delivered: bool) returns (ok: bool)
      requires Valid()
      modifies this`bytes, this`output, this`strings, this`tables, this`stalls, this`failed, this`finished, formatter
      ensures Valid() && known == old(known) && watermark == old(watermark)
      ensures ok <==> !old(failed) && (old(finished) || delivered)
      ensures output == if ok && !old(finished) then Encoder.Finish(old(State())) else old(output)
      ensures finished <==> old(finished) || ok
      ensures failed <==> old(failed) || (!old(finished) && !delivered)
      ensures stalls == if old(failed) || old(finished) then old(stalls) else map[]
      ensures !ok || old(finished) ==> bytes == old(bytes) && strings == old(strings)
    {
      hide Sunk, Ready, WriterInv, RunWellFormed, Encoder.Finish, EndEvents, Sorted, Endings, Shows, Showing.AllSettled;
      if failed {
        return false;
      }
      if finished {
        return true;
      }
      NoStallsLeft(description, State());
      var stream := CloseStalls(description, stalls, stalls.Keys);
      Showing.EndsSettled(description, Sorted(Endings(stalls, stalls.Keys)));
      Showing.SettledConcat(description, output, stream);
      var data, staged := Serialize(stream);
      stalls := map[];
      if !delivered {
        failed := true;
        return false;
      }
      Flush(stream, data, staged);
      finished := true;
      ok := true;
    }
  }
}

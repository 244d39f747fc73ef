/** The event stream of a finished run decodes to exactly the occurrences and dependencies recorded. */
module Lossless {
  import opened Collections
  import opened Ordering
  import opened Options
  import opened Machine
  import opened EventModel
  import opened Worklist
  import opened Encoder
  import opened Runs
  import opened Batching
  import opened Merging
  import opened History
  import opened Decoding

  /** An open slice as far as it has been observed. */
  ghost function SoFar(iv: Interval, run: Run): Interval {
    iv.(length := if run.node.cycle < iv.cycle then 0 else run.node.cycle + 1 - iv.cycle)
  }

  /** The decoder's open slice is the encoder's open run. */
  ghost predicate Tracks(nodes: map<Ref, Node>, edges: set<Edge>, taken: set<Ref>, iv: Interval, run: Run) {
    && iv.cycle <= run.node.cycle
    && Faithful(nodes, edges, taken, SoFar(iv, run))
    && run.last.site == iv.ref.site
    && run.last.sequence - iv.ref.sequence == run.node.cycle - iv.cycle
    && run.node.words == iv.words && run.parents == iv.parents
  }

  ghost predicate Mirrors(d: Description, b: Batch, taken: set<Ref>, stalls: map<nat, Run>, dec: Decoder) {
    && dec.Decoder? && dec.open.Keys == stalls.Keys
    && (forall t :: t in stalls ==>
          RunWellFormed(d, t, stalls[t]) && Tracks(b.nodes, b.edges, taken, dec.open[t], stalls[t]))
    && (forall i :: 0 <= i < |dec.done| ==> Faithful(b.nodes, b.edges, taken, dec.done[i]))
  }

  ghost predicate InSome(done: seq<Interval>, r: Ref) {
    exists i :: 0 <= i < |done| && Spans(done[i], r)
  }

  ghost predicate InOpen(open: map<nat, Interval>, stalls: map<nat, Run>, r: Ref)
    requires open.Keys == stalls.Keys
  {
    exists t :: t in stalls && Spans(SoFar(open[t], stalls[t]), r)
  }

  ghost predicate Disjoint(done: seq<Interval>) {
    forall i, j, r :: 0 <= i < j < |done| && Spans(done[i], r) ==> !Spans(done[j], r)
  }

  /** Every occurrence taken is in one slice, closed or open, and in no other. */
  ghost predicate Partitions(taken: set<Ref>, open: map<nat, Interval>, stalls: map<nat, Run>, done: seq<Interval>)
    requires open.Keys == stalls.Keys
  {
    && Disjoint(done)
    && (forall r :: r in taken ==> InSome(done, r) || InOpen(open, stalls, r))
    && (forall t, r :: t in stalls && Spans(SoFar(open[t], stalls[t]), r) ==> !InSome(done, r))
  }

  /** Flow identities seen so far name the occurrences that started them, and every occurrence that
      may be a parent has one. */
  ghost predicate Names(d: Description, order: seq<Ref>, n: nat, ids: map<nat, Ref>)
    requires n <= |order|
  {
    && (forall id :: id in ids ==> 1 <= id <= n && ids[id] == order[id - 1])
    && (forall i :: 0 <= i < n && CanParent(d, order[i].site) ==> i + 1 in ids)
  }

  /** On a shared track, the last slice ended one cycle after some occurrence already taken. */
  ghost predicate EndsBehind(d: Description, b: Batch, taken: set<Ref>, ends: map<nat, nat>) {
    forall t :: t in ends && Shared(d, t) ==>
      exists r :: r in taken && r in b.nodes && TrackOf(d, r.site) == t && b.nodes[r].cycle + 1 == ends[t]
  }

  // ---------------------------------------------------------------- closing a slice

  lemma InSomeAppend(done: seq<Interval>, iv: Interval, r: Ref)
    ensures InSome(done + [iv], r) <==> InSome(done, r) || Spans(iv, r)
  {
    var more := done + [iv];
    assert more[|done|] == iv;
    forall i | 0 <= i < |done|
      ensures more[i] == done[i]
    {
    }
  }

  lemma DisjointAppend(done: seq<Interval>, iv: Interval)
    requires Disjoint(done) && forall r :: Spans(iv, r) ==> !InSome(done, r)
    ensures Disjoint(done + [iv])
  {
  }

  /** Slices open on different tracks hold occurrences of different sites. */
  lemma OpenApart(d: Description, stalls: map<nat, Run>, open: map<nat, Interval>, t: nat, u: nat, r: Ref)
    requires open.Keys == stalls.Keys && t in stalls && u in stalls
    requires RunWellFormed(d, t, stalls[t]) && RunWellFormed(d, u, stalls[u])
    requires stalls[t].last.site == open[t].ref.site && stalls[u].last.site == open[u].ref.site
    requires Spans(SoFar(open[t], stalls[t]), r) && Spans(SoFar(open[u], stalls[u]), r)
    ensures t == u
  {
  }

  lemma ClosePartition(d: Description, b: Batch, taken: set<Ref>, stalls: map<nat, Run>, dec: Decoder, t: nat)
    requires Mirrors(d, b, taken, stalls, dec) && Partitions(taken, dec.open, stalls, dec.done) && t in stalls
    ensures Partitions(taken, dec.open - {t}, stalls - {t}, dec.done + [SoFar(dec.open[t], stalls[t])])
  {
    hide Faithful;
    var iv, open', stalls' := SoFar(dec.open[t], stalls[t]), dec.open - {t}, stalls - {t};
    DisjointAppend(dec.done, iv);
    forall r
      ensures InSome(dec.done + [iv], r) <==> InSome(dec.done, r) || Spans(iv, r)
      ensures InOpen(dec.open, stalls, r) ==> InOpen(open', stalls', r) || Spans(iv, r)
    {
      InSomeAppend(dec.done, iv, r);
      if u :| u in stalls && Spans(SoFar(dec.open[u], stalls[u]), r) {
        assert u == t || u in stalls';
      }
    }
    forall u, r | u in stalls' && Spans(SoFar(open'[u], stalls'[u]), r)
      ensures !InSome(dec.done, r) && !Spans(iv, r)
    {
      assert Spans(SoFar(dec.open[u], stalls[u]), r);
      if Spans(iv, r) {
        OpenApart(d, stalls, dec.open, t, u, r);
      }
    }
  }

  lemma CloseMirror(d: Description, b: Batch, taken: set<Ref>, stalls: map<nat, Run>, dec: Decoder, t: nat)
    requires Mirrors(d, b, taken, stalls, dec) && t in stalls
    ensures var dec' := Step(d, dec, End(t, stalls[t].node.cycle + 1));
      && Mirrors(d, b, taken, stalls - {t}, dec')
      && dec'.open == dec.open - {t} && dec'.done == dec.done + [SoFar(dec.open[t], stalls[t])]
      && dec'.ids == dec.ids && dec'.ends == dec.ends[t := stalls[t].node.cycle + 1]
  {
    hide Faithful;
  }

  /** The last occurrence of an open slice has been taken, on that slice's track. */
  lemma LastTaken(d: Description, b: Batch, taken: set<Ref>, stalls: map<nat, Run>, dec: Decoder, t: nat)
    requires Mirrors(d, b, taken, stalls, dec) && t in stalls
    ensures var r := stalls[t].last;
      r in taken && r in b.nodes && TrackOf(d, r.site) == t && b.nodes[r].cycle == stalls[t].node.cycle
  {
    assert Tracks(b.nodes, b.edges, taken, dec.open[t], stalls[t]);
    assert Spans(SoFar(dec.open[t], stalls[t]), stalls[t].last);
  }

  /** Everything the decoder knows after `n` occurrences. */
  ghost predicate Agrees(d: Description, b: Batch, taken: set<Ref>, stalls: map<nat, Run>, dec: Decoder) {
    && Mirrors(d, b, taken, stalls, dec)
    && Partitions(taken, dec.open, stalls, dec.done)
    && EndsBehind(d, b, taken, dec.ends)
  }

  lemma CloseOne(d: Description, b: Batch, taken: set<Ref>, stalls: map<nat, Run>, dec: Decoder, t: nat)
    requires Agrees(d, b, taken, stalls, dec) && t in stalls
    ensures var dec' := Step(d, dec, End(t, stalls[t].node.cycle + 1));
      Agrees(d, b, taken, stalls - {t}, dec') && dec'.ids == dec.ids
  {
    hide Step, Mirrors, Partitions;
    CloseMirror(d, b, taken, stalls, dec, t);
    ClosePartition(d, b, taken, stalls, dec, t);
    LastTaken(d, b, taken, stalls, dec, t);
  }

  ghost function Tracked(keys: seq<Key>): set<nat> {
    set i | 0 <= i < |keys| :: keys[i].b
  }

  lemma {:induction false} CloseMany(d: Description, b: Batch, taken: set<Ref>, stalls: map<nat, Run>, dec: Decoder,
                                     keys: seq<Key>)
    requires Agrees(d, b, taken, stalls, dec)
    requires forall i :: 0 <= i < |keys| ==> keys[i].b in stalls && keys[i].a == stalls[keys[i].b].node.cycle
    requires forall i, j :: 0 <= i < j < |keys| ==> keys[i].b != keys[j].b
    ensures var dec' := Decode(d, dec, EndEvents(keys));
      Agrees(d, b, taken, stalls - Tracked(keys), dec') && dec'.ids == dec.ids
    decreases |keys|
  {
    hide Agrees, Step;
    if keys == [] {
      assert stalls - Tracked(keys) == stalls;
    } else {
      var t := keys[0].b;
      CloseOne(d, b, taken, stalls, dec, t);
      var rest, dec1 := keys[1..], Step(d, dec, End(t, stalls[t].node.cycle + 1));
      forall i | 0 <= i < |rest|
        ensures rest[i] == keys[i + 1] && rest[i].b != t
      {
      }
      CloseMany(d, b, taken, stalls - {t}, dec1, rest);
      TrackedStep(stalls, keys);
      EndEventsStep(d, dec, keys);
    }
  }

  lemma EndEventsStep(d: Description, dec: Decoder, keys: seq<Key>)
    requires keys != []
    ensures Decode(d, dec, EndEvents(keys)) ==
      Decode(d, Step(d, dec, End(keys[0].b, keys[0].a + 1)), EndEvents(keys[1..]))
  {
    hide Step;
    var es := EndEvents(keys);
    assert es[1..] == EndEvents(keys[1..]);
  }

  lemma TrackedStep(stalls: map<nat, Run>, keys: seq<Key>)
    requires keys != []
    ensures stalls - {keys[0].b} - Tracked(keys[1..]) == stalls - Tracked(keys)
  {
    forall t
      ensures t in Tracked(keys) <==> t == keys[0].b || t in Tracked(keys[1..])
    {
      if t in Tracked(keys[1..]) {
        var i :| 0 <= i < |keys[1..]| && keys[1..][i].b == t;
        assert keys[i + 1].b == t;
      }
      if t in Tracked(keys) && t != keys[0].b {
        var i :| 0 <= i < |keys| && keys[i].b == t;
        assert keys[1..][i - 1].b == t;
      }
    }
  }

  /** Closing a set of slices keeps the decoder in agreement. */
  lemma CloseAgrees(d: Description, b: Batch, taken: set<Ref>, st: Stage, closing: set<nat>)
    requires closing <= st.stalls.Keys
    requires Agrees(d, b, taken, st.stalls, Decode(d, EMPTY, st.out))
    ensures var st' := Close(st, closing);
      Agrees(d, b, taken, st'.stalls, Decode(d, EMPTY, st'.out)) &&
        Decode(d, EMPTY, st'.out).ids == Decode(d, EMPTY, st.out).ids
  {
    hide Agrees, Decode, Sorted;
    var keys := Endings(st.stalls, closing);
    SortedEnumerates(keys);
    var order := Sorted(keys);
    forall i | 0 <= i < |order|
      ensures order[i].b in closing && order[i] == Key(st.stalls[order[i].b].node.cycle, order[i].b, 0)
    {
      assert order[i] in keys;
    }
    forall i, j | 0 <= i < j < |order|
      ensures order[i].b != order[j].b
    {
      assert Less(order[i], order[j]);
    }
    assert Tracked(order) == closing by {
      forall t | t in closing
        ensures t in Tracked(order)
      {
        assert Key(st.stalls[t].node.cycle, t, 0) in order;
      }
    }
    CloseMany(d, b, taken, st.stalls, Decode(d, EMPTY, st.out), order);
    DecodeConcat(d, EMPTY, st.out, EndEvents(order));
  }

  // ---------------------------------------------------------------- one more occurrence

  lemma FaithfulGrows(nodes: map<Ref, Node>, edges: set<Edge>, taken: set<Ref>, more: set<Ref>, iv: Interval)
    requires Faithful(nodes, edges, taken, iv) && taken <= more
    ensures Faithful(nodes, edges, more, iv)
  {
  }

  lemma AgreesGrows(d: Description, b: Batch, taken: set<Ref>, r: Ref, stalls: map<nat, Run>, dec: Decoder)
    requires Agrees(d, b, taken, stalls, dec)
    ensures Mirrors(d, b, taken + {r}, stalls, dec) && EndsBehind(d, b, taken + {r}, dec.ends)
  {
    hide Faithful, RunWellFormed, Partitions;
    forall i | 0 <= i < |dec.done|
      ensures Faithful(b.nodes, b.edges, taken + {r}, dec.done[i])
    {
      FaithfulGrows(b.nodes, b.edges, taken, taken + {r}, dec.done[i]);
    }
    forall t | t in stalls
      ensures Faithful(b.nodes, b.edges, taken + {r}, SoFar(dec.open[t], stalls[t]))
    {
      FaithfulGrows(b.nodes, b.edges, taken, taken + {r}, SoFar(dec.open[t], stalls[t]));
    }
  }

  /** A slice that covers only occurrences already taken does not cover a new one. */
  lemma NotYetCovered(d: Description, b: Batch, taken: set<Ref>, stalls: map<nat, Run>, dec: Decoder, r: Ref)
    requires Mirrors(d, b, taken, stalls, dec) && r !in taken
    ensures !InSome(dec.done, r) && !InOpen(dec.open, stalls, r)
  {
    forall i | 0 <= i < |dec.done|
      ensures !Spans(dec.done[i], r)
    {
      assert Faithful(b.nodes, b.edges, taken, dec.done[i]);
    }
    forall t | t in stalls
      ensures !Spans(SoFar(dec.open[t], stalls[t]), r)
    {
      assert Tracks(b.nodes, b.edges, taken, dec.open[t], stalls[t]);
    }
  }

  /** `r` continues the run: next sequence, next cycle, same words, same parents. */
  ghost predicate Follows(b: Batch, run: Run, r: Ref) {
    && r in b.nodes && run.last.sequence < U64_MAX && r == NextRef(run)
    && b.nodes[r].cycle == run.node.cycle + 1
    && b.nodes[r].words == run.node.words && Parents(b.edges, r) == run.parents
  }

  ghost function Extended(run: Run, r: Ref, cycle: U64): Run {
    run.(last := r, node := run.node.(cycle := cycle))
  }

  lemma ExtendTracks(b: Batch, taken: set<Ref>, iv: Interval, run: Run, r: Ref)
    requires Tracks(b.nodes, b.edges, taken, iv, run) && Follows(b, run, r)
    ensures Tracks(b.nodes, b.edges, taken + {r}, iv, Extended(run, r, b.nodes[r].cycle))
    ensures forall q :: Spans(SoFar(iv, Extended(run, r, b.nodes[r].cycle)), q) <==> Spans(SoFar(iv, run), q) || q == r
  {
    var old', new' := SoFar(iv, run), SoFar(iv, Extended(run, r, b.nodes[r].cycle));
    forall q
      ensures Spans(new', q) <==> Spans(old', q) || q == r
    {
    }
  }

  lemma ExtendAgrees(d: Description, b: Batch, taken: set<Ref>, stalls: map<nat, Run>, dec: Decoder, t: nat, r: Ref)
    requires Agrees(d, b, taken, stalls, dec) && t in stalls && r !in taken && Follows(b, stalls[t], r)
    ensures Agrees(d, b, taken + {r}, stalls[t := Extended(stalls[t], r, b.nodes[r].cycle)], dec)
  {
    hide Faithful, Follows, Tracks;
    AgreesGrows(d, b, taken, r, stalls, dec);
    NotYetCovered(d, b, taken, stalls, dec, r);
    ExtendTracks(b, taken, dec.open[t], stalls[t], r);
    FollowsSite(b, stalls[t], r);
    var stalls' := stalls[t := Extended(stalls[t], r, b.nodes[r].cycle)];
    assert RunWellFormed(d, t, stalls'[t]);
    forall q
      ensures InOpen(dec.open, stalls, q) ==> InOpen(dec.open, stalls', q)
    {
      if u :| u in stalls && Spans(SoFar(dec.open[u], stalls[u]), q) {
        assert u in stalls' && Spans(SoFar(dec.open[u], stalls'[u]), q);
      }
    }
    assert t in stalls' && Spans(SoFar(dec.open[t], stalls'[t]), r);
    assert InOpen(dec.open, stalls', r);
  }

  lemma FollowsSite(b: Batch, run: Run, r: Ref)
    requires Follows(b, run, r)
    ensures r in b.nodes && r.site == run.last.site
  {
  }

  /** The slice that opens at `r`, once its arrows have been read. */
  ghost function Opened(b: Batch, r: Ref): Interval
    requires r in b.nodes
  {
    Interval(r, b.nodes[r].cycle, b.nodes[r].words, Parents(b.edges, r), 0)
  }

  lemma SingletonFaithful(b: Batch, taken: set<Ref>, r: Ref)
    requires r in b.nodes && r in taken
    ensures Faithful(b.nodes, b.edges, taken, Opened(b, r).(length := 1))
    ensures forall q :: Spans(Opened(b, r).(length := 1), q) <==> q == r
  {
  }

  /** Opening a stall slice. */
  lemma OpenAgrees(d: Description, b: Batch, taken: set<Ref>, stalls: map<nat, Run>, dec: Decoder, t: nat, r: Ref)
    requires Agrees(d, b, taken, stalls, dec) && t !in stalls && r !in taken && r in b.nodes
    requires r.site < |d.tracks| && IsStall(d, r.site) && TrackOf(d, r.site) == t
    ensures Agrees(d, b, taken + {r}, stalls[t := Run(r, b.nodes[r], Parents(b.edges, r))],
                   dec.(open := dec.open[t := Opened(b, r)]))
  {
    hide Faithful;
    AgreesGrows(d, b, taken, r, stalls, dec);
    NotYetCovered(d, b, taken, stalls, dec, r);
    SingletonFaithful(b, taken + {r}, r);
    var stalls', open' := stalls[t := Run(r, b.nodes[r], Parents(b.edges, r))], dec.open[t := Opened(b, r)];
    assert SoFar(open'[t], stalls'[t]) == Opened(b, r).(length := 1);
    hide Mirrors;
    OpenPartition(b, taken, stalls, dec, t, r);
  }

  lemma OpenPartition(b: Batch, taken: set<Ref>, stalls: map<nat, Run>, dec: Decoder, t: nat, r: Ref)
    requires dec.Decoder? && dec.open.Keys == stalls.Keys && Partitions(taken, dec.open, stalls, dec.done)
    requires t !in stalls && r in b.nodes && !InSome(dec.done, r)
    ensures Partitions(taken + {r}, dec.open[t := Opened(b, r)],
                       stalls[t := Run(r, b.nodes[r], Parents(b.edges, r))], dec.done)
  {
    hide InSome;
    var stalls', open' := stalls[t := Run(r, b.nodes[r], Parents(b.edges, r))], dec.open[t := Opened(b, r)];
    forall q | q in taken
      ensures InSome(dec.done, q) || InOpen(open', stalls', q)
    {
      if !InSome(dec.done, q) {
        var u :| u in stalls && Spans(SoFar(dec.open[u], stalls[u]), q);
        assert u in stalls' && Spans(SoFar(open'[u], stalls'[u]), q);
      }
    }
    assert t in stalls' && Spans(SoFar(open'[t], stalls'[t]), r);
    forall u, q | u in stalls' && Spans(SoFar(open'[u], stalls'[u]), q)
      ensures !InSome(dec.done, q)
    {
      if u == t {
        assert q == r;
      } else {
        assert Spans(SoFar(dec.open[u], stalls[u]), q);
      }
    }
  }

  /** A transfer opens and closes its slice at once. */
  lemma TransferAgrees(d: Description, b: Batch, taken: set<Ref>, stalls: map<nat, Run>, dec: Decoder, t: nat, r: Ref)
    requires Agrees(d, b, taken, stalls, dec) && r !in taken && r in b.nodes && TrackOf(d, r.site) == t
    ensures Agrees(d, b, taken + {r}, stalls,
                   dec.(ends := dec.ends[t := b.nodes[r].cycle + 1], done := dec.done + [Opened(b, r).(length := 1)]))
  {
    hide Faithful;
    AgreesGrows(d, b, taken, r, stalls, dec);
    NotYetCovered(d, b, taken, stalls, dec, r);
    SingletonFaithful(b, taken + {r}, r);
    var iv := Opened(b, r).(length := 1);
    hide Mirrors, Opened;
    DisjointAppend(dec.done, iv);
    forall q
      ensures InSome(dec.done + [iv], q) <==> InSome(dec.done, q) || q == r
    {
      InSomeAppend(dec.done, iv, q);
    }
  }

  // ---------------------------------------------------------------- the events of one occurrence

  ghost function RefsOf(keys: seq<Key>): set<Ref>
    requires forall k :: k in keys ==> k.c <= U64_MAX
  {
    if keys == [] then {} else {KeyRef(keys[0])} + RefsOf(keys[1..])
  }

  lemma {:induction false} RefsOfMember(keys: seq<Key>, r: Ref)
    requires forall k :: k in keys ==> k.c <= U64_MAX
    ensures r in RefsOf(keys) <==> exists k :: k in keys && KeyRef(k) == r
    decreases |keys|
  {
    if keys != [] {
      RefsOfMember(keys[1..], r);
      assert forall k :: k in keys <==> k == keys[0] || k in keys[1..];
    }
  }

  ghost predicate Resolves(known: map<Ref, Mark>, ids: map<nat, Ref>, p: Ref) {
    IdOf(known, p) in ids && ids[IdOf(known, p)] == p
  }

  lemma {:induction false} FlowEndsDecode(d: Description, dec: Decoder, t: nat, cycle: nat, known: map<Ref, Mark>,
                                          keys: seq<Key>)
    requires forall k :: k in keys ==> k.c <= U64_MAX
    requires dec.Decoder? && t in dec.open && dec.open[t].cycle == cycle
    requires forall k :: k in keys ==> Resolves(known, dec.ids, KeyRef(k)) && KeyRef(k) !in dec.open[t].parents
    requires forall i, j :: 0 <= i < j < |keys| ==> KeyRef(keys[i]) != KeyRef(keys[j])
    ensures Decode(d, dec, FlowEnds(t, cycle, known, keys)) ==
      dec.(open := dec.open[t := dec.open[t].(parents := dec.open[t].parents + RefsOf(keys))])
    decreases |keys|
  {
    if keys == [] {
      assert dec.open[t].parents + {} == dec.open[t].parents;
      assert dec.open[t := dec.open[t]] == dec.open;
    } else {
      var p, rest := KeyRef(keys[0]), keys[1..];
      var iv := dec.open[t].(parents := dec.open[t].parents + {p});
      var dec1 := dec.(open := dec.open[t := iv]);
      assert Step(d, dec, FlowEnd(t, cycle, IdOf(known, p))) == dec1;
      forall k | k in rest
        ensures k in keys && KeyRef(k) != p
      {
        var i :| 0 <= i < |rest| && rest[i] == k;
        assert keys[i + 1] == k;
      }
      forall i, j | 0 <= i < j < |rest|
        ensures KeyRef(rest[i]) != KeyRef(rest[j])
      {
        assert rest[i] == keys[i + 1] && rest[j] == keys[j + 1];
      }
      FlowEndsDecode(d, dec1, t, cycle, known, rest);
      FlowEndsStep(d, dec, t, cycle, known, keys);
      assert dec.open[t].parents + {p} + RefsOf(rest) == dec.open[t].parents + RefsOf(keys);
      assert dec1.open[t := iv.(parents := dec.open[t].parents + RefsOf(keys))]
          == dec.open[t := iv.(parents := dec.open[t].parents + RefsOf(keys))];
    }
  }

  lemma FlowEndsStep(d: Description, dec: Decoder, t: nat, cycle: nat, known: map<Ref, Mark>, keys: seq<Key>)
    requires keys != [] && forall k :: k in keys ==> k.c <= U64_MAX
    ensures Decode(d, dec, FlowEnds(t, cycle, known, keys)) ==
      Decode(d, Step(d, dec, FlowEnd(t, cycle, IdOf(known, KeyRef(keys[0])))), FlowEnds(t, cycle, known, keys[1..]))
  {
    hide Step;
    var es := FlowEnds(t, cycle, known, keys);
    assert es[1..] == FlowEnds(t, cycle, known, keys[1..]);
  }

  /** All arrows into an occurrence decode to exactly its parents. */
  lemma ArrowsDecode(d: Description, dec: Decoder, t: nat, cycle: nat, known: map<Ref, Mark>, parents: set<Ref>)
    requires dec.Decoder? && t in dec.open && dec.open[t].cycle == cycle && dec.open[t].parents == {}
    requires forall p :: p in parents ==> Resolves(known, dec.ids, p)
    ensures (forall k :: k in InOrder(parents) ==> k.c <= U64_MAX)
    ensures Decode(d, dec, FlowEnds(t, cycle, known, InOrder(parents))) ==
      dec.(open := dec.open[t := dec.open[t].(parents := parents)])
  {
    hide Decode, Resolves;
    InOrderEnumerates(parents);
    var keys := InOrder(parents);
    hide InOrder;
    forall i, j | 0 <= i < j < |keys|
      ensures KeyRef(keys[i]) != KeyRef(keys[j])
    {
      assert Less(keys[i], keys[j]) && keys[i] in keys && keys[j] in keys;
    }
    FlowEndsDecode(d, dec, t, cycle, known, keys);
    assert RefsOf(keys) == parents by {
      forall p
        ensures p in RefsOf(keys) <==> p in parents
      {
        RefsOfMember(keys, p);
        if p in parents {
          assert RefKey(p) in keys;
        }
      }
    }
    assert dec.open[t].parents + RefsOf(keys) == parents;
  }

  /** What the decoder knows after the events of a fresh slice. */
  ghost function AfterSlice(d: Description, b: Batch, dec: Decoder, r: Ref, id: nat): Decoder
    requires dec.Decoder? && r in b.nodes
  {
    var t, c := TrackOf(d, r.site), b.nodes[r].cycle;
    var ids := if CanParent(d, r.site) then dec.ids[id := r] else dec.ids;
    if IsStall(d, r.site) then dec.(open := dec.open[t := Opened(b, r)], ids := ids)
    else dec.(ids := ids, ends := dec.ends[t := c + 1], done := dec.done + [Opened(b, r).(length := 1)])
  }

  lemma DecodeOne(d: Description, dec: Decoder, e: Event)
    ensures Decode(d, dec, [e]) == Step(d, dec, e)
  {
    hide Step;
    assert [e][1..] == [];
  }

  lemma SliceDecodes(d: Description, b: Batch, dec: Decoder, known: map<Ref, Mark>, r: Ref, id: nat)
    requires dec.Decoder? && r in b.nodes && TrackOf(d, r.site) !in dec.open && id !in dec.ids
    requires Shared(d, TrackOf(d, r.site)) && TrackOf(d, r.site) in dec.ends ==>
      dec.ends[TrackOf(d, r.site)] <= b.nodes[r].cycle
    requires forall p :: p in Parents(b.edges, r) ==> Resolves(known, dec.ids, p)
    ensures Decode(d, dec, Slice(d, b, known, r, id)) == AfterSlice(d, b, dec, r, id)
  {
    hide Decode, CanParent, IsStall, InOrder, Resolves;
    var t, c: nat := TrackOf(d, r.site), b.nodes[r].cycle;
    var begun := dec.(open := dec.open[t := Interval(r, c, b.nodes[r].words, {}, 0)]);
    DecodeOne(d, dec, Begin(t, c, r, b.nodes[r]));
    ArrowsDecode(d, begun, t, c, known, Parents(b.edges, r));
    var arrows := FlowEnds(t, c, known, InOrder(Parents(b.edges, r)));
    var pointed := begun.(open := dec.open[t := Opened(b, r)]);
    assert begun.open[t := Opened(b, r)] == dec.open[t := Opened(b, r)];
    var start := if CanParent(d, r.site) then [FlowStart(t, c, id)] else [];
    var started := if CanParent(d, r.site) then pointed.(ids := dec.ids[id := r]) else pointed;
    assert Decode(d, pointed, start) == started by {
      if CanParent(d, r.site) {
        DecodeOne(d, pointed, FlowStart(t, c, id));
      } else {
        DecodeNothing(d, pointed);
      }
    }
    var stop := if IsStall(d, r.site) then [] else [End(t, c + 1)];
    assert Decode(d, started, stop) == AfterSlice(d, b, dec, r, id) by {
      if IsStall(d, r.site) {
        DecodeNothing(d, started);
      } else {
        DecodeOne(d, started, End(t, c + 1));
        assert started.open - {t} == dec.open;
      }
    }
    DecodeFour(d, dec, [Begin(t, c, r, b.nodes[r])], arrows, start, stop);
  }

  lemma DecodeNothing(d: Description, dec: Decoder)
    ensures Decode(d, dec, []) == dec
  {
  }

  lemma DecodeFour(d: Description, dec: Decoder, a: seq<Event>, b: seq<Event>, c: seq<Event>, e: seq<Event>)
    ensures Decode(d, dec, a + b + c + e) == Decode(d, Decode(d, Decode(d, Decode(d, dec, a), b), c), e)
  {
    hide Decode;
    DecodeConcat(d, dec, a, b);
    DecodeConcat(d, dec, a + b, c);
    DecodeConcat(d, dec, a + b + c, e);
  }

  // ---------------------------------------------------------------- the whole stream

  ghost function Taken(order: seq<Ref>, n: nat): set<Ref>
    requires n <= |order|
  {
    set r | r in order[..n]
  }

  lemma TakenStep(order: seq<Ref>, n: nat)
    requires n < |order|
    ensures Taken(order, n + 1) == Taken(order, n) + {order[n]}
  {
    PrefixGrows(order, n);
  }

  /** A slice never begins before the last one on a shared track has ended. */
  lemma BeginsInTime(d: Description, b: Batch, order: seq<Ref>, n: nat, ends: map<nat, nat>)
    requires Orderly(d, b, order) && n < |order| && EndsBehind(d, b, Taken(order, n), ends)
    requires Shared(d, TrackOf(d, order[n].site)) && TrackOf(d, order[n].site) in ends
    ensures ends[TrackOf(d, order[n].site)] <= b.nodes[order[n]].cycle
  {
    var t := TrackOf(d, order[n].site);
    var q :| q in Taken(order, n) && q in b.nodes && TrackOf(d, q.site) == t && b.nodes[q].cycle + 1 == ends[t];
    var i :| 0 <= i < n && order[i] == q;
    assert order[i] != order[n] && b.nodes[order[i]].cycle <= b.nodes[order[n]].cycle;
  }

  lemma ParentTaken(d: Description, b: Batch, n: nat, p: Ref)
    requires Accepts(d, FRESH, b) && n < |BatchOrder(b)| && Edge(p, BatchOrder(b)[n]) in b.edges
    ensures p in BatchOrder(b)[..n] && CanParent(d, p.site)
  {
    hide Order, Complete, TracksDisjoint, NodeAccepted;
    var o := BatchOrder(b);
    assert EdgeAccepted(d, FRESH, b, Edge(p, o[n]));
    assert (p.site, o[n].site) in d.dependencies;
    hide Accepts, EdgeAccepted, BatchOrder;
    OrderIsBatchOrder(b);
    ParentsFirst(b.nodes, b.edges, b.nodes.Keys, n, p);
  }

  lemma OrderIsBatchOrder(b: Batch)
    ensures BatchOrder(b) == Order(b.nodes, b.edges, b.nodes.Keys)
  {
  }

  /** Every arrow into the next occurrence carries the identity of its true parent, whose start has
      been emitted. */
  lemma ParentResolves(d: Description, b: Batch, n: nat, known: map<Ref, Mark>, ids: map<nat, Ref>, p: Ref)
    requires Accepts(d, FRESH, b) && n < |BatchOrder(b)|
    requires Identified(b, BatchOrder(b), FRESH.stage, n, known) && Names(d, BatchOrder(b), n, ids)
    requires Edge(p, BatchOrder(b)[n]) in b.edges
    ensures p in BatchOrder(b)[..n] && Resolves(known, ids, p)
  {
    ParentTaken(d, b, n, p);
    hide BatchOrder, Accepts, CanParent, Resolves, Identified, Names;
    var o := BatchOrder(b);
    var i :| 0 <= i < n && o[i] == p;
    NamedResolves(d, b, o, n, known, ids, i);
  }

  lemma NamedResolves(d: Description, b: Batch, order: seq<Ref>, n: nat, known: map<Ref, Mark>, ids: map<nat, Ref>,
                      i: nat)
    requires i < n <= |order| && Within(b, order)
    requires Identified(b, order, FRESH.stage, n, known) && Names(d, order, n, ids) && CanParent(d, order[i].site)
    ensures Resolves(known, ids, order[i])
  {
    hide CanParent, Identified;
    IdentityOf(b, order, n, known, i);
  }

  lemma IdentityOf(b: Batch, order: seq<Ref>, n: nat, known: map<Ref, Mark>, i: nat)
    requires i < n <= |order| && Within(b, order) && Identified(b, order, FRESH.stage, n, known)
    ensures IdOf(known, order[i]) == i + 1
  {
    assert |FRESH.stage.known| == 0;
  }

  ghost predicate StreamAgrees(d: Description, b: Batch, n: nat)
    requires n <= |BatchOrder(b)|
  {
    var o := BatchOrder(b);
    var st := After(d, b, o, FRESH.stage, n);
    var dec := Decode(d, EMPTY, st.out);
    && Agrees(d, b, Taken(o, n), st.stalls, dec)
    && Names(d, o, n, dec.ids)
  }

  lemma EmitContinues(d: Description, b: Batch, order: seq<Ref>, n: nat, st: Stage, dec: Decoder)
    requires Orderly(d, b, order) && n < |order| && dec == Decode(d, EMPTY, st.out)
    requires RunsAt(d, b, order, n, st.stalls, b.nodes[order[n]].cycle)
    requires Agrees(d, b, Taken(order, n), st.stalls, dec) && Names(d, order, n, dec.ids)
    requires TrackOf(d, order[n].site) in st.stalls
    ensures var st' := Emit(d, b, st, order[n]);
      && Agrees(d, b, Taken(order, n + 1), st'.stalls, Decode(d, EMPTY, st'.out))
      && Names(d, order, n + 1, Decode(d, EMPTY, st'.out).ids)
  {
    hide Agrees, RunsAt, Decode;
    var r := order[n];
    var t := TrackOf(d, r.site);
    OnlyContinuation(d, b, order, n, st.stalls, t);
    assert Follows(b, st.stalls[t], r);
    assert r !in Taken(order, n);
    ExtendAgrees(d, b, Taken(order, n), st.stalls, dec, t, r);
    TakenStep(order, n);
    StallIsNoParent(d, r.site);
  }

  lemma StallIsNoParent(d: Description, site: nat)
    requires d.Valid() && IsStall(d, site)
    ensures !CanParent(d, site)
  {
  }

  lemma EmitOpens(d: Description, b: Batch, order: seq<Ref>, n: nat, st: Stage, dec: Decoder)
    requires Orderly(d, b, order) && n < |order| && dec == Decode(d, EMPTY, st.out)
    requires Agrees(d, b, Taken(order, n), st.stalls, dec) && Names(d, order, n, dec.ids)
    requires TrackOf(d, order[n].site) !in st.stalls
    requires |st.known| == n
    requires forall p :: Edge(p, order[n]) in b.edges ==> p in order[..n] && Resolves(st.known, dec.ids, p)
    ensures var st' := Emit(d, b, st, order[n]);
      && Agrees(d, b, Taken(order, n + 1), st'.stalls, Decode(d, EMPTY, st'.out))
      && Names(d, order, n + 1, Decode(d, EMPTY, st'.out).ids)
  {
    var r := order[n];
    var known := st.known[r := Mark(n + 1, b.nodes[r].cycle)];
    EmitDecodes(d, b, order, n, st, dec, known);
    OpensAgree(d, b, order, n, st.stalls, dec);
    TakenStep(order, n);
    hide Agrees, Decode, Names, Resolves, AfterSlice, Orderly, Emit;
    EmitFresh(d, b, st, r, n + 1);
    hide Slice;
  }

  lemma EmitFresh(d: Description, b: Batch, st: Stage, r: Ref, id: nat)
    requires r in b.nodes && TrackOf(d, r.site) !in st.stalls && id == |st.known| + 1
    ensures var known := st.known[r := Mark(id, b.nodes[r].cycle)];
      Emit(d, b, st, r) == Stage(
        if IsStall(d, r.site) then st.stalls[TrackOf(d, r.site) := Run(r, b.nodes[r], Parents(b.edges, r))]
          else st.stalls,
        known, st.out + Slice(d, b, known, r, id))
  {
  }

  lemma EmitDecodes(d: Description, b: Batch, order: seq<Ref>, n: nat, st: Stage, dec: Decoder, known: map<Ref, Mark>)
    requires Orderly(d, b, order) && n < |order| && dec == Decode(d, EMPTY, st.out)
    requires Agrees(d, b, Taken(order, n), st.stalls, dec) && Names(d, order, n, dec.ids)
    requires TrackOf(d, order[n].site) !in st.stalls
    requires forall p :: Edge(p, order[n]) in b.edges ==> p in order[..n] && Resolves(st.known, dec.ids, p)
    requires known == st.known[order[n] := Mark(n + 1, b.nodes[order[n]].cycle)]
    ensures dec.Decoder?
    ensures Decode(d, EMPTY, st.out + Slice(d, b, known, order[n], n + 1)) == AfterSlice(d, b, dec, order[n], n + 1)
  {
    var r := order[n];
    var t := TrackOf(d, r.site);
    assert r !in order[..n];
    AgreesDecodes(d, b, Taken(order, n), st.stalls, dec);
    hide Agrees, Decode, Slice, AfterSlice;
    forall p | p in Parents(b.edges, r)
      ensures Resolves(known, dec.ids, p)
    {
      ParentsMember(b.edges, p, r);
    }
    if Shared(d, t) && t in dec.ends {
      BeginsInTime(d, b, order, n, dec.ends);
    }
    SliceDecodes(d, b, dec, known, r, n + 1);
    DecodeConcat(d, EMPTY, st.out, Slice(d, b, known, r, n + 1));
  }

  lemma AgreesDecodes(d: Description, b: Batch, taken: set<Ref>, stalls: map<nat, Run>, dec: Decoder)
    requires Agrees(d, b, taken, stalls, dec)
    ensures dec.Decoder? && dec.open.Keys == stalls.Keys && EndsBehind(d, b, taken, dec.ends)
  {
  }

  lemma AgreesIgnoresIds(d: Description, b: Batch, taken: set<Ref>, stalls: map<nat, Run>, dec: Decoder,
                         ids: map<nat, Ref>)
    requires Agrees(d, b, taken, stalls, dec)
    ensures dec.Decoder? && Agrees(d, b, taken, stalls, dec.(ids := ids))
  {
    hide Faithful, Tracks, InSome, InOpen;
  }

  lemma OpensAgree(d: Description, b: Batch, order: seq<Ref>, n: nat, stalls: map<nat, Run>, dec: Decoder)
    requires Orderly(d, b, order) && n < |order| && dec.Decoder?
    requires Agrees(d, b, Taken(order, n), stalls, dec) && Names(d, order, n, dec.ids)
    requires TrackOf(d, order[n].site) !in stalls
    ensures var r := order[n];
      var stalls' := if IsStall(d, r.site) then stalls[TrackOf(d, r.site) := Run(r, b.nodes[r], Parents(b.edges, r))]
        else stalls;
      && Agrees(d, b, Taken(order, n) + {r}, stalls', AfterSlice(d, b, dec, r, n + 1))
      && Names(d, order, n + 1, AfterSlice(d, b, dec, r, n + 1).ids)
  {
    var r := order[n];
    var t := TrackOf(d, r.site);
    assert r !in order[..n] && r.site < |d.tracks|;
    var taken, ids := Taken(order, n), AfterSlice(d, b, dec, r, n + 1).ids;
    NamesStep(d, b, order, n, dec, r);
    hide Orderly, Agrees, CanParent, Names;
    if IsStall(d, r.site) {
      OpenAgrees(d, b, taken, stalls, dec, t, r);
      AgreesIgnoresIds(d, b, taken + {r}, stalls[t := Run(r, b.nodes[r], Parents(b.edges, r))],
                       dec.(open := dec.open[t := Opened(b, r)]), ids);
    } else {
      TransferAgrees(d, b, taken, stalls, dec, t, r);
      AgreesIgnoresIds(d, b, taken + {r}, stalls,
                       dec.(ends := dec.ends[t := b.nodes[r].cycle + 1], done :=
                         dec.done + [Opened(b, r).(length := 1)]), ids);
    }
  }

  lemma NamesStep(d: Description, b: Batch, order: seq<Ref>, n: nat, dec: Decoder, r: Ref)
    requires n < |order| && order[n] == r && r in b.nodes && dec.Decoder? && Names(d, order, n, dec.ids)
    ensures Names(d, order, n + 1, AfterSlice(d, b, dec, r, n + 1).ids)
  {
    hide CanParent;
  }

  lemma StreamStart(d: Description, b: Batch)
    ensures StreamAgrees(d, b, 0)
  {
    assert Taken(BatchOrder(b), 0) == {};
  }

  lemma SettleAgrees(d: Description, b: Batch, order: seq<Ref>, st: Stage, n: nat)
    requires n < |order| && Within(b, order)
    requires Agrees(d, b, Taken(order, n), st.stalls, Decode(d, EMPTY, st.out))
    ensures var st' := Settle(b, order, st, n);
      && Agrees(d, b, Taken(order, n), st'.stalls, Decode(d, EMPTY, st'.out))
      && Decode(d, EMPTY, st'.out).ids == Decode(d, EMPTY, st.out).ids
  {
    hide Agrees, Decode, Close;
    if NewCycle(b, order, n) {
      CloseAgrees(d, b, Taken(order, n), st, Breaking(b, st.stalls, b.nodes[order[n]].cycle));
    }
  }

  /** The stage an occurrence is emitted from. */
  ghost function Settled(d: Description, b: Batch, n: nat): Stage
    requires n < |BatchOrder(b)|
  {
    Settle(b, BatchOrder(b), After(d, b, BatchOrder(b), FRESH.stage, n), n)
  }

  lemma SettledFacts(d: Description, b: Batch, n: nat)
    requires d.Valid() && Accepts(d, FRESH, b) && n < |BatchOrder(b)| && StreamAgrees(d, b, n)
    ensures var o, st := BatchOrder(b), Settled(d, b, n);
      && Orderly(d, b, o) && RunsAt(d, b, o, n, st.stalls, b.nodes[o[n]].cycle)
      && Identified(b, o, FRESH.stage, n, st.known) && |st.known| == n
      && Agrees(d, b, Taken(o, n), st.stalls, Decode(d, EMPTY, st.out))
      && Decode(d, EMPTY, st.out).Decoder? && Names(d, o, n, Decode(d, EMPTY, st.out).ids)
  {
    var o := BatchOrder(b);
    AcceptedOrderly(d, FRESH, b);
    StreamIs(d, b, n);
    StepRuns(d, b, n);
    AfterKnown(d, b, o, FRESH.stage, n);
    hide Agrees, Decode, Settle, After, BatchOrder, RunsAt, Accepts, Names;
    SettleKnown(b, o, After(d, b, o, FRESH.stage, n), n);
    SettleAgrees(d, b, o, After(d, b, o, FRESH.stage, n), n);
    AgreesDecodes(d, b, Taken(o, n), Settled(d, b, n).stalls, Decode(d, EMPTY, Settled(d, b, n).out));
  }

  lemma AfterIsEmit(d: Description, b: Batch, n: nat)
    requires n < |BatchOrder(b)|
    ensures After(d, b, BatchOrder(b), FRESH.stage, n + 1) == Emit(d, b, Settled(d, b, n), BatchOrder(b)[n])
  {
    hide Emit, Settle;
  }

  /** Stage and decoder stay in agreement over the next occurrence. */
  lemma StreamStep(d: Description, b: Batch, n: nat)
    requires d.Valid() && Accepts(d, FRESH, b) && n < |BatchOrder(b)| && StreamAgrees(d, b, n)
    ensures StreamAgrees(d, b, n + 1)
  {
    hide StreamAgrees, Agrees, Decode, Settle, Settled, Emit, After, BatchOrder, Orderly, Names, RunsAt, Accepts;
    hide Resolves, Identified;
    var o, st := BatchOrder(b), Settled(d, b, n);
    SettledFacts(d, b, n);
    AfterIsEmit(d, b, n);
    StreamIs(d, b, n + 1);
    var dec := Decode(d, EMPTY, st.out);
    if TrackOf(d, o[n].site) in st.stalls {
      EmitContinues(d, b, o, n, st, dec);
    } else {
      forall p | Edge(p, o[n]) in b.edges
        ensures p in o[..n] && Resolves(st.known, dec.ids, p)
      {
        ParentResolves(d, b, n, st.known, dec.ids, p);
      }
      EmitOpens(d, b, o, n, st, dec);
    }
  }

  lemma StreamIs(d: Description, b: Batch, n: nat)
    requires n <= |BatchOrder(b)|
    ensures var o := BatchOrder(b);
      var st := After(d, b, o, FRESH.stage, n);
      StreamAgrees(d, b, n) <==>
        Agrees(d, b, Taken(o, n), st.stalls, Decode(d, EMPTY, st.out)) && Names(d, o, n, Decode(d, EMPTY, st.out).ids)
  {
    hide Agrees, Names, Decode, After, BatchOrder;
  }

  lemma StepRuns(d: Description, b: Batch, n: nat)
    requires d.Valid() && Accepts(d, FRESH, b) && n < |BatchOrder(b)|
    ensures var o := BatchOrder(b);
      RunsAt(d, b, o, n, Settle(b, o, After(d, b, o, FRESH.stage, n), n).stalls, b.nodes[o[n]].cycle)
  {
    hide Settle, Accepts, BatchOrder;
    var o := BatchOrder(b);
    AcceptedOrderly(d, FRESH, b);
    if n > 0 {
      AfterRuns(d, b, o, FRESH.stage, n);
    }
    hide Orderly;
    SettleKeepsRuns(d, b, o, After(d, b, o, FRESH.stage, n), n);
  }

  lemma {:induction false} StreamThroughout(d: Description, b: Batch, n: nat)
    requires d.Valid() && Accepts(d, FRESH, b) && n <= |BatchOrder(b)|
    ensures StreamAgrees(d, b, n)
  {
    hide StreamAgrees, Accepts, BatchOrder;
    if n == 0 {
      StreamStart(d, b);
    } else {
      StreamThroughout(d, b, n - 1);
      StreamStep(d, b, n - 1);
    }
  }

  // ---------------------------------------------------------------- the main results

  lemma AllTaken(d: Description, b: Batch)
    requires d.Valid() && Accepts(d, FRESH, b)
    ensures Taken(BatchOrder(b), |BatchOrder(b)|) == b.nodes.Keys
  {
    hide Accepts;
    AcceptedOrderly(d, FRESH, b);
    var o := BatchOrder(b);
    assert o[..|o|] == o;
  }

  lemma ClosedExpands(d: Description, b: Batch, dec: Decoder)
    requires Agrees(d, b, b.nodes.Keys, map[], dec)
    ensures dec.Decoder? && dec.open == map[] && Expands(b.nodes, b.edges, dec.done)
  {
    hide Faithful, EndsBehind;
    forall r | r in b.nodes
      ensures InSome(dec.done, r)
    {
      assert !InOpen(dec.open, map[], r);
    }
  }

  lemma OneWriteLossless(d: Description, b: Batch)
    requires d.Valid() && Accepts(d, FRESH, b)
    ensures var dec := Decode(d, EMPTY, Finish(Write(d, FRESH, b)));
      dec.Decoder? && dec.open == map[] && Expands(b.nodes, b.edges, dec.done)
  {
    var o := BatchOrder(b);
    StreamThroughout(d, b, |o|);
    StreamIs(d, b, |o|);
    AllTaken(d, b);
    hide Agrees, Decode, Accepts, BatchOrder, After, Close, Names, StreamAgrees, Expands;
    var st := After(d, b, o, FRESH.stage, |o|);
    var closed := Close(st, Stale(st.stalls, b.cycle));
    CloseAgrees(d, b, b.nodes.Keys, st, Stale(st.stalls, b.cycle));
    CloseAgrees(d, b, b.nodes.Keys, closed, closed.stalls.Keys);
    CloseAllEmpties(closed);
    ClosedExpands(d, b, Decode(d, EMPTY, Close(closed, closed.stalls.Keys).out));
  }

  /** Nothing is lost by coalescing. The finished stream of any run pairs every begin with one end,
      keeps slices of a shared track apart, resolves every arrow to its true parent, and expands to
      exactly the occurrences recorded, each once, with its captured words and parents. */
  lemma StreamLossless(d: Description, bs: seq<Batch>)
    requires d.Valid()
    ensures var dec := Decode(d, EMPTY, Finish(Feed(d, bs)));
      && dec.Decoder? && dec.open == map[]
      && Expands(RecordedNodes(d, bs), RecordedEdges(d, bs), dec.done)
  {
    FeedIsOneWrite(d, bs);
    hide Decode, Finish, Write, Feed, Accepts;
    if Recorded(d, bs) == None {
      FinishFresh();
      DecodeNothing(d, EMPTY);
    } else {
      OneWriteLossless(d, Recorded(d, bs).value);
    }
  }

  lemma FinishFresh()
    ensures Finish(FRESH) == []
  {
    CloseNone(FRESH.stage);
    assert FRESH.stage.stalls.Keys == {};
  }
}

/** Where open stall slices stand while a batch is encoded: between two occurrences each one has
    either reached the current cycle or is waiting for a later occurrence of that cycle. */
module Runs {
  import opened Collections
  import opened Machine
  import opened EventModel
  import opened Worklist
  import opened Encoder

  /** What acceptance guarantees about the emission order of a batch. */
  ghost predicate Orderly(d: Description, b: Batch, order: seq<Ref>) {
    && d.Valid() && Within(b, order) && TracksDisjoint(d, b.nodes)
    && (forall r :: r in b.nodes ==> r.site < |d.tracks| && r in order)
    && (forall i, j :: 0 <= i < j < |order| ==> order[i] != order[j])
    && (forall i, j :: 0 <= i < j < |order| ==> b.nodes[order[i]].cycle <= b.nodes[order[j]].cycle)
  }

  lemma CheckedCausal(d: Description, w: Writer, b: Batch)
    requires forall e :: e in b.edges ==> EdgeAccepted(d, w, b, e)
    ensures Causal(b.nodes, b.edges)
  {
    forall e | e in b.edges && e.parent in b.nodes && e.child in b.nodes
      ensures b.nodes[e.parent].cycle <= b.nodes[e.child].cycle
    {
      assert EdgeAccepted(d, w, b, e);
    }
  }

  lemma CheckedOrderly(d: Description, w: Writer, b: Batch)
    requires d.Valid() && TracksDisjoint(d, b.nodes) && Complete(b.nodes, b.edges, b.nodes.Keys)
    requires forall r :: r in b.nodes ==> NodeAccepted(d, w, b, r)
    requires forall e :: e in b.edges ==> EdgeAccepted(d, w, b, e)
    ensures Orderly(d, b, BatchOrder(b)) && forall r :: r in BatchOrder(b) ==> r !in w.stage.known
  {
    hide NodeAccepted, EdgeAccepted, Order, Complete, Causal, TracksDisjoint, Description.Valid;
    CheckedCausal(d, w, b);
    CheckedNodes(d, w, b);
    OrderElements(b.nodes, b.edges, b.nodes.Keys);
    OrderByCycle(b.nodes, b.edges, b.nodes.Keys, 0);
    CompleteTakesAll(b.nodes, b.edges, b.nodes.Keys);
  }

  lemma CheckedNodes(d: Description, w: Writer, b: Batch)
    requires forall r :: r in b.nodes ==> NodeAccepted(d, w, b, r)
    ensures forall r :: r in b.nodes ==> r.site < |d.tracks| && r !in w.stage.known
  {
  }

  lemma AcceptedCausal(d: Description, w: Writer, b: Batch)
    requires Accepts(d, w, b)
    ensures Causal(b.nodes, b.edges)
  {
    CheckedCausal(d, w, b);
  }

  lemma AcceptedOrderly(d: Description, w: Writer, b: Batch)
    requires d.Valid() && Accepts(d, w, b)
    ensures Orderly(d, b, BatchOrder(b))
  {
    CheckedOrderly(d, w, b);
  }

  ghost predicate Reached(b: Batch, order: seq<Ref>, n: nat, run: Run, g: nat)
    requires n <= |order|
  {
    run.node.cycle == g && run.last in order[..n] && run.last in b.nodes && b.nodes[run.last].cycle == g
  }

  ghost function NextRef(run: Run): Ref
    requires run.last.sequence < U64_MAX
  {
    Ref(run.last.site, run.last.sequence + 1)
  }

  ghost predicate Waits(b: Batch, order: seq<Ref>, n: nat, run: Run, g: nat)
    requires n <= |order|
  {
    Continues(b, run, g) && NextRef(run) in order[n..]
  }

  ghost predicate RunsAt(d: Description, b: Batch, order: seq<Ref>, n: nat, stalls: map<nat, Run>, g: nat)
    requires n <= |order|
  {
    forall t :: t in stalls ==>
      RunWellFormed(d, t, stalls[t]) && (Reached(b, order, n, stalls[t], g) || Waits(b, order, n, stalls[t], g))
  }

  /** An occurrence on the track of an open slice is the one that slice waits for. */
  lemma OnlyContinuation(d: Description, b: Batch, order: seq<Ref>, n: nat, stalls: map<nat, Run>, t: nat)
    requires Orderly(d, b, order) && n < |order|
    requires RunsAt(d, b, order, n, stalls, b.nodes[order[n]].cycle)
    requires t in stalls && TrackOf(d, order[n].site) == t
    ensures Waits(b, order, n, stalls[t], b.nodes[order[n]].cycle) && order[n] == NextRef(stalls[t])
    ensures IsStall(d, order[n].site)
  {
    assert d.shared[t];
    assert order[n] !in order[..n];
  }

  lemma EmitKeepsRuns(d: Description, b: Batch, order: seq<Ref>, st: Stage, n: nat)
    requires Orderly(d, b, order) && n < |order|
    requires RunsAt(d, b, order, n, st.stalls, b.nodes[order[n]].cycle)
    ensures RunsAt(d, b, order, n + 1, Emit(d, b, st, order[n]).stalls, b.nodes[order[n]].cycle)
  {
    var r := order[n];
    var g, track, after := b.nodes[r].cycle, TrackOf(d, r.site), Emit(d, b, st, r).stalls;
    PrefixGrows(order, n);
    if track in st.stalls {
      OnlyContinuation(d, b, order, n, st.stalls, track);
    }
    forall t | t in after
      ensures RunWellFormed(d, t, after[t]) &&
        (Reached(b, order, n + 1, after[t], g) || Waits(b, order, n + 1, after[t], g))
    {
      if t == track {
        assert after[t].last == r && after[t].node.cycle == g;
      } else {
        var run := st.stalls[t];
        assert after[t] == run;
        if Waits(b, order, n, run, g) {
          assert NextRef(run) != r;
        }
      }
    }
  }

  /** A slice that a new cycle continues waits for an occurrence not yet emitted. */
  lemma SurvivorWaits(d: Description, b: Batch, order: seq<Ref>, n: nat, run: Run)
    requires Orderly(d, b, order) && n < |order| && NewCycle(b, order, n)
    requires Continues(b, run, b.nodes[order[n]].cycle)
    ensures Waits(b, order, n, run, b.nodes[order[n]].cycle)
  {
    hide TracksDisjoint, Description.Valid;
    var next := NextRef(run);
    assert next in order;
    var i :| 0 <= i < |order| && order[i] == next;
    forall j | 0 <= j < n
      ensures b.nodes[order[j]].cycle < b.nodes[order[n]].cycle
    {
      assert j == n - 1 || b.nodes[order[j]].cycle <= b.nodes[order[n - 1]].cycle;
      assert b.nodes[order[n - 1]].cycle <= b.nodes[order[n]].cycle;
    }
    assert order[n..][i - n] == next;
  }

  lemma SettleKeepsRuns(d: Description, b: Batch, order: seq<Ref>, st: Stage, n: nat)
    requires Orderly(d, b, order) && n < |order|
    requires n == 0 ==> forall t :: t in st.stalls ==> RunWellFormed(d, t, st.stalls[t])
    requires 0 < n ==> RunsAt(d, b, order, n, st.stalls, b.nodes[order[n - 1]].cycle)
    ensures RunsAt(d, b, order, n, Settle(b, order, st, n).stalls, b.nodes[order[n]].cycle)
  {
    if NewCycle(b, order, n) {
      var g := b.nodes[order[n]].cycle;
      var broken := Breaking(b, st.stalls, g);
      forall t | t in st.stalls && t !in broken
        ensures Waits(b, order, n, st.stalls[t], g)
      {
        SurvivorWaits(d, b, order, n, st.stalls[t]);
      }
    }
  }

  lemma {:induction false} AfterRuns(d: Description, b: Batch, order: seq<Ref>, st: Stage, n: nat)
    requires Orderly(d, b, order) && 0 < n <= |order|
    requires forall t :: t in st.stalls ==> RunWellFormed(d, t, st.stalls[t])
    ensures RunsAt(d, b, order, n, After(d, b, order, st, n).stalls, b.nodes[order[n - 1]].cycle)
  {
    hide RunsAt, RunWellFormed, Settle, Emit, TracksDisjoint;
    var before := After(d, b, order, st, n - 1);
    if n > 1 {
      AfterRuns(d, b, order, st, n - 1);
    }
    SettleKeepsRuns(d, b, order, before, n - 1);
    EmitKeepsRuns(d, b, order, Settle(b, order, before, n - 1), n - 1);
  }

  /** When a whole batch has been emitted, every open slice has reached its last cycle. */
  lemma NoneWaitsAtEnd(d: Description, b: Batch, order: seq<Ref>, stalls: map<nat, Run>, g: nat)
    requires RunsAt(d, b, order, |order|, stalls, g)
    ensures forall t :: t in stalls ==> stalls[t].node.cycle == g && stalls[t].last in order
  {
    assert order[|order|..] == [] && order[..|order|] == order;
  }

  /** The occurrences emitted so far have been given the next flow identities, in emission order. */
  ghost predicate Identified(b: Batch, order: seq<Ref>, st: Stage, n: nat, known: map<Ref, Mark>)
    requires n <= |order| && Within(b, order)
  {
    && |known| == |st.known| + n
    && Joined(order, n, st.known.Keys, known.Keys)
    && Numbered(b, order, |st.known|, n, known)
    && (forall r :: r in st.known ==> r in known && known[r] == st.known[r])
  }

  ghost predicate Joined(order: seq<Ref>, n: nat, before: set<Ref>, known: set<Ref>)
    requires n <= |order|
  {
    forall r :: r in known <==> r in before || r in order[..n]
  }

  ghost predicate Numbered(b: Batch, order: seq<Ref>, base: nat, n: nat, known: map<Ref, Mark>)
    requires n <= |order| && Within(b, order)
  {
    forall i :: 0 <= i < n ==> order[i] in known && known[order[i]] == Mark(base + i + 1, b.nodes[order[i]].cycle)
  }

  lemma IdentifiedNone(d: Description, b: Batch, order: seq<Ref>, st: Stage)
    requires Within(b, order)
    ensures Identified(b, order, st, 0, After(d, b, order, st, 0).known)
  {
  }

  lemma IdentifiedStep(b: Batch, order: seq<Ref>, st: Stage, n: nat, known: map<Ref, Mark>)
    requires n < |order| && Within(b, order) && order[n] !in order[..n] && order[n] !in st.known
    requires Identified(b, order, st, n, known)
    ensures Identified(b, order, st, n + 1, known[order[n] := Mark(|known| + 1, b.nodes[order[n]].cycle)])
  {
    hide Numbered, Joined;
    var mark := Mark(|known| + 1, b.nodes[order[n]].cycle);
    JoinedStep(order, n, st.known.Keys, known, mark);
    AddedSize(known, order[n], mark);
    NumberedStep(b, order, |st.known|, n, known);
  }

  lemma JoinedStep(order: seq<Ref>, n: nat, before: set<Ref>, known: map<Ref, Mark>, mark: Mark)
    requires n < |order| && order[n] !in order[..n] && order[n] !in before && Joined(order, n, before, known.Keys)
    ensures order[n] !in known
    ensures Joined(order, n + 1, before, known[order[n] := mark].Keys)
  {
    assert order[..n + 1] == order[..n] + [order[n]];
  }

  lemma NumberedStep(b: Batch, order: seq<Ref>, base: nat, n: nat, known: map<Ref, Mark>)
    requires n < |order| && Within(b, order) && order[n] !in order[..n] && Numbered(b, order, base, n, known)
    ensures Numbered(b, order, base, n + 1, known[order[n] := Mark(base + n + 1, b.nodes[order[n]].cycle)])
  {
    NewAt(order, n);
  }

  lemma NewAt(order: seq<Ref>, n: nat)
    requires n < |order| && order[n] !in order[..n]
    ensures forall i :: 0 <= i < n ==> order[i] != order[n]
  {
    forall i | 0 <= i < n
      ensures order[i] != order[n]
    {
      assert order[i] in order[..n];
    }
  }

  lemma EmitKnown(d: Description, b: Batch, st: Stage, r: Ref)
    requires r in b.nodes
    ensures Emit(d, b, st, r).known == st.known[r := Mark(|st.known| + 1, b.nodes[r].cycle)]
  {
  }

  lemma SettleKnown(b: Batch, order: seq<Ref>, st: Stage, n: nat)
    requires n < |order| && Within(b, order)
    ensures Settle(b, order, st, n).known == st.known
  {
  }

  lemma AfterStep(d: Description, b: Batch, order: seq<Ref>, st: Stage, n: nat)
    requires n < |order| && Within(b, order)
    ensures var known := After(d, b, order, st, n).known;
      After(d, b, order, st, n + 1).known == known[order[n] := Mark(|known| + 1, b.nodes[order[n]].cycle)]
  {
    hide Emit, Settle;
    var before := After(d, b, order, st, n);
    SettleKnown(b, order, before, n);
    EmitKnown(d, b, Settle(b, order, before, n), order[n]);
  }

  lemma {:induction false} AfterKnown(d: Description, b: Batch, order: seq<Ref>, st: Stage, n: nat)
    requires n <= |order| && Within(b, order)
    requires forall i, j :: 0 <= i < j < |order| ==> order[i] != order[j]
    requires forall r :: r in order ==> r !in st.known
    ensures Identified(b, order, st, n, After(d, b, order, st, n).known)
  {
    hide Identified, After;
    if n == 0 {
      IdentifiedNone(d, b, order, st);
    } else {
      AfterKnown(d, b, order, st, n - 1);
      AfterStep(d, b, order, st, n - 1);
      assert order[n - 1] !in order[..n - 1];
      IdentifiedStep(b, order, st, n - 1, After(d, b, order, st, n - 1).known);
    }
  }
}

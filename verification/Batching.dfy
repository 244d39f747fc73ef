/** Output does not depend on how cycles were grouped into batches. */
module Batching {
  import opened Ordering
  import opened Options
  import opened EventModel
  import opened Worklist
  import opened Encoder
  import opened Runs

  // ---------------------------------------------------------------- equal cycles encode equally

  ghost predicate InSpan(lo: int, hi: nat, cycle: nat) {
    lo < cycle <= hi
  }

  /** The two batches hold the same occurrences, with the same parents, after cycle `lo` up to `hi`. */
  ghost predicate Agree(b: Batch, c: Batch, lo: int, hi: nat) {
    && (forall r :: r in b.nodes && InSpan(lo, hi, b.nodes[r].cycle) ==> r in c.nodes && c.nodes[r] == b.nodes[r])
    && (forall r :: r in c.nodes && InSpan(lo, hi, c.nodes[r].cycle) ==> r in b.nodes && b.nodes[r] == c.nodes[r])
    && (forall r :: r in b.nodes && InSpan(lo, hi, b.nodes[r].cycle) ==> Parents(b.edges, r) == Parents(c.edges, r))
  }

  lemma SameBreaking(b: Batch, c: Batch, lo: int, hi: nat, stalls: map<nat, Run>, g: nat)
    requires Agree(b, c, lo, hi) && InSpan(lo, hi, g)
    ensures Breaking(b, stalls, g) == Breaking(c, stalls, g)
  {
    forall t | t in stalls
      ensures Continues(b, stalls[t], g) == Continues(c, stalls[t], g)
    {
    }
  }

  lemma SameEmit(d: Description, b: Batch, c: Batch, lo: int, hi: nat, st: Stage, r: Ref)
    requires Agree(b, c, lo, hi) && r in b.nodes && InSpan(lo, hi, b.nodes[r].cycle)
    ensures r in c.nodes && Emit(d, b, st, r) == Emit(d, c, st, r)
  {
  }

  lemma SameSettle(b: Batch, c: Batch, lo: int, hi: nat, o: seq<Ref>, st: Stage, n: nat)
    requires Agree(b, c, lo, hi) && Within(b, o) && Within(c, o) && n < |o|
    requires forall r :: r in o ==> InSpan(lo, hi, b.nodes[r].cycle)
    ensures Settle(b, o, st, n) == Settle(c, o, st, n)
  {
    SameBreaking(b, c, lo, hi, st.stalls, b.nodes[o[n]].cycle);
    assert b.nodes[o[n]] == c.nodes[o[n]];
    if n > 0 {
      assert b.nodes[o[n - 1]] == c.nodes[o[n - 1]];
    }
  }

  lemma {:induction false} SameAfter(d: Description, b: Batch, c: Batch, lo: int, hi: nat, o: seq<Ref>, st: Stage,
                                     n: nat)
    requires Agree(b, c, lo, hi) && Within(b, o) && Within(c, o) && n <= |o|
    requires forall r :: r in o ==> InSpan(lo, hi, b.nodes[r].cycle)
    ensures After(d, b, o, st, n) == After(d, c, o, st, n)
  {
    hide Emit, Settle;
    if n > 0 {
      SameAfter(d, b, c, lo, hi, o, st, n - 1);
      var before := After(d, b, o, st, n - 1);
      SameSettle(b, c, lo, hi, o, before, n - 1);
      SameEmit(d, b, c, lo, hi, Settle(b, o, before, n - 1), o[n - 1]);
    }
  }

  lemma {:induction false} AfterPrefix(d: Description, b: Batch, o1: seq<Ref>, o2: seq<Ref>, st: Stage, n: nat)
    requires n <= |o1| && Within(b, o1) && Within(b, o1 + o2)
    ensures After(d, b, o1 + o2, st, n) == After(d, b, o1, st, n)
  {
    hide Emit, Close, Breaking;
    if n > 0 {
      AfterPrefix(d, b, o1, o2, st, n - 1);
      assert (o1 + o2)[n - 1] == o1[n - 1];
      if n > 1 {
        assert (o1 + o2)[n - 2] == o1[n - 2];
      }
    }
  }

  /** Once the first occurrence of the second part finds the same stage, the rest follows. */
  lemma {:induction false} AfterSuffix(d: Description, b: Batch, o1: seq<Ref>, o2: seq<Ref>, st: Stage, st2: Stage,
                                       n: nat)
    requires 0 < n <= |o2| && Within(b, o2) && Within(b, o1 + o2)
    requires Settle(b, o1 + o2, After(d, b, o1 + o2, st, |o1|), |o1|) == Settle(b, o2, st2, 0)
    ensures After(d, b, o1 + o2, st, |o1| + n) == After(d, b, o2, st2, n)
  {
    hide Emit, Close, Breaking;
    assert (o1 + o2)[|o1| + n - 1] == o2[n - 1];
    if n > 1 {
      AfterSuffix(d, b, o1, o2, st, st2, n - 1);
      assert (o1 + o2)[|o1| + n - 2] == o2[n - 2];
    }
  }

  // ---------------------------------------------------------------- closing early or late

  lemma CloseNone(st: Stage)
    ensures Close(st, {}) == st
  {
    assert Endings(st.stalls, {}) == {};
    assert st.stalls - {} == st.stalls;
  }

  /** Every open slice was last observed at cycle `m`. */
  ghost predicate Uniform(stalls: map<nat, Run>, m: nat) {
    forall t :: t in stalls ==> stalls[t].node.cycle == m
  }

  lemma StaleUniform(stalls: map<nat, Run>, m: nat, cycle: nat)
    requires Uniform(stalls, m)
    ensures Stale(stalls, cycle) == if m < cycle then stalls.Keys else {}
  {
  }

  lemma CloseAllEmpties(st: Stage)
    ensures Close(st, st.stalls.Keys).stalls == map[]
  {
  }

  /** Closing at a batch boundary changes nothing for the next cycle: what it closes, that cycle
      would have closed in the same order. */
  lemma EarlyCloseThenCycle(b: Batch, st: Stage, m: nat, boundary: nat, g: nat)
    requires Uniform(st.stalls, m) && m <= boundary < g
    ensures var early := Close(st, Stale(st.stalls, boundary));
      Close(early, Breaking(b, early.stalls, g)) == Close(st, Breaking(b, st.stalls, g))
  {
    StaleUniform(st.stalls, m, boundary);
    if m < boundary {
      CloseAllEmpties(st);
      var early := Close(st, st.stalls.Keys);
      assert Breaking(b, early.stalls, g) == {};
      CloseNone(early);
      assert Breaking(b, st.stalls, g) == st.stalls.Keys;
    } else {
      CloseNone(st);
    }
  }

  lemma EarlyCloseThenBoundary(st: Stage, m: nat, boundary: nat, later: nat)
    requires Uniform(st.stalls, m) && m <= boundary < later
    ensures var early := Close(st, Stale(st.stalls, boundary));
      Close(early, Stale(early.stalls, later)) == Close(st, Stale(st.stalls, later))
  {
    StaleUniform(st.stalls, m, boundary);
    StaleUniform(st.stalls, m, later);
    if m < boundary {
      CloseAllEmpties(st);
      var early := Close(st, st.stalls.Keys);
      assert Stale(early.stalls, later) == {};
      CloseNone(early);
    } else {
      CloseNone(st);
    }
  }

  // ---------------------------------------------------------------- the writer's state

  /** After a batch, every open slice was last observed at one cycle, no later than the batch's. */
  lemma EncodedUniform(d: Description, w: Writer, b: Batch) returns (m: nat)
    requires d.Valid() && WriterInv(d, w) && Accepts(d, w, b)
    ensures var o := BatchOrder(b); var st := After(d, b, o, w.stage, |o|);
      Uniform(st.stalls, m) && m <= b.cycle && forall t :: t in st.stalls ==> RunWellFormed(d, t, st.stalls[t])
  {
    var o := BatchOrder(b);
    if o == [] {
      m := if w.watermark == None then 0 else w.watermark.value;
    } else {
      AcceptedOrderly(d, w, b);
      m := b.nodes[o[|o| - 1]].cycle;
      AfterRuns(d, b, o, w.stage, |o|);
      NoneWaitsAtEnd(d, b, o, After(d, b, o, w.stage, |o|).stalls, m);
      assert NodeAccepted(d, w, b, o[|o| - 1]);
    }
  }

  lemma WrittenIdentified(d: Description, w: Writer, b: Batch)
    requires d.Valid() && Accepts(d, w, b)
    ensures Identified(b, BatchOrder(b), w.stage, |BatchOrder(b)|, Write(d, w, b).stage.known)
  {
    hide After;
    var o := BatchOrder(b);
    AcceptedOrderly(d, w, b);
    forall r | r in b.nodes
      ensures r !in w.stage.known
    {
      assert NodeAccepted(d, w, b, r);
    }
    AfterKnown(d, b, o, w.stage, |o|);
  }

  lemma WrittenKnown(d: Description, w: Writer, b: Batch)
    requires d.Valid() && Accepts(d, w, b)
    ensures Write(d, w, b).stage.known.Keys == w.stage.known.Keys + b.nodes.Keys
    ensures |Write(d, w, b).stage.known| == |w.stage.known| + |b.nodes|
  {
    hide Write, Accepts, BatchOrder, Orderly, Joined, Numbered;
    WrittenIdentified(d, w, b);
    AcceptedOrderly(d, w, b);
    OrderJoined(d, b, BatchOrder(b), w.stage.known.Keys, Write(d, w, b).stage.known.Keys);
    AcceptedLength(d, w, b);
  }

  lemma OrderJoined(d: Description, b: Batch, o: seq<Ref>, before: set<Ref>, after: set<Ref>)
    requires Orderly(d, b, o) && Joined(o, |o|, before, after)
    ensures after == before + b.nodes.Keys
  {
    hide TracksDisjoint, Description.Valid;
    assert o[..|o|] == o;
  }

  lemma AcceptedLength(d: Description, w: Writer, b: Batch)
    requires Accepts(d, w, b)
    ensures |BatchOrder(b)| == |b.nodes|
  {
  }

  lemma WrittenMark(d: Description, w: Writer, b: Batch, r: Ref)
    requires d.Valid() && Accepts(d, w, b)
    requires r in w.stage.known || r in b.nodes
    ensures r in Write(d, w, b).stage.known
    ensures r in w.stage.known ==> Write(d, w, b).stage.known[r] == w.stage.known[r]
    ensures r in b.nodes ==> r !in w.stage.known && Write(d, w, b).stage.known[r].cycle == b.nodes[r].cycle <= b.cycle
  {
    hide Write;
    WrittenIdentified(d, w, b);
    if r in b.nodes {
      assert NodeAccepted(d, w, b, r);
      AcceptedOrderly(d, w, b);
      var o := BatchOrder(b);
      var i :| 0 <= i < |o| && o[i] == r;
    }
  }

  lemma WriteKeepsInv(d: Description, w: Writer, b: Batch)
    requires d.Valid() && WriterInv(d, w) && Accepts(d, w, b)
    ensures WriterInv(d, Write(d, w, b))
  {
    hide After, BatchOrder, Accepts, EndEvents, Sorted, Endings;
    var m := EncodedUniform(d, w, b);
    var o := BatchOrder(b);
    StaleUniform(After(d, b, o, w.stage, |o|).stalls, m, b.cycle);
    MarksBounded(d, w, b);
  }

  lemma MarksBounded(d: Description, w: Writer, b: Batch)
    requires d.Valid() && WriterInv(d, w) && Accepts(d, w, b)
    ensures forall r :: r in Write(d, w, b).stage.known ==> Write(d, w, b).stage.known[r].cycle <= b.cycle
  {
    hide Write;
    WrittenKnown(d, w, b);
    forall r | r in Write(d, w, b).stage.known
      ensures Write(d, w, b).stage.known[r].cycle <= b.cycle
    {
      WrittenMark(d, w, b, r);
    }
  }
}

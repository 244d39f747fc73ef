/** Writing two batches in turn is writing their union, and a batch can be cut at any cycle. */
module Merging {
  import opened Options
  import opened Machine
  import opened EventModel
  import opened Worklist
  import opened Encoder
  import opened Runs
  import opened Batching

  ghost function Merge(b: Batch, c: Batch): Batch {
    Batch(c.cycle, b.nodes + c.nodes, b.edges + c.edges)
  }

  /** `b` holds the cycles up to its own, `c` the later ones, and edges travel with their child. */
  ghost predicate Adjacent(b: Batch, c: Batch) {
    && b.cycle < c.cycle && b.nodes.Keys !! c.nodes.Keys
    && (forall r :: r in b.nodes ==> b.nodes[r].cycle <= b.cycle)
    && (forall r :: r in c.nodes ==> b.cycle < c.nodes[r].cycle <= c.cycle)
    && (forall e :: e in b.edges ==> e.child in b.nodes)
    && (forall e :: e in c.edges ==> e.child in c.nodes)
    && (forall e :: e in b.edges ==> e.parent !in c.nodes)
  }

  ghost predicate Successive(d: Description, w: Writer, b: Batch, c: Batch) {
    d.Valid() && WriterInv(d, w) && Accepts(d, w, b) && Accepts(d, Write(d, w, b), c)
  }

  lemma SuccessiveAdjacent(d: Description, w: Writer, b: Batch, c: Batch)
    requires Successive(d, w, b, c)
    ensures Adjacent(b, c)
  {
    hide Write, WriterInv, NodeAccepted, EdgeAccepted, Complete, TracksDisjoint;
    WrittenKnown(d, w, b);
    assert Write(d, w, b).watermark == Some(b.cycle) by {
      WrittenWatermark(d, w, b);
    }
    forall r | r in b.nodes
      ensures b.nodes[r].cycle <= b.cycle
    {
      AcceptedNode(d, w, b, r);
    }
    forall r | r in c.nodes
      ensures b.cycle < c.nodes[r].cycle <= c.cycle && r !in b.nodes
    {
      AcceptedNode(d, Write(d, w, b), c, r);
    }
    forall e | e in b.edges
      ensures e.child in b.nodes && e.parent !in c.nodes
    {
      AcceptedEdge(d, w, b, e);
      if e.parent in c.nodes {
        AcceptedNode(d, Write(d, w, b), c, e.parent);
      }
    }
    forall e | e in c.edges
      ensures e.child in c.nodes
    {
      AcceptedEdge(d, Write(d, w, b), c, e);
    }
  }

  lemma WrittenWatermark(d: Description, w: Writer, b: Batch)
    ensures Write(d, w, b).watermark == Some(b.cycle)
  {
  }

  lemma AcceptedNode(d: Description, w: Writer, b: Batch, r: Ref)
    requires Accepts(d, w, b) && r in b.nodes
    ensures r !in w.stage.known && b.nodes[r].cycle <= b.cycle && Newer(w.watermark, b.nodes[r].cycle)
  {
    assert NodeAccepted(d, w, b, r);
  }

  lemma AcceptedEdge(d: Description, w: Writer, b: Batch, e: Edge)
    requires Accepts(d, w, b) && e in b.edges
    ensures e.child in b.nodes && (e.parent in b.nodes || e.parent in w.stage.known)
    ensures e.parent in b.nodes ==> b.nodes[e.parent].cycle <= b.nodes[e.child].cycle
  {
    assert EdgeAccepted(d, w, b, e);
  }

  // ---------------------------------------------------------------- the merged batch agrees with its parts

  lemma MergeAgreesEarly(b: Batch, c: Batch)
    requires Adjacent(b, c)
    ensures Agree(Merge(b, c), b, -1, b.cycle)
  {
    var m := Merge(b, c);
    forall r | r in b.nodes
      ensures Parents(m.edges, r) == Parents(b.edges, r)
    {
      forall p
        ensures Edge(p, r) in m.edges <==> Edge(p, r) in b.edges
      {
      }
      ParentsEqual(m.edges, b.edges, r);
    }
  }

  lemma MergeAgreesLate(b: Batch, c: Batch)
    requires Adjacent(b, c)
    ensures Agree(Merge(b, c), c, b.cycle, c.cycle)
  {
    var m := Merge(b, c);
    forall r | r in c.nodes
      ensures Parents(m.edges, r) == Parents(c.edges, r)
    {
      forall p
        ensures Edge(p, r) in m.edges <==> Edge(p, r) in c.edges
      {
      }
      ParentsEqual(m.edges, c.edges, r);
    }
  }

  lemma ParentsEqual(e: set<Edge>, f: set<Edge>, r: Ref)
    requires forall p :: Edge(p, r) in e <==> Edge(p, r) in f
    ensures Parents(e, r) == Parents(f, r)
  {
    forall p
      ensures p in Parents(e, r) <==> p in Parents(f, r)
    {
      ParentsMember(e, p, r);
      ParentsMember(f, p, r);
    }
  }

  lemma MergeCausal(b: Batch, c: Batch)
    requires Adjacent(b, c) && Causal(b.nodes, b.edges) && Causal(c.nodes, c.edges)
    ensures Causal(Merge(b, c).nodes, Merge(b, c).edges)
  {
  }

  /** The emission order of the union is the two orders in turn. */
  lemma MergeOrder(b: Batch, c: Batch)
    requires Adjacent(b, c) && Causal(b.nodes, b.edges) && Causal(c.nodes, c.edges)
    ensures var m := Merge(b, c);
      && (Complete(m.nodes, m.edges, m.nodes.Keys) <==>
            Complete(b.nodes, b.edges, b.nodes.Keys) && Complete(c.nodes, c.edges, c.nodes.Keys))
      && (Complete(b.nodes, b.edges, b.nodes.Keys) ==> BatchOrder(m) == BatchOrder(b) + BatchOrder(c))
  {
    hide Order;
    var m := Merge(b, c);
    MergeCausal(b, c);
    assert m.nodes.Keys == b.nodes.Keys + c.nodes.Keys;
    OrderDependsOnLeft(m.nodes, m.edges, b.nodes, b.edges, b.nodes.Keys);
    OrderDependsOnLeft(m.nodes, m.edges, c.nodes, c.edges, c.nodes.Keys);
    CompleteSplits(m.nodes, m.edges, b.nodes.Keys, c.nodes.Keys, b.cycle);
    if Complete(b.nodes, b.edges, b.nodes.Keys) {
      OrderSplits(m.nodes, m.edges, b.nodes.Keys, c.nodes.Keys, b.cycle);
    }
  }

  // ---------------------------------------------------------------- the merged batch does what its parts do

  lemma MergeEarlyStage(d: Description, st: Stage, b: Batch, c: Batch)
    requires Adjacent(b, c) && BatchOrder(Merge(b, c)) == BatchOrder(b) + BatchOrder(c)
    ensures var o := BatchOrder(b);
      After(d, Merge(b, c), o + BatchOrder(c), st, |o|) == After(d, b, o, st, |o|)
  {
    hide Order, Emit, Settle;
    var m, o, p := Merge(b, c), BatchOrder(b), BatchOrder(c);
    MergeAgreesEarly(b, c);
    AfterPrefix(d, m, o, p, st, |o|);
    SameAfter(d, b, m, -1, b.cycle, o, st, |o|);
  }

  /** The first late occurrence finds the stage it would have found after a batch boundary. */
  lemma MergeBoundary(d: Description, st: Stage, b: Batch, c: Batch, m: nat)
    requires Adjacent(b, c) && BatchOrder(Merge(b, c)) == BatchOrder(b) + BatchOrder(c) && BatchOrder(c) != []
    requires var s := After(d, b, BatchOrder(b), st, |BatchOrder(b)|); Uniform(s.stalls, m) && m <= b.cycle
    ensures var o, p := BatchOrder(b), BatchOrder(c);
      var s := After(d, b, o, st, |o|);
      Within(Merge(b, c), p) &&
      Settle(Merge(b, c), o + p, s, |o|) == Settle(Merge(b, c), p, Close(s, Stale(s.stalls, b.cycle)), 0)
  {
    hide Order, Emit, Close, Breaking, After;
    var o, p, u := BatchOrder(b), BatchOrder(c), Merge(b, c);
    var s := After(d, b, o, st, |o|);
    var early := Close(s, Stale(s.stalls, b.cycle));
    assert u.nodes[p[0]] == c.nodes[p[0]] && (o + p)[|o|] == p[0];
    var g := c.nodes[p[0]].cycle;
    assert NewCycle(u, o + p, |o|) by {
      if o != [] {
        assert (o + p)[|o| - 1] == o[|o| - 1] && o[|o| - 1] in b.nodes;
        assert u.nodes[o[|o| - 1]] == b.nodes[o[|o| - 1]];
      }
    }
    EarlyCloseThenCycle(u, s, m, b.cycle, g);
  }

  lemma MergeLateStage(d: Description, st: Stage, b: Batch, c: Batch, m: nat)
    requires Adjacent(b, c) && BatchOrder(Merge(b, c)) == BatchOrder(b) + BatchOrder(c) && BatchOrder(c) != []
    requires var s := After(d, b, BatchOrder(b), st, |BatchOrder(b)|); Uniform(s.stalls, m) && m <= b.cycle
    ensures var o, p := BatchOrder(b), BatchOrder(c);
      var s := After(d, b, o, st, |o|);
      After(d, Merge(b, c), o + p, st, |o + p|) == After(d, c, p, Close(s, Stale(s.stalls, b.cycle)), |p|)
  {
    hide BatchOrder, Emit, Settle, Close, After, Adjacent, Agree, Merge;
    var o, p, u := BatchOrder(b), BatchOrder(c), Merge(b, c);
    var s := After(d, b, o, st, |o|);
    var early := Close(s, Stale(s.stalls, b.cycle));
    MergeEarlyStage(d, st, b, c);
    MergeBoundary(d, st, b, c, m);
    AfterSuffix(d, u, o, p, st, early, |p|);
    LateSpan(b, c);
    SameAfter(d, c, u, b.cycle, c.cycle, p, early, |p|);
  }

  lemma LateSpan(b: Batch, c: Batch)
    requires Adjacent(b, c)
    ensures Agree(c, Merge(b, c), b.cycle, c.cycle)
    ensures forall r :: r in BatchOrder(c) ==> InSpan(b.cycle, c.cycle, c.nodes[r].cycle)
  {
    MergeAgreesLate(b, c);
  }

  /** Two batches in turn leave the stage their union leaves. */
  lemma MergeEncodes(d: Description, w: Writer, b: Batch, c: Batch)
    requires Successive(d, w, b, c)
    ensures Encode(d, w.stage, Merge(b, c)) == Encode(d, Encode(d, w.stage, b), c)
  {
    hide Order, After, Close, Write, WriterInv;
    SuccessiveAdjacent(d, w, b, c);
    AcceptedCausal(d, w, b);
    AcceptedCausal(d, Write(d, w, b), c);
    MergeOrder(b, c);
    var m := EncodedUniform(d, w, b);
    var o, p := BatchOrder(b), BatchOrder(c);
    var s := After(d, b, o, w.stage, |o|);
    if p == [] {
      assert o + p == o;
      MergeEarlyStage(d, w.stage, b, c);
      EarlyCloseThenBoundary(s, m, b.cycle, c.cycle);
      AfterNone(d, c, Close(s, Stale(s.stalls, b.cycle)));
    } else {
      MergeLateStage(d, w.stage, b, c, m);
    }
  }

  lemma AfterNone(d: Description, b: Batch, st: Stage)
    ensures After(d, b, [], st, 0) == st
  {
  }

  // ---------------------------------------------------------------- acceptance

  lemma NodeMoves(d: Description, w: Writer, b: Batch, w': Writer, b': Batch, r: Ref)
    requires r in b.nodes && r in b'.nodes && b.nodes[r] == b'.nodes[r]
    requires r in w.stage.known <==> r in w'.stage.known
    requires b.nodes[r].cycle <= b.cycle <==> b.nodes[r].cycle <= b'.cycle
    requires Newer(w.watermark, b.nodes[r].cycle) <==> Newer(w'.watermark, b.nodes[r].cycle)
    ensures NodeAccepted(d, w, b, r) <==> NodeAccepted(d, w', b', r)
  {
    hide PayloadComplete, TimestampFits, Newer;
  }

  lemma EarlyNode(d: Description, w: Writer, b: Batch, c: Batch, r: Ref)
    requires Adjacent(b, c) && r in b.nodes
    ensures NodeAccepted(d, w, Merge(b, c), r) <==> NodeAccepted(d, w, b, r)
  {
    hide NodeAccepted;
    assert b.nodes[r].cycle <= b.cycle < c.cycle && r !in c.nodes;
    NodeMoves(d, w, Merge(b, c), w, b, r);
  }

  lemma LateNode(d: Description, w: Writer, b: Batch, c: Batch, r: Ref)
    requires d.Valid() && Adjacent(b, c) && Accepts(d, w, b) && r in c.nodes
    ensures NodeAccepted(d, w, Merge(b, c), r) <==> NodeAccepted(d, Write(d, w, b), c, r)
  {
    hide Write, Accepts, NodeAccepted;
    assert b.cycle < c.nodes[r].cycle <= c.cycle && r !in b.nodes;
    hide Adjacent;
    WrittenKnown(d, w, b);
    WrittenWatermark(d, w, b);
    AcceptedCycle(d, w, b);
    NodeMoves(d, w, Merge(b, c), Write(d, w, b), c, r);
  }

  lemma AcceptedCycle(d: Description, w: Writer, b: Batch)
    requires Accepts(d, w, b)
    ensures Newer(w.watermark, b.cycle)
  {
  }

  lemma EarlyEdge(d: Description, w: Writer, b: Batch, c: Batch, e: Edge)
    requires Adjacent(b, c) && e in b.edges
    ensures EdgeAccepted(d, w, Merge(b, c), e) <==> EdgeAccepted(d, w, b, e)
  {
  }

  lemma LateEdge(d: Description, w: Writer, b: Batch, c: Batch, e: Edge)
    requires d.Valid() && Adjacent(b, c) && Accepts(d, w, b) && e in c.edges
    requires forall r :: r in c.nodes ==> r !in w.stage.known
    ensures EdgeAccepted(d, w, Merge(b, c), e) <==> EdgeAccepted(d, Write(d, w, b), c, e)
  {
    hide Write, Accepts;
    WrittenKnown(d, w, b);
    if e.parent in w.stage.known || e.parent in b.nodes {
      WrittenMark(d, w, b, e.parent);
    }
  }

  lemma MergeTracks(d: Description, b: Batch, c: Batch)
    requires Adjacent(b, c)
    ensures TracksDisjoint(d, Merge(b, c).nodes) <==> TracksDisjoint(d, b.nodes) && TracksDisjoint(d, c.nodes)
  {
    var m := Merge(b, c);
    assert forall r :: r in b.nodes ==> r in m.nodes && m.nodes[r] == b.nodes[r];
    assert forall r :: r in c.nodes ==> r in m.nodes && m.nodes[r] == c.nodes[r];
  }

  lemma MergeSize(b: Batch, c: Batch)
    requires Adjacent(b, c)
    ensures |Merge(b, c).nodes| == |b.nodes| + |c.nodes|
  {
    assert Merge(b, c).nodes.Keys == b.nodes.Keys + c.nodes.Keys;
  }

  lemma EarlyAccepted(d: Description, w: Writer, b: Batch, c: Batch)
    requires d.Valid() && WriterInv(d, w) && Adjacent(b, c)
    requires Newer(w.watermark, b.cycle) && Accepts(d, w, Merge(b, c))
    ensures Accepts(d, w, b)
  {
    hide NodeAccepted, EdgeAccepted, TracksDisjoint, Complete;
    var m := Merge(b, c);
    forall r | r in b.nodes
      ensures NodeAccepted(d, w, b, r)
    {
      EarlyNode(d, w, b, c, r);
    }
    forall e | e in b.edges
      ensures EdgeAccepted(d, w, b, e)
    {
      EarlyEdge(d, w, b, c, e);
    }
    MergeTracks(d, b, c);
    MergeSize(b, c);
    PartsCausal(d, w, b, c);
    MergeOrder(b, c);
  }

  lemma PartsCausal(d: Description, w: Writer, b: Batch, c: Batch)
    requires Adjacent(b, c) && Accepts(d, w, Merge(b, c))
    ensures Causal(b.nodes, b.edges) && Causal(c.nodes, c.edges)
  {
    AcceptedCausal(d, w, Merge(b, c));
    var m := Merge(b, c);
    assert forall r :: r in b.nodes ==> r in m.nodes && m.nodes[r] == b.nodes[r];
    assert forall r :: r in c.nodes ==> r in m.nodes && m.nodes[r] == c.nodes[r];
  }

  lemma LateAccepted(d: Description, w: Writer, b: Batch, c: Batch)
    requires d.Valid() && WriterInv(d, w) && Adjacent(b, c)
    requires Accepts(d, w, b) && Accepts(d, w, Merge(b, c))
    ensures Accepts(d, Write(d, w, b), c)
  {
    hide NodeAccepted, EdgeAccepted, TracksDisjoint, Complete, Write, WriterInv;
    var m, w' := Merge(b, c), Write(d, w, b);
    WrittenKnown(d, w, b);
    WrittenWatermark(d, w, b);
    forall r | r in c.nodes
      ensures NodeAccepted(d, w', c, r) && r !in w.stage.known
    {
      LateNode(d, w, b, c, r);
      AcceptedNode(d, w, m, r);
    }
    forall e | e in c.edges
      ensures EdgeAccepted(d, w', c, e)
    {
      LateEdge(d, w, b, c, e);
    }
    MergeTracks(d, b, c);
    MergeSize(b, c);
    PartsCausal(d, w, b, c);
    MergeOrder(b, c);
  }

  lemma MergeAccepted(d: Description, w: Writer, b: Batch, c: Batch)
    requires Successive(d, w, b, c)
    ensures Adjacent(b, c) && Accepts(d, w, Merge(b, c))
  {
    SuccessiveAdjacent(d, w, b, c);
    hide NodeAccepted, EdgeAccepted, TracksDisjoint, Complete, Write, WriterInv;
    var m, w' := Merge(b, c), Write(d, w, b);
    WrittenKnown(d, w, b);
    MergeMembers(d, w, b, c);
    MergeTracks(d, b, c);
    MergeSize(b, c);
    AcceptedCausal(d, w, b);
    AcceptedCausal(d, w', c);
    MergeOrder(b, c);
  }

  lemma MergeMembers(d: Description, w: Writer, b: Batch, c: Batch)
    requires Successive(d, w, b, c) && Adjacent(b, c)
    ensures forall r :: r in Merge(b, c).nodes ==> NodeAccepted(d, w, Merge(b, c), r)
    ensures forall e :: e in Merge(b, c).edges ==> EdgeAccepted(d, w, Merge(b, c), e)
  {
    hide NodeAccepted, EdgeAccepted, TracksDisjoint, Complete, Write, WriterInv;
    WrittenKnown(d, w, b);
    WrittenWatermark(d, w, b);
    forall r | r in Merge(b, c).nodes
      ensures NodeAccepted(d, w, Merge(b, c), r)
    {
      if r in b.nodes {
        EarlyNode(d, w, b, c, r);
      } else {
        LateNode(d, w, b, c, r);
      }
    }
    forall e | e in Merge(b, c).edges
      ensures EdgeAccepted(d, w, Merge(b, c), e)
    {
      if e in b.edges {
        EarlyEdge(d, w, b, c, e);
      } else {
        LateEdgeOf(d, w, b, c, e);
      }
    }
  }

  lemma LateEdgeOf(d: Description, w: Writer, b: Batch, c: Batch, e: Edge)
    requires Successive(d, w, b, c) && Adjacent(b, c) && e in c.edges
    ensures EdgeAccepted(d, w, Merge(b, c), e)
  {
    hide NodeAccepted, EdgeAccepted, TracksDisjoint, Complete, Write, WriterInv, Adjacent;
    WrittenKnown(d, w, b);
    forall r | r in c.nodes
      ensures r !in w.stage.known
    {
      AcceptedNode(d, Write(d, w, b), c, r);
    }
    LateEdge(d, w, b, c, e);
  }

  /** Writing two accepted batches in turn is writing their union: accepted, same events, same state. */
  lemma MergeLaw(d: Description, w: Writer, b: Batch, c: Batch)
    requires Successive(d, w, b, c)
    ensures Accepts(d, w, Merge(b, c))
    ensures Write(d, w, Merge(b, c)) == Write(d, Write(d, w, b), c)
  {
    MergeAccepted(d, w, b, c);
    MergeEncodes(d, w, b, c);
  }

  ghost function Early(b: Batch, cut: U64): Batch {
    Batch(cut,
          map r | r in b.nodes && b.nodes[r].cycle <= cut :: b.nodes[r],
          set e | e in b.edges && e.child in b.nodes && b.nodes[e.child].cycle <= cut)
  }

  ghost function Late(b: Batch, cut: U64): Batch {
    Batch(b.cycle,
          map r | r in b.nodes && cut < b.nodes[r].cycle :: b.nodes[r],
          set e | e in b.edges && e.child in b.nodes && cut < b.nodes[e.child].cycle)
  }

  lemma CutJoins(b: Batch, cut: U64)
    requires forall x :: x in b.edges ==> x.child in b.nodes
    ensures Early(b, cut).nodes + Late(b, cut).nodes == b.nodes
    ensures Early(b, cut).edges + Late(b, cut).edges == b.edges
  {
  }

  lemma CutAdjacent(b: Batch, cut: U64)
    requires cut < b.cycle && Causal(b.nodes, b.edges)
    requires forall x :: x in b.edges ==> x.child in b.nodes
    requires forall r :: r in b.nodes ==> b.nodes[r].cycle <= b.cycle
    ensures Adjacent(Early(b, cut), Late(b, cut))
  {
  }

  lemma CutParts(d: Description, w: Writer, b: Batch, cut: U64)
    requires Accepts(d, w, b) && cut < b.cycle
    ensures Adjacent(Early(b, cut), Late(b, cut)) && Merge(Early(b, cut), Late(b, cut)) == b
  {
    hide Accepts, Early, Adjacent;
    AcceptedCausal(d, w, b);
    forall x | x in b.edges
      ensures x.child in b.nodes
    {
      AcceptedEdge(d, w, b, x);
    }
    forall r | r in b.nodes
      ensures b.nodes[r].cycle <= b.cycle
    {
      AcceptedNode(d, w, b, r);
    }
    CutAdjacent(b, cut);
    CutJoins(b, cut);
  }

  /** A batch can be cut at any cycle boundary: both parts are accepted in turn, and nothing changes. */
  lemma CutLaw(d: Description, w: Writer, b: Batch, cut: U64)
    requires d.Valid() && WriterInv(d, w) && Accepts(d, w, b)
    requires Newer(w.watermark, cut) && cut < b.cycle
    ensures Accepts(d, w, Early(b, cut)) && Accepts(d, Write(d, w, Early(b, cut)), Late(b, cut))
    ensures Write(d, Write(d, w, Early(b, cut)), Late(b, cut)) == Write(d, w, b)
  {
    hide Accepts, Write, WriterInv, Early, Late, Merge;
    CutParts(d, w, b, cut);
    assert Early(b, cut).cycle == cut by {
      EarlyCycle(b, cut);
    }
    EarlyAccepted(d, w, Early(b, cut), Late(b, cut));
    LateAccepted(d, w, Early(b, cut), Late(b, cut));
    MergeLaw(d, w, Early(b, cut), Late(b, cut));
  }

  lemma EarlyCycle(b: Batch, cut: U64)
    ensures Early(b, cut).cycle == cut
  {
  }
}

/** Whole runs of the exporter: any sequence of write attempts, accepted or not, then `finish`. */
module History {
  import opened Options
  import opened Machine
  import opened EventModel
  import opened Worklist
  import opened Encoder
  import opened Runs
  import opened Batching
  import opened Merging

  /** A rejected batch leaves the writer exactly as it was. */
  ghost function Attempt(d: Description, w: Writer, b: Batch): Writer {
    if Accepts(d, w, b) then Write(d, w, b) else w
  }

  ghost function Feed(d: Description, bs: seq<Batch>): Writer {
    if bs == [] then FRESH else Attempt(d, Feed(d, bs[..|bs| - 1]), bs[|bs| - 1])
  }

  /** The union of the batches that were accepted. */
  ghost function Recorded(d: Description, bs: seq<Batch>): Option<Batch> {
    if bs == [] then None
    else
      var before, b := Recorded(d, bs[..|bs| - 1]), bs[|bs| - 1];
      if !Accepts(d, Feed(d, bs[..|bs| - 1]), b) then before
      else if before == None then Some(b)
      else Some(Merge(before.value, b))
  }

  ghost function RecordedNodes(d: Description, bs: seq<Batch>): map<Ref, Node> {
    if Recorded(d, bs) == None then map[] else Recorded(d, bs).value.nodes
  }

  ghost function RecordedEdges(d: Description, bs: seq<Batch>): set<Edge> {
    if Recorded(d, bs) == None then {} else Recorded(d, bs).value.edges
  }

  ghost predicate IsOneWrite(d: Description, w: Writer, u: Option<Batch>) {
    if u == None then w == FRESH
    else Accepts(d, FRESH, u.value) && w == Write(d, FRESH, u.value)
  }

  /** Any run leaves the writer as one write of everything recorded would. */
  lemma {:induction false} FeedIsOneWrite(d: Description, bs: seq<Batch>)
    requires d.Valid()
    ensures IsOneWrite(d, Feed(d, bs), Recorded(d, bs)) && WriterInv(d, Feed(d, bs))
  {
    if bs != [] {
      hide Accepts, Write, Merge, WriterInv;
      var front, b := bs[..|bs| - 1], bs[|bs| - 1];
      FeedIsOneWrite(d, front);
      if Accepts(d, Feed(d, front), b) {
        WriteKeepsInv(d, Feed(d, front), b);
        if Recorded(d, front) != None {
          FreshInv(d);
          MergeLaw(d, FRESH, Recorded(d, front).value, b);
        }
      }
    }
  }

  lemma FreshInv(d: Description)
    ensures WriterInv(d, FRESH)
  {
  }

  // ---------------------------------------------------------------- independence of grouping

  lemma FinishCloses(st: Stage, m: nat, boundary: nat, w: Option<U64>)
    requires Uniform(st.stalls, m)
    ensures Finish(Writer(Close(st, Stale(st.stalls, boundary)), w)) == Close(st, st.stalls.Keys).out
  {
    StaleUniform(st.stalls, m, boundary);
    if m < boundary {
      CloseAllEmpties(st);
      CloseNone(Close(st, st.stalls.Keys));
    } else {
      CloseNone(st);
    }
  }

  /** Only the recorded occurrences and edges matter, not the last watermark. */
  lemma FinishIgnoresWatermark(d: Description, u: Batch, v: Batch)
    requires d.Valid() && Accepts(d, FRESH, u) && Accepts(d, FRESH, v)
    requires u.nodes == v.nodes && u.edges == v.edges
    ensures Finish(Write(d, FRESH, u)) == Finish(Write(d, FRESH, v))
  {
    hide Accepts, After, Finish, Close, Order;
    FreshInv(d);
    var o := BatchOrder(u);
    var m := EncodedUniform(d, FRESH, u);
    forall r | r in o
      ensures InSpan(-1, u.cycle, u.nodes[r].cycle)
    {
      AcceptedNode(d, FRESH, u, r);
    }
    SameAfter(d, u, v, -1, u.cycle, o, FRESH.stage, |o|);
    var s := After(d, u, o, FRESH.stage, |o|);
    FinishCloses(s, m, u.cycle, Some(u.cycle));
    FinishCloses(s, m, v.cycle, Some(v.cycle));
  }

  lemma FinishEmpty(d: Description, u: Batch)
    requires u.nodes == map[]
    ensures Finish(Write(d, FRESH, u)) == Finish(FRESH)
  {
    hide Finish;
    assert BatchOrder(u) == [];
    assert Stale(FRESH.stage.stalls, u.cycle) == {};
    CloseNone(FRESH.stage);
    FinishCloses(FRESH.stage, 0, u.cycle, Some(u.cycle));
    FinishCloses(FRESH.stage, 0, 0, None);
  }

  /** The output of a finished run depends only on the occurrences and edges it recorded. How they
      were grouped into batches, and which other batches were empty or rejected, does not matter. */
  lemma BatchIndependence(d: Description, xs: seq<Batch>, ys: seq<Batch>)
    requires d.Valid()
    requires RecordedNodes(d, xs) == RecordedNodes(d, ys) && RecordedEdges(d, xs) == RecordedEdges(d, ys)
    ensures Finish(Feed(d, xs)) == Finish(Feed(d, ys))
  {
    FeedIsOneWrite(d, xs);
    FeedIsOneWrite(d, ys);
    hide Feed, Finish, Write, Accepts, WriterInv;
    var u, v := Recorded(d, xs), Recorded(d, ys);
    hide Recorded;
    if u == None && v != None {
      FinishEmpty(d, v.value);
    } else if u != None && v == None {
      FinishEmpty(d, u.value);
    } else if u != None {
      FinishIgnoresWatermark(d, u.value, v.value);
    }
  }

  // ---------------------------------------------------------------- every grouping is accepted

  ghost predicate AllAccepted(d: Description, w: Writer, bs: seq<Batch>)
    decreases |bs|
  {
    bs == [] || (Accepts(d, w, bs[0]) && AllAccepted(d, Write(d, w, bs[0]), bs[1..]))
  }

  ghost function WriteAll(d: Description, w: Writer, bs: seq<Batch>): Writer
    decreases |bs|
  {
    if bs == [] then w else WriteAll(d, Write(d, w, bs[0]), bs[1..])
  }

  ghost function Cut(b: Batch, cuts: seq<U64>): seq<Batch>
    decreases |cuts|
  {
    if cuts == [] then [b] else [Early(b, cuts[0])] + Cut(Late(b, cuts[0]), cuts[1..])
  }

  ghost predicate CutsBetween(watermark: Option<U64>, cuts: seq<U64>, cycle: U64)
    decreases |cuts|
  {
    if cuts == [] then true
    else Newer(watermark, cuts[0]) && cuts[0] < cycle && CutsBetween(Some(cuts[0]), cuts[1..], cycle)
  }

  /** An accepted batch may be delivered in any number of pieces cut at increasing cycles: every
      piece is accepted and the writer ends in the same state. */
  lemma {:induction false} AnyGroupingAccepted(d: Description, w: Writer, b: Batch, cuts: seq<U64>)
    requires d.Valid() && WriterInv(d, w) && Accepts(d, w, b) && CutsBetween(w.watermark, cuts, b.cycle)
    ensures AllAccepted(d, w, Cut(b, cuts)) && WriteAll(d, w, Cut(b, cuts)) == Write(d, w, b)
    decreases |cuts|
  {
    hide Accepts, Write, WriterInv, Early, Late;
    var pieces := Cut(b, cuts);
    if cuts == [] {
      assert AllAccepted(d, Write(d, w, b), []);
      assert pieces[1..] == [];
    } else {
      var e, l := Early(b, cuts[0]), Late(b, cuts[0]);
      CutLaw(d, w, b, cuts[0]);
      WriteKeepsInv(d, w, e);
      PieceBounds(d, w, b, cuts[0]);
      AnyGroupingAccepted(d, Write(d, w, e), l, cuts[1..]);
      assert pieces[1..] == Cut(l, cuts[1..]);
    }
  }

  lemma PieceBounds(d: Description, w: Writer, b: Batch, cut: U64)
    ensures Late(b, cut).cycle == b.cycle && Write(d, w, Early(b, cut)).watermark == Some(cut)
  {
  }

  // ---------------------------------------------------------------- flow identities

  /** Over a whole run, flow identities are 1, 2, 3, ... in the order of emission. */
  lemma FlowIdentities(d: Description, bs: seq<Batch>)
    requires d.Valid() && Recorded(d, bs) != None
    ensures var u, known := Recorded(d, bs).value, Feed(d, bs).stage.known;
      && known.Keys == u.nodes.Keys
      && |BatchOrder(u)| == |known|
      && forall i :: 0 <= i < |BatchOrder(u)| ==>
           BatchOrder(u)[i] in known && known[BatchOrder(u)[i]].id == i + 1
  {
    hide Feed, Recorded, Accepts, Write, WriterInv, BatchOrder;
    FeedIsOneWrite(d, bs);
    WrittenInOrder(d, Recorded(d, bs).value);
  }

  lemma WrittenInOrder(d: Description, u: Batch)
    requires d.Valid() && Accepts(d, FRESH, u)
    ensures var known := Write(d, FRESH, u).stage.known;
      && known.Keys == u.nodes.Keys
      && |BatchOrder(u)| == |known|
      && forall i :: 0 <= i < |BatchOrder(u)| ==>
           BatchOrder(u)[i] in known && known[BatchOrder(u)[i]].id == i + 1
  {
    hide Accepts, Write, WriterInv, BatchOrder;
    WrittenIdentified(d, FRESH, u);
    WrittenKnown(d, FRESH, u);
    AcceptedLength(d, FRESH, u);
  }
}

/** Sequences of settled batches as the collector may hand them out, and what they add up to. */
module Streams {
  import opened Options
  import opened Machine
  import opened EventModel
  import opened Encoder

  /** What the collector keeps of a manifest. */
  datatype Manifest = Manifest(widths: seq<nat>, dependencies: set<(nat, nat)>)

  ghost predicate NodeValid(m: Manifest, r: Ref, node: Node) {
    r.site < |m.widths| && node.present && node.width == m.widths[r.site] && PayloadComplete(node)
  }

  ghost predicate EdgeValid(m: Manifest, all: map<Ref, Node>, e: Edge) {
    && e.parent in all && e.child in all
    && (e.parent.site, e.child.site) in m.dependencies
    && all[e.parent].cycle <= all[e.child].cycle
  }

  ghost predicate EntriesValid(m: Manifest, nodes: map<Ref, Node>, edges: set<Edge>, all: map<Ref, Node>) {
    && (forall r :: r in nodes ==> NodeValid(m, r, nodes[r]))
    && (forall e :: e in edges ==> EdgeValid(m, all, e))
  }

  ghost function AllNodes(bs: seq<Batch>): map<Ref, Node> {
    if bs == [] then map[] else AllNodes(bs[..|bs| - 1]) + bs[|bs| - 1].nodes
  }

  ghost function AllEdges(bs: seq<Batch>): set<Edge> {
    if bs == [] then {} else AllEdges(bs[..|bs| - 1]) + bs[|bs| - 1].edges
  }

  ghost function LastCycle(bs: seq<Batch>): Option<U64> {
    if bs == [] then None else Some(bs[|bs| - 1].cycle)
  }

  /** `b` may follow `before`: later cycles only, new occurrences only, edges of new children only,
      every entry valid against everything handed out so far. */
  ghost predicate Extending(m: Manifest, before: seq<Batch>, b: Batch) {
    && Newer(LastCycle(before), b.cycle)
    && (forall r :: r in b.nodes ==> b.nodes[r].cycle <= b.cycle && Newer(LastCycle(before), b.nodes[r].cycle))
    && b.nodes.Keys !! AllNodes(before).Keys
    && (forall e :: e in b.edges ==> e.child in b.nodes)
    && EntriesValid(m, b.nodes, b.edges, AllNodes(before) + b.nodes)
  }

  ghost predicate Streamed(m: Manifest, bs: seq<Batch>) {
    bs == [] || (Streamed(m, bs[..|bs| - 1]) && Extending(m, bs[..|bs| - 1], bs[|bs| - 1]))
  }

  // ---------------------------------------------------------------- conservation

  lemma {:induction false} InAllNodes(bs: seq<Batch>, r: Ref)
    ensures r in AllNodes(bs) <==> exists i :: 0 <= i < |bs| && r in bs[i].nodes
  {
    if bs != [] {
      var front := bs[..|bs| - 1];
      InAllNodes(front, r);
      forall i | 0 <= i < |bs|
        ensures bs[i] == if i < |front| then front[i] else bs[|bs| - 1]
      {
      }
    }
  }

  /** The batch that holds an occurrence is the only one, and its node there is the final one. */
  lemma {:induction false} OneBatchEach(m: Manifest, bs: seq<Batch>, i: nat, r: Ref)
    requires Streamed(m, bs) && i < |bs| && r in bs[i].nodes
    ensures r in AllNodes(bs) && AllNodes(bs)[r] == bs[i].nodes[r]
    ensures forall j :: 0 <= j < |bs| && r in bs[j].nodes ==> j == i
  {
    var front, last := bs[..|bs| - 1], bs[|bs| - 1];
    if i < |front| {
      assert front[i] == bs[i];
      OneBatchEach(m, front, i, r);
      forall j | 0 <= j < |bs| && r in bs[j].nodes
        ensures j == i
      {
        assert j < |front| ==> front[j] == bs[j];
      }
    } else {
      forall j | 0 <= j < |front|
        ensures r !in bs[j].nodes
      {
        InAllNodes(front, r);
        assert front[j] == bs[j];
      }
    }
  }

  lemma {:induction false} EdgeChildren(m: Manifest, bs: seq<Batch>)
    requires Streamed(m, bs)
    ensures forall e :: e in AllEdges(bs) ==> e.child in AllNodes(bs)
  {
    if bs != [] {
      EdgeChildren(m, bs[..|bs| - 1]);
    }
  }

  lemma {:induction false} OneBatchEachEdge(m: Manifest, bs: seq<Batch>, i: nat, e: Edge)
    requires Streamed(m, bs) && i < |bs| && e in bs[i].edges
    ensures e in AllEdges(bs) && e.child in bs[i].nodes
    ensures forall j :: 0 <= j < |bs| && e in bs[j].edges ==> j == i
  {
    BatchEdges(m, bs, i, e);
    forall j | 0 <= j < |bs| && e in bs[j].edges
      ensures j == i
    {
      BatchEdges(m, bs, j, e);
      OneBatchEach(m, bs, i, e.child);
    }
  }

  lemma {:induction false} BatchEdges(m: Manifest, bs: seq<Batch>, i: nat, e: Edge)
    requires Streamed(m, bs) && i < |bs| && e in bs[i].edges
    ensures e in AllEdges(bs) && e.child in bs[i].nodes
  {
    var front := bs[..|bs| - 1];
    if i < |front| {
      assert front[i] == bs[i];
      BatchEdges(m, front, i, e);
    }
  }

  /** Cycles of successive batches lie in disjoint increasing intervals. */
  lemma {:induction false} CyclesIncrease(m: Manifest, bs: seq<Batch>, i: nat, j: nat)
    requires Streamed(m, bs) && i < j < |bs|
    ensures bs[i].cycle < bs[j].cycle
    ensures forall r :: r in bs[j].nodes ==> bs[i].cycle < bs[j].nodes[r].cycle <= bs[j].cycle
    decreases |bs|
  {
    var front := bs[..|bs| - 1];
    if j < |front| {
      assert front[i] == bs[i] && front[j] == bs[j];
      CyclesIncrease(m, front, i, j);
    } else if i < |front| - 1 {
      assert front[i] == bs[i] && front[|front| - 1] == bs[|bs| - 2];
      CyclesIncrease(m, front, i, |front| - 1);
    }
  }

  lemma ValidAppend(m: Manifest, nodes: map<Ref, Node>, edges: set<Edge>, b: Batch)
    requires EntriesValid(m, nodes, edges, nodes) && EntriesValid(m, b.nodes, b.edges, nodes + b.nodes)
    requires nodes.Keys !! b.nodes.Keys
    ensures EntriesValid(m, nodes + b.nodes, edges + b.edges, nodes + b.nodes)
  {
    hide NodeValid;
    forall e | e in edges
      ensures EdgeValid(m, nodes + b.nodes, e)
    {
      assert EdgeValid(m, nodes, e);
      assert e.parent !in b.nodes && e.child !in b.nodes;
    }
  }

  /** Checking each batch against what came before is checking the whole graph. */
  lemma {:induction false} BatchesValidateWhole(m: Manifest, bs: seq<Batch>)
    requires Streamed(m, bs)
    ensures EntriesValid(m, AllNodes(bs), AllEdges(bs), AllNodes(bs))
  {
    if bs != [] {
      BatchesValidateWhole(m, bs[..|bs| - 1]);
      ValidAppend(m, AllNodes(bs[..|bs| - 1]), AllEdges(bs[..|bs| - 1]), bs[|bs| - 1]);
    }
  }
}

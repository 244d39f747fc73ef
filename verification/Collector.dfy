/** The event graph that simulator callbacks fill in any order, and its settled-cycle stream. */
module Collector {
  import opened Options
  import opened Machine
  import opened EventModel
  import opened Encoder
  import opened Streams

  ghost const BLANK := Node(false, 0, 0, map[])

  class Graph {
    const manifest: Manifest
    var nodes: map<Ref, Node>
    var edges: set<Edge>
    /** The bound clock frequency, and whether anything has happened yet. */
    var timing: Option<U64>
    var started: bool
    var streaming: bool
    var finishedCycle: Option<U64>
    var pendingNodes: set<Ref>
    var pendingEdges: set<Edge>
    /** The batches handed out by the current stream. */
    ghost var batches: seq<Batch>

    /** While streaming, the graph is what was handed out plus what is pending. */
    ghost predicate Valid()
      reads this
    {
      && (timing.Some? ==> 0 < timing.value) && (streaming ==> started && timing.Some?)
      && if streaming then
        && Streamed(manifest, batches) && finishedCycle == LastCycle(batches)
        && pendingNodes <= nodes.Keys && pendingEdges <= edges
        && nodes - pendingNodes == AllNodes(batches)
        && edges - pendingEdges == AllEdges(batches) && pendingEdges !! AllEdges(batches)
      else
        pendingNodes == {} && pendingEdges == {} && batches == [] && finishedCycle == None
    }

    constructor (m: Manifest)
      ensures Valid() && manifest == m && nodes == map[] && edges == {} && !streaming && !started && timing == None
    {
      manifest, timing, started := m, None, false;
      nodes, edges, streaming, finishedCycle, pendingNodes, pendingEdges := map[], {}, false, None, {}, {};
      batches := [];
    }

    /** Binds the clock once, before anything else happens. */
    method BindTiming(frequency: U64) returns (ok: bool)
      requires Valid()
      modifies this`timing
      ensures Valid()
      ensures ok <==> old(timing) == None && !started && nodes == map[] && edges == {} && 0 < frequency
      ensures timing == if ok then Some(frequency) else old(timing)
    {
      ok := timing == None && !started && nodes == map[] && edges == {} && 0 < frequency;
      if ok {
        timing := Some(frequency);
      }
    }

    /** Starts exactly on an empty graph with a bound clock; the header it returns is that empty graph. */
    method BeginStream() returns (ok: bool)
      requires Valid()
      modifies this`streaming, this`started, this`finishedCycle
      ensures Valid()
      ensures ok <==> !old(streaming) && nodes == map[] && edges == {} && timing.Some?
      ensures ok ==> streaming && started && batches == []
      ensures !ok ==> streaming == old(streaming) && started == old(started)
      ensures ok ==> EntriesValid(manifest, nodes, edges, nodes)
    {
      ok := !streaming && nodes == map[] && edges == {} && timing.Some?;
      if ok {
        streaming, started, finishedCycle := true, true, None;
        assert nodes - pendingNodes == map[];
      }
    }

    /** A node callback: refused once its cycle has been streamed or its identity is taken. */
    method RecordNode(r: Ref, cycle: U64, width: nat) returns (ok: bool)
      requires Valid()
      modifies this`nodes, this`pendingNodes, this`started
      ensures Valid() && (ok ==> started)
      ensures ok <==> !(streaming && !Newer(LastCycle(batches), cycle)) && !(r in old(nodes) && old(nodes)[r].present)
      ensures nodes == if ok then
                old(nodes)[r := Node(true, cycle, width, if r in old(nodes) then old(nodes)[r].words else map[])]
              else old(nodes)
      ensures pendingNodes == if ok && streaming then old(pendingNodes) + {r} else old(pendingNodes)
    {
      if streaming && finishedCycle != None && cycle <= finishedCycle.value {
        return false;
      }
      started := true;
      var node := if r in nodes then nodes[r] else Node(false, 0, 0, map[]);
      if node.present {
        return false;
      }
      if streaming && r in nodes && r !in pendingNodes {
        SettledIsPresent(r);
      }
      nodes := nodes[r := node.(present := true, cycle := cycle, width := width)];
      if streaming {
        pendingNodes := pendingNodes + {r};
        assert nodes - pendingNodes == old(nodes) - old(pendingNodes);
      }
      ok := true;
    }

    /** A payload callback: refused for a streamed occurrence or a word already given. */
    method RecordPayload(r: Ref, index: nat, word: U32) returns (ok: bool)
      requires Valid()
      modifies this`nodes, this`pendingNodes, this`started
      ensures Valid() && (ok ==> started)
      ensures ok <==> !(streaming && r in AllNodes(batches)) && !(r in old(nodes) && index in old(nodes)[r].words)
      ensures nodes == if ok then
                (var node := if r in old(nodes) then old(nodes)[r] else BLANK;
                 old(nodes)[r := node.(words := node.words[index := word])])
              else old(nodes)
      ensures pendingNodes == if ok && streaming then old(pendingNodes) + {r} else old(pendingNodes)
    {
      SettledIffStreamed(r);
      hide AllNodes, AllEdges, Streamed;
      if streaming && r in nodes && nodes[r].present && r !in pendingNodes {
        return false;
      }
      started := true;
      var node := if r in nodes then nodes[r] else Node(false, 0, 0, map[]);
      if index in node.words {
        return false;
      }
      nodes := nodes[r := node.(words := node.words[index := word])];
      if streaming {
        pendingNodes := pendingNodes + {r};
        assert nodes - pendingNodes == old(nodes) - old(pendingNodes);
      }
      ok := true;
    }

    /** An edge callback: refused once its child has been streamed. */
    method RecordEdge(parent: Ref, child: Ref) returns (ok: bool)
      requires Valid()
      modifies this`edges, this`pendingEdges, this`started
      ensures Valid() && (ok ==> started)
      ensures ok <==> !(streaming && child in AllNodes(batches))
      ensures edges == if ok then old(edges) + {Edge(parent, child)} else old(edges)
      ensures pendingEdges == if ok && streaming then old(pendingEdges) + {Edge(parent, child)} else old(pendingEdges)
    {
      SettledIffStreamed(child);
      if streaming && child in nodes && nodes[child].present && child !in pendingNodes {
        return false;
      }
      started := true;
      if streaming {
        EdgeChildren(manifest, batches);
        pendingEdges := pendingEdges + {Edge(parent, child)};
      }
      edges := edges + {Edge(parent, child)};
      ok := true;
    }

    /** The pending entries may be handed out as the batch of `cycle`. */
    ghost predicate Settled(cycle: U64)
      reads this
    {
      && (forall r :: r in pendingNodes ==>
           r in nodes && nodes[r].present && nodes[r].cycle <= cycle && Newer(finishedCycle, nodes[r].cycle))
      && (forall e :: e in pendingEdges ==> e.child in pendingNodes)
      && (forall r :: r in pendingNodes ==> r in nodes && NodeValid(manifest, r, nodes[r]))
      && (forall e :: e in pendingEdges ==> EdgeValid(manifest, nodes, e))
    }

    /** Hands out everything recorded since the last batch, if it is settled; otherwise nothing changes
        and the callbacks may continue. */
    method FinishCycle(cycle: U64) returns (batch: Option<Batch>)
      requires Valid()
      modifies this`pendingNodes, this`pendingEdges, this`finishedCycle, this`batches
      ensures Valid()
      ensures batch.Some? <==> streaming && Newer(old(finishedCycle), cycle) && old(Settled(cycle))
      ensures batch.None? ==>
        batches == old(batches) && pendingNodes == old(pendingNodes) && pendingEdges == old(pendingEdges)
      ensures batch.Some? ==> batches == old(batches) + [batch.value] && pendingNodes == {} && pendingEdges == {}
      ensures batch.Some? ==> batch.value.cycle == cycle && batch.value.edges == old(pendingEdges)
      ensures batch.Some? ==> batch.value.nodes.Keys == old(pendingNodes) && forall r :: r in batch.value.nodes ==>
        batch.value.nodes[r] == nodes[r]
    {
      hide Settled, Extending, Streamed, AllNodes, AllEdges;
      if !streaming || (finishedCycle.Some? && cycle <= finishedCycle.value) {
        return None;
      }
      var ready := CheckPending(cycle);
      if !ready {
        return None;
      }
      var b := Batch(cycle, map r | r in pendingNodes :: nodes[r], pendingEdges);
      BatchFollows(b);
      StreamGrows(manifest, batches, b);
      assert edges == AllEdges(batches) + b.edges;
      pendingNodes, pendingEdges, finishedCycle := {}, {}, Some(cycle);
      batches := batches + [b];
      batch := Some(b);
    }

    method CheckPending(cycle: U64) returns (ok: bool)
      requires Valid() && streaming
      ensures ok <==> Settled(cycle)
    {
      var todo := pendingNodes;
      while todo != {}
        invariant todo <= pendingNodes
        invariant forall r :: r in pendingNodes - todo ==>
          r in nodes && nodes[r].present && nodes[r].cycle <= cycle && Newer(finishedCycle, nodes[r].cycle) &&
            NodeValid(manifest, r, nodes[r])
        decreases todo
      {
        var r :| r in todo;
        var node := nodes[r];
        if !node.present || node.cycle > cycle || (finishedCycle.Some? && node.cycle <= finishedCycle.value) {
          return false;
        }
        var complete := CheckPayload(node);
        if r.site >= |manifest.widths| || node.width != manifest.widths[r.site] || !complete {
          return false;
        }
        todo := todo - {r};
      }
      var edgesLeft := pendingEdges;
      while edgesLeft != {}
        invariant edgesLeft <= pendingEdges
        invariant forall e :: e in pendingEdges - edgesLeft ==> e.child in pendingNodes && EdgeValid(manifest, nodes, e)
        decreases edgesLeft
      {
        var e :| e in edgesLeft;
        if e.child !in pendingNodes || e.parent !in nodes || e.child !in nodes ||
           (e.parent.site, e.child.site) !in manifest.dependencies || nodes[e.parent].cycle > nodes[e.child].cycle {
          return false;
        }
        edgesLeft := edgesLeft - {e};
      }
      ok := true;
    }

    /** Ends the stream once nothing is pending. Then the batches together were the whole graph, and
        checking them one by one has checked all of it. */
    method EndStream() returns (ok: bool)
      requires Valid()
      modifies this`streaming, this`finishedCycle, this`batches
      ensures Valid()
      ensures ok <==> old(streaming) && old(pendingNodes) == {} && old(pendingEdges) == {}
      ensures ok ==> !streaming && nodes == AllNodes(old(batches)) && edges == AllEdges(old(batches))
      ensures ok ==> Streamed(manifest, old(batches)) && EntriesValid(manifest, nodes, edges, nodes)
      ensures !ok ==> streaming == old(streaming) && batches == old(batches)
    {
      if !streaming || pendingNodes != {} || pendingEdges != {} {
        return false;
      }
      BatchesValidateWhole(manifest, batches);
      assert nodes - {} == nodes && edges - {} == edges;
      streaming, finishedCycle, batches := false, None, [];
      ok := true;
    }

    lemma BatchFollows(b: Batch)
      requires Valid() && streaming && Newer(finishedCycle, b.cycle) && Settled(b.cycle)
      requires b.nodes == (map r | r in pendingNodes :: nodes[r]) && b.edges == pendingEdges
      ensures Extending(manifest, batches, b) && AllNodes(batches) + b.nodes == nodes
    {
      hide Streamed, NodeValid;
      assert AllNodes(batches) + b.nodes == nodes by {
        forall r
          ensures r in AllNodes(batches) <==> r in nodes && r !in pendingNodes
          ensures r in AllNodes(batches) ==> AllNodes(batches)[r] == nodes[r]
        {
          assert r in AllNodes(batches) <==> r in nodes - pendingNodes;
        }
      }
    }

    /** Every occurrence handed out is complete, so one that is not complete is still pending. */
    lemma SettledIsPresent(r: Ref)
      requires Valid() && streaming && r in nodes && r !in pendingNodes
      ensures nodes[r].present && r in AllNodes(batches)
    {
      BatchesValidateWhole(manifest, batches);
      assert r in nodes - pendingNodes;
      assert NodeValid(manifest, r, AllNodes(batches)[r]);
    }

    lemma SettledIffStreamed(r: Ref)
      requires Valid()
      ensures streaming ==> (r in AllNodes(batches) <==> r in nodes && nodes[r].present && r !in pendingNodes)
    {
      if streaming {
        assert r in AllNodes(batches) <==> r in nodes - pendingNodes;
        if r in nodes && r !in pendingNodes {
          SettledIsPresent(r);
        }
      }
    }
  }

  lemma StreamGrows(m: Manifest, bs: seq<Batch>, b: Batch)
    requires Streamed(m, bs) && Extending(m, bs, b)
    ensures Streamed(m, bs + [b]) && LastCycle(bs + [b]) == Some(b.cycle)
    ensures AllNodes(bs + [b]) == AllNodes(bs) + b.nodes && AllEdges(bs + [b]) == AllEdges(bs) + b.edges
  {
    hide Extending;
    assert (bs + [b])[..|bs|] == bs;
  }
}

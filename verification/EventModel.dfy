/** Event occurrences, settled batches and the site table they are checked against. */
module EventModel {
  import opened Machine
  import opened Ordering

  datatype Ref = Ref(site: nat, sequence: U64)

  datatype Node = Node(present: bool, cycle: U64, width: nat, words: map<nat, U32>)

  datatype Edge = Edge(parent: Ref, child: Ref)

  datatype Batch = Batch(cycle: U64, nodes: map<Ref, Node>, edges: set<Edge>)

  /** What the exporter keeps of a manifest: the track of each site, which sites are stall
      observations, which tracks are shared, payload widths and permitted dependencies. */
  datatype Description = Description(
    tracks: seq<nat>,
    stalls: seq<bool>,
    shared: seq<bool>,
    widths: seq<nat>,
    dependencies: set<(nat, nat)>,
    frequency: U64)
  {
    ghost predicate Valid() {
      && |tracks| == |stalls| == |shared| == |widths|
      && 0 < frequency
      && (forall s :: 0 <= s < |tracks| ==>
            && 0 <= tracks[s] < |tracks|
            && (if stalls[s] then shared[tracks[s]] && !stalls[tracks[s]] else tracks[s] == s))
      && (forall e :: e in dependencies ==> e.0 < |tracks| && e.1 < |tracks| && !stalls[e.0])
    }
  }

  function RefKey(r: Ref): Key {
    Key(0, r.site, r.sequence)
  }

  function KeyRef(k: Key): Ref
    requires k.c <= U64_MAX
  {
    Ref(k.b, k.c)
  }

  ghost function Parents(edges: set<Edge>, child: Ref): set<Ref> {
    set e | e in edges && e.child == child :: e.parent
  }

  lemma ParentsMember(edges: set<Edge>, parent: Ref, child: Ref)
    ensures parent in Parents(edges, child) <==> Edge(parent, child) in edges
  {
  }
}

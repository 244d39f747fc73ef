/** Reading the event stream back: a decoder that pairs begins with ends, resolves arrows through
    flow starts, and refuses anything a viewer could not display. */
module Decoding {
  import opened Machine
  import opened EventModel
  import opened Encoder

  /** A closed slice: `length` occurrences with consecutive sequences and cycles, all with the same
      captured words and parents. */
  datatype Interval = Interval(ref: Ref, cycle: nat, words: map<nat, U32>, parents: set<Ref>, length: nat)

  datatype Decoder =
    | Broken
    | Decoder(open: map<nat, Interval>, ids: map<nat, Ref>, ends: map<nat, nat>, done: seq<Interval>)

  ghost const EMPTY := Decoder(map[], map[], map[], [])

  ghost predicate Shared(d: Description, t: nat) {
    t < |d.shared| && d.shared[t]
  }

  ghost function Step(d: Description, dec: Decoder, e: Event): Decoder {
    if dec.Broken? then Broken else
    match e
    case Begin(t, c, r, node) =>
      // One open slice a track, and no time travel on a track that two sites share.
      if t in dec.open || (Shared(d, t) && t in dec.ends && c < dec.ends[t]) then Broken
      else dec.(open := dec.open[t := Interval(r, c, node.words, {}, 0)])
    case FlowEnd(t, c, id) =>
      // The arrow must land on the slice just begun and come from a start already seen, once.
      if t !in dec.open || dec.open[t].cycle != c || id !in dec.ids || dec.ids[id] in dec.open[t].parents then Broken
      else dec.(open := dec.open[t := dec.open[t].(parents := dec.open[t].parents + {dec.ids[id]})])
    case FlowStart(t, c, id) =>
      if t !in dec.open || dec.open[t].cycle != c || id in dec.ids then Broken
      else dec.(ids := dec.ids[id := dec.open[t].ref])
    case End(t, c) =>
      if t !in dec.open || c <= dec.open[t].cycle then Broken
      else dec.(open := dec.open - {t}, ends := dec.ends[t := c],
                done := dec.done + [dec.open[t].(length := c - dec.open[t].cycle)])
  }

  ghost function Decode(d: Description, dec: Decoder, es: seq<Event>): Decoder
    decreases |es|
  {
    if es == [] then dec else Decode(d, Step(d, dec, es[0]), es[1..])
  }

  lemma {:induction false} DecodeConcat(d: Description, dec: Decoder, a: seq<Event>, b: seq<Event>)
    ensures Decode(d, dec, a + b) == Decode(d, Decode(d, dec, a), b)
    decreases |a|
  {
    hide Step;
    if a == [] {
      assert a + b == b;
    } else {
      DecodeConcat(d, Step(d, dec, a[0]), a[1..], b);
      assert (a + b)[0] == a[0] && (a + b)[1..] == a[1..] + b;
    }
  }

  ghost predicate Spans(iv: Interval, r: Ref) {
    r.site == iv.ref.site && iv.ref.sequence <= r.sequence < iv.ref.sequence + iv.length
  }

  /** Every occurrence the interval stands for was taken, at the right cycle, with these captured
      words and exactly these parents. */
  ghost predicate Faithful(nodes: map<Ref, Node>, edges: set<Edge>, taken: set<Ref>, iv: Interval) {
    && 0 < iv.length && iv.ref.sequence + iv.length - 1 <= U64_MAX
    && forall r :: Spans(iv, r) ==>
         && r in taken && r in nodes
         && nodes[r].cycle == iv.cycle + (r.sequence - iv.ref.sequence)
         && nodes[r].words == iv.words
         && Parents(edges, r) == iv.parents
  }

  /** The intervals are exactly the occurrences: all faithful, every occurrence in one and only one. */
  ghost predicate Expands(nodes: map<Ref, Node>, edges: set<Edge>, done: seq<Interval>) {
    && (forall i :: 0 <= i < |done| ==> Faithful(nodes, edges, nodes.Keys, done[i]))
    && (forall r :: r in nodes ==> exists i :: 0 <= i < |done| && Spans(done[i], r))
    && (forall i, j, r :: 0 <= i < j < |done| && Spans(done[i], r) ==> !Spans(done[j], r))
  }
}

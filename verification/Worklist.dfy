/** The order in which a batch is emitted: repeatedly the least (cycle, reference) pair whose
    parents in the batch have all been taken. */
module Worklist {
  import opened Collections
  import opened Ordering
  import opened Machine
  import opened EventModel

  function NodeKey(nodes: map<Ref, Node>, r: Ref): Key
    requires r in nodes
  {
    Key(nodes[r].cycle, r.site, r.sequence)
  }

  /** No parent of `r` is still waiting. */
  ghost predicate Unblocked(edges: set<Edge>, left: set<Ref>, r: Ref) {
    forall p :: p in left ==> Edge(p, r) !in edges
  }

  ghost function Ready(nodes: map<Ref, Node>, edges: set<Edge>, left: set<Ref>): set<Key>
    requires left <= nodes.Keys
  {
    set r | r in left && Unblocked(edges, left, r) :: NodeKey(nodes, r)
  }

  lemma ReadyMember(nodes: map<Ref, Node>, edges: set<Edge>, left: set<Ref>, r: Ref)
    requires left <= nodes.Keys && r in nodes
    ensures NodeKey(nodes, r) in Ready(nodes, edges, left) <==> r in left && Unblocked(edges, left, r)
  {
  }

  ghost function First(nodes: map<Ref, Node>, edges: set<Edge>, left: set<Ref>): (r: Ref)
    requires left <= nodes.Keys && Ready(nodes, edges, left) != {}
    ensures r in left && Unblocked(edges, left, r)
    ensures NodeKey(nodes, r) == Min(Ready(nodes, edges, left))
  {
    KeyRef(Min(Ready(nodes, edges, left)))
  }

  ghost function Order(nodes: map<Ref, Node>, edges: set<Edge>, left: set<Ref>): seq<Ref>
    requires left <= nodes.Keys
    decreases |left|
  {
    if Ready(nodes, edges, left) == {} then
      []
    else
      var r := First(nodes, edges, left);
      [r] + Order(nodes, edges, left - {r})
  }

  /** The order takes everything that was left. */
  ghost predicate Complete(nodes: map<Ref, Node>, edges: set<Edge>, left: set<Ref>)
    requires left <= nodes.Keys
  {
    |Order(nodes, edges, left)| == |left|
  }

  ghost predicate Causal(nodes: map<Ref, Node>, edges: set<Edge>) {
    forall e :: e in edges && e.parent in nodes && e.child in nodes ==>
      nodes[e.parent].cycle <= nodes[e.child].cycle
  }

  /** Nonempty, and every member waits for another member (or itself). */
  ghost predicate Stuck(edges: set<Edge>, s: set<Ref>) {
    s != {} && forall r {:trigger Unblocked(edges, s, r)} :: r in s ==> !Unblocked(edges, s, r)
  }

  lemma {:induction false} OrderElements(nodes: map<Ref, Node>, edges: set<Edge>, left: set<Ref>)
    requires left <= nodes.Keys
    ensures var o := Order(nodes, edges, left);
      && (forall r :: r in o ==> r in left)
      && (forall i, j :: 0 <= i < j < |o| ==> o[i] != o[j])
      && |o| <= |left|
    decreases |left|
  {
    if Ready(nodes, edges, left) != {} {
      var r := First(nodes, edges, left);
      OrderElements(nodes, edges, left - {r});
    }
  }

  lemma SubsetOfSameSize<T>(a: set<T>, b: set<T>)
    requires a <= b && |a| == |b|
    ensures a == b
  {
    assert b == a + (b - a);
    assert |b - a| == 0;
  }

  lemma {:induction false} DistinctLength<T>(o: seq<T>)
    requires forall i, j :: 0 <= i < j < |o| ==> o[i] != o[j]
    ensures |(set x | x in o)| == |o|
  {
    if o != [] {
      var rest := o[1..];
      DistinctLength(rest);
      assert (set x | x in o) == (set x | x in rest) + {o[0]};
    }
  }

  /** A complete order is a permutation of the batch. */
  lemma CompleteTakesAll(nodes: map<Ref, Node>, edges: set<Edge>, left: set<Ref>)
    requires left <= nodes.Keys
    ensures Complete(nodes, edges, left) <==> forall r :: r in left ==> r in Order(nodes, edges, left)
  {
    var o := Order(nodes, edges, left);
    OrderElements(nodes, edges, left);
    DistinctLength(o);
    var taken := set r | r in o;
    assert taken <= left;
    if |o| == |left| {
      SubsetOfSameSize(taken, left);
    }
    assert (forall r :: r in left ==> r in o) ==> left <= taken;
  }

  /** An occurrence comes after another with a larger cycle, site or sequence number, compared in that
      order, only if it had to wait for a parent taken in between. */
  lemma {:induction false} LeastFirst(nodes: map<Ref, Node>, edges: set<Edge>, left: set<Ref>, i: nat, j: nat)
    requires left <= nodes.Keys && i < j < |Order(nodes, edges, left)|
    ensures var o := Order(nodes, edges, left); var x, y := o[i], o[j];
      && x in nodes && y in nodes
      && (nodes[x].cycle < nodes[y].cycle
          || (nodes[x].cycle == nodes[y].cycle
              && (x.site < y.site || (x.site == y.site && x.sequence < y.sequence)))
          || exists k :: i <= k < j && Edge(o[k], y) in edges)
    decreases i
  {
    OrderElements(nodes, edges, left);
    var o, r := Order(nodes, edges, left), First(nodes, edges, left);
    var tail := Order(nodes, edges, left - {r});
    assert o == [r] + tail;
    if 0 < i {
      LeastFirst(nodes, edges, left - {r}, i - 1, j - 1);
      if k :| i - 1 <= k < j - 1 && Edge(tail[k], tail[j - 1]) in edges {
        assert o[k + 1] == tail[k];
      }
    } else if Unblocked(edges, left, o[j]) {
      ReadyMember(nodes, edges, left, o[j]);
    } else {
      var p :| p in left && Edge(p, o[j]) in edges;
      ParentsFirst(nodes, edges, left, j, p);
      var k :| 0 <= k < j && o[k] == p;
    }
  }

  /** In a complete order every parent that was left comes before its child. */
  lemma {:induction false} ParentsFirst(nodes: map<Ref, Node>, edges: set<Edge>, left: set<Ref>, i: nat, p: Ref)
    requires left <= nodes.Keys
    requires i < |Order(nodes, edges, left)|
    requires p in left && Edge(p, Order(nodes, edges, left)[i]) in edges
    ensures p in Order(nodes, edges, left)[..i]
    decreases |left|
  {
    var r := First(nodes, edges, left);
    var tail := Order(nodes, edges, left - {r});
    var o := Order(nodes, edges, left);
    assert o == [r] + tail;
    assert i > 0;
    assert o[..i] == [r] + tail[..i - 1];
    if p != r {
      ParentsFirst(nodes, edges, left - {r}, i - 1, p);
    }
  }

  /** Cycles never decrease along the order. */
  lemma {:induction false} OrderByCycle(nodes: map<Ref, Node>, edges: set<Edge>, left: set<Ref>, bound: nat)
    requires left <= nodes.Keys && Causal(nodes, edges)
    requires forall k :: k in Ready(nodes, edges, left) ==> bound <= k.a
    ensures var o := Order(nodes, edges, left);
      && (forall r :: r in o ==> r in nodes && bound <= nodes[r].cycle)
      && (forall i, j :: 0 <= i < j < |o| ==> o[i] in nodes && o[j] in nodes && nodes[o[i]].cycle <= nodes[o[j]].cycle)
    decreases |left|
  {
    var ready := Ready(nodes, edges, left);
    if ready != {} {
      var r := First(nodes, edges, left);
      var rest := left - {r};
      forall k | k in Ready(nodes, edges, rest)
        ensures nodes[r].cycle <= k.a
      {
        var c :| c in rest && Unblocked(edges, rest, c) && k == NodeKey(nodes, c);
        if Unblocked(edges, left, c) {
          assert k in ready;
        } else {
          assert Edge(r, c) in edges;
        }
      }
      OrderByCycle(nodes, edges, rest, nodes[r].cycle);
      var tail := Order(nodes, edges, rest);
      assert Order(nodes, edges, left) == [r] + tail;
    }
  }

  /** Members of a stuck set are never taken. */
  lemma {:induction false} StuckNeverTaken(nodes: map<Ref, Node>, edges: set<Edge>, left: set<Ref>, s: set<Ref>)
    requires left <= nodes.Keys && s <= left && Stuck(edges, s)
    ensures forall r :: r in Order(nodes, edges, left) ==> r !in s
    decreases |left|
  {
    if Ready(nodes, edges, left) != {} {
      var r := First(nodes, edges, left);
      assert Unblocked(edges, s, r);
      StuckNeverTaken(nodes, edges, left - {r}, s);
    }
  }

  /** What an incomplete order leaves behind is stuck. */
  lemma {:induction false} LeftoverIsStuck(nodes: map<Ref, Node>, edges: set<Edge>, left: set<Ref>)
    returns (s: set<Ref>)
    requires left <= nodes.Keys && !Complete(nodes, edges, left)
    ensures s <= left && Stuck(edges, s)
    decreases |left|
  {
    if Ready(nodes, edges, left) == {} {
      s := left;
      forall r | r in s
        ensures !Unblocked(edges, s, r)
      {
        ReadyMember(nodes, edges, left, r);
      }
    } else {
      var r := First(nodes, edges, left);
      s := LeftoverIsStuck(nodes, edges, left - {r});
    }
  }

  lemma CompleteIffNotStuck(nodes: map<Ref, Node>, edges: set<Edge>, left: set<Ref>)
    requires left <= nodes.Keys
    ensures Complete(nodes, edges, left) <==> !exists s :: s <= left && Stuck(edges, s)
  {
    CompleteTakesAll(nodes, edges, left);
    if Complete(nodes, edges, left) {
      forall s | s <= left && Stuck(edges, s)
        ensures false
      {
        StuckNeverTaken(nodes, edges, left, s);
      }
    } else {
      var s := LeftoverIsStuck(nodes, edges, left);
    }
  }

  /** A closed walk of dependencies. */
  ghost predicate Cycle(edges: set<Edge>, walk: seq<Ref>) {
    |walk| > 1 && walk[0] == walk[|walk| - 1] &&
    forall i :: 0 <= i < |walk| - 1 ==> Edge(walk[i], walk[i + 1]) in edges
  }

  /** A walk of any length backwards through parents that stay in a stuck set. */
  lemma {:induction false} WalkBack(edges: set<Edge>, s: set<Ref>, n: nat) returns (walk: seq<Ref>)
    requires Stuck(edges, s)
    ensures |walk| == n + 1 && forall i :: 0 <= i <= n ==> walk[i] in s
    ensures forall i :: 0 <= i < n ==> Edge(walk[i], walk[i + 1]) in edges
  {
    if n == 0 {
      var r :| r in s;
      walk := [r];
    } else {
      var rest := WalkBack(edges, s, n - 1);
      assert !Unblocked(edges, s, rest[0]);
      var p :| p in s && Edge(p, rest[0]) in edges;
      walk := [p] + rest;
    }
  }

  lemma StuckHasCycle(edges: set<Edge>, s: set<Ref>) returns (walk: seq<Ref>)
    requires Stuck(edges, s)
    ensures Cycle(edges, walk) && forall r :: r in walk ==> r in s
  {
    var long := WalkBack(edges, s, |s|);
    var i, j := Repeat(long, s);
    walk := long[i..j + 1];
    forall k | 0 <= k < |walk| - 1
      ensures Edge(walk[k], walk[k + 1]) in edges
    {
      assert walk[k] == long[i + k] && walk[k + 1] == long[i + k + 1];
    }
  }

  /** A sequence longer than the set it draws from repeats an element. */
  lemma Repeat<T>(o: seq<T>, s: set<T>) returns (i: nat, j: nat)
    requires |s| < |o| && forall k :: 0 <= k < |o| ==> o[k] in s
    ensures i < j < |o| && o[i] == o[j]
  {
    var seen := set x | x in o;
    SubsetSize(seen, s);
    if forall k, l :: 0 <= k < l < |o| ==> o[k] != o[l] {
      DistinctLength(o);
      assert false;
    }
    i, j :| i < j < |o| && o[i] == o[j];
  }

  lemma SubsetSize<T>(a: set<T>, b: set<T>)
    requires a <= b
    ensures |a| <= |b|
  {
    assert b == a + (b - a);
  }

  lemma CycleIsStuck(edges: set<Edge>, walk: seq<Ref>)
    requires Cycle(edges, walk)
    ensures Stuck(edges, set r | r in walk)
  {
    var s := set r | r in walk;
    forall r | r in s
      ensures !Unblocked(edges, s, r)
    {
      var i :| 0 <= i < |walk| && walk[i] == r;
      var j := if i == 0 then |walk| - 1 else i;
      assert walk[j] == r && Edge(walk[j - 1], walk[j]) in edges && walk[j - 1] in s;
    }
    assert walk[0] in s;
  }

  lemma {:induction false} WalkCycles(nodes: map<Ref, Node>, edges: set<Edge>, walk: seq<Ref>, i: nat, j: nat)
    requires Causal(nodes, edges) && i <= j < |walk|
    requires forall k :: 0 <= k < |walk| ==> walk[k] in nodes
    requires forall k :: 0 <= k < |walk| - 1 ==> Edge(walk[k], walk[k + 1]) in edges
    ensures nodes[walk[i]].cycle <= nodes[walk[j]].cycle
    decreases j - i
  {
    if i < j {
      WalkCycles(nodes, edges, walk, i, j - 1);
      assert Edge(walk[j - 1], walk[j]) in edges;
    }
  }

  ghost predicate SameCycleLoop(nodes: map<Ref, Node>, edges: set<Edge>, walk: seq<Ref>) {
    && Cycle(edges, walk)
    && (forall r :: r in walk ==> r in nodes)
    && (forall i :: 0 <= i < |walk| ==> nodes[walk[i]].cycle == nodes[walk[0]].cycle)
  }

  lemma StuckHasLoop(nodes: map<Ref, Node>, edges: set<Edge>, s: set<Ref>) returns (walk: seq<Ref>)
    requires Causal(nodes, edges) && s <= nodes.Keys && Stuck(edges, s)
    ensures SameCycleLoop(nodes, edges, walk)
  {
    walk := StuckHasCycle(edges, s);
    forall i | 0 <= i < |walk|
      ensures nodes[walk[i]].cycle == nodes[walk[0]].cycle
    {
      WalkCycles(nodes, edges, walk, 0, i);
      WalkCycles(nodes, edges, walk, i, |walk| - 1);
    }
  }

  /** The order comes up short exactly when some dependencies within one clock cycle form a loop. */
  lemma ShortIffSameCycleLoop(nodes: map<Ref, Node>, edges: set<Edge>)
    requires Causal(nodes, edges)
    ensures Complete(nodes, edges, nodes.Keys) <==> !exists walk :: SameCycleLoop(nodes, edges, walk)
  {
    CompleteIffNotStuck(nodes, edges, nodes.Keys);
    if s :| s <= nodes.Keys && Stuck(edges, s) {
      var walk := StuckHasLoop(nodes, edges, s);
    }
    if walk :| SameCycleLoop(nodes, edges, walk) {
      CycleIsStuck(edges, walk);
    }
  }

  /** Two graphs that agree on what is left give the same order. */
  lemma {:induction false} OrderDependsOnLeft(n1: map<Ref, Node>, e1: set<Edge>, n2: map<Ref, Node>, e2: set<Edge>,
                                              left: set<Ref>)
    requires left <= n1.Keys && left <= n2.Keys
    requires forall r :: r in left ==> n1[r].cycle == n2[r].cycle
    requires forall p, r :: p in left && r in left ==> (Edge(p, r) in e1 <==> Edge(p, r) in e2)
    ensures Order(n1, e1, left) == Order(n2, e2, left)
    decreases |left|
  {
    forall r | r in left
      ensures Unblocked(e1, left, r) == Unblocked(e2, left, r)
    {
    }
    var ready := Ready(n1, e1, left);
    assert ready == Ready(n2, e2, left);
    if ready != {} {
      OrderDependsOnLeft(n1, e1, n2, e2, left - {First(n1, e1, left)});
    }
  }

  /** `lo` and `hi` lie on the two sides of a cycle boundary. */
  ghost predicate Split(nodes: map<Ref, Node>, lo: set<Ref>, hi: set<Ref>, boundary: nat) {
    && lo <= nodes.Keys && hi <= nodes.Keys
    && (forall r :: r in lo ==> nodes[r].cycle <= boundary)
    && (forall r :: r in hi ==> boundary < nodes[r].cycle)
  }

  lemma CompleteSplits(nodes: map<Ref, Node>, edges: set<Edge>, lo: set<Ref>, hi: set<Ref>, boundary: nat)
    requires Split(nodes, lo, hi, boundary) && Causal(nodes, edges)
    ensures Complete(nodes, edges, lo + hi) <==> Complete(nodes, edges, lo) && Complete(nodes, edges, hi)
  {
    CompleteIffNotStuck(nodes, edges, lo + hi);
    CompleteIffNotStuck(nodes, edges, lo);
    CompleteIffNotStuck(nodes, edges, hi);
    if s :| s <= lo + hi && Stuck(edges, s) {
      if s * lo == {} {
        assert s <= hi;
      } else {
        StuckBelow(nodes, edges, s, lo, hi, boundary);
      }
    }
  }

  lemma StuckBelow(nodes: map<Ref, Node>, edges: set<Edge>, s: set<Ref>, lo: set<Ref>, hi: set<Ref>, boundary: nat)
    requires Split(nodes, lo, hi, boundary) && Causal(nodes, edges)
    requires s <= lo + hi && Stuck(edges, s) && s * lo != {}
    ensures Stuck(edges, s * lo) && s * lo <= lo
  {
    forall r | r in s * lo
      ensures !Unblocked(edges, s * lo, r)
    {
      assert !Unblocked(edges, s, r);
      var p :| p in s && Edge(p, r) in edges;
      assert p in s * lo;
    }
  }

  lemma OrderStep(nodes: map<Ref, Node>, edges: set<Edge>, left: set<Ref>, prefix: seq<Ref>)
    requires left <= nodes.Keys && Ready(nodes, edges, left) != {}
    ensures var r := First(nodes, edges, left);
      prefix + Order(nodes, edges, left) == (prefix + [r]) + Order(nodes, edges, left - {r})
  {
  }

  lemma FirstSplits(nodes: map<Ref, Node>, edges: set<Edge>, lo: set<Ref>, hi: set<Ref>, boundary: nat)
    requires Split(nodes, lo, hi, boundary) && Causal(nodes, edges)
    requires Ready(nodes, edges, lo) != {}
    ensures Ready(nodes, edges, lo + hi) != {}
    ensures First(nodes, edges, lo + hi) == First(nodes, edges, lo)
  {
    var all, below := Ready(nodes, edges, lo + hi), Ready(nodes, edges, lo);
    forall r | r in lo
      ensures Unblocked(edges, lo + hi, r) == Unblocked(edges, lo, r)
    {
    }
    assert below <= all;
    var m := Min(below);
    forall k | k in all
      ensures k == m || Less(m, k)
    {
      var r :| r in lo + hi && Unblocked(edges, lo + hi, r) && k == NodeKey(nodes, r);
      if r in lo {
        ReadyMember(nodes, edges, lo, r);
      }
    }
    assert IsMin(m, all);
  }

  lemma TakeBelow(nodes: map<Ref, Node>, edges: set<Edge>, lo: set<Ref>, hi: set<Ref>, boundary: nat) returns (r: Ref)
    requires Split(nodes, lo, hi, boundary) && Causal(nodes, edges)
    requires Complete(nodes, edges, lo) && lo != {}
    ensures r in lo && Complete(nodes, edges, lo - {r})
    ensures Order(nodes, edges, lo) == [r] + Order(nodes, edges, lo - {r})
    ensures Order(nodes, edges, lo + hi) == [r] + Order(nodes, edges, lo - {r} + hi)
  {
    assert Ready(nodes, edges, lo) != {};
    FirstSplits(nodes, edges, lo, hi, boundary);
    r := First(nodes, edges, lo);
    assert lo + hi - {r} == lo - {r} + hi by {
      assert r !in hi;
    }
  }

  /** The order of a batch is the order of its early cycles followed by the order of its late ones. */
  lemma {:induction false} OrderSplits(nodes: map<Ref, Node>, edges: set<Edge>, lo: set<Ref>, hi: set<Ref>,
                                       boundary: nat)
    requires Split(nodes, lo, hi, boundary) && Causal(nodes, edges)
    requires Complete(nodes, edges, lo) && lo + hi <= nodes.Keys
    ensures Order(nodes, edges, lo + hi) == Order(nodes, edges, lo) + Order(nodes, edges, hi)
    decreases |lo|
  {
    if lo == {} {
      OrderOfNone(nodes, edges, hi);
    } else {
      var r := TakeBelow(nodes, edges, lo, hi, boundary);
      var rest := lo - {r};
      OrderSplits(nodes, edges, rest, hi, boundary);
      Associate([r], Order(nodes, edges, rest), Order(nodes, edges, hi));
    }
  }

  lemma OrderOfNone(nodes: map<Ref, Node>, edges: set<Edge>, hi: set<Ref>)
    requires hi <= nodes.Keys
    ensures {} + hi == hi && Order(nodes, edges, {}) == []
  {
  }

  // ---------------------------------------------------------------- cycle by cycle

  ghost function InCycle(nodes: map<Ref, Node>, left: set<Ref>, cycle: nat): set<Ref>
    requires left <= nodes.Keys
  {
    set r | r in left && nodes[r].cycle == cycle
  }

  ghost function BeforeCycle(nodes: map<Ref, Node>, left: set<Ref>, n: nat): set<Ref>
    requires left <= nodes.Keys
  {
    set r | r in left && nodes[r].cycle < n
  }

  /** The orders of cycles 0 to `n - 1`, one after the other. */
  ghost function CycleOrders(nodes: map<Ref, Node>, edges: set<Edge>, left: set<Ref>, n: nat): seq<Ref>
    requires left <= nodes.Keys
  {
    if n == 0 then []
    else CycleOrders(nodes, edges, left, n - 1) + Order(nodes, edges, InCycle(nodes, left, n - 1))
  }

  lemma NextCycle(nodes: map<Ref, Node>, edges: set<Edge>, left: set<Ref>, n: nat)
    requires left <= nodes.Keys && Causal(nodes, edges)
    ensures BeforeCycle(nodes, left, n + 1) == BeforeCycle(nodes, left, n) + InCycle(nodes, left, n)
    ensures Complete(nodes, edges, BeforeCycle(nodes, left, n + 1)) <==>
      Complete(nodes, edges, BeforeCycle(nodes, left, n)) && Complete(nodes, edges, InCycle(nodes, left, n))
    ensures Complete(nodes, edges, BeforeCycle(nodes, left, n)) ==>
      Order(nodes, edges, BeforeCycle(nodes, left, n + 1)) ==
      Order(nodes, edges, BeforeCycle(nodes, left, n)) + Order(nodes, edges, InCycle(nodes, left, n))
  {
    hide Order, Complete, Causal;
    var lo, hi := BeforeCycle(nodes, left, n), InCycle(nodes, left, n);
    assert BeforeCycle(nodes, left, n + 1) == lo + hi;
    var boundary := if n == 0 then 0 else n - 1;
    if n == 0 {
      assert lo == {} && lo + hi == hi;
      NothingOrdered(nodes, edges);
    } else {
      CompleteSplits(nodes, edges, lo, hi, boundary);
      if Complete(nodes, edges, lo) {
        OrderSplits(nodes, edges, lo, hi, boundary);
      }
    }
  }

  lemma NothingOrdered(nodes: map<Ref, Node>, edges: set<Edge>)
    ensures Order(nodes, edges, {}) == [] && Complete(nodes, edges, {})
  {
    OrderOfNone(nodes, edges, {});
  }

  /** The order of any number of cycles is the concatenation of the per-cycle orders, and a batch comes up
      short exactly when one of its cycles does. */
  lemma {:induction false} OrderPerCycle(nodes: map<Ref, Node>, edges: set<Edge>, left: set<Ref>, n: nat)
    requires left <= nodes.Keys && Causal(nodes, edges)
    ensures Complete(nodes, edges, BeforeCycle(nodes, left, n)) <==>
      forall c: nat :: c < n ==> Complete(nodes, edges, InCycle(nodes, left, c))
    ensures Complete(nodes, edges, BeforeCycle(nodes, left, n)) ==>
      Order(nodes, edges, BeforeCycle(nodes, left, n)) == CycleOrders(nodes, edges, left, n)
    decreases n
  {
    hide Order, Complete, Causal;
    if n == 0 {
      assert BeforeCycle(nodes, left, 0) == {};
      NothingOrdered(nodes, edges);
    } else {
      OrderPerCycle(nodes, edges, left, n - 1);
      NextCycle(nodes, edges, left, n - 1);
    }
  }

  /** A whole batch is ordered cycle by cycle. */
  lemma BatchPerCycle(nodes: map<Ref, Node>, edges: set<Edge>, last: nat)
    requires Causal(nodes, edges) && forall r :: r in nodes ==> nodes[r].cycle <= last
    ensures Complete(nodes, edges, nodes.Keys) <==> forall c: nat :: c <= last ==>
      Complete(nodes, edges, InCycle(nodes, nodes.Keys, c))
    ensures Complete(nodes, edges, nodes.Keys) ==>
      Order(nodes, edges, nodes.Keys) == CycleOrders(nodes, edges, nodes.Keys, last + 1)
  {
    hide Order, Complete, Causal;
    OrderPerCycle(nodes, edges, nodes.Keys, last + 1);
    assert BeforeCycle(nodes, nodes.Keys, last + 1) == nodes.Keys;
  }

  /** The parents of `r` that are still waiting. */
  ghost function Waiting(edges: set<Edge>, left: set<Ref>, r: Ref): set<Ref> {
    set p | p in left && Edge(p, r) in edges
  }

  function At(m: map<Ref, set<Ref>>, r: Ref): set<Ref> {
    if r in m then m[r] else {}
  }

  ghost predicate ParentIndex(edges: set<Edge>, parents: map<Ref, set<Ref>>) {
    forall p, r :: p in At(parents, r) <==> Edge(p, r) in edges
  }

  ghost predicate ChildIndex(nodes: map<Ref, Node>, edges: set<Edge>, children: map<Ref, set<Ref>>) {
    forall r, c :: r in nodes ==> (c in At(children, r) <==> Edge(r, c) in edges)
  }

  /** In-degrees count waiting parents, plus one for each member of `held` not yet released. */
  ghost predicate Counts(edges: set<Edge>, left: set<Ref>, held: set<Ref>, indegree: map<Ref, nat>)
    requires left <= indegree.Keys
  {
    forall x :: x in left ==> indegree[x] == |Waiting(edges, left, x)| + if x in held then 1 else 0
  }

  lemma FileEdge(nodes: map<Ref, Node>, done: set<Edge>, parents: map<Ref, set<Ref>>, children: map<Ref, set<Ref>>,
                 e: Edge)
    requires ParentIndex(done, parents) && ChildIndex(nodes, done, children)
    ensures ParentIndex(done + {e}, parents[e.child := At(parents, e.child) + {e.parent}])
    ensures ChildIndex(nodes, done + {e},
                       if e.parent in nodes then children[e.parent := At(children, e.parent) + {e.child}] else children)
  {
  }

  lemma WaitingAfterEdge(edges: set<Edge>, e: Edge, left: set<Ref>, x: Ref)
    requires e !in edges
    ensures |Waiting(edges + {e}, left, x)| ==
      |Waiting(edges, left, x)| + if x == e.child && e.parent in left then 1 else 0
  {
    var before, after := Waiting(edges, left, x), Waiting(edges + {e}, left, x);
    if x == e.child && e.parent in left {
      assert after == before + {e.parent};
    } else {
      assert after == before;
    }
  }

  lemma CountEdge(nodes: map<Ref, Node>, done: set<Edge>, indegree: map<Ref, nat>, e: Edge)
    requires indegree.Keys == nodes.Keys && Counts(done, nodes.Keys, {}, indegree)
    requires e !in done && e.child in nodes
    ensures Counts(done + {e}, nodes.Keys, {}, if e.parent in nodes then indegree[e.child := indegree[e.child] + 1]
      else indegree)
  {
    forall x | x in nodes
      ensures |Waiting(done + {e}, nodes.Keys, x)| ==
        |Waiting(done, nodes.Keys, x)| + if x == e.child && e.parent in nodes then 1 else 0
    {
      WaitingAfterEdge(done, e, nodes.Keys, x);
    }
  }

  method IndexEdge(nodes: map<Ref, Node>, ghost done: set<Edge>, parents: map<Ref, set<Ref>>,
                   children: map<Ref, set<Ref>>, indegree: map<Ref, nat>, e: Edge)
    returns (parents': map<Ref, set<Ref>>, children': map<Ref, set<Ref>>, indegree': map<Ref, nat>)
    requires e !in done && e.child in nodes
    requires ParentIndex(done, parents) && ChildIndex(nodes, done, children)
    requires indegree.Keys == nodes.Keys && Counts(done, nodes.Keys, {}, indegree)
    ensures ParentIndex(done + {e}, parents') && ChildIndex(nodes, done + {e}, children')
    ensures indegree'.Keys == nodes.Keys && Counts(done + {e}, nodes.Keys, {}, indegree')
  {
    hide ParentIndex, ChildIndex, Counts;
    FileEdge(nodes, done, parents, children, e);
    CountEdge(nodes, done, indegree, e);
    parents' := parents[e.child := At(parents, e.child) + {e.parent}];
    if e.parent in nodes {
      children' := children[e.parent := At(children, e.parent) + {e.child}];
      indegree' := indegree[e.child := indegree[e.child] + 1];
    } else {
      children', indegree' := children, indegree;
    }
  }

  /** Index a batch's edges: complete parent sets, and children and in-degrees within the batch. */
  method Index(nodes: map<Ref, Node>, edges: set<Edge>)
    returns (parents: map<Ref, set<Ref>>, children: map<Ref, set<Ref>>, indegree: map<Ref, nat>)
    requires forall e :: e in edges ==> e.child in nodes
    ensures ParentIndex(edges, parents) && ChildIndex(nodes, edges, children)
    ensures indegree.Keys == nodes.Keys && Counts(edges, nodes.Keys, {}, indegree)
  {
    parents, children := map[], map[];
    indegree := map r | r in nodes :: 0;
    var todo := edges;
    while todo != {}
      invariant todo <= edges
      invariant ParentIndex(edges - todo, parents) && ChildIndex(nodes, edges - todo, children)
      invariant indegree.Keys == nodes.Keys && Counts(edges - todo, nodes.Keys, {}, indegree)
      decreases todo
    {
      var e :| e in todo;
      MoveOne(edges, todo, e);
      parents, children, indegree := IndexEdge(nodes, edges - todo, parents, children, indegree, e);
      todo := todo - {e};
    }
    assert edges - todo == edges;
  }

  lemma UnblockedIffNoneWaiting(edges: set<Edge>, left: set<Ref>, r: Ref)
    ensures Unblocked(edges, left, r) <==> |Waiting(edges, left, r)| == 0
  {
    var waiting := Waiting(edges, left, r);
    assert forall p :: p in waiting <==> p in left && Edge(p, r) in edges;
    assert |waiting| == 0 <==> waiting == {};
  }

  lemma TakeOne(edges: set<Edge>, left: set<Ref>, r: Ref, x: Ref)
    requires r in left
    ensures |Waiting(edges, left, x)| == |Waiting(edges, left - {r}, x)| + if Edge(r, x) in edges then 1 else 0
  {
    assert Waiting(edges, left - {r}, x) == Waiting(edges, left, x) - {r};
  }

  /** The keys of the unblocked members of `left` outside `held`: the ready set while `held` is
      being released. */
  ghost predicate ReadyExcept(nodes: map<Ref, Node>, edges: set<Edge>, left: set<Ref>, held: set<Ref>, ready: set<Key>)
    requires left <= nodes.Keys
  {
    && (forall k :: k in ready ==> k.c <= U64_MAX && KeyRef(k) in left && k == NodeKey(nodes, KeyRef(k)))
    && (forall x :: x in left ==> (NodeKey(nodes, x) in ready <==> x !in held && Unblocked(edges, left, x)))
  }

  lemma ReadyExceptNone(nodes: map<Ref, Node>, edges: set<Edge>, left: set<Ref>, ready: set<Key>)
    requires left <= nodes.Keys
    ensures ReadyExcept(nodes, edges, left, {}, ready) <==> ready == Ready(nodes, edges, left)
  {
    forall x | x in left
      ensures NodeKey(nodes, x) in Ready(nodes, edges, left) <==> Unblocked(edges, left, x)
    {
      ReadyMember(nodes, edges, left, x);
    }
    assert ReadyExcept(nodes, edges, left, {}, Ready(nodes, edges, left));
  }

  lemma StartRelease(nodes: map<Ref, Node>, edges: set<Edge>, left: set<Ref>, ready: set<Key>, indegree: map<Ref, nat>,
                     r: Ref, held: set<Ref>)
    requires left <= nodes.Keys && left <= indegree.Keys
    requires ReadyExcept(nodes, edges, left, {}, ready) && Counts(edges, left, {}, indegree)
    requires r in left && Unblocked(edges, left, r) && forall c :: c in held <==> Edge(r, c) in edges
    ensures ReadyExcept(nodes, edges, left - {r}, held, ready - {NodeKey(nodes, r)})
    ensures Counts(edges, left - {r}, held, indegree)
  {
    var rest := left - {r};
    forall x | x in rest
      ensures indegree[x] == |Waiting(edges, rest, x)| + if x in held then 1 else 0
    {
      TakeOne(edges, left, r, x);
    }
    forall x | x in rest
      ensures x !in held && Unblocked(edges, rest, x) <==> Unblocked(edges, left, x)
    {
    }
  }

  lemma ReleaseOne(nodes: map<Ref, Node>, edges: set<Edge>, left: set<Ref>, held: set<Ref>, ready: set<Key>,
                   indegree: map<Ref, nat>, c: Ref)
    requires left <= nodes.Keys && left <= indegree.Keys
    requires ReadyExcept(nodes, edges, left, held, ready) && Counts(edges, left, held, indegree)
    requires c in held && c in left
    ensures 0 < indegree[c]
    ensures Counts(edges, left, held - {c}, indegree[c := indegree[c] - 1])
    ensures ReadyExcept(nodes, edges, left, held - {c},
                        if indegree[c] == 1 then ready + {NodeKey(nodes, c)} else ready)
  {
    UnblockedIffNoneWaiting(edges, left, c);
  }

  lemma InitiallyReady(nodes: map<Ref, Node>, edges: set<Edge>, indegree: map<Ref, nat>, ready: set<Key>)
    requires indegree.Keys == nodes.Keys && Counts(edges, nodes.Keys, {}, indegree)
    requires ready == set r | r in nodes && indegree[r] == 0 :: NodeKey(nodes, r)
    ensures ReadyExcept(nodes, edges, nodes.Keys, {}, ready)
  {
    forall r | r in nodes
      ensures indegree[r] == 0 <==> Unblocked(edges, nodes.Keys, r)
    {
      UnblockedIffNoneWaiting(edges, nodes.Keys, r);
    }
  }

  /** Nothing taken depends on anything still waiting. */
  ghost predicate TakenClosed(nodes: map<Ref, Node>, edges: set<Edge>, left: set<Ref>) {
    forall e :: e in edges && e.parent in left ==> e.child in left
  }

  /** Releases the children of a node just taken: one less parent each, ready when none is left. */
  method Release(nodes: map<Ref, Node>, ghost edges: set<Edge>, ghost left: set<Ref>, held: set<Ref>,
                 ready: set<Key>, indegree: map<Ref, nat>)
    returns (ready': set<Key>, indegree': map<Ref, nat>)
    requires held <= left <= nodes.Keys && indegree.Keys == nodes.Keys
    requires ReadyExcept(nodes, edges, left, held, ready) && Counts(edges, left, held, indegree)
    ensures indegree'.Keys == nodes.Keys
    ensures ReadyExcept(nodes, edges, left, {}, ready') && Counts(edges, left, {}, indegree')
  {
    ready', indegree' := ready, indegree;
    var todo := held;
    while todo != {}
      invariant todo <= left && indegree'.Keys == nodes.Keys
      invariant ReadyExcept(nodes, edges, left, todo, ready') && Counts(edges, left, todo, indegree')
      decreases todo
    {
      var c :| c in todo;
      ReleaseOne(nodes, edges, left, todo, ready', indegree', c);
      indegree' := indegree'[c := indegree'[c] - 1];
      if indegree'[c] == 0 {
        ready' := ready' + {NodeKey(nodes, c)};
      }
      todo := todo - {c};
    }
  }

  /** The worklist: take the least ready node, then release its children. */
  method Drain(nodes: map<Ref, Node>, ghost edges: set<Edge>, children: map<Ref, set<Ref>>, degrees: map<Ref, nat>)
    returns (order: seq<Ref>)
    requires forall e :: e in edges ==> e.child in nodes
    requires ChildIndex(nodes, edges, children)
    requires degrees.Keys == nodes.Keys && Counts(edges, nodes.Keys, {}, degrees)
    ensures order == Order(nodes, edges, nodes.Keys)
  {
    var indegree := degrees;
    var ready := set r | r in nodes && indegree[r] == 0 :: NodeKey(nodes, r);
    order := [];
    ghost var left := nodes.Keys;
    InitiallyReady(nodes, edges, indegree, ready);
    while ready != {}
      invariant left <= nodes.Keys && indegree.Keys == nodes.Keys
      invariant Counts(edges, left, {}, indegree) && ReadyExcept(nodes, edges, left, {}, ready)
      invariant TakenClosed(nodes, edges, left)
      invariant order + Order(nodes, edges, left) == Order(nodes, edges, nodes.Keys)
      decreases left
    {
      ReadyExceptNone(nodes, edges, left, ready);
      OrderStep(nodes, edges, left, order);
      var k := FindMin(ready);
      var r := KeyRef(k);
      order := order + [r];
      var held := At(children, r);
      StartRelease(nodes, edges, left, ready, indegree, r, held);
      left := left - {r};
      ready, indegree := Release(nodes, edges, left, held, ready - {k}, indegree);
    }
    ReadyExceptNone(nodes, edges, left, ready);
  }
}

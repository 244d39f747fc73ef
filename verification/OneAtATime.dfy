/** A clocked unit that serves one request at a time: what its pins do in every run from reset, as a
    machine of three stages, and as laws about the pins alone that only this behaviour satisfies. */
module OneAtATime {
  import opened Options

  /** What the surrounding circuit drives in one clock. */
  datatype Inputs<Q> = Inputs(requestValid: bool, request: Q, responseReady: bool)

  /** What the unit drives in one clock: whether it takes a request, and the response it offers. */
  datatype Wires<R> = Wires(requestReady: bool, offered: Option<R>)

  /** Nothing to do, a request with the clock edges left until its response, or a response on offer. */
  datatype Stage<Q> = Idle | Computing(request: Q, left: nat) | Offering(request: Q)

  ghost predicate Ready<Q>(s: Stage<Q>, i: Inputs<Q>) {
    s.Idle? || (s.Offering? && i.responseReady)
  }

  /** One clock edge. */
  ghost function Next<Q>(latency: nat, s: Stage<Q>, i: Inputs<Q>): Stage<Q> {
    if i.requestValid && Ready(s, i) then Computing(i.request, latency)
    else
      match s
      case Idle => Idle
      case Computing(q, left) => if left <= 1 then Offering(q) else Computing(q, left - 1)
      case Offering(q) => if i.responseReady then Idle else s
  }

  ghost function StageAfter<Q>(latency: nat, inputs: seq<Inputs<Q>>): Stage<Q> {
    if inputs == [] then Idle else Next(latency, StageAfter(latency, inputs[..|inputs| - 1]), inputs[|inputs| - 1])
  }

  ghost function Pins<Q, R>(answer: Q -> R, s: Stage<Q>, i: Inputs<Q>): Wires<R> {
    Wires(Ready(s, i), if s.Offering? then Some(answer(s.request)) else None)
  }

  /** The pins in every clock of a run. */
  ghost function Behaviour<Q, R>(latency: nat, answer: Q -> R, inputs: seq<Inputs<Q>>): (trace: seq<Wires<R>>)
    ensures |trace| == |inputs|
  {
    if inputs == [] then []
    else
      var front, last := inputs[..|inputs| - 1], inputs[|inputs| - 1];
      Behaviour(latency, answer, front) + [Pins(answer, StageAfter(latency, front), last)]
  }

  // ---------------------------------------------------------------- what can be seen on the pins

  predicate Fires<Q, R>(i: Inputs<Q>, now: Wires<R>) {
    i.requestValid && now.requestReady
  }

  predicate Gives<Q, R>(i: Inputs<Q>, now: Wires<R>) {
    now.offered.Some? && i.responseReady
  }

  /** The requests taken, at clocks where one is both valid and ready. */
  ghost function Fired<Q, R>(inputs: seq<Inputs<Q>>, trace: seq<Wires<R>>): seq<Q>
    requires |inputs| == |trace|
  {
    if inputs == [] then []
    else
      var n := |inputs| - 1;
      Fired(inputs[..n], trace[..n]) + (if Fires(inputs[n], trace[n]) then [inputs[n].request] else [])
  }

  /** The responses given, at clocks where one is both valid and ready. */
  ghost function Given<Q, R>(inputs: seq<Inputs<Q>>, trace: seq<Wires<R>>): seq<R>
    requires |inputs| == |trace|
  {
    if inputs == [] then []
    else
      var n := |inputs| - 1;
      Given(inputs[..n], trace[..n]) + (if Gives(inputs[n], trace[n]) then [trace[n].offered.value] else [])
  }

  /** Requests taken and not answered before clock `k`. */
  ghost function Owed<Q, R>(inputs: seq<Inputs<Q>>, trace: seq<Wires<R>>, k: nat): int
    requires k <= |inputs| == |trace|
  {
    |Fired(inputs[..k], trace[..k])| - |Given(inputs[..k], trace[..k])|
  }

  // ---------------------------------------------------------------- laws

  /** Responses are the answers to the requests, in order, and at most one is owed. */
  ghost predicate InOrder<Q, R>(answer: Q -> R, fired: seq<Q>, given: seq<R>) {
    && |given| <= |fired| <= |given| + 1
    && forall i :: 0 <= i < |given| ==> given[i] == answer(fired[i])
  }

  /** A request is taken exactly when nothing is owed, a response given in the same clock counting. */
  ghost predicate ReadyLaw<Q, R>(inputs: seq<Inputs<Q>>, trace: seq<Wires<R>>, k: nat)
    requires k < |inputs| == |trace|
  {
    trace[k].requestReady <==> Owed(inputs, trace, k) == (if Gives(inputs[k], trace[k]) then 1 else 0)
  }

  /** A response is offered only when one is owed. */
  ghost predicate OwedLaw<Q, R>(inputs: seq<Inputs<Q>>, trace: seq<Wires<R>>, k: nat)
    requires k < |inputs| == |trace|
  {
    trace[k].offered.Some? ==> Owed(inputs, trace, k) == 1
  }

  /** A response that is not taken is offered unchanged in the next clock. */
  ghost predicate HeldLaw<Q, R>(inputs: seq<Inputs<Q>>, trace: seq<Wires<R>>, k: nat)
    requires k < |inputs| == |trace|
  {
    0 < k && trace[k - 1].offered.Some? && !inputs[k - 1].responseReady ==> trace[k].offered == trace[k - 1].offered
  }

  /** The response to a request taken in clock `j` is offered from `latency + 1` clocks later, and until
      then the unit neither offers nor takes anything. */
  ghost predicate TimeLaw<Q, R>(latency: nat, answer: Q -> R, inputs: seq<Inputs<Q>>, trace: seq<Wires<R>>, j: nat,
                                k: nat)
    requires j < k < |inputs| == |trace|
  {
    Fires(inputs[j], trace[j]) ==>
      && (k <= j + latency ==> trace[k] == Wires(false, None))
      && (k == j + latency + 1 ==> trace[k].offered == Some(answer(inputs[j].request)))
  }

  ghost predicate Lawful<Q, R>(latency: nat, answer: Q -> R, inputs: seq<Inputs<Q>>, trace: seq<Wires<R>>) {
    && |trace| == |inputs|
    && (forall k :: 0 <= k < |inputs| ==>
         ReadyLaw(inputs, trace, k) && OwedLaw(inputs, trace, k) && HeldLaw(inputs, trace, k))
    && (forall j, k :: 0 <= j < k < |inputs| ==> TimeLaw(latency, answer, inputs, trace, j, k))
  }

  // ---------------------------------------------------------------- the behaviour is lawful

  lemma {:induction false} BehaviourAt<Q, R>(latency: nat, answer: Q -> R, inputs: seq<Inputs<Q>>, k: nat)
    requires k < |inputs|
    ensures Behaviour(latency, answer, inputs)[k] == Pins(answer, StageAfter(latency, inputs[..k]), inputs[k])
    decreases |inputs|
  {
    if k < |inputs| - 1 {
      BehaviourAt(latency, answer, inputs[..|inputs| - 1], k);
      assert inputs[..|inputs| - 1][..k] == inputs[..k];
    }
  }

  lemma {:induction false} BehaviourPrefix<Q, R>(latency: nat, answer: Q -> R, inputs: seq<Inputs<Q>>, k: nat)
    requires k <= |inputs|
    ensures Behaviour(latency, answer, inputs)[..k] == Behaviour(latency, answer, inputs[..k])
    decreases |inputs|
  {
    if k < |inputs| {
      BehaviourPrefix(latency, answer, inputs[..|inputs| - 1], k);
      assert inputs[..|inputs| - 1][..k] == inputs[..k];
    } else {
      assert inputs[..k] == inputs;
    }
  }

  lemma StageNext<Q>(latency: nat, inputs: seq<Inputs<Q>>, k: nat)
    requires k < |inputs|
    ensures StageAfter(latency, inputs[..k + 1]) == Next(latency, StageAfter(latency, inputs[..k]), inputs[k])
  {
    assert inputs[..k + 1][..k] == inputs[..k];
  }

  /** The stage after a run is what its pins left owed. */
  ghost predicate Standing<Q, R>(answer: Q -> R, s: Stage<Q>, fired: seq<Q>, given: seq<R>) {
    && InOrder(answer, fired, given)
    && (s.Idle? <==> |fired| == |given|)
    && (!s.Idle? ==> fired[|given|] == s.request)
  }

  /** Every run answers each request once, correctly and in order, with at most one answer owed. */
  lemma {:induction false} ServedInOrder<Q, R>(latency: nat, answer: Q -> R, inputs: seq<Inputs<Q>>)
    ensures var trace := Behaviour(latency, answer, inputs);
      Standing(answer, StageAfter(latency, inputs), Fired(inputs, trace), Given(inputs, trace))
    decreases |inputs|
  {
    if inputs != [] {
      var n := |inputs| - 1;
      ServedInOrder(latency, answer, inputs[..n]);
      assert Behaviour(latency, answer, inputs)[..n] == Behaviour(latency, answer, inputs[..n]);
    }
  }

  lemma OwedIsStage<Q, R>(latency: nat, answer: Q -> R, inputs: seq<Inputs<Q>>, k: nat)
    requires k <= |inputs|
    ensures Owed(inputs, Behaviour(latency, answer, inputs), k) ==
      (if StageAfter(latency, inputs[..k]).Idle? then 0 else 1)
  {
    BehaviourPrefix(latency, answer, inputs, k);
    ServedInOrder(latency, answer, inputs[..k]);
  }

  /** A request taken in clock `j` is worked on for `latency` edges. */
  lemma {:induction false} WorksOn<Q>(latency: nat, inputs: seq<Inputs<Q>>, j: nat, k: nat)
    requires 0 < latency && j < k <= |inputs| && k <= j + latency + 1
    requires inputs[j].requestValid && Ready(StageAfter(latency, inputs[..j]), inputs[j])
    ensures StageAfter(latency, inputs[..k]) ==
      (if k <= j + latency then Computing(inputs[j].request, latency - (k - j - 1)) else Offering(inputs[j].request))
    decreases k
  {
    StageNext(latency, inputs, k - 1);
    if j + 1 < k {
      WorksOn(latency, inputs, j, k - 1);
    }
  }

  /** Every run keeps every law. */
  lemma BehaviourLawful<Q, R>(latency: nat, answer: Q -> R, inputs: seq<Inputs<Q>>)
    requires 0 < latency
    ensures Lawful(latency, answer, inputs, Behaviour(latency, answer, inputs))
  {
    hide Owed, StageAfter, Behaviour;
    var trace := Behaviour(latency, answer, inputs);
    forall k | 0 <= k < |inputs|
      ensures ReadyLaw(inputs, trace, k) && OwedLaw(inputs, trace, k) && HeldLaw(inputs, trace, k)
    {
      BehaviourAt(latency, answer, inputs, k);
      OwedIsStage(latency, answer, inputs, k);
      if 0 < k {
        BehaviourAt(latency, answer, inputs, k - 1);
        StageNext(latency, inputs, k - 1);
      }
    }
    forall j, k | 0 <= j < k < |inputs|
      ensures TimeLaw(latency, answer, inputs, trace, j, k)
    {
      BehaviourAt(latency, answer, inputs, j);
      BehaviourAt(latency, answer, inputs, k);
      if Fires(inputs[j], trace[j]) && k <= j + latency + 1 {
        WorksOn(latency, inputs, j, k);
      }
    }
  }

  // ---------------------------------------------------------------- and nothing else is

  /** A stage that is not idle goes back to the clock that took its request. */
  lemma {:induction false} TakenAt<Q>(latency: nat, inputs: seq<Inputs<Q>>, k: nat) returns (j: nat)
    requires 0 < latency && k <= |inputs| && !StageAfter(latency, inputs[..k]).Idle?
    ensures j < k && inputs[j].requestValid && Ready(StageAfter(latency, inputs[..j]), inputs[j])
    ensures StageAfter(latency, inputs[..k]).request == inputs[j].request
    ensures var s := StageAfter(latency, inputs[..k]);
      (if s.Computing? then 0 < s.left <= latency && k == j + 1 + latency - s.left else j + latency + 1 <= k)
    ensures StageAfter(latency, inputs[..k]).Offering? && j + latency + 1 < k ==>
      StageAfter(latency, inputs[..k - 1]) == StageAfter(latency, inputs[..k]) && !inputs[k - 1].responseReady
    decreases k
  {
    StageNext(latency, inputs, k - 1);
    var before := StageAfter(latency, inputs[..k - 1]);
    if inputs[k - 1].requestValid && Ready(before, inputs[k - 1]) {
      j := k - 1;
    } else {
      j := TakenAt(latency, inputs, k - 1);
    }
  }

  lemma OwedPrefix<Q, R>(inputs: seq<Inputs<Q>>, trace: seq<Wires<R>>, other: seq<Wires<R>>, k: nat)
    requires k <= |inputs| == |trace| == |other| && trace[..k] == other[..k]
    ensures Owed(inputs, trace, k) == Owed(inputs, other, k)
  {
  }

  /** Pins that keep the laws follow the behaviour from clock to clock. */
  lemma LawfulStep<Q, R>(latency: nat, answer: Q -> R, inputs: seq<Inputs<Q>>, trace: seq<Wires<R>>, k: nat)
    requires 0 < latency && Lawful(latency, answer, inputs, trace) && k < |inputs|
    requires trace[..k] == Behaviour(latency, answer, inputs)[..k]
    ensures trace[k] == Behaviour(latency, answer, inputs)[k]
  {
    hide Owed, StageAfter, Behaviour;
    var expected := Behaviour(latency, answer, inputs);
    var s := StageAfter(latency, inputs[..k]);
    BehaviourAt(latency, answer, inputs, k);
    OwedPrefix(inputs, trace, expected, k);
    OwedIsStage(latency, answer, inputs, k);
    assert ReadyLaw(inputs, trace, k) && OwedLaw(inputs, trace, k) && HeldLaw(inputs, trace, k);
    if !s.Idle? {
      var j := TakenAt(latency, inputs, k);
      BehaviourAt(latency, answer, inputs, j);
      assert trace[j] == trace[..k][j] == expected[..k][j];
      assert TimeLaw(latency, answer, inputs, trace, j, k);
      if j + latency + 1 < k {
        BehaviourAt(latency, answer, inputs, k - 1);
        assert trace[k - 1] == trace[..k][k - 1] == expected[..k][k - 1];
      }
    }
  }

  lemma {:induction false} LawfulPrefix<Q, R>(latency: nat, answer: Q -> R, inputs: seq<Inputs<Q>>,
                                              trace: seq<Wires<R>>, k: nat)
    requires 0 < latency && Lawful(latency, answer, inputs, trace) && k <= |inputs|
    ensures trace[..k] == Behaviour(latency, answer, inputs)[..k]
    decreases k
  {
    if 0 < k {
      LawfulPrefix(latency, answer, inputs, trace, k - 1);
      LawfulStep(latency, answer, inputs, trace, k - 1);
      var expected := Behaviour(latency, answer, inputs);
      assert trace[..k] == trace[..k - 1] + [trace[k - 1]] && expected[..k] == expected[..k - 1] + [expected[k - 1]];
    }
  }

  /** The laws leave no choice: whatever the requests and the backpressure, one trace keeps them. */
  lemma LawfulIff<Q, R>(latency: nat, answer: Q -> R, inputs: seq<Inputs<Q>>, trace: seq<Wires<R>>)
    requires 0 < latency
    ensures Lawful(latency, answer, inputs, trace) <==> trace == Behaviour(latency, answer, inputs)
  {
    BehaviourLawful(latency, answer, inputs);
    if Lawful(latency, answer, inputs, trace) {
      LawfulPrefix(latency, answer, inputs, trace, |inputs|);
      var expected := Behaviour(latency, answer, inputs);
      assert trace == trace[..|inputs|] == expected[..|inputs|] == expected;
    }
  }

  // ---------------------------------------------------------------- waiting

  ghost predicate QuietFrom<Q>(inputs: seq<Inputs<Q>>, from: nat) {
    forall i :: from <= i < |inputs| ==> !inputs[i].requestValid && inputs[i].responseReady
  }

  /** Edges until nothing is owed, if the surroundings are quiet. */
  ghost function Edges<Q>(s: Stage<Q>): nat {
    match s
    case Idle => 0
    case Computing(_, left) => (if left == 0 then 1 else left) + 1
    case Offering(_) => 1
  }

  lemma {:induction false} StageBound<Q>(latency: nat, inputs: seq<Inputs<Q>>)
    requires 0 < latency
    ensures Edges(StageAfter(latency, inputs)) <= latency + 1
    decreases |inputs|
  {
    if inputs != [] {
      StageBound(latency, inputs[..|inputs| - 1]);
    }
  }

  lemma {:induction false} Drains<Q>(latency: nat, inputs: seq<Inputs<Q>>, from: nat)
    requires 0 < latency && from <= |inputs| && QuietFrom(inputs, from)
    ensures var s := StageAfter(latency, inputs); s.Idle? || Edges(s) + (|inputs| - from) <= latency + 1
    decreases |inputs|
  {
    if from == |inputs| {
      StageBound(latency, inputs);
    } else {
      Drains(latency, inputs[..|inputs| - 1], from);
    }
  }

  /** After `latency + 1` quiet clocks every request has been answered. */
  lemma AllAnswered<Q, R>(latency: nat, answer: Q -> R, inputs: seq<Inputs<Q>>)
    requires 0 < latency && latency + 1 <= |inputs| && QuietFrom(inputs, |inputs| - (latency + 1))
    ensures var trace := Behaviour(latency, answer, inputs); |Fired(inputs, trace)| == |Given(inputs, trace)|
  {
    Drains(latency, inputs, |inputs| - (latency + 1));
    ServedInOrder(latency, answer, inputs);
  }

  // ---------------------------------------------------------------- recording a run

  lemma NothingYet<Q, R>(latency: nat, answer: Q -> R, inputs: seq<Inputs<Q>>)
    ensures StageAfter(latency, inputs[..0]) == Idle && Behaviour(latency, answer, inputs[..0]) == []
    ensures Fired<Q, R>(inputs[..0], []) == [] && Given<Q, R>(inputs[..0], []) == []
  {
  }

  /** One more clock on a run seen so far. */
  lemma OneMoreClock<Q, R>(latency: nat, answer: Q -> R, inputs: seq<Inputs<Q>>, n: nat, trace: seq<Wires<R>>)
    requires n < |inputs| && trace == Behaviour(latency, answer, inputs[..n])
    ensures var now := Pins(answer, StageAfter(latency, inputs[..n]), inputs[n]);
      && trace + [now] == Behaviour(latency, answer, inputs[..n + 1])
      && Fired(inputs[..n + 1], trace + [now]) ==
           Fired(inputs[..n], trace) + (if Fires(inputs[n], now) then [inputs[n].request] else [])
      && Given(inputs[..n + 1], trace + [now]) ==
           Given(inputs[..n], trace) + (if Gives(inputs[n], now) then [now.offered.value] else [])
    ensures StageAfter(latency, inputs[..n + 1]) == Next(latency, StageAfter(latency, inputs[..n]), inputs[n])
  {
    var now := Pins(answer, StageAfter(latency, inputs[..n]), inputs[n]);
    assert inputs[..n + 1][..n] == inputs[..n] && (trace + [now])[..n] == trace;
  }

  /** A whole run of the behaviour: the laws, the service, and that nothing is owed after enough quiet clocks. */
  lemma WholeRun<Q, R>(latency: nat, answer: Q -> R, inputs: seq<Inputs<Q>>)
    requires 0 < latency
    ensures var trace := Behaviour(latency, answer, inputs);
      && Lawful(latency, answer, inputs, trace)
      && InOrder(answer, Fired(inputs, trace), Given(inputs, trace))
      && (latency + 1 <= |inputs| && QuietFrom(inputs, |inputs| - (latency + 1)) ==>
            |Fired(inputs, trace)| == |Given(inputs, trace)|)
  {
    hide Behaviour, Lawful, Fired, Given;
    BehaviourLawful(latency, answer, inputs);
    ServedInOrder(latency, answer, inputs);
    if latency + 1 <= |inputs| && QuietFrom(inputs, |inputs| - (latency + 1)) {
      AllAnswered(latency, answer, inputs);
    }
  }
}

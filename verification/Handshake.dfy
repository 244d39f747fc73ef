/** The host and the target taking turns: one outstanding request at a time, clocked to acceptance and
    response, and the boot entry published only after loading. */
module Handshake {
  import opened Machine
  import opened Options

  datatype Request = Request(write: bool, address: U64, data: U64, length: nat)

  datatype Answer = Answer(data: U64, status: Byte)

  /** What the host program does when it runs: gives the clock back, makes a request, or, once its image
      is loaded, publishes the entry point. */
  datatype HostAction = Idle | Make(request: Request) | Publish(entry: U64)

  ghost predicate Transferable(r: Request) {
    1 <= r.length <= 8 && r.address + r.length - 1 <= U64_MAX
  }

  /** The range reaches one of the boot register's eight bytes. */
  ghost predicate TouchesBoot(boot: nat, address: nat, n: nat) {
    0 < n && address <= boot + 7 && boot <= address + n - 1
  }

  ghost function EntryWrite(boot: U64, entry: U64): Request {
    Request(true, boot, entry, 8)
  }

  /** What holds of everything requested, taken by the target and answered so far; `entryAt` is where the
      entry was published. */
  ghost predicate Sound(boot: U64, issued: seq<Request>, taken: seq<Request>, answers: seq<Answer>,
                        entryAt: Option<nat>) {
    && |answers| <= |taken| <= |issued| <= |answers| + 1
    && taken <= issued
    && (forall r <- issued :: Transferable(r))
    && (forall i :: 0 <= i < |answers| && i + 1 < |issued| ==> answers[i].status == 0)
    && (match entryAt
        case None => LoadingOnly(boot, issued)
        case Some(k) =>
          && k < |issued| && LoadingOnly(boot, issued[..k]) && k <= |answers|
          && issued[k] == EntryWrite(boot, issued[k].data) && issued[k].data != 0)
  }

  /** No write among these reaches any of the boot register's eight bytes. */
  ghost predicate LoadingOnly(boot: U64, issued: seq<Request>) {
    forall r <- issued :: r.write ==> !TouchesBoot(boot, r.address, r.length)
  }

  lemma SoundTaken(boot: U64, issued: seq<Request>, taken: seq<Request>, answers: seq<Answer>, entryAt: Option<nat>)
    requires Sound(boot, issued, taken, answers, entryAt) && |taken| < |issued|
    ensures Sound(boot, issued, taken + [issued[|taken|]], answers, entryAt)
  {
  }

  lemma SoundAnswered(boot: U64, issued: seq<Request>, taken: seq<Request>, answers: seq<Answer>, entryAt: Option<nat>,
                      a: Answer)
    requires Sound(boot, issued, taken, answers, entryAt) && |answers| < |taken|
    ensures Sound(boot, issued, taken, answers + [a], entryAt)
  {
  }

  /** The next request may follow once the one before it was answered with success. */
  lemma SoundIssued(boot: U64, issued: seq<Request>, taken: seq<Request>, answers: seq<Answer>, entryAt: Option<nat>,
                    r: Request)
    requires Sound(boot, issued, taken, answers, entryAt) && |issued| == |answers| && Transferable(r)
    requires answers != [] ==> answers[|answers| - 1].status == 0
    requires entryAt == None ==> !r.write || !TouchesBoot(boot, r.address, r.length)
    ensures Sound(boot, issued + [r], taken, answers, entryAt)
  {
  }

  lemma SoundPublished(boot: U64, issued: seq<Request>, taken: seq<Request>, answers: seq<Answer>, entry: U64)
    requires Sound(boot, issued, taken, answers, None) && |issued| == |answers| && boot % 8 == 0 && entry != 0
    requires answers != [] ==> answers[|answers| - 1].status == 0
    ensures Sound(boot, issued + [EntryWrite(boot, entry)], taken, answers, Some(|issued|))
  {
    assert (issued + [EntryWrite(boot, entry)])[..|issued|] == issued;
  }

  // ---------------------------------------------------------------- what a run determines

  /** What one clock brings from both sides. */
  datatype Inputs = Inputs(ready: bool, answered: bool, answer: Answer, host: HostAction)

  /** What the transport drives in one clock: the request on offer, and whether it waits for an answer. */
  datatype Pins = Pins(offered: Option<Request>, responseReady: bool)

  /** Everything requested, taken and answered, and where the entry was published. */
  datatype History = History(issued: seq<Request>, taken: seq<Request>, answers: seq<Answer>, entryAt: Option<nat>)

  /** The host runs, or waits for a request that is not yet offered, on offer or taken, or has stopped. */
  datatype Phase = Running | Waiting(request: Request) | Offered(request: Request) | Taken(request: Request) | Stopped

  datatype Host = Host(phase: Phase, loading: bool, history: History)

  ghost const START := Host(Running, true, History([], [], [], None))

  ghost predicate EntryFits(xlen: nat, entry: U64) {
    entry != 0 && (xlen == 32 ==> entry <= U32_MAX)
  }

  ghost predicate Refuses(boot: U64, loading: bool, r: Request) {
    !Transferable(r) || (loading && r.write && TouchesBoot(boot, r.address, r.length))
  }

  /** A clock on the target's side. */
  ghost function Sampled(s: Host, i: Inputs): Host {
    match s.phase
    case Waiting(r) => s.(phase := Offered(r))
    case Offered(r) =>
      if !i.ready then s
      else Replied(s.(phase := Taken(r), history := s.history.(taken := s.history.taken + [r])), i)
    case Taken(_) => Replied(s, i)
    case Running => s
    case Stopped => s
  }

  /** The answer to a request that was taken; only success lets the host go on. */
  ghost function Replied(s: Host, i: Inputs): Host {
    if !i.answered then s
    else s.(phase := if i.answer.status == 0 then Running else Stopped,
            history := s.history.(answers := s.history.answers + [i.answer]))
  }

  /** What the host does when it runs. */
  ghost function Acted(boot: U64, xlen: nat, s: Host, action: HostAction): Host {
    if s.phase != Running then s
    else
      match action
      case Idle => s
      case Make(r) =>
        if Refuses(boot, s.loading, r) then s.(phase := Stopped)
        else s.(phase := Waiting(r), history := s.history.(issued := s.history.issued + [r]))
      case Publish(entry) =>
        if !EntryFits(xlen, entry) then s.(phase := Stopped)
        else
          var r, h := EntryWrite(boot, entry), s.history;
          Host(Waiting(r), false, h.(issued := h.issued + [r], entryAt := if s.loading then Some(|h.issued|)
            else h.entryAt))
  }

  ghost function Next(boot: U64, xlen: nat, s: Host, i: Inputs): Host {
    Acted(boot, xlen, Sampled(s, i), i.host)
  }

  ghost function After(boot: U64, xlen: nat, inputs: seq<Inputs>): Host {
    if inputs == [] then START
    else Next(boot, xlen, After(boot, xlen, inputs[..|inputs| - 1]), inputs[|inputs| - 1])
  }

  /** The requests that an action of a running host starts. */
  ghost function Accepted(boot: U64, xlen: nat, loading: bool, action: HostAction): seq<Request> {
    match action
    case Idle => []
    case Make(r) => if Refuses(boot, loading, r) then [] else [r]
    case Publish(entry) => if EntryFits(xlen, entry) then [EntryWrite(boot, entry)] else []
  }

  ghost function PinsOf(s: Host): Pins {
    Pins(if s.phase.Offered? then Some(s.phase.request) else None, s.phase.Taken?)
  }

  ghost function Trace(boot: U64, xlen: nat, inputs: seq<Inputs>): (trace: seq<Pins>)
    ensures |trace| == |inputs|
  {
    if inputs == [] then []
    else
      var front := inputs[..|inputs| - 1];
      Trace(boot, xlen, front) + [PinsOf(After(boot, xlen, front))]
  }

  // ---------------------------------------------------------------- what can be seen on the pins

  /** The requests taken, at clocks where one is on offer and the target is ready. */
  ghost function Served(inputs: seq<Inputs>, trace: seq<Pins>): seq<Request>
    requires |inputs| == |trace|
  {
    if inputs == [] then []
    else
      var n := |inputs| - 1;
      Served(inputs[..n], trace[..n]) +
        (if trace[n].offered.Some? && inputs[n].ready then [trace[n].offered.value] else [])
  }

  /** The answers received, at clocks where one is given to a request taken before or in the same clock. */
  ghost function Received(inputs: seq<Inputs>, trace: seq<Pins>): seq<Answer>
    requires |inputs| == |trace|
  {
    if inputs == [] then []
    else
      var n := |inputs| - 1;
      Received(inputs[..n], trace[..n]) +
      (if inputs[n].answered && (trace[n].responseReady || (trace[n].offered.Some? && inputs[n].ready))
        then [inputs[n].answer]
       else [])
  }

  /** A request that is not taken stays on offer, unchanged. */
  ghost predicate StaysOffered(inputs: seq<Inputs>, trace: seq<Pins>, k: nat)
    requires k < |inputs| == |trace|
  {
    0 < k && trace[k - 1].offered.Some? && !inputs[k - 1].ready ==> trace[k].offered == trace[k - 1].offered
  }

  /** What is on offer is the next request of the host that the target has not taken, and an answer is
      awaited exactly between taking a request and its answer. */
  ghost predicate OffersNext(inputs: seq<Inputs>, trace: seq<Pins>, issued: seq<Request>, k: nat)
    requires k < |inputs| == |trace|
  {
    var taken, answered := |Served(inputs[..k], trace[..k])|, |Received(inputs[..k], trace[..k])|;
    && (trace[k].offered.Some? ==> taken == answered < |issued| && trace[k].offered.value == issued[taken])
    && (trace[k].responseReady <==> answered < taken)
  }

  ghost predicate Lawful(inputs: seq<Inputs>, trace: seq<Pins>, h: History) {
    && |trace| == |inputs|
    && h.taken == Served(inputs, trace) && h.answers == Received(inputs, trace)
    && forall k :: 0 <= k < |inputs| ==> StaysOffered(inputs, trace, k) && OffersNext(inputs, trace, h.issued, k)
  }

  lemma {:induction false} TraceAt(boot: U64, xlen: nat, inputs: seq<Inputs>, k: nat)
    requires k < |inputs|
    ensures Trace(boot, xlen, inputs)[k] == PinsOf(After(boot, xlen, inputs[..k]))
    decreases |inputs|
  {
    if k < |inputs| - 1 {
      TraceAt(boot, xlen, inputs[..|inputs| - 1], k);
      assert inputs[..|inputs| - 1][..k] == inputs[..k];
    }
  }

  lemma {:induction false} TracePrefix(boot: U64, xlen: nat, inputs: seq<Inputs>, k: nat)
    requires k <= |inputs|
    ensures Trace(boot, xlen, inputs)[..k] == Trace(boot, xlen, inputs[..k])
    decreases |inputs|
  {
    if k < |inputs| {
      TracePrefix(boot, xlen, inputs[..|inputs| - 1], k);
      assert inputs[..|inputs| - 1][..k] == inputs[..k];
    } else {
      assert inputs[..k] == inputs;
    }
  }

  /** How the phase stands to the history. */
  ghost predicate Standing(s: Host) {
    && |s.history.issued| == |s.history.answers| + (if s.phase.Running? || s.phase.Stopped? then 0 else 1)
    && |s.history.taken| == |s.history.answers| + (if s.phase.Taken? then 1 else 0)
    && (!s.phase.Running? && !s.phase.Stopped? ==> s.history.issued[|s.history.answers|] == s.phase.request)
  }

  /** One clock keeps that and adds to the history what the pins show. */
  lemma StandingNext(boot: U64, xlen: nat, s: Host, i: Inputs)
    requires Standing(s)
    ensures var next, p := Next(boot, xlen, s, i), PinsOf(s);
      && Standing(next)
      && next.history.taken == s.history.taken + (if p.offered.Some? && i.ready then [p.offered.value] else [])
      && next.history.answers ==
           s.history.answers + (if i.answered && (p.responseReady || (p.offered.Some? && i.ready)) then [i.answer]
             else [])
      && s.history.issued <= next.history.issued
  {
    SampledStanding(s, i);
    hide Sampled, Refuses, EntryFits;
    var between := Sampled(s, i);
    assert Acted(boot, xlen, between, i.host).history.taken == between.history.taken;
  }

  lemma SampledStanding(s: Host, i: Inputs)
    requires Standing(s)
    ensures var next, p := Sampled(s, i), PinsOf(s);
      && Standing(next) && next.history.issued == s.history.issued
      && next.history.taken == s.history.taken + (if p.offered.Some? && i.ready then [p.offered.value] else [])
      && next.history.answers ==
           s.history.answers + (if i.answered && (p.responseReady || (p.offered.Some? && i.ready)) then [i.answer]
             else [])
  {
  }

  /** The pins of a run show everything the target took and answered. */
  lemma {:induction false} ShowsService(boot: U64, xlen: nat, inputs: seq<Inputs>)
    ensures var s, trace := After(boot, xlen, inputs), Trace(boot, xlen, inputs);
      Standing(s) && s.history.taken == Served(inputs, trace) && s.history.answers == Received(inputs, trace)
    decreases |inputs|
  {
    hide Next, Standing;
    if inputs == [] {
      StartStanding();
    } else {
      var n := |inputs| - 1;
      ShowsService(boot, xlen, inputs[..n]);
      StandingNext(boot, xlen, After(boot, xlen, inputs[..n]), inputs[n]);
      assert Trace(boot, xlen, inputs)[..n] == Trace(boot, xlen, inputs[..n]);
    }
  }

  lemma StartStanding()
    ensures Standing(START)
  {
  }

  /** Requests are never taken back. */
  lemma {:induction false} IssuedGrows(boot: U64, xlen: nat, inputs: seq<Inputs>, k: nat)
    requires k <= |inputs|
    ensures After(boot, xlen, inputs[..k]).history.issued <= After(boot, xlen, inputs).history.issued
    decreases |inputs|
  {
    if k < |inputs| {
      hide Next;
      var front := inputs[..|inputs| - 1];
      IssuedGrows(boot, xlen, front, k);
      ShowsService(boot, xlen, front);
      StandingNext(boot, xlen, After(boot, xlen, front), inputs[|inputs| - 1]);
      assert front[..k] == inputs[..k];
    } else {
      assert inputs[..k] == inputs;
    }
  }

  lemma RunLawful(boot: U64, xlen: nat, inputs: seq<Inputs>)
    ensures Lawful(inputs, Trace(boot, xlen, inputs), After(boot, xlen, inputs).history)
  {
    hide Served, Received, Trace;
    ShowsService(boot, xlen, inputs);
    var trace := Trace(boot, xlen, inputs);
    forall k | 0 <= k < |inputs|
      ensures StaysOffered(inputs, trace, k) && OffersNext(inputs, trace, After(boot, xlen, inputs).history.issued, k)
    {
      TraceAt(boot, xlen, inputs, k);
      TracePrefix(boot, xlen, inputs, k);
      ShowsService(boot, xlen, inputs[..k]);
      IssuedGrows(boot, xlen, inputs, k);
      if 0 < k {
        TraceAt(boot, xlen, inputs, k - 1);
        assert inputs[..k][..k - 1] == inputs[..k - 1];
      }
    }
  }

  /** A request the host makes is on offer from the second clock after, until it is taken. */
  lemma OfferedSoon(boot: U64, xlen: nat, inputs: seq<Inputs>, k: nat)
    requires k + 2 < |inputs|
    requires |After(boot, xlen, inputs[..k]).history.issued| < |After(boot, xlen, inputs[..k + 1]).history.issued|
    ensures var trace, issued := Trace(boot, xlen, inputs), After(boot, xlen, inputs[..k + 1]).history.issued;
      trace[k + 1] == Pins(None, false) && trace[k + 2].offered == Some(issued[|issued| - 1])
  {
    hide Next, Trace, After;
    TraceAt(boot, xlen, inputs, k + 1);
    TraceAt(boot, xlen, inputs, k + 2);
    OneMoreClock(boot, xlen, inputs, k, Trace(boot, xlen, inputs[..k]));
    OneMoreClock(boot, xlen, inputs, k + 1, Trace(boot, xlen, inputs[..k + 1]));
    WaitsFirst(boot, xlen, After(boot, xlen, inputs[..k]), inputs[k]);
    WaitsOnce(boot, xlen, After(boot, xlen, inputs[..k + 1]), inputs[k + 1]);
  }

  lemma WaitsFirst(boot: U64, xlen: nat, s: Host, i: Inputs)
    ensures var next := Next(boot, xlen, s, i);
      |s.history.issued| < |next.history.issued| ==>
        next.phase == Waiting(next.history.issued[|next.history.issued| - 1])
  {
  }

  lemma WaitsOnce(boot: U64, xlen: nat, s: Host, i: Inputs)
    ensures s.phase.Waiting? ==> Next(boot, xlen, s, i).phase == Offered(s.phase.request)
  {
  }

  /** The published entry was asked for. */
  lemma {:induction false} EntryAsked(boot: U64, xlen: nat, inputs: seq<Inputs>)
    ensures var s := After(boot, xlen, inputs); var h := s.history;
      && (s.loading <==> h.entryAt == None)
      && (h.entryAt.Some? ==>
            && h.entryAt.value < |h.issued| && h.issued[h.entryAt.value].data != 0
            && exists i :: 0 <= i < |inputs| && inputs[i].host == Publish(h.issued[h.entryAt.value].data))
    decreases |inputs|
  {
    if inputs != [] {
      var front := inputs[..|inputs| - 1];
      EntryAsked(boot, xlen, front);
      EntryNext(boot, xlen, After(boot, xlen, front), inputs[|inputs| - 1]);
      hide Next;
      var h := After(boot, xlen, front).history;
      if h.entryAt.Some? {
        var i :| 0 <= i < |front| && front[i].host == Publish(h.issued[h.entryAt.value].data);
        assert inputs[i] == front[i];
      }
    }
  }

  lemma EntryNext(boot: U64, xlen: nat, s: Host, i: Inputs)
    ensures var next := Next(boot, xlen, s, i);
      && s.history.issued <= next.history.issued
      && (if next.loading == s.loading then next.history.entryAt == s.history.entryAt || !s.loading
          else s.loading && next.history.entryAt == Some(|s.history.issued|) &&
               |s.history.issued| < |next.history.issued| && next.history.issued[|s.history.issued|].data != 0 &&
               i.host == Publish(next.history.issued[|s.history.issued|].data))
      && (!s.loading ==> !next.loading && next.history.entryAt == s.history.entryAt)
  {
  }

  lemma NothingYet(boot: U64, xlen: nat, inputs: seq<Inputs>)
    ensures After(boot, xlen, inputs[..0]) == START && Trace(boot, xlen, inputs[..0]) == []
  {
  }

  lemma OneMoreClock(boot: U64, xlen: nat, inputs: seq<Inputs>, n: nat, trace: seq<Pins>)
    requires n < |inputs| && trace == Trace(boot, xlen, inputs[..n])
    ensures After(boot, xlen, inputs[..n + 1]) == Next(boot, xlen, After(boot, xlen, inputs[..n]), inputs[n])
    ensures trace + [PinsOf(After(boot, xlen, inputs[..n]))] == Trace(boot, xlen, inputs[..n + 1])
  {
    assert inputs[..n + 1][..n] == inputs[..n];
  }

  /** A host that has stopped asks for nothing more. */
  lemma {:induction false} StopsForGood(boot: U64, xlen: nat, inputs: seq<Inputs>, k: nat)
    requires k <= |inputs| && After(boot, xlen, inputs[..k]).phase.Stopped?
    ensures After(boot, xlen, inputs) == After(boot, xlen, inputs[..k])
    decreases |inputs|
  {
    if k < |inputs| {
      assert inputs[..|inputs| - 1][..k] == inputs[..k];
      StopsForGood(boot, xlen, inputs[..|inputs| - 1], k);
    } else {
      assert inputs[..k] == inputs;
    }
  }

  /** How the wires of the transport stand to the history. */
  ghost predicate Tracks(pending: bool, accepted: bool, failed: bool, request: Request, response: Answer,
                         issued: seq<Request>, taken: seq<Request>, answers: seq<Answer>) {
    && |issued| == |answers| + (if pending then 1 else 0)
    && |taken| == |answers| + (if accepted then 1 else 0)
    && (pending ==> !failed && request == issued[|answers|])
    && (!failed && answers != [] ==> answers[|answers| - 1].status == 0)
    && (!pending && answers != [] ==> response == answers[|answers| - 1])
  }

  lemma TracksTaken(boot: U64, request: Request, response: Answer, issued: seq<Request>, taken: seq<Request>,
                    answers: seq<Answer>,
                    entryAt: Option<nat>)
    requires Sound(boot, issued, taken, answers, entryAt)
    requires Tracks(true, false, false, request, response, issued, taken, answers)
    ensures Sound(boot, issued, taken + [request], answers, entryAt)
    ensures Tracks(true, true, false, request, response, issued, taken + [request], answers)
  {
    SoundTaken(boot, issued, taken, answers, entryAt);
  }

  lemma TracksAnswered(boot: U64, request: Request, response: Answer, issued: seq<Request>, taken: seq<Request>,
                       answers: seq<Answer>,
                       entryAt: Option<nat>, a: Answer)
    requires Sound(boot, issued, taken, answers, entryAt)
    requires Tracks(true, true, false, request, response, issued, taken, answers)
    ensures Sound(boot, issued, taken, answers + [a], entryAt)
    ensures Tracks(false, false, a.status != 0, request, a, issued, taken, answers + [a])
  {
    SoundAnswered(boot, issued, taken, answers, entryAt, a);
  }

  lemma TracksFailed(request: Request, response: Answer, issued: seq<Request>, taken: seq<Request>,
                     answers: seq<Answer>)
    requires Tracks(false, false, false, request, response, issued, taken, answers)
    ensures Tracks(false, false, true, request, response, issued, taken, answers)
  {
  }

  lemma TracksIssued(boot: U64, request: Request, response: Answer, issued: seq<Request>, taken: seq<Request>,
                     answers: seq<Answer>,
                     entryAt: Option<nat>, r: Request)
    requires Sound(boot, issued, taken, answers, entryAt) && Transferable(r)
    requires Tracks(false, false, false, request, response, issued, taken, answers)
    requires entryAt == None ==> !r.write || !TouchesBoot(boot, r.address, r.length)
    ensures Sound(boot, issued + [r], taken, answers, entryAt)
    ensures Tracks(true, false, false, r, response, issued + [r], taken, answers)
  {
    SoundIssued(boot, issued, taken, answers, entryAt, r);
  }

  lemma TracksPublished(boot: U64, request: Request, response: Answer, issued: seq<Request>, taken: seq<Request>,
                        answers: seq<Answer>,
                        entryAt: Option<nat>, entry: U64)
    requires Sound(boot, issued, taken, answers, entryAt) && boot % 8 == 0 && boot + 7 <= U64_MAX && entry != 0
    requires Tracks(false, false, false, request, response, issued, taken, answers)
    ensures var now, r := if entryAt == None then Some(|issued|) else entryAt, EntryWrite(boot, entry);
      Sound(boot, issued + [r], taken, answers, now) &&
        Tracks(true, false, false, r, response, issued + [r], taken, answers)
  {
    if entryAt == None {
      SoundPublished(boot, issued, taken, answers, entry);
    } else {
      SoundIssued(boot, issued, taken, answers, entryAt, EntryWrite(boot, entry));
    }
  }

  class Transport {
    const bootRegister: U64
    const xlen: nat
    var pending: bool
    var exposed: bool
    var accepted: bool
    var request: Request
    var response: Answer
    var loading: bool
    var failed: bool

    /** Requests made, requests the target accepted, and answers, in order; where the entry is. */
    ghost var issued: seq<Request>
    ghost var taken: seq<Request>
    ghost var answers: seq<Answer>
    ghost var entryAt: Option<nat>

    predicate RequestValid()
      reads this
    {
      pending && exposed && !accepted
    }

    predicate ResponseReady()
      reads this
    {
      pending && accepted
    }

    ghost predicate Valid()
      reads this
    {
      && bootRegister % 8 == 0 && bootRegister + 7 <= U64_MAX
      && (xlen == 32 || xlen == 64)
      && (exposed || accepted ==> pending) && (accepted ==> exposed)
      && Sound(bootRegister, issued, taken, answers, entryAt)
      && (failed ==> !pending) && Tracks(pending, accepted, failed, request, response, issued, taken, answers)
      && (loading <==> entryAt == None)
    }

    lemma HistorySound()
      requires Valid()
      ensures Sound(bootRegister, issued, taken, answers, entryAt)
    {
    }

    /** What the transport drives on its pins in this clock. */
    method PinsNow() returns (pins: Pins)
      requires Valid()
      ensures pins == PinsOf(State()) == Pins(if RequestValid() then Some(request) else None, ResponseReady())
    {
      hide Sound, Tracks;
      pins := Pins(if RequestValid() then Some(request) else None, ResponseReady());
    }

    constructor (boot: U64, width: nat)
      requires boot % 8 == 0 && (width == 32 || width == 64)
      ensures Valid() && bootRegister == boot && xlen == width && !pending && loading && !failed
      ensures issued == [] && taken == [] && answers == [] && entryAt == None && State() == START
    {
      bootRegister, xlen := boot, width;
      pending, exposed, accepted, loading, failed := false, false, false, true, false;
      request, response := Request(false, 0, 0, 0), Answer(0, 0);
      issued, taken, answers, entryAt := [], [], [], None;
    }

    /** What the registers mean. */
    ghost function State(): Host
      reads this
    {
      Host(if failed then Stopped else if !pending then Running else if !exposed then Waiting(request)
           else if !accepted then Offered(request) else Taken(request),
           loading, History(issued, taken, answers, entryAt))
    }

    /** The handshake half of a clock. */
    method Sample(ready: bool, answered: bool, answer: Answer)
      requires Valid()
      modifies this`exposed, this`accepted, this`pending, this`response, this`taken, this`answers, this`failed
      ensures Valid()
      ensures taken == old(taken) + (if old(RequestValid()) && ready then [old(request)] else [])
      ensures answers == old(answers) + (if old(pending) && !pending then [answer] else [])
      ensures old(pending) && !pending <==> answered && (old(ResponseReady()) || (old(RequestValid()) && ready))
      ensures pending ==> old(pending) && exposed && (accepted <==> old(accepted) || (old(RequestValid()) && ready))
      ensures failed <==> old(failed) || (old(pending) && !pending && answer.status != 0)
      ensures State() == Sampled(old(State()), Inputs(ready, answered, answer, Idle))
    {
      hide Sound, Tracks;
      if pending {
        if !exposed {
          exposed := true;
        } else if !accepted && ready {
          TracksTaken(bootRegister, request, response, issued, taken, answers, entryAt);
          accepted := true;
          taken := taken + [request];
        }
        if accepted && answered {
          Reply(answer);
        }
      }
    }

    /** The target answers the request it took. */
    method Reply(answer: Answer)
      requires Valid() && accepted
      modifies this`exposed, this`accepted, this`pending, this`response, this`answers, this`failed
      ensures Valid()
      ensures !pending && !exposed && !accepted && answers == old(answers) + [answer]
      ensures failed <==> answer.status != 0
    {
      hide Sound, Tracks;
      TracksAnswered(bootRegister, request, response, issued, taken, answers, entryAt, answer);
      response := answer;
      answers := answers + [answer];
      pending, exposed, accepted := false, false, false;
      if answer.status != 0 {
        failed := true;
      }
    }

    /** Starts a request: refused ones stop the host for good. */
    method Transact(r: Request)
      requires Valid() && !pending && !failed
      modifies this`request, this`pending, this`exposed, this`accepted, this`issued, this`failed
      ensures Valid()
      ensures failed <==> Refuses(bootRegister, loading, r)
      ensures issued == old(issued) + (if failed then [] else [r])
      ensures pending <==> !failed
      ensures pending ==> !exposed && request == r
      ensures State() == Acted(bootRegister, xlen, old(State()), Make(r))
    {
      hide Sound, Tracks;
      var fits := 0 < r.length && r.length <= 8 && r.address <= U64_MAX - (r.length - 1);
      if !fits || (loading && r.write && r.address <= bootRegister + 7 && bootRegister < r.address + r.length) {
        TracksFailed(request, response, issued, taken, answers);
        failed := true;
        return;
      }
      TracksIssued(bootRegister, request, response, issued, taken, answers, entryAt, r);
      request, pending, exposed, accepted := r, true, false, false;
      issued := issued + [r];
    }

    /** A call the host program turned down stops it for good. */
    method Fail()
      requires Valid() && !pending
      modifies this`failed
      ensures Valid() && failed
    {
      failed := true;
    }

    /** Publishes the entry: loading ends, and the entry goes to the boot register in one write. */
    method Boot(entry: U64)
      requires Valid() && !pending && !failed
      modifies this`request, this`pending, this`exposed, this`accepted, this`issued, this`failed, this`loading,
        this`entryAt
      ensures Valid()
      ensures failed <==> !EntryFits(xlen, entry)
      ensures issued == old(issued) + (if failed then [] else [EntryWrite(bootRegister, entry)])
      ensures entryAt == if !failed && old(loading) then Some(|old(issued)|) else old(entryAt)
      ensures pending <==> !failed
      ensures pending ==> !exposed && request == EntryWrite(bootRegister, entry)
      ensures loading <==> old(loading) && failed
      ensures State() == Acted(bootRegister, xlen, old(State()), Publish(entry))
    {
      hide Sound, Tracks;
      if entry == 0 || (xlen == 32 && entry > 0xFFFF_FFFF) {
        TracksFailed(request, response, issued, taken, answers);
        failed := true;
        return;
      }
      TracksPublished(bootRegister, request, response, issued, taken, answers, entryAt, entry);
      if loading {
        entryAt := Some(|issued|);
      }
      loading := false;
      request, pending, exposed, accepted := Request(true, bootRegister, entry, 8), true, false, false;
      issued := issued + [request];
    }

    /** One clock: the handshake, then the host runs if it is not waiting for an answer. */
    method Tick(ready: bool, answered: bool, answer: Answer, host: HostAction)
      requires Valid()
      modifies this
      ensures Valid()
      ensures State() == Next(bootRegister, xlen, old(State()), Inputs(ready, answered, answer, host))
      ensures taken == old(taken) + (if old(RequestValid()) && ready then [old(request)] else [])
      ensures answers == old(answers) +
        (if answered && (old(ResponseReady()) || (old(RequestValid()) && ready)) then [answer] else [])
      ensures old(RequestValid()) && !ready ==> RequestValid() && request == old(request) && issued == old(issued)
      ensures issued == old(issued) + (if pending && !exposed then [request] else [])
      ensures old(failed) ==> failed && issued == old(issued)
      ensures !old(failed) && (!old(pending) || (|answers| > |old(answers)| && answer.status == 0)) ==>
        issued == old(issued) + Accepted(bootRegister, xlen, old(loading), host)
      ensures old(pending) && |answers| == |old(answers)| ==> issued == old(issued)
      ensures entryAt == if old(loading) && !loading then Some(|old(issued)|) else old(entryAt)
      ensures old(loading) && !loading ==> host == Publish(issued[|old(issued)|].data) && |issued| == |old(issued)| + 1
      ensures !old(loading) ==> !loading
    {
      hide Sound, Tracks;
      Sample(ready, answered, answer);
      if !pending && !failed {
        match host
        case Idle =>
        case Make(r) => Transact(r);
        case Publish(entry) => Boot(entry);
      }
    }
  }

  /** Every run keeps the history sound and is what its inputs determine, on the pins and behind them. */
  method Run(boot: U64, xlen: nat, inputs: seq<Inputs>) returns (h: History, trace: seq<Pins>)
    requires boot % 8 == 0 && (xlen == 32 || xlen == 64)
    ensures trace == Trace(boot, xlen, inputs) && h == After(boot, xlen, inputs).history
    ensures Lawful(inputs, trace, h)
    ensures Sound(boot, h.issued, h.taken, h.answers, h.entryAt)
    ensures h.entryAt.Some? ==> exists i ::
      0 <= i < |inputs| && inputs[i].host == Publish(h.issued[h.entryAt.value].data)
  {
    hide Sound, Tracks, Next, After, Trace, Lawful, Transport.Valid, PinsOf;
    var unit := new Transport(boot, xlen);
    h, trace := History([], [], [], None), [];
    NothingYet(boot, xlen, inputs);
    for i := 0 to |inputs|
      invariant fresh(unit) && unit.Valid() && unit.bootRegister == boot && unit.xlen == xlen
      invariant unit.State() == After(boot, xlen, inputs[..i]) && trace == Trace(boot, xlen, inputs[..i])
      invariant h == History(unit.issued, unit.taken, unit.answers, unit.entryAt)
    {
      var now := inputs[i];
      var pins := unit.PinsNow();
      OneMoreClock(boot, xlen, inputs, i, trace);
      trace := trace + [pins];
      var loading, serving := unit.loading, pins.offered.Some? && now.ready;
      if serving {
        h := h.(taken := h.taken + [pins.offered.value]);
      }
      if now.answered && (pins.responseReady || serving) {
        h := h.(answers := h.answers + [now.answer]);
      }
      unit.Tick(now.ready, now.answered, now.answer, now.host);
      if loading && !unit.loading {
        h := h.(entryAt := Some(|h.issued|));
      }
      if unit.pending && !unit.exposed {
        h := h.(issued := h.issued + [unit.request]);
      }
    }
    assert inputs[..|inputs|] == inputs;
    unit.HistorySound();
    RunLawful(boot, xlen, inputs);
    EntryAsked(boot, xlen, inputs);
  }
}

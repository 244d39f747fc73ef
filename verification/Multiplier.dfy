/** The iterative multiplier: a clock for the magnitudes, then one multiplier bit a clock, and a response
    that stays until it is taken. */
module Multiplier {
  import opened Power
  import opened Division
  import opened Options
  import opened OneAtATime
  import opened Multiplication

  // ---------------------------------------------------------------- one iteration

  function Accumulated(w: nat, multiplicand: nat, multiplier: nat, accumulator: nat): nat {
    Wrap(2 * w, accumulator + (if multiplier % 2 == 1 then multiplicand else 0))
  }

  /** After `k` iterations on magnitudes `l` and `r`, the accumulator holds `l` times the `k` low bits of
      `r`, and nothing has been lost from any register. */
  ghost predicate Summing(l: nat, r: nat, k: nat, multiplicand: nat, multiplier: nat, accumulator: nat) {
    && multiplicand == l * Pow2(k) && multiplier == r / Pow2(k)
    && accumulator == l * (r % Pow2(k))
  }

  lemma SummingStart(l: nat, r: nat)
    ensures Summing(l, r, 0, l, r, 0)
  {
  }

  /** The low bits of `r` below `k + 1`. */
  lemma NextBit(r: nat, k: nat)
    ensures r / Pow2(k + 1) == r / Pow2(k) / 2
    ensures r % Pow2(k + 1) == r % Pow2(k) + (if r / Pow2(k) % 2 == 1 then Pow2(k) else 0)
  {
    DivideTwice(r, Pow2(k), 2);
    assert Pow2(k + 1) == Pow2(k) * 2;
  }

  lemma AddPartial(l: nat, low: nat, b: nat)
    ensures l * (low + b) == l * low + l * b
    ensures l * (2 * b) == 2 * (l * b)
  {
  }

  /** A partial product of `w`-bit magnitudes fits twice the width. */
  lemma NoOverflow(w: nat, l: nat, k: nat, x: nat)
    requires l < Pow2(w) && k <= w && x <= Pow2(k)
    ensures l * x < Pow2(2 * w)
  {
    Pow2Grows(k, w);
    Pow2Add(w, w);
    hide Pow2;
    ProductBelow(l, x, Pow2(w));
  }

  lemma ProductBelow(l: nat, x: nat, p: nat)
    requires l < p && x <= p
    ensures l * x < p * p
  {
    MulGrows(l, x, p);
    Distribute(p, l, p);
    MulPositive(p - l, p);
  }

  /** Each iteration adds one partial product without overflow. */
  lemma SummingStep(w: nat, l: nat, r: nat, k: nat, multiplicand: nat, multiplier: nat, accumulator: nat)
    requires k < w && l < Pow2(w) && Summing(l, r, k, multiplicand, multiplier, accumulator)
    ensures Summing(l, r, k + 1, Wrap(2 * w, 2 * multiplicand), multiplier / 2,
                    Accumulated(w, multiplicand, multiplier, accumulator))
  {
    var b, low := Pow2(k), r % Pow2(k);
    NextBit(r, k);
    AddPartial(l, low, b);
    Quotient(r, b);
    assert Pow2(k + 1) == 2 * b;
    NoOverflow(w, l, k + 1, low + b);
    NoOverflow(w, l, k, low);
    NoOverflow(w, l, k + 1, 2 * b);
    hide Pow2, Wrap;
    WrapSmall(2 * w, 2 * multiplicand);
    WrapSmall(2 * w, accumulator + (if multiplier % 2 == 1 then multiplicand else 0));
  }

  /** With every bit consumed the accumulator is the product of the magnitudes. */
  lemma SummingDone(w: nat, l: nat, r: nat, multiplicand: nat, multiplier: nat, accumulator: nat)
    requires r < Pow2(w) && Summing(l, r, w, multiplicand, multiplier, accumulator)
    ensures accumulator == l * r
  {
    DivideUnique(r, Pow2(w), 0, r);
  }

  /** The sign is restored on the double-width magnitude. */
  lemma RestoreSign(w: nat, f: Factors)
    requires 0 < w && InWidth(w, f)
    ensures var l, r := Operand(w, f.leftSigned, f.left), Operand(w, f.rightSigned, f.right);
      var m := Magnitude(l) * Magnitude(r);
      Product(w, f) == (if (l < 0) != (r < 0) then Negate(2 * w, m) else m)
  {
    hide Pow2, Wrap, Operand;
    var l, r := Operand(w, f.leftSigned, f.left), Operand(w, f.rightSigned, f.right);
    MagnitudeBits(w, f.leftSigned, f.left);
    MagnitudeBits(w, f.rightSigned, f.right);
    SignOfProduct(l, r);
    var m := Magnitude(l) * Magnitude(r);
    Pow2Add(w, w);
    StrictProduct(Magnitude(l), Magnitude(r), Pow2(w), Pow2(w));
    WrapSmall(2 * w, m);
  }

  // ---------------------------------------------------------------- register contents

  ghost predicate Signs(w: nat, f: Factors, leftNegative: bool, rightNegative: bool)
    requires 0 < w
  {
    && leftNegative == (Operand(w, f.leftSigned, f.left) < 0)
    && rightNegative == (Operand(w, f.rightSigned, f.right) < 0)
  }

  ghost predicate Progress(w: nat, f: Factors, k: nat, multiplicand: nat, multiplier: nat, accumulator: nat)
    requires 0 < w
  {
    var l, r := Operand(w, f.leftSigned, f.left), Operand(w, f.rightSigned, f.right);
    Magnitude(l) < Pow2(w) && Magnitude(r) < Pow2(w) &&
      Summing(Magnitude(l), Magnitude(r), k, multiplicand, multiplier, accumulator)
  }

  lemma Prepare(w: nat, f: Factors, leftNegative: bool, rightNegative: bool)
    requires 0 < w && InWidth(w, f) && Signs(w, f, leftNegative, rightNegative)
    ensures var l := if leftNegative then Negate(w, Wrap(w, f.left)) else Wrap(w, f.left);
      var r := if rightNegative then Negate(w, f.right) else f.right;
      Progress(w, f, 0, l, r, 0)
  {
    MagnitudeBits(w, f.leftSigned, f.left);
    MagnitudeBits(w, f.rightSigned, f.right);
    WrapSmall(w, f.left);
    SummingStart(Magnitude(Operand(w, f.leftSigned, f.left)), Magnitude(Operand(w, f.rightSigned, f.right)));
  }

  lemma SignBits(w: nat, f: Factors)
    requires 0 < w && InWidth(w, f)
    ensures Signs(w, f, Negative(w, f.leftSigned, f.left), Negative(w, f.rightSigned, f.right))
  {
    NegativeTopBit(w, f.left);
    NegativeTopBit(w, f.right);
    MagnitudeBits(w, f.leftSigned, f.left);
    MagnitudeBits(w, f.rightSigned, f.right);
  }

  lemma Iterate(w: nat, f: Factors, k: nat, multiplicand: nat, multiplier: nat, accumulator: nat)
    requires 0 < w && k < w && Progress(w, f, k, multiplicand, multiplier, accumulator)
    ensures Progress(w, f, k + 1, Wrap(2 * w, 2 * multiplicand), multiplier / 2,
                     Accumulated(w, multiplicand, multiplier, accumulator))
  {
    var l, r := Operand(w, f.leftSigned, f.left), Operand(w, f.rightSigned, f.right);
    hide Operand, Pow2, Summing;
    SummingStep(w, Magnitude(l), Magnitude(r), k, multiplicand, multiplier, accumulator);
  }

  lemma Finished(w: nat, f: Factors, multiplicand: nat, multiplier: nat, accumulated: nat, leftNegative: bool,
                 rightNegative: bool)
    requires 0 < w && InWidth(w, f) && Signs(w, f, leftNegative, rightNegative)
    requires Progress(w, f, w, multiplicand, multiplier, accumulated)
    ensures Product(w, f) == (if leftNegative != rightNegative then Negate(2 * w, accumulated) else accumulated)
  {
    RestoreSign(w, f);
    hide Operand, Pow2, Summing, Product, Negate;
    SummingDone(w, Magnitude(Operand(w, f.leftSigned, f.left)), Magnitude(Operand(w, f.rightSigned, f.right)),
                multiplicand, multiplier, accumulated);
  }

  /** The response to a request; the requests of a run fit the width. */
  ghost function Answering(w: nat): Factors -> nat
    requires 0 < w
  {
    (r: Factors) => if InWidth(w, r) then Product(w, r) else 0
  }

  /** The responses given are the specified ones for the first requests, in order. */
  ghost predicate Answered(w: nat, accepted: seq<Factors>, delivered: seq<nat>)
    requires 0 < w
  {
    && |delivered| <= |accepted|
    && (forall f <- accepted :: InWidth(w, f))
    && (forall i :: 0 <= i < |delivered| ==> delivered[i] == Product(w, accepted[i]))
  }

  lemma AnsweredAccept(w: nat, accepted: seq<Factors>, delivered: seq<nat>, f: Factors)
    requires 0 < w && Answered(w, accepted, delivered) && InWidth(w, f)
    ensures Answered(w, accepted + [f], delivered)
    ensures |accepted| == |delivered| ==> (accepted + [f])[|delivered|] == f
  {
  }

  lemma AnsweredDeliver(w: nat, accepted: seq<Factors>, delivered: seq<nat>)
    requires 0 < w && Answered(w, accepted, delivered) && |delivered| < |accepted|
    ensures InWidth(w, accepted[|delivered|])
    ensures Answered(w, accepted, delivered + [Product(w, accepted[|delivered|])])
  {
  }

  // ---------------------------------------------------------------- the unit

  class IterativeMultiplier {
    const width: nat
    var active: bool
    var preparing: bool
    var leftNegative: bool
    var rightNegative: bool
    var count: nat
    var multiplicand: nat
    var multiplier: nat
    var accumulator: nat
    var negateResult: bool
    var responseValid: bool
    var response: nat

    /** Requests taken and responses given so far. */
    ghost var accepted: seq<Factors>
    ghost var delivered: seq<nat>

    predicate RequestReady(responseReady: bool)
      reads this
    {
      !active && (!responseValid || responseReady)
    }

    ghost predicate Working(f: Factors)
      reads this
      requires 0 < width
    {
      && Signs(width, f, leftNegative, rightNegative) && negateResult == (leftNegative != rightNegative)
      && (if preparing then multiplicand == f.left && multiplier == f.right && accumulator == 0 && count == 0
          else count < width && Progress(width, f, count, multiplicand, multiplier, accumulator))
    }

    /** Every response given is the exact product, in request order, and at most one is owed. */
    ghost predicate Valid()
      reads this
    {
      && 0 < width && (preparing ==> active) && (active ==> !responseValid)
      && Answered(width, accepted, delivered)
      && |accepted| == |delivered| + (if active || responseValid then 1 else 0)
      && (responseValid ==> response == Product(width, accepted[|delivered|]))
      && (active ==> Working(accepted[|delivered|]))
    }

    /** Clock edges until the response is offered. */
    ghost function Remaining(): nat
      reads this
      requires Valid()
    {
      if active then width - count + (if preparing then 1 else 0) else 0
    }

    /** What the registers mean. */
    ghost function Stage(): Stage<Factors>
      reads this
      requires Valid()
    {
      if active then Computing(accepted[|delivered|], Remaining())
      else if responseValid then Offering(accepted[|delivered|])
      else Idle
    }

    lemma Serves()
      requires Valid()
      ensures Answered(width, accepted, delivered)
    {
    }

    /** What the unit drives on its pins in this clock. */
    method PinsNow(i: Inputs<Factors>) returns (pins: Wires<nat>)
      requires Valid()
      ensures pins == Wires(RequestReady(i.responseReady), if responseValid then Some(response) else None)
      ensures pins == Pins(Answering(width), Stage(), i)
    {
      pins := Wires(RequestReady(i.responseReady), if responseValid then Some(response) else None);
    }

    constructor (w: nat)
      requires 0 < w
      ensures Valid() && width == w && accepted == [] && delivered == [] && !active && !responseValid && Stage() == Idle
    {
      width := w;
      active, preparing, count, responseValid, response := false, false, 0, false, 0;
      leftNegative, rightNegative, negateResult := false, false, false;
      multiplicand, multiplier, accumulator := 0, 0, 0;
      accepted, delivered := [], [];
    }

    /** Load a request into an idle unit. */
    method Load(f: Factors)
      requires 0 < width && InWidth(width, f)
      modifies this`active, this`preparing, this`leftNegative, this`rightNegative, this`count,
        this`multiplicand, this`multiplier, this`accumulator, this`negateResult
      ensures active && preparing && Working(f)
    {
      hide Signs, Negative;
      SignBits(width, f);
      active, preparing, count := true, true, 0;
      leftNegative, rightNegative := Negative(width, f.leftSigned, f.left), Negative(width, f.rightSigned, f.right);
      multiplicand, multiplier, accumulator := f.left, f.right, 0;
      negateResult := leftNegative != rightNegative;
    }

    /** One step of the unfinished request. */
    method Advance()
      requires Valid() && active
      modifies this`active, this`preparing, this`count, this`multiplicand, this`multiplier, this`accumulator,
        this`responseValid, this`response
      ensures Valid()
      ensures Remaining() == old(Remaining()) - 1
    {
      hide Answered, Progress, Signs, InWidth, Product, Negate, Wrap, Accumulated;
      AnsweredDeliver(width, accepted, delivered);
      ghost var f := accepted[|delivered|];
      if preparing {
        Prepare(width, f, leftNegative, rightNegative);
        preparing := false;
        var left := Wrap(width, multiplicand);
        multiplicand := if leftNegative then Negate(width, left) else left;
        multiplier := if rightNegative then Negate(width, multiplier) else multiplier;
      } else {
        Iterate(width, f, count, multiplicand, multiplier, accumulator);
        var accumulated := Accumulated(width, multiplicand, multiplier, accumulator);
        if count == width - 1 {
          Finished(width, f, Wrap(2 * width, 2 * multiplicand), multiplier / 2, accumulated, leftNegative,
            rightNegative);
          active, responseValid := false, true;
          response := if negateResult then Negate(2 * width, accumulated) else accumulated;
        } else {
          count := count + 1;
          multiplicand, multiplier, accumulator := Wrap(2 * width, 2 * multiplicand), multiplier / 2, accumulated;
        }
      }
    }

    /** One rising edge. */
    method Clock(requestValid: bool, request: Factors, responseReady: bool)
      requires Valid() && (requestValid ==> InWidth(width, request))
      modifies this
      ensures Valid()
      ensures Stage() == Next(width + 1, old(Stage()), Inputs(requestValid, request, responseReady))
      ensures accepted == old(accepted) + (if requestValid && old(RequestReady(responseReady)) then [request] else [])
      ensures delivered == old(delivered) + (if old(responseValid) && responseReady then [old(response)] else [])
      ensures old(responseValid) && !responseReady ==> responseValid && response == old(response)
      ensures requestValid && old(RequestReady(responseReady)) ==> Remaining() == width + 1
      ensures old(active) ==> Remaining() == old(Remaining()) - 1
      ensures !old(active) && !requestValid ==> !active
    {
      hide Answered, InWidth, Product, Signs, Progress;
      var requestFire := requestValid && RequestReady(responseReady);
      if responseValid && responseReady {
        AnsweredDeliver(width, accepted, delivered);
        delivered := delivered + [response];
        responseValid := false;
      }
      if requestFire {
        AnsweredAccept(width, accepted, delivered, request);
        accepted := accepted + [request];
        Load(request);
      } else if active {
        Advance();
      }
    }
  }

  /** Any run from reset, whatever the requests and the backpressure. The pins are those of a unit that
      serves one request at a time, `width + 2` clocks from taking it to offering its response; the laws,
      which only these pins keep, say so without naming the unit. */
  method Run(w: nat, inputs: seq<Inputs<Factors>>)
    returns (accepted: seq<Factors>, delivered: seq<nat>, trace: seq<Wires<nat>>)
    requires 0 < w && forall i <- inputs :: i.requestValid ==> InWidth(w, i.request)
    ensures Lawful(w + 1, Answering(w), inputs, trace)
    ensures accepted == Fired(inputs, trace) && delivered == Given(inputs, trace)
    ensures InOrder(Answering(w), accepted, delivered) && Answered(w, accepted, delivered)
    ensures w + 2 <= |inputs| && QuietFrom(inputs, |inputs| - (w + 2)) ==> |accepted| == |delivered|
  {
    hide Lawful, InOrder, Behaviour, Fired, Given, StageAfter, Next, Pins, QuietFrom, Answering, Answered;
    hide IterativeMultiplier.Valid, IterativeMultiplier.Stage;
    var unit := new IterativeMultiplier(w);
    accepted, delivered, trace := [], [], [];
    NothingYet(w + 1, Answering(w), inputs);
    for i := 0 to |inputs|
      invariant fresh(unit) && unit.Valid() && unit.width == w
      invariant unit.Stage() == StageAfter(w + 1, inputs[..i])
      invariant trace == Behaviour(w + 1, Answering(w), inputs[..i])
      invariant accepted == Fired(inputs[..i], trace) && delivered == Given(inputs[..i], trace)
      invariant unit.accepted == accepted && unit.delivered == delivered
    {
      var now := inputs[i];
      var pins := unit.PinsNow(now);
      OneMoreClock(w + 1, Answering(w), inputs, i, trace);
      accepted := accepted + (if Fires(now, pins) then [now.request] else []);
      delivered := delivered + (if Gives(now, pins) then [pins.offered.value] else []);
      trace := trace + [pins];
      unit.Clock(now.requestValid, now.request, now.responseReady);
    }
    assert inputs[..|inputs|] == inputs;
    unit.Serves();
    WholeRun(w + 1, Answering(w), inputs);
  }
}

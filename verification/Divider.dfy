/** The iterative divider: one quotient bit a clock, a clock for the signs, and a response that stays
    until it is taken. */
module Divider {
  import opened Power
  import opened Division
  import opened Options
  import opened OneAtATime

  // ---------------------------------------------------------------- one iteration

  /** The partial remainder with the next dividend bit appended. */
  function Shifted(w: nat, dividend: nat, partial: nat): nat
    requires 0 < w
  {
    Wrap(w, partial) * 2 + dividend / Pow2(w - 1)
  }

  /** Trial subtraction in one bit more than the width; its top bit is the borrow. */
  function Difference(w: nat, dividend: nat, divisor: nat, partial: nat): nat
    requires 0 < w
  {
    Wrap(w + 1, Shifted(w, dividend, partial) - divisor)
  }

  function QuotientBit(w: nat, dividend: nat, divisor: nat, partial: nat): nat
    requires 0 < w
  {
    if Difference(w, dividend, divisor, partial) / Pow2(w) == 0 then 1 else 0
  }

  function NextRemainder(w: nat, dividend: nat, divisor: nat, partial: nat): nat
    requires 0 < w
  {
    if QuotientBit(w, dividend, divisor, partial) == 1 then Difference(w, dividend, divisor, partial)
    else Shifted(w, dividend, partial)
  }

  function NextDividend(w: nat, dividend: nat, divisor: nat, partial: nat): nat
    requires 0 < w
  {
    Wrap(w, 2 * dividend) + QuotientBit(w, dividend, divisor, partial)
  }

  /** After `k` iterations on magnitudes `n` and `d`, the dividend register holds the unread low bits
      of `n` above the `k` quotient bits, and the bits already read divide into quotient and partial
      remainder. */
  ghost predicate Restoring(w: nat, k: nat, n: nat, d: nat, dividend: nat, partial: nat, low: nat, q: nat) {
    && k <= w && low < Pow2(w - k) && q < Pow2(k)
    && Packed(dividend, low, Pow2(k), q) && partial < d && Divided(n, q, d, partial, Pow2(w - k), low)
  }

  ghost predicate Packed(dividend: nat, low: nat, b: nat, q: nat) {
    dividend == low * b + q
  }

  ghost predicate Divided(n: nat, q: nat, d: nat, partial: nat, h: nat, low: nat) {
    n == (q * d + partial) * h + low
  }

  /** A trial subtraction without borrow is exact; with borrow it is discarded. */
  lemma TrialSubtraction(w: nat, s: nat, d: nat)
    requires d < Pow2(w) && s < 2 * d
    ensures (Wrap(w + 1, s - d) / Pow2(w) == 0 <==> d <= s) && (d <= s ==> Wrap(w + 1, s - d) == s - d)
  {
    assert Pow2(w + 1) == 2 * Pow2(w);
    if d <= s {
      WrapUnique(w + 1, s - d, 0, s - d);
      DivideUnique(s - d, Pow2(w), 0, s - d);
    } else {
      WrapUnique(w + 1, s - d, -1, s - d + Pow2(w + 1));
      DivideUnique(s - d + Pow2(w + 1), Pow2(w), 1, s - d + Pow2(w));
    }
  }

  /** The top bit of the dividend register is `t`, the top unread bit of the dividend. */
  lemma TopBit(w: nat, k: nat, t: nat, m: nat, q: nat)
    requires k < w && m < Pow2(w - k - 1) && q < Pow2(k)
    ensures var low := t * Pow2(w - k - 1) + m;
      t <= 1 ==>
        (low * Pow2(k) + q) / Pow2(w - 1) == t &&
        Wrap(w, 2 * (low * Pow2(k) + q)) == m * Pow2(k + 1) + 2 * q
  {
    var h, b := Pow2(w - k - 1), Pow2(k);
    Halves(w);
    Halves(k + 1);
    Pow2Add(w - k - 1, k);
    hide Pow2, Wrap;
    var low := t * h + m;
    TopPart(low, h, t, m, b, q, Pow2(w - 1));
    WrapUnique(w, 2 * (low * b + q), t, m * Pow2(k + 1) + 2 * q);
  }

  /** The unread bits are a top bit and the rest. */
  lemma Unread(low: nat, h: nat) returns (t: nat, m: nat)
    requires low < 2 * h
    ensures low == t * h + m && m < h && t <= 1
  {
    t, m := low / h, low % h;
    Quotient(low, h);
    AtMostOne(t, m, h);
  }

  lemma TopPart(low: nat, h: nat, t: nat, m: nat, b: nat, q: nat, p: nat)
    requires low == t * h + m && m < h && q < b && p == h * b
    ensures (low * b + q) / p == t
    ensures 2 * (low * b + q) == t * (2 * p) + (m * (2 * b) + 2 * q) && m * (2 * b) + 2 * q < 2 * p
  {
    Expand(t, h, m, b);
    SmallSum(m, h, b, q);
    DivideUnique(low * b + q, p, t, m * b + q);
    Double(m, b);
    Double(t, p);
  }

  lemma AtMostOne(t: nat, m: nat, h: nat)
    requires t * h + m < 2 * h
    ensures t <= 1
  {
    if 2 <= t {
      MulGrows(h, 2, t);
    }
  }

  lemma Expand(t: nat, h: nat, m: nat, b: nat)
    ensures (t * h + m) * b == t * (h * b) + m * b
  {
  }

  lemma Double(m: nat, b: nat)
    ensures m * (2 * b) == 2 * (m * b)
  {
  }

  lemma SmallSum(m: nat, h: nat, b: nat, q: nat)
    requires m < h && q < b
    ensures m * b + q < h * b
  {
    MulGrows(b, m, h - 1);
    Distribute(h, 1, b);
  }

  /** The division identity one bit further on. */
  lemma NextIdentity(n: nat, d: nat, partial: nat, q: nat, h: nat, low: nat, t: nat, m: nat, bit: nat, next: nat)
    requires Divided(n, q, d, partial, 2 * h, low) && low == t * h + m && bit <= 1
    requires next + (if bit == 1 then d else 0) == 2 * partial + t
    ensures Divided(n, 2 * q + bit, d, next, h, m)
  {
    var a := q * d + partial;
    assert a * (2 * h) == (2 * a) * h;
    SplitProduct(2 * a, t, h);
    TwiceAndBit(q, bit, d);
  }

  lemma SplitProduct(a: int, t: int, h: int)
    ensures (a + t) * h == a * h + t * h
  {
  }

  lemma TwiceAndBit(q: nat, bit: nat, d: nat)
    requires bit <= 1
    ensures (2 * q + bit) * d == 2 * (q * d) + (if bit == 1 then d else 0)
  {
  }

  /** What one iteration leaves in the registers. */
  lemma RegistersStep(w: nat, k: nat, d: nat, dividend: nat, t: nat, m: nat, q: nat, partial: nat)
    requires k < w && 0 < d < Pow2(w) && Packed(dividend, t * Pow2(w - k - 1) + m, Pow2(k), q)
    requires t <= 1 && m < Pow2(w - k - 1) && q < Pow2(k) && partial < d
    ensures var s, bit := 2 * partial + t, QuotientBit(w, dividend, d, partial);
      && bit == (if d <= s then 1 else 0)
      && Packed(NextDividend(w, dividend, d, partial), m, Pow2(k + 1), 2 * q + bit)
      && NextRemainder(w, dividend, d, partial) == (if d <= s then s - d else s) < d
  {
    hide Pow2, Wrap;
    TopBit(w, k, t, m, q);
    WrapSmall(w, partial);
    TrialSubtraction(w, 2 * partial + t, d);
  }

  /** One iteration reads one more dividend bit and writes one more quotient bit. */
  lemma RestoringStep(w: nat, k: nat, n: nat, d: nat, dividend: nat, partial: nat, low: nat, q: nat)
    returns (low': nat, q': nat)
    requires k < w && 0 < d < Pow2(w) && Restoring(w, k, n, d, dividend, partial, low, q)
    ensures Restoring(w, k + 1, n, d, NextDividend(w, dividend, d, partial), NextRemainder(w, dividend, d, partial),
      low', q')
  {
    hide Pow2, QuotientBit, NextDividend, NextRemainder, Packed, Divided;
    Halves(w - k);
    Halves(k + 1);
    var h := Pow2(w - k - 1);
    var t, m := Unread(low, h);
    RegistersStep(w, k, d, dividend, t, m, q, partial);
    var bit := QuotientBit(w, dividend, d, partial);
    NextIdentity(n, d, partial, q, h, low, t, m, bit, NextRemainder(w, dividend, d, partial));
    low', q' := m, 2 * q + bit;
  }

  /** With no unread bits left, the registers hold the quotient and remainder. */
  lemma RestoringDone(w: nat, n: nat, d: nat, dividend: nat, partial: nat, low: nat, q: nat)
    requires 0 < d && Restoring(w, w, n, d, dividend, partial, low, q)
    ensures dividend == n / d && partial == n % d
  {
    assert Pow2(0) == 1 && low == 0;
    DivideUnique(n, d, q, partial);
  }

  lemma RestoringStart(w: nat, n: nat, d: nat)
    requires 0 < d && n < Pow2(w)
    ensures Restoring(w, 0, n, d, n, 0, n, 0)
  {
  }

  /** Conditional negation of the magnitudes gives the wrapped signed results. */
  lemma Finalize(w: nat, n: int, d: int, q: nat, r: nat)
    requires 0 < w && d != 0 && Magnitude(n) < Pow2(w)
    requires q == Magnitude(n) / Magnitude(d) && r == Magnitude(n) % Magnitude(d)
    ensures Wrap(w, TruncatedQuotient(n, d)) == (if (n < 0) != (d < 0) then Negate(w, q) else q)
    ensures Wrap(w, TruncatedRemainder(n, d)) == (if n < 0 then Negate(w, r) else r)
  {
    hide Wrap, Pow2;
    QuotientBound(Magnitude(n), Magnitude(d));
    Quotient(Magnitude(n), Magnitude(d));
    RemainderNoMore(Magnitude(n), Magnitude(d));
    WrapSmall(w, q);
    WrapSmall(w, r);
  }

  lemma RemainderNoMore(n: nat, d: nat)
    requires 0 < d
    ensures n % d <= n
  {
    Quotient(n, d);
    MulGrows(d, 0, n / d);
  }

  /** The registers after `k` iterations on a request's magnitudes; a zero divisor is not tracked. */
  ghost predicate Progress(w: nat, r: Request, k: nat, dividend: nat, partial: nat)
    requires 0 < w
  {
    var n, d := Operand(w, r.signed, r.dividend), Operand(w, r.signed, r.divisor);
    d != 0 ==> exists low, q :: Restoring(w, k, Magnitude(n), Magnitude(d), dividend, partial, low, q)
  }

  /** The divisor register and the flags taken with a request. */
  ghost predicate Captured(w: nat, r: Request, divisor: nat, negateQuotient: bool, negateRemainder: bool)
    requires 0 < w
  {
    var n, d := Operand(w, r.signed, r.dividend), Operand(w, r.signed, r.divisor);
    && divisor == Magnitude(d) < Pow2(w) && Magnitude(n) < Pow2(w) && (d == 0 <==> r.divisor == 0)
    && negateQuotient == ((n < 0) != (d < 0)) && negateRemainder == (n < 0)
  }

  lemma Capture(w: nat, r: Request)
    requires 0 < w && Fits(w, r)
    ensures var minusN, minusD := Negative(w, r.signed, r.dividend), Negative(w, r.signed, r.divisor);
      var n, d := if minusN then Negate(w, r.dividend) else r.dividend, if minusD then Negate(w, r.divisor)
        else r.divisor;
      Captured(w, r, d, minusN != minusD, minusN) && Progress(w, r, 0, n, 0)
  {
    NegativeTopBit(w, r.dividend);
    NegativeTopBit(w, r.divisor);
    MagnitudeBits(w, r.signed, r.dividend);
    MagnitudeBits(w, r.signed, r.divisor);
    ZeroOperand(w, r.signed, r.divisor);
    var n, d := Operand(w, r.signed, r.dividend), Operand(w, r.signed, r.divisor);
    hide Operand, Negate, Pow2, Restoring;
    if d != 0 {
      RestoringStart(w, Magnitude(n), Magnitude(d));
    }
  }

  lemma ZeroOperand(w: nat, signed: bool, x: nat)
    requires 0 < w && x < Pow2(w)
    ensures Operand(w, signed, x) == 0 <==> x == 0
  {
    Halves(w);
  }

  lemma Iterate(w: nat, r: Request, k: nat, dividend: nat, divisor: nat, partial: nat, nq: bool, nr: bool)
    requires 0 < w && k < w && Captured(w, r, divisor, nq, nr) && Progress(w, r, k, dividend, partial)
    ensures Progress(w, r, k + 1, NextDividend(w, dividend, divisor, partial),
      NextRemainder(w, dividend, divisor, partial))
  {
    var n, d := Operand(w, r.signed, r.dividend), Operand(w, r.signed, r.divisor);
    hide Restoring, NextDividend, NextRemainder, Operand, Pow2;
    if d != 0 {
      var low, q :| Restoring(w, k, Magnitude(n), Magnitude(d), dividend, partial, low, q);
      var low', q' := RestoringStep(w, k, Magnitude(n), divisor, dividend, partial, low, q);
    }
  }

  /** What the finalizing clock puts in the response register. */
  function FinalResponse(w: nat, dividend: nat, partial: nat, negateQuotient: bool, negateRemainder: bool,
                         divideByZero: bool, originalDividend: nat): Response {
    var magnitude := Wrap(w, partial);
    if divideByZero then Response(Pow2(w) - 1, originalDividend)
    else Response(if negateQuotient then Negate(w, dividend) else dividend,
                  if negateRemainder then Negate(w, magnitude) else magnitude)
  }

  lemma Finished(w: nat, r: Request, dividend: nat, divisor: nat, partial: nat, nq: bool, nr: bool)
    requires 0 < w && Fits(w, r) && Captured(w, r, divisor, nq, nr) && Progress(w, r, w, dividend, partial)
    ensures FinalResponse(w, dividend, partial, nq, nr, r.divisor == 0, r.dividend) == Divide(w, r)
  {
    var n, d := Operand(w, r.signed, r.dividend), Operand(w, r.signed, r.divisor);
    hide Restoring, Operand, Pow2, Wrap, Negate;
    if d != 0 {
      var low, q :| Restoring(w, w, Magnitude(n), Magnitude(d), dividend, partial, low, q);
      RestoringDone(w, Magnitude(n), Magnitude(d), dividend, partial, low, q);
      Finalize(w, n, d, dividend, partial);
      RemainderNoMore(Magnitude(n), Magnitude(d));
      WrapSmall(w, partial);
    }
  }

  /** The response to a request; the requests of a run fit the width. */
  ghost function Answering(w: nat): Request -> Response
    requires 0 < w
  {
    (r: Request) => if Fits(w, r) then Divide(w, r) else Response(0, 0)
  }

  /** The responses given are the specified ones for the first requests, in order. */
  ghost predicate Answered(w: nat, accepted: seq<Request>, delivered: seq<Response>)
    requires 0 < w
  {
    && |delivered| <= |accepted|
    && (forall r <- accepted :: Fits(w, r))
    && (forall i :: 0 <= i < |delivered| ==> delivered[i] == Divide(w, accepted[i]))
  }

  lemma AnsweredAccept(w: nat, accepted: seq<Request>, delivered: seq<Response>, r: Request)
    requires 0 < w && Answered(w, accepted, delivered) && Fits(w, r)
    ensures Answered(w, accepted + [r], delivered)
    ensures |accepted| == |delivered| ==> (accepted + [r])[|delivered|] == r
  {
  }

  lemma AnsweredDeliver(w: nat, accepted: seq<Request>, delivered: seq<Response>)
    requires 0 < w && Answered(w, accepted, delivered) && |delivered| < |accepted|
    ensures Fits(w, accepted[|delivered|])
    ensures Answered(w, accepted, delivered + [Divide(w, accepted[|delivered|])])
  {
  }

  // ---------------------------------------------------------------- the unit

  class IterativeDivider {
    const width: nat
    var active: bool
    var finalizing: bool
    var count: nat
    var dividend: nat
    var divisor: nat
    var partialRemainder: nat
    var negateQuotient: bool
    var negateRemainder: bool
    var divideByZero: bool
    var originalDividend: nat
    var responseValid: bool
    var response: Response

    /** Requests taken and responses given so far. */
    ghost var accepted: seq<Request>
    ghost var delivered: seq<Response>

    predicate RequestReady(responseReady: bool)
      reads this
    {
      !active && !finalizing && (!responseValid || responseReady)
    }

    /** The registers hold an unfinished request. */
    predicate Busy()
      reads this
    {
      active || finalizing
    }

    ghost predicate Working(r: Request)
      reads this
      requires 0 < width
    {
      && originalDividend == r.dividend && divideByZero == (r.divisor == 0)
      && Captured(width, r, divisor, negateQuotient, negateRemainder)
      && (active ==> count < width && Progress(width, r, count, dividend, partialRemainder))
      && (finalizing ==> Progress(width, r, width, dividend, partialRemainder))
    }

    /** Every response given is the specified one, in request order, and at most one is owed. */
    ghost predicate Valid()
      reads this
    {
      && 0 < width && !(active && finalizing) && (Busy() ==> !responseValid)
      && Answered(width, accepted, delivered)
      && |accepted| == |delivered| + (if Busy() || responseValid then 1 else 0)
      && (responseValid ==> response == Divide(width, accepted[|delivered|]))
      && (Busy() ==> Working(accepted[|delivered|]))
    }

    /** Clock edges until the response is offered. */
    ghost function Remaining(): (edges: nat)
      reads this
      requires Valid()
      ensures edges == 0 <==> !Busy()
    {
      if active then width - count + 1 else if finalizing then 1 else 0
    }

    /** What the registers mean. */
    ghost function Stage(): Stage<Request>
      reads this
      requires Valid()
    {
      if Busy() then Computing(accepted[|delivered|], Remaining())
      else if responseValid then Offering(accepted[|delivered|])
      else Idle
    }

    lemma Serves()
      requires Valid()
      ensures Answered(width, accepted, delivered)
    {
    }

    /** What the unit drives on its pins in this clock. */
    method PinsNow(i: Inputs<Request>) returns (pins: Wires<Response>)
      requires Valid()
      ensures pins == Wires(RequestReady(i.responseReady), if responseValid then Some(response) else None)
      ensures pins == Pins(Answering(width), Stage(), i)
    {
      pins := Wires(RequestReady(i.responseReady), if responseValid then Some(response) else None);
    }

    constructor (w: nat)
      requires 0 < w
      ensures Valid() && width == w && accepted == [] && delivered == [] && !Busy() && !responseValid && Stage() == Idle
    {
      width := w;
      active, finalizing, count, responseValid := false, false, 0, false;
      dividend, divisor, partialRemainder, originalDividend := 0, 0, 0, 0;
      negateQuotient, negateRemainder, divideByZero := false, false, false;
      response := Response(0, 0);
      accepted, delivered := [], [];
    }

    /** Load a request into an idle unit. */
    method Load(request: Request)
      requires 0 < width && Fits(width, request)
      modifies this`active, this`finalizing, this`count, this`dividend, this`divisor, this`partialRemainder,
        this`negateQuotient, this`negateRemainder, this`divideByZero, this`originalDividend
      ensures active && !finalizing && count == 0 && Working(request)
    {
      hide Progress, Captured, Negate, Negative;
      var minusN, minusD := Negative(width, request.signed, request.dividend),
        Negative(width, request.signed, request.divisor);
      Capture(width, request);
      active, finalizing, count := true, false, 0;
      dividend := if minusN then Negate(width, request.dividend) else request.dividend;
      divisor := if minusD then Negate(width, request.divisor) else request.divisor;
      partialRemainder := 0;
      negateQuotient, negateRemainder := minusN != minusD, minusN;
      divideByZero, originalDividend := request.divisor == 0, request.dividend;
    }

    /** One step of the unfinished request. */
    method Advance()
      requires Valid() && Busy()
      modifies this`active, this`finalizing, this`count, this`dividend, this`partialRemainder, this`responseValid,
        this`response
      ensures Valid()
      ensures Remaining() == old(Remaining()) - 1
    {
      hide Progress, Captured, Divide, Fits, NextDividend, NextRemainder, FinalResponse, Answered;
      AnsweredDeliver(width, accepted, delivered);
      ghost var r := accepted[|delivered|];
      if active {
        Iterate(width, r, count, dividend, divisor, partialRemainder, negateQuotient, negateRemainder);
        dividend, partialRemainder := NextDividend(width, dividend, divisor, partialRemainder),
          NextRemainder(width, dividend, divisor, partialRemainder);
        if count == width - 1 {
          active, finalizing := false, true;
        } else {
          count := count + 1;
        }
      } else {
        Finished(width, r, dividend, divisor, partialRemainder, negateQuotient, negateRemainder);
        finalizing, responseValid := false, true;
        response := FinalResponse(width, dividend, partialRemainder, negateQuotient, negateRemainder, divideByZero,
          originalDividend);
      }
    }

    /** One rising edge. */
    method Clock(requestValid: bool, request: Request, responseReady: bool)
      requires Valid() && (requestValid ==> Fits(width, request))
      modifies this
      ensures Valid()
      ensures Stage() == Next(width + 1, old(Stage()), Inputs(requestValid, request, responseReady))
      ensures accepted == old(accepted) + (if requestValid && old(RequestReady(responseReady)) then [request] else [])
      ensures delivered == old(delivered) + (if old(responseValid) && responseReady then [old(response)] else [])
      ensures old(responseValid) && !responseReady ==> responseValid && response == old(response)
      ensures requestValid && old(RequestReady(responseReady)) ==> Remaining() == width + 1
      ensures old(Busy()) ==> Remaining() == old(Remaining()) - 1
      ensures !old(Busy()) && !requestValid ==> !Busy()
    {
      hide Divide, Fits, Answered, Working;
      var requestFire := requestValid && RequestReady(responseReady);
      if responseValid && responseReady {
        AnsweredDeliver(width, accepted, delivered);
        delivered := delivered + [response];
        responseValid := false;
      }
      if requestFire {
        AnsweredAccept(width, accepted, delivered, request);
        accepted := accepted + [request];
        Load(request);
      } else if Busy() {
        Advance();
      }
    }
  }

  /** Any run from reset, whatever the requests and the backpressure. The pins are those of a unit that
      serves one request at a time, `width + 2` clocks from taking it to offering its response; the laws,
      which only these pins keep, say so without naming the unit. */
  method Run(w: nat, inputs: seq<Inputs<Request>>)
    returns (accepted: seq<Request>, delivered: seq<Response>, trace: seq<Wires<Response>>)
    requires 0 < w && forall i <- inputs :: i.requestValid ==> Fits(w, i.request)
    ensures Lawful(w + 1, Answering(w), inputs, trace)
    ensures accepted == Fired(inputs, trace) && delivered == Given(inputs, trace)
    ensures InOrder(Answering(w), accepted, delivered) && Answered(w, accepted, delivered)
    ensures w + 2 <= |inputs| && QuietFrom(inputs, |inputs| - (w + 2)) ==> |accepted| == |delivered|
  {
    hide Lawful, InOrder, Behaviour, Fired, Given, StageAfter, Next, Pins, QuietFrom, Answering, Answered;
    hide IterativeDivider.Valid, IterativeDivider.Stage;
    var unit := new IterativeDivider(w);
    accepted, delivered, trace := [], [], [];
    NothingYet(w + 1, Answering(w), inputs);
    for i := 0 to |inputs|
      invariant fresh(unit) && unit.Valid() && unit.width == w
      invariant unit.Stage() == StageAfter(w + 1, inputs[..i])
      invariant trace == Behaviour(w + 1, Answering(w), inputs[..i])
      invariant accepted == Fired(inputs[..i], trace) && delivered == Given(inputs[..i], trace)
      invariant unit.accepted == accepted && unit.delivered == delivered
    {
      var now := inputs[i];
      var pins := unit.PinsNow(now);
      OneMoreClock(w + 1, Answering(w), inputs, i, trace);
      accepted := accepted + (if Fires(now, pins) then [now.request] else []);
      delivered := delivered + (if Gives(now, pins) then [pins.offered.value] else []);
      trace := trace + [pins];
      unit.Clock(now.requestValid, now.request, now.responseReady);
    }
    assert inputs[..|inputs|] == inputs;
    unit.Serves();
    WholeRun(w + 1, Answering(w), inputs);
  }
}

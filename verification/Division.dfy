/** Integer division as the RISC-V M extension defines it, and one step of restoring division. */
module Division {
  import opened Power

  // ---------------------------------------------------------------- fixed-width numbers

  /** The two's-complement reading of a `w`-bit value. */
  function Signed(w: nat, x: nat): int
    requires 0 < w
  {
    if x < Pow2(w - 1) then x else x - Pow2(w)
  }

  predicate InRange(w: nat, x: int)
    requires 0 < w
  {
    0 - Pow2(w - 1) <= x < Pow2(w - 1)
  }

  function Wrap(w: nat, x: int): (r: nat)
    ensures r < Pow2(w)
  {
    x % Pow2(w)
  }

  /** Arithmetic negation in `w` bits. */
  function Negate(w: nat, x: nat): nat {
    Wrap(w, 0 - x)
  }

  function Magnitude(x: int): nat {
    if x < 0 then -x else x
  }

  /** The operand as the requested mode reads it. */
  function Operand(w: nat, signed: bool, x: nat): int
    requires 0 < w
  {
    if signed then Signed(w, x) else x
  }

  lemma WrapUnique(w: nat, x: int, k: int, r: nat)
    requires x == k * Pow2(w) + r && r < Pow2(w)
    ensures Wrap(w, x) == r
  {
    DivideUnique(x, Pow2(w), k, r);
  }

  lemma Halves(w: nat)
    requires 0 < w
    ensures Pow2(w) == 2 * Pow2(w - 1)
  {
  }

  /** Conditional negation yields the operand's magnitude. */
  lemma MagnitudeBits(w: nat, signed: bool, x: nat)
    requires 0 < w && x < Pow2(w)
    ensures var negative := signed && Pow2(w - 1) <= x;
      && (negative <==> Operand(w, signed, x) < 0)
      && (if negative then Negate(w, x) else x) == Magnitude(Operand(w, signed, x))
      && Magnitude(Operand(w, signed, x)) < Pow2(w)
  {
    Halves(w);
    if signed && Pow2(w - 1) <= x {
      WrapUnique(w, 0 - x, -1, Pow2(w) - x);
    }
  }

  /** The sign bit, where the mode looks at it. */
  predicate Negative(w: nat, signed: bool, x: nat)
    requires 0 < w
  {
    signed && x / Pow2(w - 1) == 1
  }

  lemma NegativeTopBit(w: nat, x: nat)
    requires 0 < w && x < Pow2(w)
    ensures x / Pow2(w - 1) == 1 <==> Pow2(w - 1) <= x
  {
    Halves(w);
    if Pow2(w - 1) <= x {
      DivideUnique(x, Pow2(w - 1), 1, x - Pow2(w - 1));
    } else {
      DivideUnique(x, Pow2(w - 1), 0, x);
    }
  }

  // ---------------------------------------------------------------- the specification

  /** Division truncating toward zero. */
  function TruncatedQuotient(n: int, d: int): int
    requires d != 0
  {
    var q := Magnitude(n) / Magnitude(d);
    if (n < 0) != (d < 0) then -q else q
  }

  function TruncatedRemainder(n: int, d: int): int
    requires d != 0
  {
    var r := Magnitude(n) % Magnitude(d);
    if n < 0 then -r else r
  }

  datatype Request = Request(dividend: nat, divisor: nat, signed: bool)

  datatype Response = Response(quotient: nat, remainder: nat)

  predicate Fits(w: nat, r: Request) {
    r.dividend < Pow2(w) && r.divisor < Pow2(w)
  }

  function Divide(w: nat, r: Request): Response
    requires 0 < w && Fits(w, r)
  {
    if r.divisor == 0 then Response(Pow2(w) - 1, r.dividend)
    else
      var n, d := Operand(w, r.signed, r.dividend), Operand(w, r.signed, r.divisor);
      Halves(w);
      Response(Wrap(w, TruncatedQuotient(n, d)), Wrap(w, TruncatedRemainder(n, d)))
  }

  /** Quotient and remainder satisfy the division identity, the remainder is smaller than the divisor
      and takes the dividend's sign. */
  lemma TruncationLaws(n: int, d: int)
    requires d != 0
    ensures n == TruncatedQuotient(n, d) * d + TruncatedRemainder(n, d)
    ensures Magnitude(TruncatedRemainder(n, d)) < Magnitude(d)
    ensures TruncatedRemainder(n, d) != 0 ==> (TruncatedRemainder(n, d) < 0 <==> n < 0)
  {
    var q, r := Magnitude(n) / Magnitude(d), Magnitude(n) % Magnitude(d);
    Quotient(Magnitude(n), Magnitude(d));
    if d < 0 {
      assert q * -d == -q * d;
    }
  }

  lemma QuotientBound(n: nat, d: nat)
    requires 0 < d
    ensures n / d <= n && (1 < d && 0 < n ==> n / d < n)
  {
    Quotient(n, d);
    var q := n / d;
    MulGrows(q, 1, d);
    if 1 < d && 0 < n {
      MulGrows(q, 2, d);
    }
  }

  /** The unsigned response is the exact quotient and remainder. */
  lemma UnsignedExact(w: nat, r: Request)
    requires 0 < w && Fits(w, r) && !r.signed && r.divisor != 0
    ensures var p := Divide(w, r);
      r.dividend == p.quotient * r.divisor + p.remainder && p.remainder < r.divisor
  {
    UnsignedResponse(w, r);
    hide Divide;
    Quotient(r.dividend, r.divisor);
  }

  lemma UnsignedResponse(w: nat, r: Request)
    requires 0 < w && Fits(w, r) && !r.signed && r.divisor != 0
    ensures Divide(w, r) == Response(r.dividend / r.divisor, r.dividend % r.divisor)
  {
    hide Wrap, Pow2;
    var n, d := r.dividend, r.divisor;
    QuotientBound(n, d);
    RemainderBelow(n, d);
    WrapSmall(w, n / d);
    WrapSmall(w, n % d);
  }

  lemma RemainderBelow(n: nat, d: nat)
    requires 0 < d
    ensures n % d < d
  {
  }

  lemma WrapSmall(w: nat, x: nat)
    requires x < Pow2(w)
    ensures Wrap(w, x) == x
  {
    WrapUnique(w, x, 0, x);
  }

  lemma SignedFits(w: nat, x: int)
    requires 0 < w && InRange(w, x)
    ensures Signed(w, Wrap(w, x)) == x
  {
    Halves(w);
    if x < 0 {
      WrapUnique(w, x, -1, x + Pow2(w));
    } else {
      WrapUnique(w, x, 0, x);
    }
  }

  ghost predicate Overflows(w: nat, r: Request)
    requires 0 < w
  {
    r.signed && r.dividend == Pow2(w - 1) && r.divisor == Pow2(w) - 1
  }

  /** The signed response, read as two's complement, satisfies the division identity with a remainder
      of the dividend's sign, except that the one overflowing quotient wraps to the minimum. */
  lemma SignedExact(w: nat, r: Request)
    requires 0 < w && Fits(w, r) && r.signed && r.divisor != 0
    ensures var p := Divide(w, r);
      var n, d := Signed(w, r.dividend), Signed(w, r.divisor);
      var q, m := Signed(w, p.quotient), Signed(w, p.remainder);
      if Overflows(w, r) then p == Response(Pow2(w - 1), 0)
      else n == q * d + m && Magnitude(m) < Magnitude(d) && (m != 0 ==> (m < 0 <==> n < 0))
  {
    Halves(w);
    var n, d := Signed(w, r.dividend), Signed(w, r.divisor);
    TruncationLaws(n, d);
    var q, m := TruncatedQuotient(n, d), TruncatedRemainder(n, d);
    QuotientBound(Magnitude(n), Magnitude(d));
    Quotient(Magnitude(n), Magnitude(d));
    RemainderFits(w, n, d);
    SignedFits(w, m);
    if Overflows(w, r) {
      DivideUnique(Pow2(w - 1), 1, Pow2(w - 1), 0);
      WrapUnique(w, Pow2(w - 1), 0, Pow2(w - 1));
      WrapUnique(w, 0, 0, 0);
    } else {
      QuotientFits(w, n, d);
      SignedFits(w, q);
    }
  }

  lemma RemainderFits(w: nat, n: int, d: int)
    requires 0 < w && d != 0 && InRange(w, d)
    ensures InRange(w, TruncatedRemainder(n, d))
  {
    TruncationLaws(n, d);
  }

  lemma QuotientFits(w: nat, n: int, d: int)
    requires 0 < w && d != 0 && InRange(w, n) && InRange(w, d)
    requires !(n == 0 - Pow2(w - 1) && d == -1)
    ensures InRange(w, TruncatedQuotient(n, d))
  {
    hide Pow2;
    QuotientWithin(n, d, Pow2(w - 1));
  }

  lemma QuotientWithin(n: int, d: int, h: nat)
    requires d != 0 && 0 < h && 0 - h <= n < h && !(n == 0 - h && d == -1)
    ensures 0 - h <= TruncatedQuotient(n, d) < h
  {
    var a, b := Magnitude(n), Magnitude(d);
    if b == 1 {
      DivideUnique(a, 1, a, 0);
    } else {
      SmallerQuotient(a, b, h);
    }
  }

  lemma SmallerQuotient(a: nat, b: nat, limit: nat)
    requires 1 < b && a <= limit && 0 < limit
    ensures a / b < limit
  {
    QuotientBound(a, b);
  }
}

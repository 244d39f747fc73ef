/** Bit vectors, least significant bit first, and the numbers they stand for. */
module BitVectors {
  import opened Power
  import opened Division

  type Bits = seq<bool>

  function NatOf(b: Bits): nat {
    if b == [] then 0 else (if b[0] then 1 else 0) + 2 * NatOf(b[1..])
  }

  function BitsOf(w: nat, n: nat): (b: Bits)
    ensures |b| == w
  {
    if w == 0 then [] else [n % 2 == 1] + BitsOf(w - 1, n / 2)
  }

  function Zeros(n: nat): (b: Bits)
    ensures |b| == n && forall i :: 0 <= i < n ==> !b[i]
  {
    seq(n, _ => false)
  }

  function Not(b: Bits): (r: Bits)
    ensures |r| == |b| && forall i :: 0 <= i < |r| ==> r[i] == !b[i]
  {
    seq(|b|, i requires 0 <= i < |b| => !b[i])
  }

  function Or(a: Bits, b: Bits): (r: Bits)
    requires |a| == |b|
    ensures |r| == |a| && forall i :: 0 <= i < |r| ==> r[i] == (a[i] || b[i])
  {
    seq(|a|, i requires 0 <= i < |a| => a[i] || b[i])
  }

  function Reverse(b: Bits): (r: Bits)
    ensures |r| == |b| && forall i :: 0 <= i < |r| ==> r[i] == b[|b| - 1 - i]
  {
    seq(|b|, i requires 0 <= i < |b| => b[|b| - 1 - i])
  }

  /** Widens with zeros, or with copies of the top bit. */
  function ZeroExtend(b: Bits, w: nat): (r: Bits)
    requires |b| <= w
    ensures |r| == w && forall i :: 0 <= i < w ==> r[i] == if i < |b| then b[i] else false
  {
    b + Zeros(w - |b|)
  }

  function SignExtend(b: Bits, w: nat): (r: Bits)
    requires 0 < |b| <= w
    ensures |r| == w && forall i :: 0 <= i < w ==> r[i] == if i < |b| then b[i] else b[|b| - 1]
  {
    b + seq(w - |b|, _ => b[|b| - 1])
  }

  /** The two's-complement right shifter: the top bit fills in. */
  function ArithmeticRight(b: Bits, s: nat): (r: Bits)
    requires b != []
    ensures |r| == |b| && forall i :: 0 <= i < |r| ==> r[i] == if i + s < |b| then b[i + s] else b[|b| - 1]
  {
    seq(|b|, i requires 0 <= i < |b| => if i + s < |b| then b[i + s] else b[|b| - 1])
  }

  function LogicalRight(b: Bits, s: nat): (r: Bits)
    ensures |r| == |b| && forall i :: 0 <= i < |r| ==> r[i] == if i + s < |b| then b[i + s] else false
  {
    seq(|b|, i requires 0 <= i < |b| => if i + s < |b| then b[i + s] else false)
  }

  function Left(b: Bits, s: nat): (r: Bits)
    ensures |r| == |b| && forall i :: 0 <= i < |r| ==> r[i] == if s <= i then b[i - s] else false
  {
    seq(|b|, i requires 0 <= i < |b| => if s <= i then b[i - s] else false)
  }

  function RotateRight(b: Bits, s: nat): (r: Bits)
    ensures |r| == |b| && forall i :: 0 <= i < |r| ==> r[i] == b[(i + s) % |b|]
  {
    seq(|b|, i requires 0 <= i < |b| => b[(i + s) % |b|])
  }

  function RotateLeft(b: Bits, s: nat): (r: Bits)
    requires s <= |b|
    ensures |r| == |b| && forall i :: 0 <= i < |r| ==> r[i] == b[(i + |b| - s) % |b|]
  {
    seq(|b|, i requires 0 <= i < |b| => b[(i + |b| - s) % |b|])
  }

  // ---------------------------------------------------------------- numbers

  lemma {:induction false} Below(b: Bits)
    ensures NatOf(b) < Pow2(|b|)
  {
    if b != [] {
      Below(b[1..]);
    }
  }

  lemma {:induction false} NatOfBits(w: nat, n: nat)
    ensures NatOf(BitsOf(w, n)) == Wrap(w, n)
  {
    if w > 0 {
      NatOfBits(w - 1, n / 2);
      assert BitsOf(w, n)[1..] == BitsOf(w - 1, n / 2);
      DivideTwice(n, 2, Pow2(w - 1));
    }
  }

  lemma {:induction false} Concat(a: Bits, b: Bits)
    ensures NatOf(a + b) == NatOf(a) + Pow2(|a|) * NatOf(b)
  {
    if a == [] {
      assert a + b == b && Pow2(0) == 1;
    } else {
      assert (a + b)[1..] == a[1..] + b;
      Concat(a[1..], b);
      MulAssociate(2, Pow2(|a| - 1), NatOf(b));
    }
  }

  lemma {:induction false} ZeroNat(n: nat)
    ensures NatOf(Zeros(n)) == 0
  {
    if n > 0 {
      assert Zeros(n)[1..] == Zeros(n - 1);
      ZeroNat(n - 1);
    }
  }

  lemma {:induction false} NotNat(b: Bits)
    ensures NatOf(Not(b)) == Pow2(|b|) - 1 - NatOf(b)
  {
    if b != [] {
      assert Not(b)[1..] == Not(b[1..]);
      NotNat(b[1..]);
    }
  }

  /** The top bit says whether the number is in the upper half. */
  lemma TopBit(b: Bits)
    requires b != []
    ensures b[|b| - 1] <==> Pow2(|b| - 1) <= NatOf(b)
  {
    var low, top := b[..|b| - 1], [b[|b| - 1]];
    assert b == low + top;
    Concat(low, top);
    Below(low);
    assert NatOf(top) == (if b[|b| - 1] then 1 else 0) + 2 * NatOf([]);
  }

  lemma {:induction false} NatInjective(a: Bits, b: Bits)
    requires |a| == |b| && NatOf(a) == NatOf(b)
    ensures a == b
  {
    if a != [] {
      assert a[0] == b[0];
      NatInjective(a[1..], b[1..]);
      assert a == [a[0]] + a[1..] && b == [b[0]] + b[1..];
    }
  }

  /** A vector cut in two. */
  lemma Cut(b: Bits, k: nat)
    requires k <= |b|
    ensures NatOf(b) == NatOf(b[..k]) + Pow2(k) * NatOf(b[k..]) && NatOf(b[..k]) < Pow2(k)
  {
    assert b == b[..k] + b[k..];
    Concat(b[..k], b[k..]);
    Below(b[..k]);
  }

  /** The bits from one place on, as a number. */
  lemma Slice(b: Bits, low: nat, n: nat)
    requires low + n <= |b|
    ensures NatOf(b[low..low + n]) == NatOf(b) / Pow2(low) % Pow2(n)
  {
    hide Pow2, NatOf;
    var above := b[low..];
    Cut(b, low);
    Cut(above, n);
    assert above[..n] == b[low..low + n];
    Extract(NatOf(b), Pow2(low), NatOf(b[..low]), NatOf(above), Pow2(n), NatOf(above[..n]), NatOf(above[n..]));
  }

  lemma Extract(x: nat, p: nat, low: nat, above: nat, q: nat, middle: nat, high: nat)
    requires x == low + p * above && low < p && above == middle + q * high && middle < q
    ensures x / p % q == middle
  {
    DivideUnique(x, p, above, low);
    DivideUnique(above, q, high, middle);
  }

  /** Shifting left multiplies by a power of two, modulo the width. */
  lemma LeftNat(b: Bits, s: nat)
    requires s <= |b|
    ensures NatOf(Left(b, s)) == Wrap(|b|, NatOf(b) * Pow2(s))
  {
    hide Pow2, NatOf, Wrap;
    var w := |b|;
    Cut(b, w - s);
    assert Left(b, s) == Zeros(s) + b[..w - s];
    Concat(Zeros(s), b[..w - s]);
    ZeroNat(s);
    Pow2Add(w - s, s);
    ShiftedUp(NatOf(b), NatOf(b[..w - s]), NatOf(b[w - s..]), Pow2(w - s), Pow2(s), Pow2(w));
    WrapUnique(w, NatOf(b) * Pow2(s), NatOf(b[w - s..]), Pow2(s) * NatOf(b[..w - s]));
  }

  lemma ShiftedUp(x: nat, low: nat, high: nat, p: nat, q: nat, m: nat)
    requires x == low + p * high && low < p && 0 < q && m == p * q
    ensures x * q == high * m + q * low && q * low < m
  {
    MulGrows(q, low, p - 1);
    assert p * high * q == high * (p * q);
  }

  /** Shifting right divides, rounding down. */
  lemma LogicalRightNat(b: Bits, s: nat)
    requires s <= |b|
    ensures NatOf(LogicalRight(b, s)) == NatOf(b) / Pow2(s)
  {
    Cut(b, s);
    assert LogicalRight(b, s) == b[s..] + Zeros(s);
    Concat(b[s..], Zeros(s));
    ZeroNat(s);
    hide Pow2, NatOf;
    ShiftedDown(NatOf(b), NatOf(b[..s]), NatOf(b[s..]), Pow2(s));
  }

  lemma ShiftedDown(x: int, low: nat, high: int, p: nat)
    requires x == low + p * high && low < p
    ensures x / p == high
  {
    DivideUnique(x, p, high, low);
  }

  function SignedOf(b: Bits): int
    requires b != []
  {
    Signed(|b|, NatOf(b))
  }

  lemma SignedSplit(low: Bits, high: Bits)
    requires high != []
    ensures SignedOf(low + high) == NatOf(low) + Pow2(|low|) * SignedOf(high)
  {
    hide Pow2, NatOf, SignedOf;
    var b, top := low + high, high[|high| - 1];
    SignedByTop(b);
    SignedByTop(high);
    Concat(low, high);
    Pow2Add(|low|, |high|);
    if top {
      Minus(NatOf(low), Pow2(|low|), NatOf(high), Pow2(|high|));
    }
  }

  lemma SignedByTop(b: Bits)
    requires b != []
    ensures SignedOf(b) == NatOf(b) - (if b[|b| - 1] then Pow2(|b|) else 0)
  {
    TopBit(b);
  }

  lemma Minus(l: nat, p: nat, x: nat, y: nat)
    ensures l + p * (x - y) == l + p * x - p * y
  {
  }

  lemma OneBit(b: bool)
    ensures NatOf([b]) == if b then 1 else 0
  {
    assert NatOf([b]) == (if b then 1 else 0) + 2 * NatOf([]);
  }

  lemma {:induction false} SignCopies(high: Bits, n: nat)
    requires high != []
    ensures SignedOf(SignExtend(high, |high| + n)) == SignedOf(high)
  {
    var before := SignExtend(high, |high| + n);
    if n == 0 {
      assert before == high;
    } else {
      SignCopies(high, n - 1);
      OneMoreCopy(SignExtend(high, |high| + n - 1), before);
    }
  }

  lemma OneMoreCopy(before: Bits, after: Bits)
    requires before != [] && after == before + [before[|before| - 1]]
    ensures SignedOf(after) == SignedOf(before)
  {
    var top, w := before[|before| - 1], |before|;
    Concat(before, [top]);
    OneBit(top);
    TopBit(before);
    TopBit(after);
    Halves(w);
    Halves(w + 1);
    hide Pow2, NatOf;
  }

  /** An arithmetic right shift divides the signed number, rounding down. */
  lemma ArithmeticRightSigned(b: Bits, s: nat)
    requires s < |b|
    ensures SignedOf(ArithmeticRight(b, s)) == SignedOf(b) / Pow2(s)
  {
    var low, high := b[..s], b[s..];
    assert b == low + high;
    assert ArithmeticRight(b, s) == SignExtend(high, |b|);
    SignedSplit(low, high);
    SignCopies(high, s);
    Below(low);
    hide Pow2, NatOf, SignedOf;
    ShiftedDown(SignedOf(b), NatOf(low), SignedOf(high), Pow2(s));
  }
}

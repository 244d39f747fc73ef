/** Powers of two, bit lengths, and division facts for fixed-width arithmetic. */
module Power {

  function Pow2(n: nat): (p: nat)
    ensures 0 < p
  {
    if n == 0 then 1 else 2 * Pow2(n - 1)
  }

  lemma {:induction false} Pow2Add(a: nat, b: nat)
    ensures Pow2(a + b) == Pow2(a) * Pow2(b)
  {
    if a > 0 {
      Pow2Add(a - 1, b);
      assert Pow2(a + b) == 2 * Pow2(a - 1 + b);
      MulAssociate(2, Pow2(a - 1), Pow2(b));
    }
  }

  lemma MulAssociate(a: nat, b: nat, c: nat)
    ensures (a * b) * c == a * (b * c)
  {
  }

  lemma {:induction false} Pow2Grows(a: nat, b: nat)
    requires a <= b
    ensures Pow2(a) <= Pow2(b)
    decreases b
  {
    if a < b {
      Pow2Grows(a, b - 1);
    }
  }

  /** The quotient and remainder are determined by their defining equation. */
  lemma DivideUnique(a: int, d: int, q: int, r: int)
    requires 0 < d && a == q * d + r && 0 <= r < d
    ensures a / d == q && a % d == r
  {
    Quotient(a, d);
    Distribute(q, a / d, d);
    QuotientGap(d, q - a / d, a % d - r);
  }

  lemma Quotient(a: int, d: int)
    requires 0 < d
    ensures a == a / d * d + a % d && 0 <= a % d < d
  {
  }

  lemma Distribute(x: int, y: int, d: int)
    ensures (x - y) * d == x * d - y * d
  {
  }

  lemma SumTimes(x: int, y: int, d: int)
    ensures (x + y) * d == x * d + y * d
  {
  }

  lemma QuotientGap(d: int, k: int, gap: int)
    requires 0 < d && k * d == gap && -d < gap < d
    ensures k == 0 && gap == 0
  {
    AtLeastOnce(k, d);
  }

  lemma AtLeastOnce(k: int, d: int)
    requires 0 < d
    ensures 1 <= k ==> d <= k * d
    ensures k <= -1 ==> k * d <= -d
  {
    if 1 <= k {
      assert 0 <= (k - 1) * d;
    } else if k <= -1 {
      assert 0 <= (-k - 1) * d;
    }
  }

  lemma DivideTwice(a: nat, b: nat, c: nat)
    requires 0 < b && 0 < c
    ensures 0 < b * c && a / (b * c) == a / b / c
    ensures a % (b * c) == a % b + b * (a / b % c)
  {
    Quotient(a, b);
    Quotient(a / b, c);
    DivideParts(a, b, c, a / b, a % b, a / b / c, a / b % c);
  }

  lemma DivideParts(a: nat, b: nat, c: nat, q: nat, r: nat, q2: nat, r2: nat)
    requires a == q * b + r && r < b && q == q2 * c + r2 && r2 < c
    ensures 0 < b * c && a / (b * c) == q2 && a % (b * c) == r + b * r2
  {
    Regroup(q2, r2, r, b, c);
    MulGrows(b, r2, c - 1);
    MulPositive(b, c);
    DivideUnique(a, b * c, q2, b * r2 + r);
  }

  lemma Regroup(q: nat, r: nat, low: nat, b: nat, c: int)
    ensures (q * c + r) * b + low == q * (b * c) + (b * r + low)
    ensures b * (c - 1) == b * c - b
  {
    SumTimes(q * c, r, b);
    assert q * c * b == q * (b * c);
  }

  lemma MulGrows(a: nat, b: int, c: int)
    requires b <= c
    ensures a * b <= a * c
  {
  }

  lemma MulPositive(a: nat, b: nat)
    requires 0 < a && 0 < b
    ensures 0 < a * b
  {
  }

  /** Number of bits needed to write `n`. */
  function BitLength(n: nat): nat {
    if n == 0 then 0 else 1 + BitLength(n / 2)
  }

  lemma {:induction false} BitLengthBounds(n: nat)
    ensures n < Pow2(BitLength(n))
    ensures 0 < n ==> Pow2(BitLength(n) - 1) <= n
  {
    if n > 1 {
      BitLengthBounds(n / 2);
    }
  }

  /** Dropping `m` low bits drops `m` from the length. */
  lemma {:induction false} BitLengthShift(n: nat, m: nat)
    requires Pow2(m) <= n
    ensures BitLength(n) >= m && BitLength(n / Pow2(m)) == BitLength(n) - m
    decreases m
  {
    if m > 0 {
      Halve(n, m);
      BitLengthShift(n / 2, m - 1);
    }
  }

  lemma Halve(n: nat, m: nat)
    requires 0 < m && Pow2(m) <= n
    ensures Pow2(m - 1) <= n / 2 && n / Pow2(m) == n / 2 / Pow2(m - 1)
  {
    DivideTwice(n, 2, Pow2(m - 1));
  }
}

/** Double-width products in the four signedness modes of the RISC-V M extension. */
module Multiplication {
  import opened Power
  import opened Division

  datatype Factors = Factors(left: nat, right: nat, leftSigned: bool, rightSigned: bool)

  predicate InWidth(w: nat, f: Factors) {
    f.left < Pow2(w) && f.right < Pow2(w)
  }

  function Product(w: nat, f: Factors): nat
    requires 0 < w
  {
    Wrap(2 * w, Operand(w, f.leftSigned, f.left) * Operand(w, f.rightSigned, f.right))
  }

  lemma ProductBound(a: nat, b: nat, m: nat, n: nat)
    requires a <= m && b <= n
    ensures a * b <= m * n
  {
    MulGrows(a, b, n);
    assert a * n == n * a && m * n == n * m;
    MulGrows(n, a, m);
  }

  /** The double-width product is exact: no mode loses a bit. */
  lemma ProductExact(w: nat, f: Factors)
    requires 0 < w && InWidth(w, f)
    ensures var l, r := Operand(w, f.leftSigned, f.left), Operand(w, f.rightSigned, f.right);
      (if f.leftSigned || f.rightSigned then Signed(2 * w, Product(w, f)) else Product(w, f)) == l * r
  {
    var l, r := Operand(w, f.leftSigned, f.left), Operand(w, f.rightSigned, f.right);
    ProductInRange(w, f);
    hide Pow2, Wrap, Operand, InRange;
    if f.leftSigned || f.rightSigned {
      SignedFits(2 * w, l * r);
    } else {
      WrapSmall(2 * w, l * r);
    }
  }

  lemma ProductInRange(w: nat, f: Factors)
    requires 0 < w && InWidth(w, f)
    ensures var l, r := Operand(w, f.leftSigned, f.left), Operand(w, f.rightSigned, f.right);
      if f.leftSigned || f.rightSigned then InRange(2 * w, l * r) else 0 <= l * r < Pow2(2 * w)
  {
    hide Pow2;
    Halves(w);
    var l, r := Operand(w, f.leftSigned, f.left), Operand(w, f.rightSigned, f.right);
    if f.leftSigned || f.rightSigned {
      Pow2Add(w - 1, w);
      hide Operand;
      OperandRange(w, f.leftSigned, f.left);
      OperandRange(w, f.rightSigned, f.right);
      SignedProductFits(l, r, Pow2(w - 1), f.leftSigned, f.rightSigned);
    } else {
      Pow2Add(w, w);
      StrictProduct(f.left, f.right, Pow2(w), Pow2(w));
    }
  }

  lemma OperandRange(w: nat, signed: bool, x: nat)
    requires 0 < w && x < Pow2(w)
    ensures var h := Pow2(w - 1); if signed then 0 - h <= Operand(w, signed, x) < h
      else 0 <= Operand(w, signed, x) < 2 * h
  {
    Halves(w);
  }

  lemma SignedProductFits(l: int, r: int, h: nat, leftSigned: bool, rightSigned: bool)
    requires 0 < h && (leftSigned || rightSigned)
    requires if leftSigned then 0 - h <= l < h else 0 <= l < 2 * h
    requires if rightSigned then 0 - h <= r < h else 0 <= r < 2 * h
    ensures 0 - h * (2 * h) <= l * r < h * (2 * h)
  {
    var a, b := Magnitude(l), Magnitude(r);
    SignOfProduct(l, r);
    if leftSigned && rightSigned {
      ProductBound(a, b, h, h);
      Doubling(h);
    } else if leftSigned {
      StrictProduct(a, b, h, 2 * h);
    } else {
      StrictProduct(b, a, h, 2 * h);
      assert a * b == b * a;
    }
  }

  lemma Doubling(h: nat)
    requires 0 < h
    ensures h * h < h * (2 * h)
  {
    MulPositive(h, h);
    assert h * (2 * h) == 2 * (h * h);
  }

  lemma StrictProduct(a: nat, b: nat, m: nat, n: nat)
    requires a <= m && b < n && 0 < m
    ensures a * b < m * n
  {
    ProductBound(a, b, m, n - 1);
    assert m * (n - 1) == m * n - m;
  }

  lemma SignOfProduct(l: int, r: int)
    ensures l * r == (if (l < 0) == (r < 0) then Magnitude(l) * Magnitude(r) else -(Magnitude(l) * Magnitude(r)))
  {
  }

  /** The low half does not depend on the mode. */
  lemma LowHalf(w: nat, f: Factors)
    requires 0 < w && InWidth(w, f)
    ensures Wrap(w, Product(w, f)) == Wrap(w, f.left * f.right)
  {
    var l, r := Operand(w, f.leftSigned, f.left), Operand(w, f.rightSigned, f.right);
    var i, j := if l < 0 then 1 else 0, if r < 0 then 1 else 0;
    var p := Pow2(w);
    Pow2Add(w, w);
    Quotient(l * r, p * p);
    Quotient(f.left * f.right, p);
    hide Pow2, Wrap, Product;
    Cross(l, r, i, j, p);
    ProductQuotient(w, f);
    var q, t := l * r / (p * p), f.left * f.right / p;
    var u := t - i * r - j * l - i * j * p - q * p;
    CommonFactor(p, q, t, i * r + j * l + i * j * p);
    WrapUnique(w, Product(w, f), u, f.left * f.right % p);
    WrapUnique(w, f.left * f.right, t, f.left * f.right % p);
  }

  lemma ProductQuotient(w: nat, f: Factors)
    requires 0 < w
    ensures var x := Operand(w, f.leftSigned, f.left) * Operand(w, f.rightSigned, f.right);
      Product(w, f) == x - x / (Pow2(w) * Pow2(w)) * (Pow2(w) * Pow2(w))
  {
    Pow2Add(w, w);
    Quotient(Operand(w, f.leftSigned, f.left) * Operand(w, f.rightSigned, f.right), Pow2(2 * w));
  }

  lemma Cross(l: int, r: int, i: int, j: int, p: int)
    ensures (l + i * p) * (r + j * p) == l * r + (i * r + j * l + i * j * p) * p
  {
    assert (i * p) * (j * p) == i * j * p * p;
    assert l * (j * p) == j * l * p;
    assert (i * p) * r == i * r * p;
  }

  lemma CommonFactor(p: int, q: int, t: int, c: int)
    ensures t * p - c * p - q * (p * p) == (t - c - q * p) * p
  {
  }
}

/** Little-endian sequences of 32-bit words as numbers, and the bit ranges of such numbers. */
module Words {
  import opened Power
  import opened Division
  import opened Machine

  const BASE: nat := 0x1_0000_0000

  function Number(words: seq<U32>): nat {
    if words == [] then 0 else words[0] + BASE * Number(words[1..])
  }

  /** `x` shifted right. */
  function Above(x: nat, n: nat): nat {
    hide Pow2;
    NonNegative(x, Pow2(n));
    x / Pow2(n)
  }

  lemma NonNegative(x: nat, d: nat)
    requires 0 < d
    ensures 0 <= x / d
  {
  }

  /** Bits `offset` up to `offset + width` of `x`. */
  function Bits(x: nat, offset: nat, width: nat): nat {
    Wrap(width, Above(x, offset))
  }

  lemma WordSize()
    ensures Pow2(32) == BASE && Pow2(64) == BASE * BASE
  {
    SmallPower();
    hide Pow2;
    Pow2Add(16, 16);
    Pow2Add(32, 32);
  }

  lemma SmallPower()
    ensures Pow2(16) == 0x1_0000
  {
    assert Pow2(4) == 16;
    hide Pow2;
    Pow2Add(4, 4);
    Pow2Add(8, 8);
  }

  /** A range splits into its low and high parts. */
  lemma BitsSplit(x: nat, offset: nat, low: nat, high: nat)
    ensures Bits(x, offset, low + high) == Bits(x, offset, low) + Pow2(low) * Bits(x, offset + low, high)
  {
    Pow2Add(low, high);
    Pow2Add(offset, low);
    hide Pow2;
    DivideTwice(x / Pow2(offset), Pow2(low), Pow2(high));
    DivideTwice(x, Pow2(offset), Pow2(low));
  }

  lemma BitsBelow(x: nat, offset: nat, width: nat)
    ensures Bits(x, offset, width) < Pow2(width)
  {
  }

  lemma AllBits(x: nat, width: nat)
    requires x < Pow2(width)
    ensures Bits(x, 0, width) == x
  {
    DivideUnique(x, Pow2(width), 0, x);
    assert x / 1 == x;
  }

  /** Parts above the range read do not matter. */
  lemma DropHigh(y: nat, z: nat, t: nat, offset: nat, count: nat)
    requires offset + count <= t
    ensures Bits(y + Pow2(t) * z, offset, count) == Bits(y, offset, count)
  {
    Pow2Add(offset, count);
    Pow2Add(offset + count, t - offset - count);
    hide Pow2;
    DropMultiple(y, z, Pow2(offset), Pow2(count), Pow2(t - offset - count), Pow2(t));
  }

  lemma DropMultiple(y: nat, z: nat, p: nat, q: nat, e: nat, h: nat)
    requires 0 < p && 0 < q && h == p * q * e
    ensures (y + h * z) / p % q == y / p % q
  {
    Raise(p, q, e, z);
    ShiftSum(y, q * (e * z), p);
    DropModulus(y / p, e * z, q);
  }

  lemma ShiftSum(y: nat, x: nat, p: nat)
    requires 0 < p
    ensures (y + x * p) / p == y / p + x
  {
    Quotient(y, p);
    SumTimes(y / p, x, p);
    DivideUnique(y + x * p, p, y / p + x, y % p);
  }

  lemma DropModulus(y: nat, x: nat, q: nat)
    requires 0 < q
    ensures (y + q * x) % q == y % q
  {
    Quotient(y, q);
    SumTimes(y / q, x, q);
    DivideUnique(y + q * x, q, y / q + x, y % q);
  }

  lemma Raise(p: nat, q: nat, e: nat, z: nat)
    ensures p * q * e * z == q * (e * z) * p
  {
    MulAssociate(p * q, e, z);
    MulAssociate(p, q, e * z);
  }

  lemma {:induction false} DropWords(words: seq<U32>, i: nat)
    requires i <= |words|
    ensures Above(Number(words), 32 * i) == Number(words[i..])
    decreases i
  {
    if i == 0 {
      assert words[0..] == words && Number(words) / 1 == Number(words);
    } else {
      WordSize();
      assert words[1..][i - 1..] == words[i..];
      DropWords(words[1..], i - 1);
      Pow2Add(32, 32 * (i - 1));
      hide Pow2;
      DivideUnique(Number(words), Pow2(32), Number(words[1..]), words[0]);
      DivideTwice(Number(words), Pow2(32), Pow2(32 * (i - 1)));
    }
  }

  lemma FromWord(words: seq<U32>, i: nat, shift: nat, count: nat)
    requires i < |words|
    ensures Bits(Number(words), 32 * i + shift, count) == Bits(words[i] + BASE * Number(words[i + 1..]), shift, count)
  {
    hide Pow2, Wrap, Above, Number;
    DropWords(words, i);
    NumberFrom(words, i);
    AboveTwice(Number(words), 32 * i, shift);
  }

  lemma NumberFrom(words: seq<U32>, i: nat)
    requires i < |words|
    ensures Number(words[i..]) == words[i] + BASE * Number(words[i + 1..])
  {
    assert words[i..][1..] == words[i + 1..];
  }

  lemma AboveTwice(x: nat, a: nat, b: nat)
    ensures Above(x, a + b) == Above(Above(x, a), b)
  {
    Pow2Add(a, b);
    hide Pow2;
    DivideTwice(x, Pow2(a), Pow2(b));
  }

  /** A range inside one word. */
  lemma WithinWord(words: seq<U32>, i: nat, shift: nat, count: nat)
    requires i < |words| && shift + count <= 32
    ensures Bits(Number(words), 32 * i + shift, count) == Bits(words[i], shift, count)
  {
    FromWord(words, i, shift, count);
    WordSize();
    hide Bits, Pow2, Number;
    DropHigh(words[i], Number(words[i + 1..]), 32, shift, count);
  }

  /** A range across two words. */
  lemma AcrossWords(words: seq<U32>, i: nat, shift: nat, count: nat)
    requires i + 1 < |words| && shift <= 32 && count <= 32
    ensures Bits(Number(words), 32 * i + shift, count) ==
            Wrap(count, Above(words[i], shift) + Pow2(32 - shift) * words[i + 1])
  {
    FromWord(words, i, shift, count);
    assert words[i + 1..][1..] == words[i + 2..];
    hide Bits, Pow2;
    JoinWords(words[i], words[i + 1], Number(words[i + 2..]), shift, count);
  }

  lemma JoinWords(w0: nat, w1: nat, z: nat, shift: nat, count: nat)
    requires shift <= 32 && count <= 32
    ensures Bits(w0 + BASE * (w1 + BASE * z), shift, count) == Wrap(count, Above(w0, shift) + Pow2(32 - shift) * w1)
  {
    WordSize();
    hide Pow2, Wrap;
    var s := Pow2(32 - shift);
    Pow2Add(32 - shift, shift);
    DropHigh(w0 + BASE * w1, z, 64, shift, count);
    Factor(s, Pow2(shift), w1);
    ShiftSum(w0, s * w1, Pow2(shift));
  }

  lemma Factor(p: nat, q: nat, w: nat)
    ensures p * q * w == p * w * q
  {
  }

  lemma SumOfProducts(p: nat, a: nat, b: nat)
    ensures p * (a + b) == p * a + p * b
  {
  }

  lemma {:induction false} NumberAppend(words: seq<U32>, word: U32)
    ensures Number(words + [word]) == Number(words) + Pow2(32 * |words|) * word
  {
    if words == [] {
      assert Pow2(32 * 0) == 1 && ([word])[1..] == [];
    } else {
      hide Pow2;
      assert (words + [word])[1..] == words[1..] + [word];
      NumberAppend(words[1..], word);
      Pow2Add(32, 32 * (|words| - 1));
      WordSize();
      OneMore(words[0], Number(words[1..]), Pow2(32 * (|words| - 1)), word, BASE);
    }
  }

  lemma OneMore(low: nat, high: nat, p: nat, word: nat, base: nat)
    ensures low + base * (high + p * word) == low + base * high + (base * p) * word
  {
    MulAssociate(base, p, word);
    SumOfProducts(base, high, p * word);
  }

  lemma {:induction false} NumberBelow(words: seq<U32>)
    ensures Number(words) < Pow2(32 * |words|)
  {
    if words != [] {
      WordSize();
      NumberBelow(words[1..]);
      Pow2Add(32, 32 * |words[1..]|);
      hide Pow2;
      MulGrows(Pow2(32), Number(words[1..]), Pow2(32 * |words[1..]|) - 1);
    }
  }

  /** With the top word below `2^top`, so is the number relative to its words. */
  lemma PaddedBelow(words: seq<U32>, top: nat)
    requires words != [] && words[|words| - 1] < Pow2(top)
    ensures Number(words) < Pow2(32 * (|words| - 1) + top)
  {
    var front, last := words[..|words| - 1], words[|words| - 1];
    assert words == front + [last];
    NumberAppend(front, last);
    NumberBelow(front);
    Pow2Add(32 * |front|, top);
    hide Pow2, Number;
    TopDigit(Number(front), Pow2(32 * |front|), last, Pow2(top));
  }

  lemma TopDigit(low: nat, p: nat, last: nat, q: nat)
    requires low < p && last < q
    ensures low + p * last < p * q
  {
    MulGrows(p, last, q - 1);
    SumOfProducts(p, q - 1, 1);
  }
}

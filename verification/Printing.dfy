/** Captured values as decimal and hexadecimal text and as machine integers. */
module Printing {
  import opened Options
  import opened Power
  import opened Division
  import opened Machine
  import opened Words
  import opened Capture

  // ---------------------------------------------------------------- decimal text

  type Digit = d: nat | d < 10

  const SYMBOLS: string := "0123456789abcdef"

  function Symbol(d: nat): char
    requires d < 16
  {
    SYMBOLS[d]
  }

  predicate IsDigit(c: char) {
    '0' <= c <= '9'
  }

  function DigitValue(c: char): nat
    requires IsDigit(c)
  {
    c as int - '0' as int
  }

  predicate IsNumeral(s: string) {
    s != "" && forall c <- s :: IsDigit(c)
  }

  function ParseNat(s: string): nat
    requires forall c <- s :: IsDigit(c)
  {
    if s == "" then 0 else 10 * ParseNat(s[..|s| - 1]) + DigitValue(s[|s| - 1])
  }

  /** No leading zero, except that zero is written "0"; a minus sign only before a positive numeral. */
  predicate Canonical(s: string) {
    if s != "" && s[0] == '-' then CanonicalNat(s[1..]) && s[1] != '0' else CanonicalNat(s)
  }

  predicate CanonicalNat(s: string) {
    IsNumeral(s) && (s[0] == '0' ==> |s| == 1)
  }

  function ParseInt(s: string): int
    requires Canonical(s)
  {
    if s[0] == '-' then 0 - ParseNat(s[1..]) else ParseNat(s)
  }

  /** A canonical numeral of two digits or more is at least ten. */
  lemma {:induction false} CanonicalSize(s: string)
    requires CanonicalNat(s)
    ensures s[0] != '0' ==> 0 < ParseNat(s)
    ensures 1 < |s| ==> 10 <= ParseNat(s)
  {
    if 1 < |s| {
      CanonicalSize(s[..|s| - 1]);
    } else {
      assert s[..0] == "";
    }
  }

  lemma {:induction false} NumeralUnique(s: string, t: string)
    requires CanonicalNat(s) && CanonicalNat(t) && ParseNat(s) == ParseNat(t)
    ensures s == t
  {
    CanonicalSize(s);
    CanonicalSize(t);
    var a, b := s[..|s| - 1], t[..|t| - 1];
    var x, y := s[|s| - 1], t[|t| - 1];
    assert s == a + [x] && t == b + [y];
    assert ParseNat(s) == 10 * ParseNat(a) + DigitValue(x);
    assert ParseNat(t) == 10 * ParseNat(b) + DigitValue(y);
    assert ParseNat("") == 0;
    SameDigit(x, y);
    if 1 < |s| && 1 < |t| {
      NumeralUnique(a, b);
    } else {
      assert |s| == 1 && |t| == 1;
      assert a == "" && b == "";
    }
  }

  lemma SameDigit(x: char, y: char)
    requires IsDigit(x) && IsDigit(y)
    ensures DigitValue(x) < 10 && (DigitValue(x) == DigitValue(y) ==> x == y)
  {
    assert x as int == y as int ==> x == y;
  }

  /** There is one canonical text for each integer. */
  lemma CanonicalUnique(s: string, t: string)
    requires Canonical(s) && Canonical(t) && ParseInt(s) == ParseInt(t)
    ensures s == t
  {
    var a, b := if s[0] == '-' then s[1..] else s, if t[0] == '-' then t[1..] else t;
    CanonicalSize(a);
    CanonicalSize(b);
    NumeralUnique(a, b);
  }

  // ---------------------------------------------------------------- digit arithmetic

  /** The value of digits written low digit first. */
  function Value(ds: seq<Digit>): nat {
    if ds == [] then 0 else ds[0] + 10 * Value(ds[1..])
  }

  function Grown(d: Digit, doubling: bool, carry: nat): (value: nat)
    requires carry < 2
    ensures value < 20
  {
    (if doubling then 2 * d else d) + carry
  }

  /** The digits of a number, or of its double, plus a carry. */
  function Scaled(ds: seq<Digit>, doubling: bool, carry: Digit): seq<Digit>
    requires carry < 2
  {
    if ds == [] then (if carry == 0 then [] else [carry])
    else
      var value := Grown(ds[0], doubling, carry);
      [value % 10] + Scaled(ds[1..], doubling, value / 10)
  }

  lemma {:induction false} ScaledValue(ds: seq<Digit>, doubling: bool, carry: Digit)
    requires carry < 2
    ensures Value(Scaled(ds, doubling, carry)) == (if doubling then 2 * Value(ds) else Value(ds)) + carry
  {
    if ds == [] {
      assert Value([carry]) == carry + 10 * Value([]);
    } else {
      var value := Grown(ds[0], doubling, carry);
      ScaledValue(ds[1..], doubling, value / 10);
      assert Scaled(ds, doubling, carry)[1..] == Scaled(ds[1..], doubling, value / 10);
    }
  }

  /** No leading zero, except a lone zero. */
  predicate Minimal(ds: seq<Digit>) {
    ds != [] && (ds[|ds| - 1] == 0 ==> |ds| == 1)
  }

  lemma {:induction false} TopStays(ds: seq<Digit>, doubling: bool, carry: Digit)
    requires carry < 2 && ds != [] && ds[|ds| - 1] != 0
    ensures var s := Scaled(ds, doubling, carry); s != [] && s[|s| - 1] != 0
  {
    var value, rest := Grown(ds[0], doubling, carry), ds[1..];
    if |ds| == 1 {
      assert rest == [];
    } else {
      assert rest[|rest| - 1] == ds[|ds| - 1];
      TopStays(rest, doubling, value / 10);
      assert Scaled(ds, doubling, carry) == [value % 10] + Scaled(rest, doubling, value / 10);
    }
  }

  lemma ScaledMinimal(ds: seq<Digit>, doubling: bool, carry: Digit)
    requires carry < 2 && Minimal(ds)
    ensures Minimal(Scaled(ds, doubling, carry))
  {
    if ds[|ds| - 1] == 0 {
      assert ds[1..] == [];
    } else {
      TopStays(ds, doubling, carry);
    }
  }

  lemma ScaledStep(ds: seq<Digit>, i: nat, doubling: bool, carry: Digit, front: seq<Digit>)
    requires i < |ds| && carry < 2
    ensures var value := Grown(ds[i], doubling, carry);
      front + Scaled(ds[i..], doubling, carry) == front + [value % 10] + Scaled(ds[i + 1..], doubling, value / 10)
  {
    assert ds[i..][1..] == ds[i + 1..];
  }

  lemma ScaledEnd(doubling: bool, carry: Digit)
    requires carry < 2
    ensures Scaled([], doubling, carry) == if carry == 0 then [] else [carry]
  {
  }

  /** Rewrites every digit in place, low digit first, and appends what carries out. */
  method ScaleDigits(digits: seq<Digit>, doubling: bool, carryIn: Digit) returns (result: seq<Digit>)
    requires carryIn < 2
    ensures result == Scaled(digits, doubling, carryIn)
  {
    hide Scaled, Grown;
    var carry: Digit := carryIn;
    result := digits;
    assert digits[0..] == digits;
    for i := 0 to |digits|
      invariant |result| == |digits| && carry < 2
      invariant forall k :: i <= k < |digits| ==> result[k] == digits[k]
      invariant result[..i] + Scaled(digits[i..], doubling, carry) == Scaled(digits, doubling, carryIn)
    {
      var value := Grown(result[i], doubling, carry);
      ghost var was := result;
      ScaledStep(digits, i, doubling, carry, was[..i]);
      result := result[i := value % 10];
      assert result[..i + 1] == was[..i] + [value % 10];
      carry := value / 10;
    }
    assert result[..|digits|] == result;
    ScaledEnd(doubling, carry);
    assert digits[|digits|..] == [];
    if carry != 0 {
      result := result + [carry];
    }
  }

  /** Digits as text, high digit first. */
  function Reversed(ds: seq<Digit>): (s: string)
    ensures |s| == |ds| && forall i :: 0 <= i < |s| ==> s[i] == Symbol(ds[|ds| - 1 - i])
  {
    if ds == [] then "" else Reversed(ds[1..]) + [Symbol(ds[0])]
  }

  lemma SymbolDigit(d: Digit)
    ensures IsDigit(Symbol(d)) && DigitValue(Symbol(d)) == d && (Symbol(d) == '0' <==> d == 0)
  {
    assert SYMBOLS[d] == "0123456789"[d];
  }

  lemma {:induction false} ReversedValue(ds: seq<Digit>)
    ensures forall c <- Reversed(ds) :: IsDigit(c)
    ensures ParseNat(Reversed(ds)) == Value(ds)
  {
    if ds != [] {
      ReversedValue(ds[1..]);
      SymbolDigit(ds[0]);
      var s := Reversed(ds);
      assert s[..|s| - 1] == Reversed(ds[1..]);
    }
  }

  lemma ReversedCanonical(ds: seq<Digit>)
    requires Minimal(ds)
    ensures CanonicalNat(Reversed(ds)) && ParseNat(Reversed(ds)) == Value(ds)
    ensures 0 < Value(ds) ==> Reversed(ds)[0] != '0'
  {
    ReversedValue(ds);
    SymbolDigit(ds[|ds| - 1]);
    if Reversed(ds)[0] == '0' {
      assert ds == [0];
    }
  }

  // ---------------------------------------------------------------- values

  predicate Enough(v: FieldValue) {
    v.width <= 32 * |v.words|
  }

  function Raw(v: FieldValue): nat {
    Wrap(v.width, Number(v.words))
  }

  /** The number a value stands for under its encoding. */
  function Meaning(v: FieldValue): int
    requires v.encoding == Encoding.Signed ==> 0 < v.width
  {
    if v.encoding == Encoding.Signed then Division.Signed(v.width, Raw(v)) else Raw(v)
  }

  /** One bit of the words; fails past their end. */
  function BitAt(words: seq<U32>, bit: nat): (b: Option<nat>)
    ensures b.Some? <==> bit < 32 * |words|
    ensures b.Some? ==> b.value == Bits(Number(words), bit, 1) < 2
  {
    if bit / 32 < |words| then
      WithinWord(words, bit / 32, bit % 32, 1);
      assert Pow2(1) == 2;
      Some(Bits(words[bit / 32], bit % 32, 1))
    else None
  }

  lemma NextHigherBit(x: nat, bit: nat, width: nat)
    requires bit < width
    ensures Bits(x, bit, width - bit) == 2 * Bits(x, bit + 1, width - bit - 1) + Bits(x, bit, 1)
  {
    BitsSplit(x, bit, 1, width - bit - 1);
    assert Pow2(1) == 2;
  }

  /** The value read so far, or its complement when the number is negative. */
  function Seen(x: nat, bit: nat, width: nat, negative: bool): int
    requires bit <= width
  {
    var top := Bits(x, bit, width - bit);
    if negative then Pow2(width - bit) - 1 - top else top
  }

  lemma SeenMore(x: nat, bit: nat, width: nat, negative: bool)
    requires bit < width
    ensures Seen(x, bit, width, negative) ==
            2 * Seen(x, bit + 1, width, negative) + (if negative then 1 - Bits(x, bit, 1) else Bits(x, bit, 1))
  {
    NextHigherBit(x, bit, width);
    Halves(width - bit);
  }

  lemma SeenNone(x: nat, width: nat, negative: bool)
    ensures Seen(x, width, width, negative) == 0
  {
    assert Pow2(0) == 1;
  }

  lemma SeenAll(x: nat, width: nat, negative: bool)
    ensures Seen(x, 0, width, negative) == if negative then Pow2(width) - 1 - Wrap(width, x) else Wrap(width, x)
  {
    assert Pow2(0) == 1 && x / 1 == x;
  }

  lemma TopOrNot(bit: nat, p: nat)
    requires bit < 2
    ensures p * bit == if bit == 1 then p else 0
  {
  }

  lemma SignBit(v: FieldValue)
    requires 0 < v.width
    ensures Bits(Number(v.words), v.width - 1, 1) == 1 <==> Pow2(v.width - 1) <= Raw(v)
  {
    hide Number, Bits, Pow2, Wrap;
    var x, w := Number(v.words), v.width;
    BitsSplit(x, 0, w - 1, 1);
    WholeBits(x, w);
    BitsBelow(x, 0, w - 1);
    OneBitSmall(x, w - 1);
    TopOrNot(Bits(x, w - 1, 1), Pow2(w - 1));
  }

  /** Decimal text at any width, by doubling digits; fails only when words are missing. */
  method Decimal(v: FieldValue) returns (text: Option<string>)
    ensures text.Some? <==> Enough(v) && (v.encoding == Encoding.Signed ==> 0 < v.width)
    ensures text.Some? ==> Canonical(text.value) && ParseInt(text.value) == Meaning(v)
  {
    hide Bits, Number, Pow2, Scaled, Value, Seen, Canonical, CanonicalNat, ParseNat, Reversed, Minimal;
    var negative := false;
    if v.encoding == Encoding.Signed {
      if v.width == 0 {
        return None;
      }
      var top := BitAt(v.words, v.width - 1);
      if top == None {
        return None;
      }
      negative := top.value == 1;
      SignBit(v);
    }
    ghost var x := Number(v.words);
    var digits: seq<Digit> := [0];
    Start(x, v.width, negative);
    var bit: nat := v.width;
    while bit > 0
      invariant bit <= v.width
      invariant bit < v.width ==> Enough(v)
      invariant Minimal(digits) && Value(digits) == Seen(x, bit, v.width, negative)
    {
      bit := bit - 1;
      var b := BitAt(v.words, bit);
      if b == None {
        return None;
      }
      var carry := if negative then 1 - b.value else b.value;
      SeenMore(x, bit, v.width, negative);
      ScaledValue(digits, true, carry);
      ScaledMinimal(digits, true, carry);
      digits := ScaleDigits(digits, true, carry);
    }
    SeenAll(x, v.width, negative);
    if negative {
      ScaledValue(digits, false, 1);
      ScaledMinimal(digits, false, 1);
      digits := ScaleDigits(digits, false, 1);
      SignedText(digits);
      text := Some("-" + Reversed(digits));
    } else {
      UnsignedText(digits);
      text := Some(Reversed(digits));
    }
  }

  lemma Start(x: nat, width: nat, negative: bool)
    ensures Minimal([0]) && Value([0]) == 0 == Seen(x, width, width, negative)
  {
    SeenNone(x, width, negative);
    assert Value([0]) == 0 + 10 * Value([]);
  }

  lemma UnsignedText(ds: seq<Digit>)
    requires Minimal(ds)
    ensures Canonical(Reversed(ds)) && ParseInt(Reversed(ds)) == Value(ds)
  {
    ReversedCanonical(ds);
  }

  lemma SignedText(ds: seq<Digit>)
    requires Minimal(ds) && 0 < Value(ds)
    ensures Canonical("-" + Reversed(ds)) && ParseInt("-" + Reversed(ds)) == 0 - Value(ds)
  {
    ReversedCanonical(ds);
    var s := "-" + Reversed(ds);
    assert s[1..] == Reversed(ds);
  }

  // ---------------------------------------------------------------- the text of a number

  /** Digits of a number, low digit first. */
  function DigitsOf(n: nat): (ds: seq<Digit>)
    ensures Minimal(ds) && Value(ds) == n && (0 < n ==> ds[|ds| - 1] != 0)
  {
    if n < 10 then assert Value([n]) == n + 10 * Value([]); [n]
    else
      var rest := DigitsOf(n / 10);
      assert ([n % 10] + rest)[1..] == rest;
      [n % 10] + rest
  }

  /** The canonical text of an integer. */
  function DecimalText(n: int): (s: string)
    ensures Canonical(s) && ParseInt(s) == n
  {
    hide DigitsOf, Canonical, ParseInt;
    if 0 <= n then
      UnsignedText(DigitsOf(n));
      Reversed(DigitsOf(n))
    else
      SignedText(DigitsOf(-n));
      "-" + Reversed(DigitsOf(-n))
  }

  /** Every character is a byte. */
  predicate Narrow(s: string) {
    forall i :: 0 <= i < |s| ==> s[i] as int < 256
  }

  lemma CanonicalNarrow(s: string)
    requires Canonical(s)
    ensures s != "" && Narrow(s)
  {
    forall i | 0 <= i < |s|
      ensures s[i] as int < 256
    {
      if s[0] == '-' && 0 < i {
        assert s[i] == s[1..][i - 1] && s[i] in s[1..];
        assert IsDigit(s[i]);
      } else {
        assert s[i] in s;
      }
    }
  }

  lemma HexNarrow(s: string)
    requires forall c <- s :: IsHex(c)
    ensures Narrow(s)
  {
    forall i | 0 <= i < |s|
      ensures s[i] as int < 256
    {
      assert IsHex(s[i]);
    }
  }

  /** Hexadecimal text of a fixed length, high digit first. */
  function HexOf(x: nat, digits: nat): (s: string)
    requires x < Pow2(4 * digits)
    ensures |s| == digits && (forall c <- s :: IsHex(c)) && ParseHex(s) == x
  {
    if digits == 0 then ""
    else
      assert Pow2(4) == 16;
      Pow2Add(4, 4 * (digits - 1));
      ParseHexAppend(HexOf(x / 16, digits - 1), x % 16);
      HexOf(x / 16, digits - 1) + [Symbol(x % 16)]
  }

  /** There is one text of a length for each number it can hold. */
  lemma {:induction false} HexUnique(s: string, t: string)
    requires |s| == |t| && (forall c <- s :: IsHex(c)) && (forall c <- t :: IsHex(c)) && ParseHex(s) == ParseHex(t)
    ensures s == t
  {
    hide ParseHex, HexDigit, IsHex;
    if s != "" {
      ParseHexLast(s);
      ParseHexLast(t);
      SameHexDigit(s[|s| - 1], t[|t| - 1]);
      HexUnique(s[..|s| - 1], t[..|t| - 1]);
      assert s == s[..|s| - 1] + [s[|s| - 1]] && t == t[..|t| - 1] + [t[|t| - 1]];
    }
  }

  lemma ParseHexLast(s: string)
    requires s != "" && forall c <- s :: IsHex(c)
    ensures (forall c <- s[..|s| - 1] :: IsHex(c)) && IsHex(s[|s| - 1])
    ensures ParseHex(s) == 16 * ParseHex(s[..|s| - 1]) + HexDigit(s[|s| - 1])
  {
  }

  lemma SameHexDigit(x: char, y: char)
    requires IsHex(x) && IsHex(y)
    ensures HexDigit(x) == HexDigit(y) ==> x == y
  {
    assert x as int == y as int ==> x == y;
  }

  // ---------------------------------------------------------------- hexadecimal and machine integers

  predicate IsHex(c: char) {
    '0' <= c <= '9' || 'a' <= c <= 'f'
  }

  function HexDigit(c: char): (d: nat)
    requires IsHex(c)
    ensures d < 16
  {
    if c <= '9' then c as int - '0' as int else c as int - 'a' as int + 10
  }

  /** The symbols are the digits in order. */
  lemma SymbolOfDigit(d: nat)
    requires d < 16
    ensures IsHex(Symbol(d)) && HexDigit(Symbol(d)) == d
  {
    assert SYMBOLS[d] == "0123456789abcdef"[d];
  }

  function ParseHex(s: string): nat
    requires forall c <- s :: IsHex(c)
  {
    if s == "" then 0 else 16 * ParseHex(s[..|s| - 1]) + HexDigit(s[|s| - 1])
  }

  lemma ParseHexAppend(s: string, d: nat)
    requires (forall c <- s :: IsHex(c)) && d < 16
    ensures (forall c <- s + [Symbol(d)] :: IsHex(c)) && ParseHex(s + [Symbol(d)]) == 16 * ParseHex(s) + d
  {
    var t := s + [Symbol(d)];
    assert t[..|t| - 1] == s;
    SymbolOfDigit(d);
  }

  /** Hexadecimal digits to cover the width. */
  function HexDigits(width: nat): nat {
    (width + 3) / 4
  }

  /** Hexadecimal text of fixed length, high digit first. */
  method HexText(v: FieldValue) returns (text: Option<string>)
    ensures text.Some? <==> Enough(v)
    ensures text.Some? ==> |text.value| == 2 + HexDigits(v.width) && text.value[..2] == "0x"
    ensures text.Some? ==>
      (forall c <- text.value[2..] :: IsHex(c)) &&
      ParseHex(text.value[2..]) == Bits(Number(v.words), 0, 4 * HexDigits(v.width))
  {
    hide Bits, Number, Pow2, ParseHex, IsHex;
    ghost var x, n := Number(v.words), HexDigits(v.width);
    var result := "";
    var digit: nat := (v.width + 3) / 4;
    Nothing(x, 4 * n);
    while digit > 0
      invariant digit <= n && |result| == n - digit
      invariant digit < n ==> Enough(v)
      invariant (forall c <- result :: IsHex(c)) && ParseHex(result) == Bits(x, 4 * digit, 4 * (n - digit))
    {
      digit := digit - 1;
      if digit / 8 >= |v.words| {
        return None;
      }
      var nibble := Bits(v.words[digit / 8], digit % 8 * 4, 4);
      WithinWord(v.words, digit / 8, digit % 8 * 4, 4);
      assert 32 * (digit / 8) + digit % 8 * 4 == 4 * digit;
      Nibble(x, 4 * digit, 4 * (n - digit - 1));
      ParseHexAppend(result, nibble);
      result := result + [Symbol(nibble)];
    }
    result := "0x" + result;
    assert result[..2] == "0x";
    text := Some(result);
  }

  lemma Nothing(x: nat, offset: nat)
    ensures Bits(x, offset, 0) == 0 == ParseHex("")
  {
    assert Pow2(0) == 1;
  }

  lemma Nibble(x: nat, offset: nat, above: nat)
    ensures Bits(x, offset, 4) < 16
    ensures Bits(x, offset, 4 + above) == 16 * Bits(x, offset + 4, above) + Bits(x, offset, 4)
  {
    assert Pow2(4) == 16;
    BitsBelow(x, offset, 4);
    BitsSplit(x, offset, 4, above);
  }

  /** A clean value loses nothing to the digits above its width. */
  lemma HexIsRaw(v: FieldValue)
    requires Clean(v)
    ensures Bits(Number(v.words), 0, 4 * HexDigits(v.width)) == Raw(v) == Number(v.words)
  {
    Pow2Grows(v.width, 4 * HexDigits(v.width));
    WrapSmall(v.width, Number(v.words));
    AllBits(Number(v.words), 4 * HexDigits(v.width));
  }

  /** The value as a 64-bit machine integer. */
  method UnsignedValue(v: FieldValue) returns (value: Option<U64>)
    ensures value.Some? <==> v.width <= 64 && |v.words| > (if v.width > 32 then 1 else 0)
    ensures value.Some? ==> value.value == Wrap(if v.width > 32 then 64 else 32, Number(v.words))
  {
    if v.width > 64 || |v.words| == 0 || (v.width > 32 && |v.words| == 1) {
      return None;
    }
    LowWords(v.words);
    value := Some(v.words[0] + (if v.width > 32 then BASE * v.words[1] else 0));
  }

  lemma LowWords(words: seq<U32>)
    requires words != []
    ensures Wrap(32, Number(words)) == words[0]
    ensures 1 < |words| ==> Wrap(64, Number(words)) == words[0] + BASE * words[1]
  {
    WordSize();
    hide Pow2;
    DivideUnique(Number(words), BASE, Number(words[1..]), words[0]);
    if 1 < |words| {
      assert words[1..][1..] == words[2..];
      var z := Number(words[2..]);
      DivideUnique(Number(words), BASE * BASE, z, words[0] + BASE * words[1]);
    }
  }

  /** The words an at most 64-bit value is read from. */
  function Low(v: FieldValue): nat {
    Wrap(if v.width > 32 then 64 else 32, Number(v.words))
  }

  /** Sign extension to 64 bits, then the two's-complement reading without overflow: fill the bits from
      the width up with ones and subtract the complement from -1. A value without its sign bit is read
      whole, with whatever its words hold above the width. */
  method SignedValue(v: FieldValue) returns (value: Option<int>)
    requires 0 < v.width
    ensures value.Some? <==> v.width <= 64 && |v.words| > (if v.width > 32 then 1 else 0)
    ensures value.Some? ==> value.value == if Pow2(v.width - 1) <= Raw(v) then Division.Signed(v.width, Raw(v))
      else Division.Signed(64, Low(v))
    ensures value.Some? ==> 0 - I64_MAX - 1 <= value.value <= I64_MAX
  {
    hide Number, Pow2, Bits, Wrap, Enough;
    var unsigned := UnsignedValue(v);
    if unsigned == None {
      return None;
    }
    var bits: nat := unsigned.value;
    MachinePowers(v.width);
    SignOfLow(v);
    if Bits(bits, v.width - 1, 1) == 0 {
      return Some(if bits <= I64_MAX then bits else bits - (U64_MAX + 1));
    }
    if v.width < 64 {
      bits := Wrap(v.width, bits) + (Pow2(64) - Pow2(v.width));
    }
    var complement := U64_MAX - bits;
    value := Some(-1 - complement);
  }

  /** A captured value is its two's-complement reading. */
  lemma SignedIsMeaning(v: FieldValue)
    requires Clean(v) && v.width <= 64 && Raw(v) < Pow2(v.width - 1)
    ensures Division.Signed(64, Low(v)) == Division.Signed(v.width, Raw(v)) == Raw(v)
  {
    CleanUnsigned(v);
    MachinePowers(v.width);
  }

  lemma CleanUnsigned(v: FieldValue)
    requires Clean(v) && v.width <= 64
    ensures Wrap(if v.width > 32 then 64 else 32, Number(v.words)) == Raw(v) == Number(v.words)
  {
    Pow2Grows(v.width, if v.width > 32 then 64 else 32);
    WrapSmall(v.width, Number(v.words));
    WrapSmall(if v.width > 32 then 64 else 32, Number(v.words));
  }

  lemma MachinePowers(width: nat)
    requires 0 < width <= 64
    ensures Pow2(64) == U64_MAX + 1 && Pow2(63) == I64_MAX + 1
    ensures Pow2(width) <= Pow2(64) && Pow2(width - 1) <= Pow2(63)
    ensures Pow2(width) == 2 * Pow2(width - 1)
  {
    WordSize();
    Pow2Grows(width, 64);
    Pow2Grows(width - 1, 63);
    Halves(width);
    Halves(64);
  }

  /** The words read decide the sign and everything below the width. */
  lemma SignOfLow(v: FieldValue)
    requires 0 < v.width <= 64
    ensures Bits(Low(v), v.width - 1, 1) < 2
    ensures Bits(Low(v), v.width - 1, 1) == 1 <==> Pow2(v.width - 1) <= Raw(v)
    ensures Wrap(v.width, Low(v)) == Raw(v)
    ensures v.width == 64 ==> Low(v) == Raw(v)
  {
    hide Number, Pow2;
    var x, m := Number(v.words), if v.width > 32 then 64 else 32;
    Quotient(x, Pow2(m));
    DropHigh(Low(v), x / Pow2(m), m, v.width - 1, 1);
    DropHigh(Low(v), x / Pow2(m), m, 0, v.width);
    WholeBits(x, v.width);
    WholeBits(Low(v), v.width);
    SignBit(v);
    OneBitSmall(Low(v), v.width - 1);
  }

  lemma WholeBits(x: nat, width: nat)
    ensures Bits(x, 0, width) == Wrap(width, x)
  {
    assert Pow2(0) == 1 && x / 1 == x;
  }

  lemma OneBitSmall(x: nat, bit: nat)
    ensures Bits(x, bit, 1) < 2
  {
    assert Pow2(1) == 2;
    BitsBelow(x, bit, 1);
  }
}

/** The shared RV32/RV64 integer datapath, and that sharing its shifter, subtractor and counter computes
    exactly what each instruction asks for. */
module Alu {
  import opened Power
  import opened Division
  import opened BitVectors

  datatype Xlen = X32 | X64

  datatype Select = Adder | Shift | Compare | MinMax | Count | Rotate

  datatype CountSelect = Leading | Trailing | Population

  datatype Control = Control(
    select: Select,
    count: CountSelect,
    subtract: bool,
    signedCompare: bool,
    maximum: bool,
    shiftRight: bool,
    arithmetic: bool,
    extractBit: bool,
    unsignedWord: bool,
    shiftAdd: nat,
    word: bool)

  function Width(x: Xlen): nat {
    if x.X32? then 32 else 64
  }

  // ---------------------------------------------------------------- the circuit

  function UnsignedWordLeft(x: Xlen, left: Bits): (r: Bits)
    requires |left| == Width(x)
    ensures |r| == Width(x)
  {
    if x.X64? then ZeroExtend(left[..32], 64) else left
  }

  function AdderResult(x: Xlen, c: Control, left: Bits, right: Bits): (r: Bits)
    requires |left| == |right| == Width(x)
    ensures |r| == Width(x)
  {
    var a := BitVectors.Left(if c.unsignedWord then UnsignedWordLeft(x, left) else left, c.shiftAdd);
    var b := if c.subtract then Not(right) else right;
    BitsOf(Width(x), NatOf(a) + NatOf(b) + (if c.subtract then 1 else 0))
  }

  function Less(x: Xlen, c: Control, left: Bits, right: Bits): bool
    requires |left| == |right| == Width(x)
  {
    var leftSign, rightSign := left[Width(x) - 1], right[Width(x) - 1];
    if leftSign == rightSign then AdderResult(x, c, left, right)[Width(x) - 1]
    else if c.signedCompare then leftSign else rightSign
  }

  function ShiftSource(x: Xlen, c: Control, left: Bits): (r: Bits)
    requires |left| == Width(x)
    ensures |r| == Width(x)
  {
    if x.X32? then left
    else if c.word then (if c.arithmetic then SignExtend(left[..32], 64) else UnsignedWordLeft(x, left))
    else if c.unsignedWord then UnsignedWordLeft(x, left) else left
  }

  function ShiftAmount(x: Xlen, c: Control, right: Bits): nat
    requires |right| == Width(x)
  {
    if x.X32? || c.word then NatOf(right[..5]) else NatOf(right[..6])
  }

  /** The negated amount in as many bits as the amount has. */
  function ShiftComplement(x: Xlen, c: Control, right: Bits): nat
    requires |right| == Width(x)
  {
    if x.X32? || c.word then Negate(5, NatOf(right[..5])) else Negate(6, NatOf(right[..6]))
  }

  /** One right shifter with a fill bit; left shifts go through it reversed. */
  function SharedShift(source: Bits, s: nat, shiftRight: bool, arithmetic: bool): (r: Bits)
    requires source != []
    ensures |r| == |source|
  {
    var w := |source|;
    var input := if shiftRight then source else Reverse(source);
    var fill := arithmetic && input[w - 1];
    var shifted := ArithmeticRight(input + [fill], s)[..w];
    if shiftRight then shifted else Reverse(shifted)
  }

  function ShiftResult(x: Xlen, c: Control, left: Bits, right: Bits): (r: Bits)
    requires |left| == |right| == Width(x)
    ensures |r| == Width(x)
  {
    var shared := SharedShift(ShiftSource(x, c, left), ShiftAmount(x, c, right), c.shiftRight, c.arithmetic);
    if c.extractBit then ZeroExtend([shared[0]], Width(x)) else shared
  }

  /** The shared shift, with the complementary half added. */
  function RotateResult(x: Xlen, c: Control, left: Bits, right: Bits): (r: Bits)
    requires |left| == |right| == Width(x)
    ensures |r| == Width(x)
  {
    var source := ShiftSource(x, c, left);
    var shared := SharedShift(source, ShiftAmount(x, c, right), c.shiftRight, c.arithmetic);
    var other := LogicalRight(if c.shiftRight then Reverse(source) else source, ShiftComplement(x, c, right));
    Or(shared, if c.shiftRight then Reverse(other) else other)
  }

  /** Index of the lowest set bit. */
  function PriorityEncoder(b: Bits): nat {
    if b == [] || b[0] then 0 else 1 + PriorityEncoder(b[1..])
  }

  predicate AnySet(b: Bits) {
    exists i :: 0 <= i < |b| && b[i]
  }

  function PopCount(b: Bits): nat {
    if b == [] then 0 else (if b[0] then 1 else 0) + PopCount(b[1..])
  }

  function CountSource(x: Xlen, c: Control, left: Bits): (r: Bits)
    requires |left| == Width(x)
    ensures |r| == Width(x)
  {
    if x.X64? && c.word then UnsignedWordLeft(x, left) else left
  }

  function ReversedCountSource(x: Xlen, c: Control, left: Bits): (r: Bits)
    requires |left| == Width(x)
    ensures |r| == Width(x)
  {
    if x.X64? && c.word then ZeroExtend(Reverse(left[..32]), 64) else Reverse(left)
  }

  function CountValue(x: Xlen, c: Control, left: Bits): nat
    requires |left| == Width(x)
  {
    var input := if c.count.Leading? then ReversedCountSource(x, c, left) else CountSource(x, c, left);
    if c.count.Population? then PopCount(CountSource(x, c, left))
    else if AnySet(input) then PriorityEncoder(input)
    else if x.X64? && c.word then 32 else Width(x)
  }

  function Selected(x: Xlen, c: Control, left: Bits, right: Bits): (r: Bits)
    requires |left| == |right| == Width(x)
    ensures |r| == Width(x)
  {
    match c.select
    case Adder => AdderResult(x, c, left, right)
    case Shift => ShiftResult(x, c, left, right)
    case Compare => ZeroExtend([Less(x, c, left, right)], Width(x))
    case MinMax => if Less(x, c, left, right) != c.maximum then left else right
    case Count => BitsOf(Width(x), CountValue(x, c, left))
    case Rotate => RotateResult(x, c, left, right)
  }

  /** The datapath. */
  function Execute(x: Xlen, c: Control, left: Bits, right: Bits): (r: Bits)
    requires |left| == |right| == Width(x)
    ensures |r| == Width(x)
  {
    var selected := Selected(x, c, left, right);
    if x.X64? && c.word then SignExtend(selected[..32], 64) else selected
  }

  // ---------------------------------------------------------------- what instructions mean

  /** The part of an operand an instruction works on, and how its result fills a register. */
  function Operand(x: Xlen, c: Control, b: Bits): (r: Bits)
    requires |b| == Width(x)
    ensures |r| == 32 || |r| == 64
  {
    if x.X64? && c.word then b[..32] else b
  }

  function Delivered(x: Xlen, c: Control, b: Bits): Bits
    requires |b| == if x.X64? && c.word then 32 else Width(x)
  {
    if x.X64? && c.word then SignExtend(b, 64) else b
  }

  /** Amounts count modulo the number of bits worked on. */
  function Amount(x: Xlen, c: Control, right: Bits): (s: nat)
    requires |right| == Width(x)
    ensures s < |Operand(x, c, right)|
  {
    NatOf(right) % |Operand(x, c, right)|
  }

  lemma AmountExact(x: Xlen, c: Control, right: Bits)
    requires |right| == Width(x)
    ensures ShiftAmount(x, c, right) == Amount(x, c, right)
    ensures ShiftComplement(x, c, right) == if Amount(x, c, right) == 0 then 0
      else |Operand(x, c, right)| - Amount(x, c, right)
  {
    var k := if x.X32? || c.word then 5 else 6;
    assert Pow2(5) == 32;
    assert Pow2(6) == 64;
    Cut(right, k);
    var s: int := NatOf(right[..k]);
    var n := Pow2(k);
    hide Pow2, NatOf, Wrap;
    DivideUnique(NatOf(right), n, NatOf(right[k..]), s);
    if s == 0 {
      WrapUnique(k, 0 - s, 0, 0);
    } else {
      WrapUnique(k, 0 - s, -1, n - s);
    }
  }

  /** Reversing around the right shifter is a left shift, unless the fill bit is a set one. */
  lemma SharedShiftExact(source: Bits, s: nat, shiftRight: bool, arithmetic: bool)
    requires source != []
    ensures shiftRight && arithmetic ==> SharedShift(source, s, shiftRight, arithmetic) == ArithmeticRight(source, s)
    ensures shiftRight && !arithmetic ==> SharedShift(source, s, shiftRight, arithmetic) == LogicalRight(source, s)
    ensures !shiftRight ==>
      (SharedShift(source, s, shiftRight, arithmetic) == BitVectors.Left(source, s) <==>
        !(arithmetic && source[0] && 0 < s))
  {
    if shiftRight {
      SharedRightExact(source, s, arithmetic);
    } else {
      SharedLeftExact(source, s, arithmetic);
    }
  }

  lemma SharedRightExact(source: Bits, s: nat, arithmetic: bool)
    requires source != []
    ensures SharedShift(source, s, true, arithmetic) == if arithmetic then ArithmeticRight(source, s)
      else LogicalRight(source, s)
  {
  }

  lemma SharedLeftExact(source: Bits, s: nat, arithmetic: bool)
    requires source != []
    ensures SharedShift(source, s, false, arithmetic) == BitVectors.Left(source, s) <==>
      !(arithmetic && source[0] && 0 < s)
  {
    var w := |source|;
    var input := Reverse(source);
    var fill := arithmetic && input[w - 1];
    var shifted := ArithmeticRight(input + [fill], s);
    forall i | 0 <= i < w
      ensures SharedShift(source, s, false, arithmetic)[i] == if s <= i then source[i - s] else fill
    {
      assert shifted[..w][w - 1 - i] == shifted[w - 1 - i];
    }
    if 0 < s {
      assert SharedShift(source, s, false, arithmetic)[0] == fill;
      assert !BitVectors.Left(source, s)[0];
    }
  }

  /** Shifts, full and word: every amount, both directions, both fills. */
  lemma ShiftExact(x: Xlen, c: Control, left: Bits, right: Bits)
    requires |left| == |right| == Width(x)
    requires c.select.Shift? && !c.extractBit && !c.unsignedWord && (c.arithmetic ==> c.shiftRight)
    ensures var b, s := Operand(x, c, left), Amount(x, c, right);
      Execute(x, c, left, right) ==
      Delivered(x, c, if !c.shiftRight then BitVectors.Left(b, s) else if c.arithmetic then ArithmeticRight(b, s)
        else LogicalRight(b, s))
  {
    hide Amount, ShiftAmount, SharedShift, SignExtend, ZeroExtend;
    AmountExact(x, c, right);
    var source, s := ShiftSource(x, c, left), ShiftAmount(x, c, right);
    SharedShiftExact(source, s, c.shiftRight, c.arithmetic);
    if x.X64? && c.word {
      WordShift(left[..32], source, s);
    }
  }

  /** Shifting the extended word leaves the shifted word in the low bits. */
  lemma WordShift(b: Bits, source: Bits, s: nat)
    requires |b| == 32 && |source| == 64 && s < 32
    ensures source == ZeroExtend(b, 64) ==> BitVectors.Left(source, s)[..32] == BitVectors.Left(b, s)
    ensures source == ZeroExtend(b, 64) ==> LogicalRight(source, s)[..32] == LogicalRight(b, s)
    ensures source == SignExtend(b, 64) ==> ArithmeticRight(source, s)[..32] == ArithmeticRight(b, s)
  {
  }

  /** As numbers: a left shift multiplies modulo the width, right shifts divide rounding down. */
  lemma ShiftNumbers(b: Bits, s: nat)
    requires s < |b|
    ensures NatOf(BitVectors.Left(b, s)) == Wrap(|b|, NatOf(b) * Pow2(s))
    ensures NatOf(LogicalRight(b, s)) == NatOf(b) / Pow2(s)
    ensures SignedOf(ArithmeticRight(b, s)) == SignedOf(b) / Pow2(s)
  {
    LeftNat(b, s);
    LogicalRightNat(b, s);
    ArithmeticRightSigned(b, s);
  }

  lemma ReverseLeft(b: Bits, s: nat)
    ensures Reverse(LogicalRight(Reverse(b), s)) == BitVectors.Left(b, s)
  {
  }

  /** The two halves of a rotation, computed in at least as many bits as are rotated. */
  lemma HalvesRotate(b: Bits, source: Bits, r: nat, t: nat)
    requires |b| <= |source| && source == ZeroExtend(b, |source|) && r < |b| && t == (if r == 0 then 0 else |b| - r)
    ensures Or(LogicalRight(source, r), BitVectors.Left(source, t))[..|b|] == RotateRight(b, r)
    ensures Or(BitVectors.Left(source, t), LogicalRight(source, r))[..|b|] == RotateRight(b, r)
  {
    var n := |b|;
    forall i | 0 <= i < n
      ensures RotateRight(b, r)[i] == if i + r < n then b[i + r] else b[i + r - n]
    {
      SmallModulo(i + r, n);
    }
    var half, other := LogicalRight(source, r), BitVectors.Left(source, t);
    forall i | 0 <= i < n
      ensures (half[i] || other[i]) == RotateRight(b, r)[i]
    {
      assert half[i] == if i + r < n then b[i + r] else false;
      assert other[i] == if t <= i then b[i - t] else false;
    }
  }

  lemma SmallModulo(x: nat, n: nat)
    requires x < 2 * n
    ensures x % n == if x < n then x else x - n
  {
    DivideUnique(x, n, if x < n then 0 else 1, if x < n then x else x - n);
  }

  /** Rotates, full and word, by any amount including zero. */
  lemma RotateExact(x: Xlen, c: Control, left: Bits, right: Bits)
    requires |left| == |right| == Width(x)
    requires c.select.Rotate? && !c.arithmetic && !c.unsignedWord
    ensures var b, s := Operand(x, c, left), Amount(x, c, right);
      Execute(x, c, left, right) == Delivered(x, c, if c.shiftRight then RotateRight(b, s) else RotateLeft(b, s))
  {
    hide Amount, ShiftAmount, ShiftComplement, RotateRight, RotateLeft, RotateResult, SignExtend;
    AmountExact(x, c, right);
    var b, s, t := Operand(x, c, left), ShiftAmount(x, c, right), ShiftComplement(x, c, right);
    RotatesBy(x, c, left, right, s, t);
    OtherWay(b, s, t);
  }

  lemma OtherWay(b: Bits, s: nat, t: nat)
    requires s < |b| && t == if s == 0 then 0 else |b| - s
    ensures RotateLeft(b, s) == RotateRight(b, t)
  {
    forall i | 0 <= i < |b|
      ensures RotateLeft(b, s)[i] == RotateRight(b, t)[i]
    {
      SmallModulo(i + |b| - s, |b|);
      SmallModulo(i + t, |b|);
    }
  }

  lemma RotatesBy(x: Xlen, c: Control, left: Bits, right: Bits, s: nat, t: nat)
    requires |left| == |right| == Width(x)
    requires !c.arithmetic && !c.unsignedWord
    requires s == ShiftAmount(x, c, right) && t == ShiftComplement(x, c, right)
    requires var n := |Operand(x, c, left)|; s < n && t == if s == 0 then 0 else n - s
    ensures var b := Operand(x, c, left);
      RotateResult(x, c, left, right)[..|b|] == RotateRight(b, if c.shiftRight then s else t)
    ensures |Operand(x, c, left)| == Width(x) ==>
      RotateResult(x, c, left, right) == RotateRight(Operand(x, c, left), if c.shiftRight then s else t)
  {
    var b, source := Operand(x, c, left), ShiftSource(x, c, left);
    assert source == ZeroExtend(b, |source|);
    hide ShiftAmount, ShiftComplement, ShiftSource, SharedShift, ArithmeticRight, LogicalRight, BitVectors.Left;
    hide RotateRight;
    SharedShiftExact(source, s, c.shiftRight, false);
    ReverseLeft(source, t);
    if c.shiftRight {
      HalvesRotate(b, source, s, t);
    } else {
      HalvesRotate(b, source, t, s);
    }
    var result := RotateResult(x, c, left, right);
    assert result[..|result|] == result;
  }

  /** SLLI.UW shifts the zero-extended word. */
  lemma UnsignedWordShift(x: Xlen, c: Control, left: Bits, right: Bits)
    requires x.X64? && |left| == |right| == 64
    requires c.select.Shift? && !c.extractBit && c.unsignedWord && !c.word && !c.shiftRight && !c.arithmetic
    ensures Execute(x, c, left, right) == BitVectors.Left(ZeroExtend(left[..32], 64), Amount(x, c, right))
  {
    hide Amount, ShiftAmount, SharedShift;
    AmountExact(x, c, right);
    SharedShiftExact(ShiftSource(x, c, left), ShiftAmount(x, c, right), false, false);
  }

  /** BEXT delivers the addressed bit alone. */
  lemma ExtractExact(x: Xlen, c: Control, left: Bits, right: Bits)
    requires |left| == |right| == Width(x)
    requires c.select.Shift? && c.extractBit && c.shiftRight && !c.arithmetic && !c.unsignedWord && !c.word
    ensures NatOf(Execute(x, c, left, right)) == if left[Amount(x, c, right)] then 1 else 0
  {
    hide Amount, ShiftAmount, SharedShift, NatOf;
    AmountExact(x, c, right);
    var s, w := Amount(x, c, right), Width(x);
    SharedShiftExact(left, s, true, false);
    Concat([left[s]], BitVectors.Zeros(w - 1));
    ZeroNat(w - 1);
    OneBit(left[s]);
  }

  // ---------------------------------------------------------------- addition

  lemma {:induction false} LowBits(w: nat, n: nat, k: nat)
    requires k <= w
    ensures BitsOf(w, n)[..k] == BitsOf(k, n)
  {
    if k > 0 {
      LowBits(w - 1, n / 2, k - 1);
      assert BitsOf(w, n)[..k] == [n % 2 == 1] + BitsOf(w - 1, n / 2)[..k - 1];
    }
  }

  lemma SameBits(w: nat, m: nat, n: nat)
    requires Wrap(w, m) == Wrap(w, n)
    ensures BitsOf(w, m) == BitsOf(w, n)
  {
    NatOfBits(w, m);
    NatOfBits(w, n);
    NatInjective(BitsOf(w, m), BitsOf(w, n));
  }

  lemma Congruent(w: nat, s: int, t: int, m: int)
    requires s == t + m * Pow2(w)
    ensures Wrap(w, s) == Wrap(w, t)
  {
    hide Pow2;
    Quotient(t, Pow2(w));
    SumTimes(t / Pow2(w), m, Pow2(w));
    WrapUnique(w, s, t / Pow2(w) + m, t % Pow2(w));
    WrapUnique(w, t, t / Pow2(w), t % Pow2(w));
  }

  /** The operand the adder shifts, and what the instruction adds. */
  function Augend(x: Xlen, c: Control, left: Bits): Bits
    requires |left| == Width(x)
  {
    if x.X64? && (c.word || c.unsignedWord) then left[..32] else left
  }

  function ShiftedSource(x: Xlen, c: Control, left: Bits): (r: Bits)
    requires |left| == Width(x)
    ensures |r| == Width(x)
  {
    if c.unsignedWord then UnsignedWordLeft(x, left) else left
  }

  lemma AugendPart(x: Xlen, c: Control, left: Bits) returns (high: nat)
    requires |left| == Width(x) && !(c.word && c.unsignedWord)
    ensures NatOf(ShiftedSource(x, c, left)) == NatOf(Augend(x, c, left)) + Pow2(|Operand(x, c, left)|) * high
  {
    hide NatOf, Pow2;
    high := 0;
    if x.X64? && c.word {
      Cut(left, 32);
      high := NatOf(left[32..]);
    } else if x.X64? && c.unsignedWord {
      Concat(left[..32], BitVectors.Zeros(32));
      ZeroNat(32);
    }
  }

  lemma OperandPart(x: Xlen, c: Control, b: Bits) returns (high: nat)
    requires |b| == Width(x)
    ensures NatOf(b) == NatOf(Operand(x, c, b)) + Pow2(|Operand(x, c, b)|) * high
  {
    hide NatOf, Pow2;
    high := 0;
    if x.X64? && c.word {
      Cut(b, 32);
      high := NatOf(b[32..]);
    }
  }

  /** What the wide sum has beyond the narrow one is a multiple of the narrow modulus. */
  lemma Folded(a: nat, ah: nat, b: nat, bh: nat, k: nat, n: nat, e: nat, q: int, subtract: bool) returns (m: int)
    ensures (a + n * ah) * k - q * (n * e) + (if subtract then n * e - (b + n * bh) else b + n * bh) ==
            a * k + (if subtract then 0 - b else b) + m * n
  {
    m := ah * k - q * e + (if subtract then e - bh else bh);
    assert (a + n * ah) * k == a * k + ah * k * n;
    assert q * (n * e) == q * e * n;
    SumTimes(ah * k - q * e, if subtract then e - bh else bh, n);
    SumTimes(ah * k, 0 - q * e, n);
    if subtract {
      SumTimes(e, 0 - bh, n);
    }
  }

  /** The adder's wide sum and the instruction's narrow one agree in the bits worked on. */
  lemma AdderSum(x: Xlen, c: Control, left: Bits, right: Bits) returns (sum: nat)
    requires |left| == |right| == Width(x) && c.shiftAdd < 4 && !(c.word && c.unsignedWord)
    ensures AdderResult(x, c, left, right) == BitsOf(Width(x), sum)
    ensures var n, a, b := |Operand(x, c, left)|, NatOf(Augend(x, c, left)), NatOf(Operand(x, c, right));
      Wrap(n, sum) == Wrap(n, a * Pow2(c.shiftAdd) + (if c.subtract then 0 - b else b))
  {
    hide NatOf, Pow2, Wrap, BitsOf, BitVectors.Left, Not, Augend;
    var w, n, k, source := Width(x), |Operand(x, c, left)|, c.shiftAdd, ShiftedSource(x, c, left);
    var a: int, b: int := NatOf(Augend(x, c, left)), NatOf(Operand(x, c, right));
    var ah := AugendPart(x, c, left);
    var bh := OperandPart(x, c, right);
    sum := NatOf(BitVectors.Left(source, k)) + NatOf(if c.subtract then Not(right) else right) +
      (if c.subtract then 1 else 0);
    LeftNat(source, k);
    NotNat(right);
    var q := Overflowed(w, NatOf(source) * Pow2(k));
    Pow2Add(n, w - n);
    var m := Folded(a, ah, b, bh, Pow2(k), Pow2(n), Pow2(w - n), q, c.subtract);
    Congruent(n, sum, a * Pow2(k) + (if c.subtract then 0 - b else b), m);
  }

  lemma Overflowed(w: nat, x: nat) returns (q: int)
    ensures x == Wrap(w, x) + q * Pow2(w)
  {
    hide Pow2;
    q := x / Pow2(w);
    Quotient(x, Pow2(w));
  }

  /** Sums and differences with a shifted left operand, modulo the bits worked on. */
  lemma AdderExact(x: Xlen, c: Control, left: Bits, right: Bits)
    requires |left| == |right| == Width(x) && c.shiftAdd < 4
    requires c.select.Adder? && !(c.word && c.unsignedWord)
    ensures var n, a, b := |Operand(x, c, left)|, NatOf(Augend(x, c, left)), NatOf(Operand(x, c, right));
      Execute(x, c, left, right) ==
        Delivered(x, c, BitsOf(n, Wrap(n, a * Pow2(c.shiftAdd) + (if c.subtract then 0 - b else b))))
  {
    hide NatOf, Pow2, Wrap, BitsOf, Augend, SignExtend;
    var sum := AdderSum(x, c, left, right);
    var n, a: int, b: int := |Operand(x, c, left)|, NatOf(Augend(x, c, left)), NatOf(Operand(x, c, right));
    var target := a * Pow2(c.shiftAdd) + (if c.subtract then 0 - b else b);
    LowBits(Width(x), sum, n);
    WrapTwice(n, target);
    SameBits(n, sum, Wrap(n, target));
    hide AdderResult;
  }

  lemma WrapTwice(w: nat, x: int)
    ensures Wrap(w, Wrap(w, x)) == Wrap(w, x)
  {
    WrapSmall(w, Wrap(w, x));
  }

  // ---------------------------------------------------------------- comparison

  /** The order read off the subtraction is the signed or unsigned order. */
  lemma LessExact(x: Xlen, c: Control, left: Bits, right: Bits)
    requires |left| == |right| == Width(x)
    requires c.subtract && !c.unsignedWord && c.shiftAdd == 0
    ensures Less(x, c, left, right) <==>
      if c.signedCompare then SignedOf(left) < SignedOf(right) else NatOf(left) < NatOf(right)
  {
    var w := Width(x);
    Below(left);
    Below(right);
    TopBit(left);
    TopBit(right);
    TopBit(AdderResult(x, c, left, right));
    Difference(x, c, left, right);
    Halves(w);
    hide Pow2, NatOf, AdderResult;
    OrderFromDifference(Pow2(w - 1), NatOf(left), NatOf(right), NatOf(AdderResult(x, c, left, right)));
  }

  lemma Difference(x: Xlen, c: Control, left: Bits, right: Bits)
    requires |left| == |right| == Width(x)
    requires c.subtract && !c.unsignedWord && c.shiftAdd == 0
    ensures var l, r := NatOf(left), NatOf(right);
      NatOf(AdderResult(x, c, left, right)) == if r <= l then l - r else l - r + Pow2(Width(x))
  {
    hide Pow2, NatOf, Wrap, AdderResult;
    var w := Width(x);
    PlainSubtraction(x, c, left, right);
    NotNat(right);
    Below(left);
    Below(right);
    NatOfBits(w, NatOf(left) + NatOf(Not(right)) + 1);
    SubtractWrap(w, NatOf(left), NatOf(right));
  }

  lemma PlainSubtraction(x: Xlen, c: Control, left: Bits, right: Bits)
    requires |left| == |right| == Width(x)
    requires c.subtract && !c.unsignedWord && c.shiftAdd == 0
    ensures AdderResult(x, c, left, right) == BitsOf(Width(x), NatOf(left) + NatOf(Not(right)) + 1)
  {
    hide NatOf, BitsOf;
    assert BitVectors.Left(left, 0) == left;
  }

  lemma OrderFromDifference(h: nat, l: nat, r: nat, d: nat)
    requires l < 2 * h && r < 2 * h && d == if r <= l then l - r else l - r + 2 * h
    ensures (h <= l) == (h <= r) ==> (h <= d <==> l < r)
    ensures (h <= l) != (h <= r) ==>
      (l < r <==> h <= r) && (l - (if h <= l then 2 * h else 0) < r - (if h <= r then 2 * h else 0) <==> h <= l)
  {
  }

  /** Adding the complement and one subtracts modulo the width. */
  lemma SubtractWrap(w: nat, l: nat, r: nat)
    requires l < Pow2(w) && r < Pow2(w)
    ensures Wrap(w, l + (Pow2(w) - 1 - r) + 1) == if r <= l then l - r else l - r + Pow2(w)
  {
    WrapUnique(w, l + (Pow2(w) - 1 - r) + 1, if r <= l then 1 else 0, if r <= l then l - r else l - r + Pow2(w));
  }

  lemma CompareExact(x: Xlen, c: Control, left: Bits, right: Bits)
    requires |left| == |right| == Width(x)
    requires c.select.Compare? && c.subtract && !c.unsignedWord && c.shiftAdd == 0 && !c.word
    ensures NatOf(Execute(x, c, left, right)) ==
      if (if c.signedCompare then SignedOf(left) < SignedOf(right) else NatOf(left) < NatOf(right)) then 1 else 0
  {
    var w := Width(x);
    LessExact(x, c, left, right);
    var bit := [Less(x, c, left, right)];
    hide Less;
    Concat(bit, BitVectors.Zeros(w - 1));
    ZeroNat(w - 1);
    OneBit(bit[0]);
  }

  /** Minimum and maximum reuse the comparison: the result is an operand, and neither is beyond it. */
  lemma MinMaxExact(x: Xlen, c: Control, left: Bits, right: Bits)
    requires |left| == |right| == Width(x)
    requires c.select.MinMax? && c.subtract && !c.unsignedWord && c.shiftAdd == 0 && !c.word
    ensures var r := Execute(x, c, left, right);
      && (r == left || r == right)
      && (c.signedCompare ==>
            if c.maximum then SignedOf(left) <= SignedOf(r) && SignedOf(right) <= SignedOf(r)
            else SignedOf(r) <= SignedOf(left) && SignedOf(r) <= SignedOf(right))
      && (!c.signedCompare ==>
            if c.maximum then NatOf(left) <= NatOf(r) && NatOf(right) <= NatOf(r)
            else NatOf(r) <= NatOf(left) && NatOf(r) <= NatOf(right))
  {
    LessExact(x, c, left, right);
    hide Less, NatOf, SignedOf;
  }

  // ---------------------------------------------------------------- counting

  function TrailingZeros(b: Bits): nat {
    if b == [] || b[0] then 0 else 1 + TrailingZeros(b[1..])
  }

  function LeadingZeros(b: Bits): nat {
    if b == [] || b[|b| - 1] then 0 else 1 + LeadingZeros(b[..|b| - 1])
  }

  lemma {:induction false} EncoderCounts(b: Bits, high: Bits)
    requires forall i :: 0 <= i < |high| ==> !high[i]
    ensures AnySet(b + high) <==> AnySet(b)
    ensures AnySet(b) ==> PriorityEncoder(b + high) == TrailingZeros(b)
    ensures !AnySet(b) ==> TrailingZeros(b) == |b|
  {
    if b != [] {
      var rest := b[1..];
      assert (b + high)[1..] == rest + high;
      EncoderCounts(rest, high);
      if AnySet(b) {
        var i :| 0 <= i < |b| && b[i];
        assert i > 0 ==> rest[i - 1];
        assert (b + high)[i];
      }
      if AnySet(b + high) {
        var i :| 0 <= i < |b + high| && (b + high)[i];
        assert b[i];
      }
      if AnySet(rest) {
        var i :| 0 <= i < |rest| && rest[i];
        assert b[i + 1];
      }
    }
  }

  lemma {:induction false} ReversedCounts(b: Bits)
    ensures TrailingZeros(Reverse(b)) == LeadingZeros(b)
  {
    if b != [] {
      var front := b[..|b| - 1];
      assert Reverse(b)[1..] == Reverse(front);
      ReversedCounts(front);
    }
  }

  lemma {:induction false} PopCountAppend(a: Bits, b: Bits)
    ensures PopCount(a + b) == PopCount(a) + PopCount(b)
  {
    if a == [] {
      assert a + b == b;
    } else {
      assert (a + b)[1..] == a[1..] + b;
      PopCountAppend(a[1..], b);
    }
  }

  lemma {:induction false} PopCountZeros(n: nat)
    ensures PopCount(BitVectors.Zeros(n)) == 0
  {
    if n > 0 {
      assert BitVectors.Zeros(n)[1..] == BitVectors.Zeros(n - 1);
      PopCountZeros(n - 1);
    }
  }

  lemma {:induction false} CountsFit(b: Bits)
    ensures LeadingZeros(b) <= |b| && TrailingZeros(b) <= |b| && PopCount(b) <= |b|
  {
    if b != [] {
      CountsFit(b[1..]);
      LeadingFits(b);
    }
  }

  lemma {:induction false} LeadingFits(b: Bits)
    ensures LeadingZeros(b) <= |b|
  {
    if b != [] {
      LeadingFits(b[..|b| - 1]);
    }
  }

  /** A population is the number of set bits. */
  lemma {:induction false} PopCountIsSize(b: Bits)
    ensures PopCount(b) == |set i | 0 <= i < |b| && b[i]|
  {
    if b != [] {
      var front, last := b[..|b| - 1], b[|b| - 1];
      PopCountIsSize(front);
      assert b == front + [last];
      PopCountAppend(front, [last]);
      assert [last][1..] == [] && PopCount([last]) == (if last then 1 else 0);
      var n := |b| - 1;
      assert (set i | 0 <= i < |b| && b[i]) == (set i | 0 <= i < |front| && front[i]) + (if last then {n} else {});
    }
  }

  /** Trailing and leading zeros run up to the first set bit from either end, or through the whole value. */
  lemma {:induction false} TrailingZerosAt(b: Bits)
    ensures TrailingZeros(b) <= |b| && (forall i :: 0 <= i < TrailingZeros(b) ==> !b[i])
    ensures TrailingZeros(b) < |b| ==> b[TrailingZeros(b)]
  {
    if b != [] && !b[0] {
      TrailingZerosAt(b[1..]);
      forall i | 0 <= i < TrailingZeros(b)
        ensures !b[i]
      {
        assert 0 < i ==> b[i] == b[1..][i - 1];
      }
    }
  }

  lemma {:induction false} LeadingZerosAt(b: Bits)
    ensures LeadingZeros(b) <= |b| && (forall i :: |b| - LeadingZeros(b) <= i < |b| ==> !b[i])
    ensures LeadingZeros(b) < |b| ==> b[|b| - 1 - LeadingZeros(b)]
  {
    if b != [] && !b[|b| - 1] {
      LeadingZerosAt(b[..|b| - 1]);
    }
  }

  /** What the one encoder counts is what the instruction asks for, on zero too. */
  lemma CountValueExact(x: Xlen, c: Control, left: Bits)
    requires |left| == Width(x)
    ensures var b := Operand(x, c, left);
      CountValue(x, c, left) ==
        match c.count {
          case Leading => LeadingZeros(b)
          case Trailing => TrailingZeros(b)
          case Population => |set i | 0 <= i < |b| && b[i]|
        }
  {
    var b := Operand(x, c, left);
    var high := BitVectors.Zeros(Width(x) - |b|);
    assert CountSource(x, c, left) == b + high;
    assert ReversedCountSource(x, c, left) == Reverse(b) + high;
    EncoderCounts(b, high);
    EncoderCounts(Reverse(b), high);
    ReversedCounts(b);
    PopCountAppend(b, high);
    PopCountZeros(Width(x) - |b|);
    PopCountIsSize(b);
  }

  lemma SmallFits(n: nat)
    requires n <= 64
    ensures n < Pow2(31) && n < Pow2(32) && n < Pow2(64)
  {
    assert Pow2(7) == 128;
    Pow2Grows(7, 31);
    Pow2Grows(7, 32);
    Pow2Grows(7, 64);
  }

  /** A small number survives delivery. */
  lemma SmallDelivered(n: nat)
    requires n <= 64
    ensures NatOf(SignExtend(BitsOf(64, n)[..32], 64)) == n == NatOf(BitsOf(64, n)) == NatOf(BitsOf(32, n))
  {
    SmallFits(n);
    hide Pow2, NatOf, BitsOf;
    NatOfBits(64, n);
    NatOfBits(32, n);
    WrapSmall(64, n);
    WrapSmall(32, n);
    var b := BitsOf(64, n);
    var low := b[..32];
    Cut(b, 32);
    TopBit(low);
    HighZero(NatOf(b), NatOf(low), NatOf(b[32..]), Pow2(32));
    assert SignExtend(low, 64) == low + BitVectors.Zeros(32);
    Concat(low, BitVectors.Zeros(32));
    ZeroNat(32);
  }

  lemma HighZero(n: nat, low: nat, high: nat, p: nat)
    requires n == low + p * high && n < p
    ensures high == 0 && low == n
  {
    DivideUnique(n, p, high, low);
  }

  lemma CountExact(x: Xlen, c: Control, left: Bits, right: Bits)
    requires |left| == |right| == Width(x) && c.select.Count?
    ensures var b := Operand(x, c, left);
      NatOf(Execute(x, c, left, right)) ==
        match c.count {
          case Leading => LeadingZeros(b)
          case Trailing => TrailingZeros(b)
          case Population => |set i | 0 <= i < |b| && b[i]|
        }
  {
    hide NatOf, SignExtend, LeadingZeros, TrailingZeros, PopCount;
    CountValueExact(x, c, left);
    CountsFit(Operand(x, c, left));
    PopCountIsSize(Operand(x, c, left));
    SmallDelivered(CountValue(x, c, left));
  }
}

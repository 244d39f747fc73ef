/** The planned wiring refines the flat memory it was planned for. */
module SramRefinement {
  import opened Options
  import opened Power
  import opened SramPlan
  import opened SramWrapper

  /** The logical memory: masked writes, and read data registered until the next read. Reading outside
      the depth leaves the read data undefined; writing there does nothing. */
  datatype Flat = Flat(words: seq<Bits>, out: Option<Bits>)

  predicate FlatShape(m: Memory, f: Flat) {
    |f.words| == m.depth && forall a :: 0 <= a < |f.words| ==> |f.words[a]| == m.width
  }

  predicate MaskedBit(m: Memory, mask: Bits, i: nat) {
    !m.Masked() || (0 < m.maskGranularity && i / m.maskGranularity < |mask| && mask[i / m.maskGranularity])
  }

  function FlatClock(m: Memory, f: Flat, i: Input): (f': Flat)
    requires m.Valid() && FlatShape(m, f) && DataFits(m, i)
    ensures FlatShape(m, f')
  {
    if !i.enable then f
    else if i.address >= m.depth then (if i.write then f else f.(out := None))
    else if i.write then
      f.(words := f.words[i.address := seq(m.width, k requires 0 <= k < m.width =>
        if MaskedBit(m, i.mask, k) then i.data[k] else f.words[i.address][k])])
    else f.(out := Some(f.words[i.address]))
  }

  predicate DataFits(m: Memory, i: Input) {
    |i.data| == m.width
  }

  // ---------------------------------------------------------------- one bit at a time

  /** The bit of the grid that stores bit `i` of word `a`. */
  function CellBit(p: Plan, s: Wrapper, q: Place): bool
    requires p.Valid() && WellFormed(p, s)
    requires q.bank < p.banks && q.column < p.slices && q.row < p.macro.Depth() && q.bit < p.macro.width
  {
    assert CellShape(p, s.grid[q.bank][q.column]);
    s.grid[q.bank][q.column].rows[q.row][q.bit]
  }

  function StoredBit(p: Plan, s: Wrapper, a: nat, i: nat): bool
    requires p.Valid() && WellFormed(p, s) && a < p.memory.depth && i < p.memory.width
  {
    CellBit(p, s, PlaceOf(p, a, i))
  }

  ghost predicate Stores(p: Plan, s: Wrapper, words: seq<Bits>)
    requires p.Valid() && WellFormed(p, s) && FlatShape(p.memory, Flat(words, None))
  {
    forall a, i :: 0 <= a < p.memory.depth && 0 <= i < p.memory.width ==> StoredBit(p, s, a, i) == words[a][i]
  }

  ghost predicate Refines(p: Plan, s: Wrapper, f: Flat)
    requires p.Valid() && WellFormed(p, s) && FlatShape(p.memory, f)
  {
    Stores(p, s, f.words) && (f.out.Some? ==> PlannedReadData(p, s) == f.out)
  }

  /** Exactly the bank that holds an address is selected: no select bit is lost. */
  lemma SelectsHolder(p: Plan, b: nat, address: nat)
    requires p.Valid() && 0 < p.macro.addressWidth && address < Pow2(p.memory.AddressWidth()) && b < p.banks
    ensures BankSelected(p, b, address) <==> address / p.macro.Depth() == b
    ensures 1 < p.banks ==> CurrentBank(p, address) == address / p.macro.Depth()
  {
    hide BitLength, CeilDiv, Pow2;
    var d := p.macro.Depth();
    if p.banks == 1 {
      OneBankFits(p);
      hide Plan.Valid;
      Pow2Grows(p.memory.AddressWidth(), p.macro.addressWidth);
      DivideUnique(address, d, 0, address);
    } else {
      BankSelectWidth(p);
      hide Plan.Valid;
      SelectsHolderBanked(d, address, b, p.banks, BankWidth(p), p.macro.addressWidth);
    }
  }

  /** Comparing truncated bank numbers is comparing bank numbers. */
  lemma SelectsHolderBanked(d: nat, address: nat, b: nat, banks: nat, selectBits: nat, macroBits: nat)
    requires d == Pow2(macroBits) && address < Pow2(macroBits + selectBits)
    requires b < banks && 1 < banks && selectBits == (if BitLength(banks - 1) == 0 then 1 else BitLength(banks - 1))
    ensures address / d % Pow2(selectBits) == address / d && b % Pow2(selectBits) == b
  {
    hide Pow2, BitLength;
    Pow2Add(macroBits, selectBits);
    SelectBits(banks, selectBits);
    BankBelow(address, d, Pow2(selectBits));
    Small(address / d, Pow2(selectBits));
    Small(b, Pow2(selectBits));
  }

  lemma SelectBits(banks: nat, selectBits: nat)
    requires 1 < banks && selectBits == (if BitLength(banks - 1) == 0 then 1 else BitLength(banks - 1))
    ensures banks - 1 < Pow2(selectBits)
  {
    BitLengthBounds(banks - 1);
  }

  lemma Small(x: nat, n: nat)
    requires x < n
    ensures x % n == x
  {
  }

  lemma BankBelow(address: nat, d: nat, n: nat)
    requires 0 < d && address < d * n
    ensures address / d < n
  {
    Quotient(address, d);
    if n <= address / d {
      MulGrows(d, n, address / d);
    }
  }

  /** The data a macro sees for a bit is the logical bit. */
  lemma WiredData(p: Plan, i: Input, k: nat)
    requires p.Valid() && |i.data| == p.memory.width && k < p.memory.width
    ensures MacroData(p, ColumnOf(p, k), i.data)[BitIn(p, k)] == i.data[k]
  {
    hide ColumnOf, BitIn;
  }

  /** The mask bit a macro sees for a bit is the logical mask bit. */
  lemma WiredMask(p: Plan, i: Input, k: nat)
    requires p.Valid() && Drives(p, i) && k < p.memory.width
    ensures MacroMask(p, ColumnOf(p, k), i.mask)[LaneOf(p.macro, BitIn(p, k))] == MaskedBit(p.memory, i.mask, k)
  {
    hide ColumnOf, BitIn, LaneOf, MacroMask, MaskedBit, CeilDiv, Pow2;
    LanesNest(p, ColumnOf(p, k), BitIn(p, k));
    MaskWire(p, i, k, ColumnOf(p, k), LaneOf(p.macro, BitIn(p, k)));
  }

  lemma MaskWire(p: Plan, i: Input, k: nat, w: nat, lane: nat)
    requires p.Valid() && Drives(p, i) && k < p.memory.width && lane < p.macro.Lanes()
    requires var first := w * p.macro.width + lane * p.macro.granularity;
      first <= k && (p.memory.Masked() ==> first / p.memory.maskGranularity == k / p.memory.maskGranularity)
    ensures MacroMask(p, w, i.mask)[lane] == MaskedBit(p.memory, i.mask, k)
  {
    hide CeilDiv, Pow2;
    if p.memory.Masked() {
      LaneInRange(k, p.memory.width, p.memory.maskGranularity);
    }
  }

  lemma SameAddress(x: nat, a: nat, d: nat)
    requires 0 < d
    ensures x / d == a / d && x % d == a % d <==> x == a
  {
    Quotient(x, d);
    Quotient(a, d);
  }

  // ---------------------------------------------------------------- one edge

  lemma ClockedCell(p: Plan, s: Wrapper, i: Input, b: nat, w: nat)
    requires p.Valid() && 0 < p.macro.addressWidth && Drives(p, i) && WellFormed(p, s)
    requires b < p.banks && w < p.slices
    ensures CellShape(p, s.grid[b][w])
    ensures 0 < p.banks && MacroAddress(p, i.address) < p.macro.Depth()
    ensures |PlannedClock(p, s, i).grid| == p.banks && |PlannedClock(p, s, i).grid[b]| == p.slices
    ensures PlannedClock(p, s, i).grid[b][w] == CellNext(p, b, w, s.grid[b][w], i)
  {
    hide CeilDiv, Pow2, CellStep, MacroMask, MacroData;
    AddressFits(p, i.address);
  }

  lemma CellKeepsShape(p: Plan, b: nat, w: nat, c: Cell, i: Input)
    requires p.Valid() && 0 < p.banks && Drives(p, i) && CellShape(p, c) && MacroAddress(p, i.address) < p.macro.Depth()
    ensures CellShape(p, CellNext(p, b, w, c, i))
  {
    hide CeilDiv, Pow2, WrittenRow;
  }

  lemma ClockedWellFormed(p: Plan, s: Wrapper, i: Input)
    requires p.Valid() && 0 < p.macro.addressWidth && Drives(p, i) && WellFormed(p, s)
    ensures WellFormed(p, PlannedClock(p, s, i))
  {
    hide Plan.Valid, CellNext, CellShape;
    forall b, w | 0 <= b < p.banks && 0 <= w < p.slices
      ensures CellShape(p, PlannedClock(p, s, i).grid[b][w])
    {
      ClockedCell(p, s, i, b, w);
      CellKeepsShape(p, b, w, s.grid[b][w], i);
    }
  }

  /** A cell's bit changes only by a write that selects it, to the data it is wired to. */
  lemma CellBitAfter(p: Plan, c: Cell, i: Input, a: nat, k: nat)
    requires p.Valid() && 0 < p.macro.addressWidth && Drives(p, i) && CellShape(p, c)
    requires a < p.memory.depth && k < p.memory.width && 0 < p.banks && MacroAddress(p, i.address) < p.macro.Depth()
    ensures var q := PlaceOf(p, a, k);
      var c' := CellNext(p, q.bank, q.column, c, i);
      CellShape(p, c') && c'.rows[q.row][q.bit] ==
        if i.enable && i.write && i.address == a && MaskedBit(p.memory, i.mask, k) then i.data[k]
          else c.rows[q.row][q.bit]
  {
    hide CeilDiv, Pow2, MacroMask, MacroData, MaskedBit, MacroAddress, BankSelected;
    var q := PlaceOf(p, a, k);
    CellKeepsShape(p, q.bank, q.column, c, i);
    AddressFits(p, i.address);
    SelectsHolder(p, q.bank, i.address);
    SameAddress(i.address, a, p.macro.Depth());
    WiredData(p, i, k);
    WiredMask(p, i, k);
    hide Plan.Valid;
  }

  lemma StoredBitAfter(p: Plan, s: Wrapper, i: Input, a: nat, k: nat)
    requires p.Valid() && 0 < p.macro.addressWidth && Drives(p, i) && WellFormed(p, s)
    requires a < p.memory.depth && k < p.memory.width
    ensures WellFormed(p, PlannedClock(p, s, i))
    ensures StoredBit(p, PlannedClock(p, s, i), a, k) ==
      if i.enable && i.write && i.address == a && MaskedBit(p.memory, i.mask, k) then i.data[k]
        else StoredBit(p, s, a, k)
  {
    hide Plan.Valid, CellNext, MaskedBit, PlannedClock;
    var q := PlaceOf(p, a, k);
    ClockedWellFormed(p, s, i);
    ClockedCell(p, s, i, q.bank, q.column);
    CellBitAfter(p, s.grid[q.bank][q.column], i, a, k);
  }

  lemma WriteRefines(p: Plan, s: Wrapper, f: Flat, i: Input)
    requires p.Valid() && 0 < p.macro.addressWidth && Drives(p, i) && WellFormed(p, s)
    requires FlatShape(p.memory, f) && Stores(p, s, f.words)
    ensures WellFormed(p, PlannedClock(p, s, i)) && Stores(p, PlannedClock(p, s, i), FlatClock(p.memory, f, i).words)
  {
    ClockedWellFormed(p, s, i);
    hide Plan.Valid, MaskedBit, PlannedClock, StoredBit, WellFormed;
    forall a, k | 0 <= a < p.memory.depth && 0 <= k < p.memory.width
      ensures StoredBit(p, PlannedClock(p, s, i), a, k) == FlatClock(p.memory, f, i).words[a][k]
    {
      StoredBitAfter(p, s, i, a, k);
    }
  }

  /** Bit `k` of the word is on the read port of the macro that holds it, in the selected bank. */
  ghost predicate Shows(p: Plan, s: Wrapper, word: Bits, k: nat)
    requires p.Valid() && WellFormed(p, s) && k < |word|
  {
    var b, w, j := if p.banks == 1 then 0 else s.readBank, ColumnOf(p, k), BitIn(p, k);
    b < p.banks && w < p.slices && CellShape(p, s.grid[b][w]) && s.grid[b][w].dout[j] == word[k]
  }

  lemma ReadWordBits(p: Plan, s: Wrapper, word: Bits)
    requires p.Valid() && WellFormed(p, s) && |word| == p.memory.width
    requires (if p.banks == 1 then 0 else s.readBank) < p.banks
    requires forall k :: 0 <= k < p.memory.width ==> Shows(p, s, word, k)
    ensures PlannedReadData(p, s) == Some(word)
  {
    hide BankWord, CeilDiv, Pow2, Shows;
    HasBank(p);
    BankWordLength(p, s);
    var read := PlannedReadData(p, s).value;
    forall k | 0 <= k < |word|
      ensures read[k] == word[k]
    {
      ReadBitIs(p, s, word, k);
    }
    assert read == word;
  }

  lemma BankWordLength(p: Plan, s: Wrapper)
    requires p.Valid() && WellFormed(p, s) && PlannedReadData(p, s).Some?
    ensures |PlannedReadData(p, s).value| == p.memory.width
  {
    hide BankWord;
    BankWordBits(p, s.grid[if p.banks == 1 then 0 else s.readBank], p.slices);
  }

  lemma ReadBitIs(p: Plan, s: Wrapper, word: Bits, k: nat)
    requires p.Valid() && WellFormed(p, s) && PlannedReadData(p, s).Some? && k < |word| == p.memory.width
    requires Shows(p, s, word, k) && |PlannedReadData(p, s).value| == p.memory.width
    ensures PlannedReadData(p, s).value[k] == word[k]
  {
    hide BankWord, CeilDiv, Pow2;
    BankWordBits(p, s.grid[if p.banks == 1 then 0 else s.readBank], p.slices);
    hide Plan.Valid;
  }

  /** A cell's read data changes only by a read that selects it, to the addressed row. */
  lemma DoutAfter(p: Plan, s: Wrapper, i: Input, b: nat, w: nat)
    requires p.Valid() && 0 < p.macro.addressWidth && Drives(p, i) && WellFormed(p, s) && b < p.banks && w < p.slices
    ensures CellShape(p, PlannedClock(p, s, i).grid[b][w]) && CellShape(p, s.grid[b][w])
    ensures i.address % p.macro.Depth() < p.macro.Depth()
    ensures PlannedClock(p, s, i).grid[b][w].dout ==
      if i.enable && !i.write && i.address / p.macro.Depth() == b
      then s.grid[b][w].rows[i.address % p.macro.Depth()] else s.grid[b][w].dout
  {
    hide CeilDiv, Pow2, MacroMask, MacroData, BankSelected, MacroAddress, PlannedClock;
    Quotient(i.address, p.macro.Depth());
    AddressFits(p, i.address);
    SelectsHolder(p, b, i.address);
    ClockedCell(p, s, i, b, w);
    CellKeepsShape(p, b, w, s.grid[b][w], i);
    hide Plan.Valid;
  }

  /** A read in range delivers the stored word after the edge. */
  lemma ReadDelivers(p: Plan, s: Wrapper, i: Input, word: Bits)
    requires p.Valid() && 0 < p.macro.addressWidth && Drives(p, i) && WellFormed(p, s)
    requires i.enable && !i.write && i.address < p.memory.depth && |word| == p.memory.width
    requires forall k :: 0 <= k < p.memory.width ==> StoredBit(p, s, i.address, k) == word[k]
    ensures WellFormed(p, PlannedClock(p, s, i)) && PlannedReadData(p, PlannedClock(p, s, i)) == Some(word)
  {
    var s', b := PlannedClock(p, s, i), i.address / p.macro.Depth();
    ClockedWellFormed(p, s, i);
    ReadBankAfter(p, s, i);
    hide Plan.Valid, PlannedClock, CeilDiv;
    forall k | 0 <= k < p.memory.width
      ensures Shows(p, s', word, k)
    {
      var q := PlaceOf(p, i.address, k);
      DoutAfter(p, s, i, q.bank, q.column);
      assert StoredBit(p, s, i.address, k) == word[k];
    }
    ReadWordBits(p, s', word);
  }

  /** A read remembers which bank it read. */
  lemma ReadBankAfter(p: Plan, s: Wrapper, i: Input)
    requires p.Valid() && 0 < p.macro.addressWidth && Drives(p, i) && WellFormed(p, s)
    requires i.enable && !i.write && i.address < p.memory.depth
    ensures var b := i.address / p.macro.Depth();
      b < p.banks && b == if p.banks == 1 then 0 else PlannedClock(p, s, i).readBank
  {
    InGrid(p, i.address, 0);
    HasBank(p);
    SelectsHolder(p, 0, i.address);
    hide CellNext, CeilDiv, BankSelected;
  }

  /** Any other edge holds the read data. */
  lemma ReadDataHolds(p: Plan, s: Wrapper, i: Input, word: Bits)
    requires p.Valid() && 0 < p.macro.addressWidth && Drives(p, i) && WellFormed(p, s)
    requires !i.enable || i.write
    requires |word| == p.memory.width && PlannedReadData(p, s) == Some(word)
    ensures WellFormed(p, PlannedClock(p, s, i)) && PlannedReadData(p, PlannedClock(p, s, i)) == Some(word)
  {
    hide PlannedClock, BankWord, CeilDiv, Plan.Valid, WellFormed, PlannedReadData, Shows;
    ClockedWellFormed(p, s, i);
    SameReadBank(p, s, i, word);
    forall k | 0 <= k < p.memory.width
      ensures Shows(p, PlannedClock(p, s, i), word, k)
    {
      ReadBit(p, s, word, k);
      HeldBit(p, s, i, word, k);
    }
    ReadWordBits(p, PlannedClock(p, s, i), word);
  }

  lemma SameReadBank(p: Plan, s: Wrapper, i: Input, word: Bits)
    requires p.Valid() && 0 < p.macro.addressWidth && Drives(p, i) && WellFormed(p, s)
    requires (!i.enable || i.write) && PlannedReadData(p, s) == Some(word)
    ensures PlannedClock(p, s, i).readBank == s.readBank && (if p.banks == 1 then 0 else s.readBank) < p.banks
  {
    HasBank(p);
  }

  lemma HeldBit(p: Plan, s: Wrapper, i: Input, word: Bits, k: nat)
    requires p.Valid() && 0 < p.macro.addressWidth && Drives(p, i) && WellFormed(p, s) &&
      WellFormed(p, PlannedClock(p, s, i))
    requires (!i.enable || i.write) && PlannedClock(p, s, i).readBank == s.readBank && k < |word| &&
      Shows(p, s, word, k)
    ensures Shows(p, PlannedClock(p, s, i), word, k)
  {
    hide PlannedClock, CeilDiv, WellFormed, ColumnOf, BitIn;
    DoutAfter(p, s, i, if p.banks == 1 then 0 else s.readBank, ColumnOf(p, k));
    hide Plan.Valid;
  }

  lemma ReadBit(p: Plan, s: Wrapper, word: Bits, k: nat)
    requires p.Valid() && WellFormed(p, s) && PlannedReadData(p, s) == Some(word) && |word| == p.memory.width &&
      k < |word|
    ensures Shows(p, s, word, k)
  {
    hide BankWord, CeilDiv, Pow2;
    HasBank(p);
    InGrid(p, 0, k);
    BankWordBits(p, s.grid[if p.banks == 1 then 0 else s.readBank], p.slices);
    hide Plan.Valid;
  }

  /** One clock edge: the wrapper keeps storing the flat memory, and its read data is the flat one
      whenever that is defined. */
  lemma ClockRefines(p: Plan, s: Wrapper, f: Flat, i: Input)
    requires p.Valid() && 0 < p.macro.addressWidth && Drives(p, i) && WellFormed(p, s)
    requires FlatShape(p.memory, f) && (f.out.Some? ==> |f.out.value| == p.memory.width) && Refines(p, s, f)
    ensures WellFormed(p, PlannedClock(p, s, i)) && Refines(p, PlannedClock(p, s, i), FlatClock(p.memory, f, i))
  {
    WriteRefines(p, s, f, i);
    hide PlannedClock, CeilDiv, StoredBit, WellFormed, PlannedReadData;
    if i.enable && !i.write && i.address < p.memory.depth {
      ReadDelivers(p, s, i, f.words[i.address]);
    } else if f.out.Some? && (!i.enable || i.write) {
      ReadDataHolds(p, s, i, f.out.value);
    }
  }

  // ---------------------------------------------------------------- whole runs

  function RunPlanned(p: Plan, s: Wrapper, inputs: seq<Input>): (s': Wrapper)
    requires p.Valid() && 0 < p.macro.addressWidth && WellFormed(p, s)
    requires forall n :: 0 <= n < |inputs| ==> Drives(p, inputs[n])
    ensures WellFormed(p, s')
    decreases |inputs|
  {
    if inputs == [] then s else
    var before := RunPlanned(p, s, inputs[..|inputs| - 1]);
    ClockedWellFormed(p, before, inputs[|inputs| - 1]);
    PlannedClock(p, before, inputs[|inputs| - 1])
  }

  function RunFlat(m: Memory, f: Flat, inputs: seq<Input>): (f': Flat)
    requires m.Valid() && FlatShape(m, f) && (f.out.Some? ==> |f.out.value| == m.width)
    requires forall n :: 0 <= n < |inputs| ==> |inputs[n].data| == m.width
    ensures FlatShape(m, f') && (f'.out.Some? ==> |f'.out.value| == m.width)
    decreases |inputs|
  {
    if inputs == [] then f
    else FlatClock(m, RunFlat(m, f, inputs[..|inputs| - 1]), inputs[|inputs| - 1])
  }

  /** For every geometry and every sequence of reads and masked writes, the planned wiring stores what
      the flat memory stores, and shows the word the flat memory last read. */
  lemma {:induction false} PlannedRefines(p: Plan, s: Wrapper, f: Flat, inputs: seq<Input>)
    requires p.Valid() && 0 < p.macro.addressWidth && WellFormed(p, s)
    requires forall n :: 0 <= n < |inputs| ==> Drives(p, inputs[n])
    requires FlatShape(p.memory, f) && (f.out.Some? ==> |f.out.value| == p.memory.width) && Refines(p, s, f)
    ensures Refines(p, RunPlanned(p, s, inputs), RunFlat(p.memory, f, inputs))
    decreases |inputs|
  {
    hide PlannedClock, FlatClock, Refines, WellFormed, CeilDiv;
    if inputs != [] {
      var front, i := inputs[..|inputs| - 1], inputs[|inputs| - 1];
      PlannedRefines(p, s, f, front);
      ClockRefines(p, RunPlanned(p, s, front), RunFlat(p.memory, f, front), i);
    }
  }

  // ---------------------------------------------------------------- start

  /** What the wrapper stores when it powers up, whatever that is, is some flat memory. */
  function StoredWords(p: Plan, s: Wrapper): (words: seq<Bits>)
    requires p.Valid() && WellFormed(p, s)
    ensures FlatShape(p.memory, Flat(words, None))
  {
    seq(p.memory.depth, a requires 0 <= a < p.memory.depth =>
      seq(p.memory.width, k requires 0 <= k < p.memory.width => StoredBit(p, s, a, k)))
  }

  lemma StartsRefined(p: Plan, s: Wrapper)
    requires p.Valid() && WellFormed(p, s)
    ensures Refines(p, s, Flat(StoredWords(p, s), None))
  {
    hide StoredBit;
  }
}

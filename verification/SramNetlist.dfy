/** The wrapper as it is rendered: declared signals, the selects written on them, and the hardware they
    describe. Where every select is legal, that hardware is the flat masked memory. */
module SramNetlist {
  import opened Options
  import opened Power
  import opened SramPlan
  import opened SramWrapper
  import opened SramRefinement
  import BitVectors

  // ---------------------------------------------------------------- rendered text

  datatype Select = Bit(index: int) | Part(high: int, low: int)

  /** A port of width one is declared without a range. */
  datatype Declared = Scalar | Vector(width: nat)

  function Port(width: nat): Declared {
    if width == 1 then Scalar else Vector(width)
  }

  /** A scalar has no selects; those of a vector stay inside it, high bound first. */
  predicate LegalOn(s: Select, d: Declared) {
    match d
    case Scalar => false
    case Vector(width) =>
      match s
      case Bit(i) => 0 <= i < width
      case Part(high, low) => 0 <= low <= high < width
  }

  datatype AddressWire = Extended(padding: nat) | Direct | Cut(select: Select)

  /** One column of macros: its part of the write data, the zeros above it, what drives each mask lane,
      and, when the column is not full, the part of each read word that is used. */
  datatype Column = Column(data: Select, padding: nat, mask: seq<MaskBit>, read: Option<Select>)

  datatype Netlist = Netlist(address: AddressWire, bank: Option<Select>, bankWidth: nat, columns: seq<Column>)

  function DataSlice(offset: nat, width: nat): Select {
    if width == 1 then Bit(offset) else Part(offset + width - 1, offset)
  }

  function Used(p: Plan, w: nat): nat
    requires w * p.macro.width <= p.memory.width
  {
    Min(p.macro.width, p.memory.width - w * p.macro.width)
  }

  /** What a column of a plan has to be. */
  ghost predicate IsColumn(p: Plan, w: nat, c: Column)
    requires p.Valid()
  {
    && w * p.macro.width < p.memory.width
    && c.data == DataSlice(w * p.macro.width, Used(p, w)) && c.padding == p.macro.width - Used(p, w)
    && c.read == (if Used(p, w) == p.macro.width then None else Some(DataSlice(0, Used(p, w))))
    && |c.mask| == p.macro.Lanes() && forall lane :: 0 <= lane < |c.mask| ==> c.mask[lane] == MaskBitOf(p, w, lane)
  }

  ghost predicate Renders(p: Plan, net: Netlist)
    requires p.Valid()
  {
    var n, m := p.memory.AddressWidth(), p.macro.addressWidth;
    && net.address == (if n < m then Extended(m - n) else if n == m then Direct else Cut(Part(m - 1, 0)))
    && net.bank == (if 1 < p.banks then Some(Part(n - 1, m)) else None)
    && (1 < p.banks ==> net.bankWidth == BankWidth(p))
    && |net.columns| == p.slices && forall w :: 0 <= w < p.slices ==> IsColumn(p, w, net.columns[w])
  }

  /** Renders the address wire, the bank select and the wiring of every column. */
  method Render(p: Plan) returns (net: Netlist)
    requires p.Valid()
    ensures Renders(p, net)
  {
    hide IsColumn, CeilDiv, Pow2, BitLength;
    HasBank(p);
    var n: int, m: int := p.memory.AddressWidth(), p.macro.addressWidth;
    var address := if n < m then Extended(m - n) else if n == m then Direct else Cut(Part(m - 1, 0));
    var bank, bankWidth := None, 0;
    if 1 < p.banks {
      bank, bankWidth := Some(Part(n - 1, m)), BankWidth(p);
    }
    var columns := [];
    for w := 0 to p.slices
      invariant |columns| == w && forall v :: 0 <= v < w ==> IsColumn(p, v, columns[v])
    {
      var column := RenderColumn(p, w);
      columns := columns + [column];
    }
    net := Netlist(address, bank, bankWidth, columns);
  }

  method RenderColumn(p: Plan, w: nat) returns (column: Column)
    requires p.Valid() && w < p.slices
    ensures IsColumn(p, w, column)
  {
    hide CeilDiv, Pow2, DriverOf, Compatible, DataSlice, MaskBitOf;
    ColumnStarts(p, w);
    var offset := w * p.macro.width;
    var used := Min(p.macro.width, p.memory.width - offset);
    var mask := [];
    for lane := 0 to p.macro.Lanes()
      invariant |mask| == lane && forall l :: 0 <= l < lane ==> mask[l] == MaskBitOf(p, w, l)
    {
      MaskBitDriver(p, w, lane);
      mask := mask + [DriverOf(p.memory, offset + lane * p.macro.granularity)];
    }
    column := Column(DataSlice(offset, used), p.macro.width - used, mask,
                     if used == p.macro.width then None else Some(DataSlice(0, used)));
  }

  lemma MaskBitDriver(p: Plan, w: nat, lane: nat)
    requires p.Valid()
    ensures MaskBitOf(p, w, lane) == DriverOf(p.memory, w * p.macro.width + lane * p.macro.granularity)
  {
  }

  // ---------------------------------------------------------------- legality

  /** Every select the text writes is legal on the signal as declared: the ports of the wrapper and the
      read word of a macro, which always has a range. */
  ghost predicate AllLegal(p: Plan, net: Netlist)
    requires p.Valid()
  {
    && (net.address.Cut? ==> LegalOn(net.address.select, Port(p.memory.AddressWidth())))
    && (net.bank.Some? ==> LegalOn(net.bank.value, Port(p.memory.AddressWidth())))
    && forall c <- net.columns :: ColumnLegal(p, c)
  }

  ghost predicate ColumnLegal(p: Plan, c: Column)
    requires p.Valid()
  {
    && LegalOn(c.data, Port(p.memory.width))
    && (c.read.Some? ==> LegalOn(c.read.value, Vector(p.macro.width)))
    && forall bit <- c.mask :: bit.Lane? ==>
         p.memory.Masked() && LegalOn(Bit(bit.index), Port(p.memory.width / p.memory.maskGranularity))
  }

  /** The rendered wrapper is legal exactly for macros with an address bit and words of more than one
      bit. A one-row macro's address is cut to `[-1:0]`; a one-bit word is selected from a port that
      has no range. */
  lemma LegalIff(p: Plan, net: Netlist)
    requires p.Valid() && Renders(p, net)
    ensures AllLegal(p, net) <==> 0 < p.macro.addressWidth && 1 < p.memory.width
  {
    HasBank(p);
    assert IsColumn(p, 0, net.columns[0]) && net.columns[0] in net.columns;
    if 1 < p.banks {
      BankSelectWidth(p);
    }
    hide CeilDiv, Pow2, BitLength;
    if 0 < p.macro.addressWidth && 1 < p.memory.width {
      forall c <- net.columns
        ensures ColumnLegal(p, c)
      {
        var w :| 0 <= w < p.slices && net.columns[w] == c;
        ColumnIsLegal(p, w, c);
      }
    } else if 0 < p.macro.addressWidth {
      OneBitData(p, net.columns[0]);
    }
  }

  lemma OneBitData(p: Plan, c: Column)
    requires p.Valid() && p.memory.width == 1 && IsColumn(p, 0, c)
    ensures c.data == Bit(0) && !ColumnLegal(p, c)
  {
  }

  lemma ColumnIsLegal(p: Plan, w: nat, c: Column)
    requires p.Valid() && IsColumn(p, w, c) && 1 < p.memory.width
    ensures ColumnLegal(p, c)
  {
    hide CeilDiv, Pow2;
    MaskIsLegal(p, w, c);
  }

  lemma MaskIsLegal(p: Plan, w: nat, c: Column)
    requires p.Valid() && IsColumn(p, w, c)
    ensures forall bit <- c.mask :: bit.Lane? ==>
              p.memory.Masked() && LegalOn(Bit(bit.index), Port(p.memory.width / p.memory.maskGranularity))
  {
    hide CeilDiv, Pow2;
    forall bit <- c.mask | bit.Lane?
      ensures p.memory.Masked() && LegalOn(Bit(bit.index), Port(p.memory.width / p.memory.maskGranularity))
    {
      var lane :| 0 <= lane < |c.mask| && c.mask[lane] == bit;
      MaskIndexLegal(p.memory.width, p.memory.maskGranularity, w * p.macro.width + lane * p.macro.granularity);
    }
  }

  lemma MaskIndexLegal(width: nat, g: nat, bit: nat)
    requires 0 < g && bit < width
    ensures g < width && width % g == 0 ==> bit / g < width / g && 1 < width / g
  {
    if g < width && width % g == 0 {
      LaneInRange(bit, width, g);
      Quotient(width, g);
      MoreThanOne(width / g, g);
    }
  }

  lemma MoreThanOne(k: nat, g: nat)
    requires g < k * g
    ensures 1 < k
  {
    assert k == 0 ==> k * g == 0;
    assert k == 1 ==> k * g == g;
  }

  /** A four-word memory on a one-row macro is planned, and any rendering of it is illegal. */
  lemma OneRowMacroIllegal()
    ensures var p := PlanFor(Memory(4, 8, 8, None), Macro("row", 0, 8, 8, 1, 1.0));
      p.Valid() && forall net :: Renders(p, net) ==> net.address == Cut(Part(-1, 0)) && !AllLegal(p, net)
  {
    var p := PlanFor(Memory(4, 8, 8, None), Macro("row", 0, 8, 8, 1, 1.0));
    assert BitLength(3) == 2;
    forall net | Renders(p, net)
      ensures net.address == Cut(Part(-1, 0)) && !AllLegal(p, net)
    {
      LegalIff(p, net);
    }
  }

  /** A one-bit memory is planned on an ordinary macro, and any rendering of it is illegal. */
  lemma OneBitMemoryIllegal()
    ensures var p := PlanFor(Memory(16, 1, 1, None), Macro("m", 4, 8, 8, 1, 1.0));
      p.Valid() && p.slices == 1 && forall net :: Renders(p, net) ==> net.columns[0].data == Bit(0) && !AllLegal(p, net)
  {
    var p := PlanFor(Memory(16, 1, 1, None), Macro("m", 4, 8, 8, 1, 1.0));
    assert p.slices == 1;
    forall net | Renders(p, net)
      ensures net.columns[0].data == Bit(0) && !AllLegal(p, net)
    {
      LegalIff(p, net);
      OneBitData(p, net.columns[0]);
    }
  }

  // ---------------------------------------------------------------- the hardware described

  function SelectBits(s: Select, b: Bits): Bits
    requires LegalOn(s, Vector(|b|))
  {
    match s
    case Bit(i) => [b[i]]
    case Part(high, low) => b[low..high + 1]
  }

  /** A part of a number's bits. */
  function SelectNumber(s: Select, width: nat, x: nat): nat
    requires LegalOn(s, Vector(width))
  {
    match s
    case Bit(i) => x / Pow2(i) % 2
    case Part(high, low) => x / Pow2(low) % Pow2(high - low + 1)
  }

  /** A select on an address is the number of the bits it selects. */
  lemma SelectedNumber(s: Select, b: Bits)
    requires LegalOn(s, Vector(|b|))
    ensures SelectNumber(s, |b|, BitVectors.NatOf(b)) == BitVectors.NatOf(SelectBits(s, b))
  {
    hide BitVectors.NatOf;
    match s {
      case Bit(i) =>
        assert b[i..i + 1] == [b[i]];
        BitVectors.Slice(b, i, 1);
        assert Pow2(1) == 2;
      case Part(high, low) =>
        BitVectors.Slice(b, low, high - low + 1);
    }
  }

  function Pad(b: Bits, n: nat): Bits {
    b + seq(n, _ => false)
  }

  function AddressOf(p: Plan, net: Netlist, address: nat): nat
    requires p.Valid() && AllLegal(p, net)
  {
    if net.address.Cut? then
      SelectNumber(net.address.select, p.memory.AddressWidth(), address)
    else address
  }

  function BankOf(p: Plan, net: Netlist, address: nat): nat
    requires p.Valid() && AllLegal(p, net) && net.bank.Some?
  {
    SelectNumber(net.bank.value, p.memory.AddressWidth(), address)
  }

  function ColumnData(p: Plan, c: Column, data: Bits): Bits
    requires p.Valid() && ColumnLegal(p, c) && |data| == p.memory.width
  {
    Pad(SelectBits(c.data, data), c.padding)
  }

  function ColumnMask(c: Column, mask: Bits): Bits {
    seq(|c.mask|, l requires 0 <= l < |c.mask| => Enabled(c.mask[l], mask))
  }

  /** What the text wires to a macro's pins fits the pins. */
  lemma Wired(p: Plan, net: Netlist, w: nat, i: Input)
    requires p.Valid() && Renders(p, net) && AllLegal(p, net) && Drives(p, i) && w < p.slices
    ensures net.columns[w] in net.columns && ColumnLegal(p, net.columns[w])
    ensures ColumnData(p, net.columns[w], i.data) == MacroData(p, w, i.data)
    ensures ColumnMask(net.columns[w], i.mask) == MacroMask(p, w, i.mask)
  {
    hide CeilDiv, Pow2, MaskBitOf;
    var c := net.columns[w];
    assert IsColumn(p, w, c) && c in net.columns;
    var data := ColumnData(p, c, i.data);
    assert |data| == p.macro.width;
    forall j | 0 <= j < p.macro.width
      ensures data[j] == MacroData(p, w, i.data)[j]
    {
    }
    assert data == MacroData(p, w, i.data);
    assert ColumnMask(c, i.mask) == MacroMask(p, w, i.mask);
  }

  lemma AddressWired(p: Plan, net: Netlist, address: nat)
    requires p.Valid() && Renders(p, net) && AllLegal(p, net)
    ensures AddressOf(p, net, address) == MacroAddress(p, address)
    ensures net.bank.Some? <==> 1 < p.banks
    ensures 1 < p.banks ==>
      0 < p.banks && net.bankWidth == BankWidth(p) && BankOf(p, net, address) == CurrentBank(p, address)
  {
    assert Pow2(0) == 1 && address / 1 == address;
    if 1 < p.banks {
      BankSelectWidth(p);
    }
    hide CeilDiv, Pow2;
  }

  /** One edge of the rendered hardware. */
  function Clock(p: Plan, net: Netlist, s: Wrapper, i: Input): Wrapper
    requires p.Valid() && Renders(p, net) && AllLegal(p, net) && Drives(p, i) && WellFormed(p, s)
  {
    HasBank(p);
    LegalIff(p, net);
    AddressWired(p, net, i.address);
    AddressFits(p, i.address);
    Wrapper(
      if net.bank.Some? && i.enable && !i.write then BankOf(p, net, i.address) else s.readBank,
      seq(p.banks, b requires 0 <= b < p.banks =>
        seq(|net.columns|, w requires 0 <= w < |net.columns| =>
          Wired(p, net, w, i);
          CellStep(p.macro, s.grid[b][w],
                   !(i.enable && (net.bank.None? || BankOf(p, net, i.address) == b % Pow2(net.bankWidth))), !i.write,
                   ColumnMask(net.columns[w], i.mask), AddressOf(p, net, i.address),
                     ColumnData(p, net.columns[w], i.data)))))
  }

  /** The used part of each column's read word, side by side. */
  function RowWord(p: Plan, net: Netlist, row: seq<Cell>, n: nat): Bits
    requires p.Valid() && AllLegal(p, net) && n <= |row| == |net.columns| == p.slices
    requires forall w :: 0 <= w < p.slices ==> CellShape(p, row[w])
  {
    if n == 0 then []
    else
      var c := net.columns[n - 1];
      assert c in net.columns;
      RowWord(p, net, row, n - 1) +
        (if c.read.Some? then SelectBits(c.read.value, row[n - 1].dout) else row[n - 1].dout)
  }

  /** The read data of the rendered hardware; undefined when the read bank is none of them. */
  function ReadData(p: Plan, net: Netlist, s: Wrapper): Option<Bits>
    requires p.Valid() && Renders(p, net) && AllLegal(p, net) && WellFormed(p, s)
  {
    HasBank(p);
    var b := if p.banks == 1 then 0 else s.readBank;
    if b < p.banks then Some(RowWord(p, net, s.grid[b], p.slices)) else None
  }

  // ---------------------------------------------------------------- the text follows the plan

  lemma ClockPlanned(p: Plan, net: Netlist, s: Wrapper, i: Input)
    requires p.Valid() && Renders(p, net) && AllLegal(p, net) && Drives(p, i) && WellFormed(p, s)
    ensures 0 < p.macro.addressWidth && Clock(p, net, s, i) == PlannedClock(p, s, i)
  {
    hide CeilDiv, Pow2, CellStep, IsColumn, AllLegal, SelectBits, SelectNumber, MacroMask, MacroData, ColumnData;
    hide ColumnMask, AddressOf, BankOf;
    HasBank(p);
    LegalIff(p, net);
    AddressWired(p, net, i.address);
    var x, y := Clock(p, net, s, i), PlannedClock(p, s, i);
    forall b | 0 <= b < p.banks
      ensures x.grid[b] == y.grid[b]
    {
      forall w | 0 <= w < p.slices
        ensures x.grid[b][w] == y.grid[b][w]
      {
        Wired(p, net, w, i);
        ClockedCell(p, s, i, b, w);
      }
    }
    assert x.grid == y.grid;
  }

  lemma {:induction false} RowPlanned(p: Plan, net: Netlist, row: seq<Cell>, n: nat)
    requires p.Valid() && Renders(p, net) && AllLegal(p, net) && n <= |row| == p.slices
    requires forall w :: 0 <= w < p.slices ==> CellShape(p, row[w])
    ensures RowWord(p, net, row, n) == BankWord(p, row, n)
  {
    if n > 0 {
      RowPlanned(p, net, row, n - 1);
      ColumnStarts(p, n - 1);
      assert IsColumn(p, n - 1, net.columns[n - 1]);
      hide CeilDiv, Pow2;
    }
  }

  lemma ReadPlanned(p: Plan, net: Netlist, s: Wrapper)
    requires p.Valid() && Renders(p, net) && AllLegal(p, net) && WellFormed(p, s)
    ensures ReadData(p, net, s) == PlannedReadData(p, s)
  {
    hide CeilDiv, Pow2, RowWord, BankWord;
    HasBank(p);
    var b := if p.banks == 1 then 0 else s.readBank;
    if b < p.banks {
      RowPlanned(p, net, s.grid[b], p.slices);
    }
  }

  // ---------------------------------------------------------------- whole runs

  function Run(p: Plan, net: Netlist, s: Wrapper, inputs: seq<Input>): (s': Wrapper)
    requires p.Valid() && Renders(p, net) && AllLegal(p, net) && WellFormed(p, s)
    requires forall n :: 0 <= n < |inputs| ==> Drives(p, inputs[n])
    ensures WellFormed(p, s')
    decreases |inputs|
  {
    if inputs == [] then s
    else
      var before := Run(p, net, s, inputs[..|inputs| - 1]);
      ClockPlanned(p, net, before, inputs[|inputs| - 1]);
      ClockedWellFormed(p, before, inputs[|inputs| - 1]);
      Clock(p, net, before, inputs[|inputs| - 1])
  }

  lemma {:induction false} RunIsPlanned(p: Plan, net: Netlist, s: Wrapper, inputs: seq<Input>)
    requires p.Valid() && Renders(p, net) && AllLegal(p, net) && WellFormed(p, s)
    requires forall n :: 0 <= n < |inputs| ==> Drives(p, inputs[n])
    ensures 0 < p.macro.addressWidth && Run(p, net, s, inputs) == RunPlanned(p, s, inputs)
    decreases |inputs|
  {
    hide Clock, PlannedClock, CeilDiv, Pow2, WellFormed, IsColumn, AllLegal;
    LegalIff(p, net);
    if inputs != [] {
      RunIsPlanned(p, net, s, inputs[..|inputs| - 1]);
      ClockPlanned(p, net, Run(p, net, s, inputs[..|inputs| - 1]), inputs[|inputs| - 1]);
    }
  }

  /** Whatever is rendered for a plan, if it is legal, refines the flat memory over every sequence of
      reads and masked writes: the macros store its words, and the read data is the word it last read. */
  lemma WrapperRefines(p: Plan, net: Netlist, s: Wrapper, f: Flat, inputs: seq<Input>)
    requires p.Valid() && Renders(p, net) && AllLegal(p, net) && WellFormed(p, s)
    requires forall n :: 0 <= n < |inputs| ==> Drives(p, inputs[n])
    requires FlatShape(p.memory, f) && (f.out.Some? ==> |f.out.value| == p.memory.width) && Refines(p, s, f)
    ensures var s', f' := Run(p, net, s, inputs), RunFlat(p.memory, f, inputs);
      Stores(p, s', f'.words) && (f'.out.Some? ==> ReadData(p, net, s') == f'.out)
  {
    hide RunFlat, PlannedReadData, ReadData, Stores, CeilDiv, Pow2, IsColumn, AllLegal, FlatShape, WellFormed;
    hide Drives, Plan.Valid;
    LegalIff(p, net);
    RunIsPlanned(p, net, s, inputs);
    PlannedRefines(p, s, f, inputs);
    ReadPlanned(p, net, Run(p, net, s, inputs));
  }
}

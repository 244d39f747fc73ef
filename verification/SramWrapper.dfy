/** The wiring a plan calls for: a grid of macros behind one logical port. */
module SramWrapper {
  import opened Options
  import opened Power
  import opened SramPlan

  /** Bits, least significant first. */
  type Bits = seq<bool>

  // ---------------------------------------------------------------- mask wiring

  /** What drives one bit of a macro's write mask. */
  datatype MaskBit = Off | On | Lane(index: nat)

  function Min(a: nat, b: nat): nat {
    if a < b then a else b
  }

  function MaskBitOf(p: Plan, w: nat, lane: nat): MaskBit
    requires p.Valid()
  {
    DriverOf(p.memory, w * p.macro.width + lane * p.macro.granularity)
  }

  /** Padding is never written; without a logical mask every other bit is. */
  function DriverOf(m: Memory, bit: nat): MaskBit
    requires 0 < m.maskGranularity
  {
    if bit >= m.width then Off else if !m.Masked() then On else Lane(bit / m.maskGranularity)
  }

  lemma ColumnStarts(p: Plan, w: nat)
    requires p.Valid() && w < p.slices
    ensures w * p.macro.width < p.memory.width
  {
    MulGrows(p.macro.width, w, p.slices - 1);
  }

  // ---------------------------------------------------------------- the hardware

  /** One clock edge of the logical port. */
  datatype Input = Input(address: nat, enable: bool, write: bool, data: Bits, mask: Bits)

  predicate Drives(p: Plan, i: Input)
    requires p.memory.Valid()
  {
    && i.address < Pow2(p.memory.AddressWidth())
    && |i.data| == p.memory.width
    && (p.memory.Masked() ==> |i.mask| == p.memory.width / p.memory.maskGranularity)
  }

  /** A macro's storage and its registered read data. */
  datatype Cell = Cell(rows: seq<Bits>, dout: Bits)

  /** One edge of a macro's read/write port: select and write are active low, data is registered on a
      read and held otherwise, and a write changes the enabled lanes of one row. */
  function CellStep(m: Macro, c: Cell, csb: bool, web: bool, mask: Bits, address: nat, din: Bits): Cell
    requires m.Valid() && |mask| == m.Lanes() && |din| == m.width
    requires address < |c.rows| && |c.rows[address]| == m.width
  {
    if csb then c
    else if web then c.(dout := c.rows[address])
    else c.(rows := c.rows[address := WrittenRow(m, c.rows[address], mask, din)])
  }

  function WrittenRow(m: Macro, row: Bits, mask: Bits, din: Bits): (r: Bits)
    requires m.Valid() && |mask| == m.Lanes() && |din| == m.width && |row| == m.width
    ensures |r| == m.width
  {
    seq(m.width, j requires 0 <= j < m.width =>
      if mask[LaneOf(m, j)] then din[j] else row[j])
  }

  datatype Wrapper = Wrapper(readBank: nat, grid: seq<seq<Cell>>)

  ghost predicate WellFormed(p: Plan, s: Wrapper)
    requires p.Valid()
  {
    && |s.grid| == p.banks
    && (forall b :: 0 <= b < p.banks ==> |s.grid[b]| == p.slices)
    && (forall b, w :: 0 <= b < p.banks && 0 <= w < p.slices ==> CellShape(p, s.grid[b][w]))
  }

  predicate CellShape(p: Plan, c: Cell) {
    && |c.rows| == p.macro.Depth() && |c.dout| == p.macro.width
    && (forall a :: 0 <= a < |c.rows| ==> |c.rows[a]| == p.macro.width)
  }

  /** Low address bits go to every macro. */
  function MacroAddress(p: Plan, address: nat): nat
    requires p.memory.Valid()
  {
    if p.memory.AddressWidth() <= p.macro.addressWidth then address else address % p.macro.Depth()
  }

  /** The high address bits, as many as the bank select has. */
  function CurrentBank(p: Plan, address: nat): nat
    requires 0 < p.banks
  {
    address / p.macro.Depth() % Pow2(BankWidth(p))
  }

  predicate BankSelected(p: Plan, b: nat, address: nat)
    requires 0 < p.banks
  {
    p.banks == 1 || CurrentBank(p, address) == b % Pow2(BankWidth(p))
  }

  /** Unused high bits of the last column are tied low. */
  function MacroData(p: Plan, w: nat, data: Bits): (d: Bits)
    requires |data| == p.memory.width
    ensures |d| == p.macro.width
  {
    seq(p.macro.width, j requires 0 <= j < p.macro.width =>
      w * p.macro.width + j < |data| && data[w * p.macro.width + j])
  }

  predicate Enabled(bit: MaskBit, mask: Bits) {
    match bit
    case Off => false
    case On => true
    case Lane(i) => i < |mask| && mask[i]
  }

  function MacroMask(p: Plan, w: nat, mask: Bits): (m: Bits)
    requires p.Valid()
    ensures |m| == p.macro.Lanes()
  {
    seq(p.macro.Lanes(), l requires 0 <= l => Enabled(MaskBitOf(p, w, l), mask))
  }

  function CellNext(p: Plan, b: nat, w: nat, c: Cell, i: Input): Cell
    requires p.Valid() && 0 < p.banks && Drives(p, i) && CellShape(p, c) && MacroAddress(p, i.address) < p.macro.Depth()
  {
    CellStep(p.macro, c, !(i.enable && BankSelected(p, b, i.address)), !i.write,
             MacroMask(p, w, i.mask), MacroAddress(p, i.address), MacroData(p, w, i.data))
  }

  lemma HasBank(p: Plan)
    requires p.Valid()
    ensures 0 < p.banks && 0 < p.slices
  {
  }

  /** The macro address fits, for any macro that has at least one address bit. */
  lemma AddressFits(p: Plan, address: nat)
    requires p.Valid() && 0 < p.macro.addressWidth && address < Pow2(p.memory.AddressWidth())
    ensures MacroAddress(p, address) < p.macro.Depth()
    ensures MacroAddress(p, address) == address % p.macro.Depth()
  {
    hide BitLength, CeilDiv, Pow2;
    if p.memory.AddressWidth() <= p.macro.addressWidth {
      Pow2Grows(p.memory.AddressWidth(), p.macro.addressWidth);
      DivideUnique(address, p.macro.Depth(), 0, address);
    } else {
      Quotient(address, p.macro.Depth());
    }
  }

  /** All registers take their next value at the edge. */
  function PlannedClock(p: Plan, s: Wrapper, i: Input): Wrapper
    requires p.Valid() && 0 < p.macro.addressWidth && Drives(p, i) && WellFormed(p, s)
  {
    HasBank(p);
    AddressFits(p, i.address);
    Wrapper(
      if 1 < p.banks && i.enable && !i.write then CurrentBank(p, i.address) else s.readBank,
      seq(p.banks, b requires 0 <= b < p.banks =>
        seq(p.slices, w requires 0 <= w < p.slices => CellNext(p, b, w, s.grid[b][w], i))))
  }

  // ---------------------------------------------------------------- read data

  /** The first `n` columns of a bank side by side, each cut to the bits it holds. */
  function BankWord(p: Plan, row: seq<Cell>, n: nat): Bits
    requires p.Valid() && n <= |row| == p.slices && forall w :: 0 <= w < p.slices ==> CellShape(p, row[w])
  {
    if n == 0 then [] else
    ColumnStarts(p, n - 1);
    BankWord(p, row, n - 1) + row[n - 1].dout[..Min(p.macro.width, p.memory.width - (n - 1) * p.macro.width)]
  }

  lemma {:induction false} BankWordBits(p: Plan, row: seq<Cell>, n: nat)
    requires p.Valid() && n <= |row| == p.slices && forall w :: 0 <= w < p.slices ==> CellShape(p, row[w])
    ensures |BankWord(p, row, n)| == Min(n * p.macro.width, p.memory.width)
    ensures forall i :: 0 <= i < |BankWord(p, row, n)| ==>
      ColumnOf(p, i) < n && BankWord(p, row, n)[i] == row[ColumnOf(p, i)].dout[BitIn(p, i)]
  {
    if n > 0 {
      BankWordBits(p, row, n - 1);
      ColumnStarts(p, n - 1);
      var before, m := BankWord(p, row, n - 1), p.macro.width;
      assert |before| == (n - 1) * m;
      SumTimes(n - 1, 1, m);
      forall i | (n - 1) * m <= i < |BankWord(p, row, n)|
        ensures ColumnOf(p, i) == n - 1 && BitIn(p, i) == i - (n - 1) * m
      {
        DivideUnique(i, m, n - 1, i - (n - 1) * m);
      }
    }
  }

  /** The logical read data: the word of the bank last read; undefined when no bank answers. */
  function PlannedReadData(p: Plan, s: Wrapper): Option<Bits>
    requires p.Valid() && WellFormed(p, s)
  {
    HasBank(p);
    var b := if p.banks == 1 then 0 else s.readBank;
    if b < p.banks then Some(BankWord(p, s.grid[b], p.slices)) else None
  }
}

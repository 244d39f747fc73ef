/** Choosing a macro for a logical memory, and the geometry of the chosen tiling. */
module SramPlan {
  import opened Options
  import opened Power

  /** A validated single-port memory. Its write mask exists exactly when the granularity is finer
      than the word. */
  datatype Memory = Memory(depth: nat, width: nat, maskGranularity: nat, requested: Option<string>) {
    predicate Masked() {
      maskGranularity < width
    }

    predicate Valid() {
      0 < depth && 0 < width && 0 < maskGranularity && (Masked() ==> width % maskGranularity == 0)
    }

    function AddressWidth(): nat
      requires 0 < depth
    {
      if BitLength(depth - 1) == 0 then 1 else BitLength(depth - 1)
    }
  }

  datatype Macro = Macro(name: string, addressWidth: nat, width: nat, granularity: nat, readWritePorts: nat,
                         area: real) {
    function Depth(): nat {
      Pow2(addressWidth)
    }

    predicate Valid() {
      0 < width && 0 < granularity && width % granularity == 0 && readWritePorts == 1
    }

    function Lanes(): nat
      requires Valid()
    {
      width / granularity
    }
  }

  /** A macro keeps a write mask if its lanes divide the mask's lanes. */
  predicate Compatible(memory: Memory, macro: Macro) {
    1 <= macro.readWritePorts &&
    (memory.Masked() ==>
       0 < macro.granularity <= memory.maskGranularity && memory.maskGranularity % macro.granularity == 0)
  }

  function CeilDiv(a: nat, b: nat): (q: nat)
    requires 0 < b
    ensures a <= q * b
    ensures 0 < q ==> (q - 1) * b < a
  {
    if a % b == 0 then a / b else a / b + 1
  }

  datatype Plan = Plan(memory: Memory, macro: Macro, banks: nat, slices: nat) {
    function Instances(): nat {
      banks * slices
    }

    ghost predicate Valid() {
      && memory.Valid() && macro.Valid() && Compatible(memory, macro)
      && banks == CeilDiv(memory.depth, macro.Depth())
      && slices == CeilDiv(memory.width, macro.width)
    }
  }

  function PlanFor(memory: Memory, macro: Macro): Plan
    requires 0 < macro.width
  {
    Plan(memory, macro, CeilDiv(memory.depth, macro.Depth()), CeilDiv(memory.width, macro.width))
  }

  /** Total area, then wasted bits, then instances. */
  datatype Score = Score(area: real, waste: int, instances: nat)

  function ScoreOf(p: Plan): Score {
    Score(p.Instances() as real * p.macro.area,
          p.Instances() * p.macro.Depth() * p.macro.width - p.memory.depth * p.memory.width,
          p.Instances())
  }

  predicate Better(x: Score, y: Score) {
    x.area < y.area || (x.area == y.area && (x.waste < y.waste || (x.waste == y.waste && x.instances < y.instances)))
  }

  predicate Eligible(memory: Memory, macro: Macro) {
    (memory.requested == None || memory.requested == Some(macro.name)) && Compatible(memory, macro)
  }

  ghost predicate Catalog(macros: seq<Macro>) {
    forall i :: 0 <= i < |macros| ==> macros[i].Valid()
  }

  /** Among the first `n` macros, number `i` is the best eligible one, and the earliest of its score. */
  ghost predicate BestOf(memory: Memory, macros: seq<Macro>, n: nat, i: nat)
    requires Catalog(macros) && n <= |macros|
  {
    && i < n && Eligible(memory, macros[i])
    && (forall j :: 0 <= j < n && Eligible(memory, macros[j]) ==>
          !Better(ScoreOf(PlanFor(memory, macros[j])), ScoreOf(PlanFor(memory, macros[i]))))
    && (forall j :: 0 <= j < i && Eligible(memory, macros[j]) ==>
          Better(ScoreOf(PlanFor(memory, macros[i])), ScoreOf(PlanFor(memory, macros[j]))))
  }

  method PlanMemory(memory: Memory, macros: seq<Macro>) returns (plan: Option<Plan>)
    requires memory.Valid() && Catalog(macros)
    ensures plan == None <==> forall i :: 0 <= i < |macros| ==> !Eligible(memory, macros[i])
    ensures plan.Some? ==> plan.value.Valid()
    ensures plan.Some? ==> exists i: nat ::
      BestOf(memory, macros, |macros|, i) && plan.value == PlanFor(memory, macros[i])
  {
    hide ScoreOf, PlanFor, Compatible;
    plan := None;
    ghost var chosen := 0;
    for n := 0 to |macros|
      invariant plan == None <==> forall i :: 0 <= i < n ==> !Eligible(memory, macros[i])
      invariant plan.Some? ==> BestOf(memory, macros, n, chosen) && plan.value == PlanFor(memory, macros[chosen])
    {
      if Eligible(memory, macros[n]) {
        var candidate := PlanFor(memory, macros[n]);
        if plan == None || Better(ScoreOf(candidate), ScoreOf(plan.value)) {
          plan, chosen := Some(candidate), n;
        }
      }
    }
    if plan.Some? {
      PlanForValid(memory, macros[chosen]);
    }
  }

  /** The tiles that a macro needs for a memory, counted without a plan: enough rows of them for the depth, enough
      in a row for the width, and one fewer would not do. */
  ghost predicate Tiles(memory: Memory, macro: Macro, banks: nat, slices: nat) {
    && memory.depth <= banks * Pow2(macro.addressWidth) && memory.width <= slices * macro.width
    && (0 < banks ==> (banks - 1) * Pow2(macro.addressWidth) < memory.depth)
    && (0 < slices ==> (slices - 1) * macro.width < memory.width)
  }

  /** The macro keeps the memory's contract and is the one asked for, if one is. */
  predicate Usable(memory: Memory, macro: Macro) {
    && (memory.requested.Some? ==> memory.requested.value == macro.name)
    && 1 <= macro.readWritePorts
    && (memory.width <= memory.maskGranularity
        || (0 < macro.granularity <= memory.maskGranularity && memory.maskGranularity % macro.granularity == 0))
  }

  lemma UsableIff(memory: Memory, macro: Macro)
    requires macro.Valid()
    ensures Eligible(memory, macro) <==> Usable(memory, macro)
  {
  }

  lemma TilesOnce(memory: Memory, macro: Macro, banks: nat, slices: nat)
    requires memory.Valid() && macro.Valid() && Tiles(memory, macro, banks, slices)
    ensures PlanFor(memory, macro) == Plan(memory, macro, banks, slices)
  {
    CeilOnce(memory.depth, Pow2(macro.addressWidth), banks);
    CeilOnce(memory.width, macro.width, slices);
  }

  lemma CeilOnce(a: nat, b: nat, q: nat)
    requires 0 < a && 0 < b && a <= q * b && (q - 1) * b < a
    ensures CeilDiv(a, b) == q
  {
    var c := CeilDiv(a, b);
    if c < q {
      MulGrows(b, c, q - 1);
    } else if q < c {
      MulGrows(b, q, c - 1);
    }
  }

  /** The chosen macro tiles the memory with the least total area; at equal area with the fewest bits left over; then
      with the fewest instances; and of macros that tie in all it is the earliest. */
  lemma Cheapest(memory: Memory, macros: seq<Macro>, i: nat, j: nat, banks: nat, slices: nat)
    requires memory.Valid() && Catalog(macros) && BestOf(memory, macros, |macros|, i)
    requires j < |macros| && Usable(memory, macros[j]) && Tiles(memory, macros[j], banks, slices)
    ensures var p, m := PlanFor(memory, macros[i]), macros[j];
      var area, area' := (p.banks * p.slices) as real * p.macro.area, (banks * slices) as real * m.area;
      var bits, bits' := p.banks * p.slices * Pow2(p.macro.addressWidth) * p.macro.width,
                         banks * slices * Pow2(m.addressWidth) * m.width;
      && Usable(memory, macros[i]) && Tiles(memory, macros[i], p.banks, p.slices)
      && area <= area'
      && (area == area' ==> bits <= bits')
      && (area == area' && bits == bits' ==> p.banks * p.slices <= banks * slices)
      && (area == area' && bits == bits' && p.banks * p.slices == banks * slices ==> i <= j)
  {
    hide CeilDiv, Pow2, Better, ScoreOf, Usable, Eligible, PlanFor, Tiles;
    UsableIff(memory, macros[i]);
    UsableIff(memory, macros[j]);
    TilesOnce(memory, macros[j], banks, slices);
    TilesPlanned(memory, macros[i]);
    Ranked(PlanFor(memory, macros[i]), PlanFor(memory, macros[j]));
  }

  lemma TilesPlanned(memory: Memory, macro: Macro)
    requires macro.Valid()
    ensures var p := PlanFor(memory, macro);
      p.memory == memory && p.macro == macro && Tiles(memory, macro, p.banks, p.slices)
  {
    hide CeilDiv, Pow2;
  }

  /** What it means for a plan that the other one is no better, or is worse. */
  lemma Ranked(p: Plan, q: Plan)
    requires p.memory == q.memory
    ensures var area, area' := (p.banks * p.slices) as real * p.macro.area, (q.banks * q.slices) as real * q.macro.area;
      var bits, bits' := p.banks * p.slices * Pow2(p.macro.addressWidth) * p.macro.width,
                         q.banks * q.slices * Pow2(q.macro.addressWidth) * q.macro.width;
      && (!Better(ScoreOf(q), ScoreOf(p)) ==>
            && area <= area'
            && (area == area' ==> bits <= bits')
            && (area == area' && bits == bits' ==> p.banks * p.slices <= q.banks * q.slices))
      && (Better(ScoreOf(p), ScoreOf(q)) ==>
            !(area == area' && bits == bits' && p.banks * p.slices == q.banks * q.slices))
  {
    hide Pow2, Better;
    Compared(ScoreOf(p), ScoreOf(q));
  }

  lemma Compared(x: Score, y: Score)
    ensures !Better(y, x) ==> x.area <= y.area
    ensures !Better(y, x) && x.area == y.area ==> x.waste <= y.waste
    ensures !Better(y, x) && x.area == y.area && x.waste == y.waste ==> x.instances <= y.instances
    ensures Better(x, y) ==> x != y
  {
  }

  lemma PlanForValid(memory: Memory, macro: Macro)
    requires memory.Valid() && macro.Valid() && Compatible(memory, macro)
    ensures PlanFor(memory, macro).Valid()
  {
  }

  // ---------------------------------------------------------------- geometry

  lemma LaneInRange(j: nat, width: nat, g: nat)
    requires 0 < g && j < width && width % g == 0
    ensures j / g < width / g && j / g * g <= j
  {
    Quotient(j, g);
    Quotient(width, g);
    if width / g <= j / g {
      MulGrows(g, width / g, j / g);
    }
  }

  /** The write-mask lane of a macro bit. */
  function LaneOf(m: Macro, j: nat): (l: nat)
    requires m.Valid() && j < m.width
    ensures l < m.Lanes() && l * m.granularity <= j
  {
    LaneInRange(j, m.width, m.granularity);
    j / m.granularity
  }

  /** The slice of a logical bit, and its position there. */
  function ColumnOf(p: Plan, i: nat): nat
    requires 0 < p.macro.width
  {
    i / p.macro.width
  }

  function BitIn(p: Plan, i: nat): (j: nat)
    requires 0 < p.macro.width
    ensures j < p.macro.width && i == ColumnOf(p, i) * p.macro.width + j
  {
    Quotient(i, p.macro.width);
    i % p.macro.width
  }

  /** Every address falls in a bank, every bit in a slice. */
  lemma InGrid(p: Plan, a: nat, i: nat)
    requires p.Valid() && a < p.memory.depth && i < p.memory.width
    ensures 0 < p.macro.width && 0 < p.macro.Depth()
    ensures a / p.macro.Depth() < p.banks && ColumnOf(p, i) < p.slices
    ensures a % p.macro.Depth() < p.macro.Depth()
  {
    Quotient(a, p.macro.Depth());
    Quotient(i, p.macro.width);
    BelowCeil(a, p.memory.depth, p.macro.Depth());
    BelowCeil(i, p.memory.width, p.macro.width);
  }

  /** Where a logical bit is stored. */
  datatype Place = Place(bank: nat, column: nat, row: nat, bit: nat)

  function PlaceOf(p: Plan, a: nat, i: nat): (q: Place)
    requires p.Valid() && a < p.memory.depth && i < p.memory.width
    ensures q.bank < p.banks && q.column < p.slices && q.row < p.macro.Depth() && q.bit < p.macro.width
  {
    hide Plan.Valid, CeilDiv, Pow2, Macro.Depth, ColumnOf, BitIn;
    InGrid(p, a, i);
    Place(a / p.macro.Depth(), ColumnOf(p, i), a % p.macro.Depth(), BitIn(p, i))
  }

  lemma BelowCeil(x: nat, limit: nat, d: nat)
    requires 0 < d && x < limit
    ensures x / d < CeilDiv(limit, d)
  {
    Quotient(x, d);
    var q := CeilDiv(limit, d);
    if q <= x / d {
      MulGrows(d, q, x / d);
    }
  }

  function BankWidth(p: Plan): nat
    requires 0 < p.banks
  {
    if BitLength(p.banks - 1) == 0 then 1 else BitLength(p.banks - 1)
  }

  /** With more than one bank, the bank select is exactly the address bits above the macro address. */
  lemma BankSelectWidth(p: Plan)
    requires p.Valid() && 1 < p.banks
    ensures p.macro.addressWidth < p.memory.AddressWidth()
    ensures BankWidth(p) == p.memory.AddressWidth() - p.macro.addressWidth
  {
    var d := p.macro.Depth();
    LastBank(p.memory.depth, d, p.banks);
    BitLengthShift(p.memory.depth - 1, p.macro.addressWidth);
    assert (p.memory.depth - 1) / d == p.banks - 1;
  }

  lemma LastBank(depth: nat, d: nat, banks: nat)
    requires 0 < d && banks == CeilDiv(depth, d) && 1 < banks
    ensures d <= depth - 1 && (depth - 1) / d == banks - 1
  {
    MulGrows(d, 1, banks - 1);
    Distribute(banks, 1, d);
    DivideUnique(depth - 1, d, banks - 1, depth - 1 - (banks - 1) * d);
  }

  /** With one bank, every address fits the macro, provided the macro has an address at all. */
  lemma OneBankFits(p: Plan)
    requires p.Valid() && p.banks == 1 && 0 < p.macro.addressWidth
    ensures p.memory.AddressWidth() <= p.macro.addressWidth
  {
    var n, m := p.memory.depth - 1, p.macro.addressWidth;
    assert n < Pow2(m);
    BitLengthBounds(n);
    if m < BitLength(n) {
      Pow2Grows(m, BitLength(n) - 1);
    }
  }

  /** A macro lane lies inside one lane of the logical mask: bit `i` and the first bit of its macro
      lane select the same logical mask bit. */
  lemma LanesNest(p: Plan, w: nat, j: nat)
    requires p.Valid() && j < p.macro.width
    ensures var lane := LaneOf(p.macro, j);
      var first := w * p.macro.width + lane * p.macro.granularity;
      && first <= w * p.macro.width + j
      && (p.memory.Masked() ==> first / p.memory.maskGranularity == (w * p.macro.width + j) / p.memory.maskGranularity)
  {
    var g, lane := p.macro.granularity, j / p.macro.granularity;
    Quotient(j, g);
    LaneInRange(j, p.macro.width, g);
    if p.memory.Masked() {
      Quotient(p.macro.width, g);
      Quotient(p.memory.maskGranularity, g);
      LaneInMask(w, p.macro.width, p.macro.width / g, g, p.memory.maskGranularity, p.memory.maskGranularity / g, lane,
        j % g);
    }
  }

  /** The bits of macro lane `lane` in slice `w` are in one stretch of `m` bits. */
  lemma LaneInMask(w: nat, width: nat, lanes: nat, g: nat, m: nat, k: nat, lane: nat, offset: nat)
    requires width == lanes * g && m == k * g && 0 < m && offset < g
    ensures (w * width + lane * g) / m == (w * width + (lane * g + offset)) / m
  {
    var first := w * width + lane * g;
    MulAssociate(w, lanes, g);
    SumTimes(w * lanes, lane, g);
    DivideUnique(first, g, w * lanes + lane, 0);
    DivideUnique(first + offset, g, w * lanes + lane, offset);
    MulPositiveFactor(g, k, m);
    DivideTwice(first, g, k);
    DivideTwice(first + offset, g, k);
  }

  lemma MulPositiveFactor(g: nat, k: nat, m: nat)
    requires k * g == m && 0 < m
    ensures 0 < k && g * k == m
  {
  }
}

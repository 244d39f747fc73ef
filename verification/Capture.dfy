/** Capture schemas: named bit ranges of an occurrence's payload, and reading one out. */
module Capture {
  import opened Options
  import opened Power
  import opened Division
  import opened Machine
  import opened EventModel
  import opened Encoder
  import opened Words

  datatype Encoding = Hex | Unsigned | Signed | Bool | Riscv | Enum | Unsupported

  /** `symbols` name values of an enumeration; `selected` makes the symbol the name of the slice; `isa` and
      `pc` go with instructions. */
  datatype Field = Field(name: string, width: U32, offset: U32, encoding: Encoding, isa: string, pc: string,
                         symbols: seq<(U64, string)>, selected: bool)

  // ---------------------------------------------------------------- schemas

  /** The fields from the top of a `width`-bit payload down to bit 0, each directly below the one before. */
  ghost predicate Tiled(fields: seq<Field>, width: nat) {
    if fields == [] then width == 0
    else
      && 0 < fields[0].width <= width && fields[0].offset == width - fields[0].width
      && Tiled(fields[1..], fields[0].offset)
  }

  ghost predicate NamesDiffer(fields: seq<Field>) {
    forall i, j :: 0 <= i < j < |fields| ==> fields[i].name != fields[j].name
  }

  ghost predicate Letter(c: char) {
    'a' <= c <= 'z' || 'A' <= c <= 'Z' || c == '_'
  }

  /** An ASCII identifier that is not the name of a counter. */
  ghost predicate Nameable(name: string) {
    && name != "" && name != "cycle" && name != "sequence" && Letter(name[0])
    && forall c <- name :: Letter(c) || '0' <= c <= '9'
  }

  ghost predicate SymbolFormed(symbol: (U64, string), width: nat) {
    symbol.1 != "" && '\0' !in symbol.1 && (width < 64 ==> symbol.0 < Pow2(width))
  }

  /** Names for different values, all different, none too wide. */
  ghost predicate SymbolsFormed(symbols: seq<(U64, string)>, width: nat) {
    && (forall s <- symbols :: SymbolFormed(s, width))
    && (forall i, j :: 0 <= i < j < |symbols| ==> symbols[i].0 != symbols[j].0 && symbols[i].1 != symbols[j].1)
  }

  ghost predicate IsaFormed(isa: string) {
    ("rv32i" <= isa || "rv64i" <= isa) && forall c <- isa :: 'a' <= c <= 'z' || '0' <= c <= '9' || c == '_'
  }

  /** The first field of that name. */
  function FindField(fields: seq<Field>, name: string): Option<Field> {
    if fields == [] then None else if fields[0].name == name then Some(fields[0]) else FindField(fields[1..], name)
  }

  /** The program counter is a field of the machine's width. */
  ghost predicate PcFormed(f: Field, fields: seq<Field>) {
    match FindField(fields, f.pc)
    case None => false
    case Some(pc) => (pc.encoding.Hex? || pc.encoding.Unsigned?) && pc.width == if "rv32" <= f.isa then 32 else 64
  }

  ghost predicate FieldFormed(f: Field, fields: seq<Field>) {
    && Nameable(f.name) && !f.encoding.Unsupported?
    && (if f.encoding.Enum? then f.width <= 64 && f.symbols != [] && SymbolsFormed(f.symbols, f.width)
        else f.symbols == [] && !f.selected)
    && (if f.encoding.Riscv? then (f.width == 16 || f.width == 32) && IsaFormed(f.isa) && PcFormed(f, fields)
        else f.isa == "" && f.pc == "")
    && (f.encoding.Bool? ==> f.width == 1)
  }

  ghost predicate AtMostOneSelected(fields: seq<Field>) {
    forall i, j :: 0 <= i < j < |fields| ==> !(fields[i].selected && fields[j].selected)
  }

  /** The rules for the fields of one site. */
  ghost predicate SiteFormed(fields: seq<Field>, width: nat) {
    && Tiled(fields, width) && NamesDiffer(fields) && AtMostOneSelected(fields)
    && forall f <- fields :: FieldFormed(f, fields)
  }

  ghost predicate Holds(f: Field, bit: nat) {
    f.offset <= bit < f.offset + f.width
  }

  method ValidateSymbols(symbols: seq<(U64, string)>, width: U32) returns (ok: bool)
    ensures ok <==> SymbolsFormed(symbols, width)
  {
    var values, names := {}, {};
    for i := 0 to |symbols|
      invariant SymbolsFormed(symbols[..i], width)
      invariant values == set j | 0 <= j < i :: symbols[j].0
      invariant names == set j | 0 <= j < i :: symbols[j].1
    {
      var symbol := symbols[i];
      assert symbol in symbols;
      if symbol.1 == "" || '\0' in symbol.1 || symbol.0 in values || symbol.1 in names ||
         (width < 64 && symbol.0 >= Pow2(width)) {
        return false;
      }
      values, names := values + {symbol.0}, names + {symbol.1};
    }
    assert symbols[..|symbols|] == symbols;
    ok := true;
  }

  method ValidateName(name: string) returns (ok: bool)
    ensures ok <==> Nameable(name)
  {
    if name == "" || name == "cycle" || name == "sequence" || '0' <= name[0] <= '9' {
      return false;
    }
    for i := 0 to |name|
      invariant forall c <- name[..i] :: Letter(c) || '0' <= c <= '9'
    {
      var c := name[i];
      if !('a' <= c <= 'z' || 'A' <= c <= 'Z' || c == '_' || '0' <= c <= '9') {
        assert c in name;
        return false;
      }
    }
    assert name[..|name|] == name && name[0] in name;
    ok := true;
  }

  method ValidateIsa(isa: string) returns (ok: bool)
    ensures ok <==> IsaFormed(isa)
  {
    if |isa| < 5 || (isa[..5] != "rv32i" && isa[..5] != "rv64i") {
      return false;
    }
    for i := 0 to |isa|
      invariant forall c <- isa[..i] :: 'a' <= c <= 'z' || '0' <= c <= '9' || c == '_'
    {
      var c := isa[i];
      assert isa[..i + 1] == isa[..i] + [c];
      if !('a' <= c <= 'z' || '0' <= c <= '9' || c == '_') {
        assert c in isa;
        return false;
      }
    }
    assert isa[..|isa|] == isa;
    ok := true;
  }

  /** Looks for the program counter of an instruction among the fields of its site. */
  method ValidatePc(f: Field, fields: seq<Field>) returns (ok: bool)
    requires |f.isa| >= 5
    ensures ok <==> PcFormed(f, fields)
  {
    assert fields[0..] == fields;
    for i := 0 to |fields|
      invariant FindField(fields, f.pc) == FindField(fields[i..], f.pc)
    {
      assert fields[i..][1..] == fields[i + 1..];
      var pc := fields[i];
      if pc.name == f.pc {
        return (pc.encoding.Hex? || pc.encoding.Unsigned?) && pc.width == if f.isa[..4] == "rv32" then 32 else 64;
      }
    }
    ok := false;
  }

  /** The rules that look at one field and where it stands in its site. */
  method ValidateField(f: Field, fields: seq<Field>) returns (ok: bool)
    ensures ok <==> FieldFormed(f, fields)
  {
    var named := ValidateName(f.name);
    if !named || f.encoding.Unsupported? {
      return false;
    }
    if f.encoding.Enum? {
      if f.width > 64 || f.symbols == [] {
        return false;
      }
      var formed := ValidateSymbols(f.symbols, f.width);
      if !formed {
        return false;
      }
    } else if f.symbols != [] || f.selected {
      return false;
    }
    if f.encoding.Riscv? {
      var isa := ValidateIsa(f.isa);
      if (f.width != 16 && f.width != 32) || !isa {
        return false;
      }
      var pc := ValidatePc(f, fields);
      if !pc {
        return false;
      }
    } else if f.isa != "" || f.pc != "" {
      return false;
    }
    ok := !f.encoding.Bool? || f.width == 1;
  }

  /** The rules for the fields of one site, top field first. */
  method ValidateSite(fields: seq<Field>, width: U32) returns (ok: bool)
    ensures ok <==> SiteFormed(fields, width)
  {
    hide FieldFormed;
    var remaining: nat := width;
    var names := {};
    var selected := false;
    for i := 0 to |fields|
      invariant names == set j | 0 <= j < i :: fields[j].name
      invariant selected <==> exists j :: 0 <= j < i && fields[j].selected
      invariant NamesDiffer(fields[..i]) && AtMostOneSelected(fields[..i])
      invariant forall f <- fields[..i] :: FieldFormed(f, fields)
      invariant Tiled(fields, width) <==> Tiled(fields[i..], remaining)
    {
      var field := fields[i];
      assert fields[i..][0] == field && fields[i..][1..] == fields[i + 1..];
      if field.name in names || (field.selected && selected) {
        return false;
      }
      if field.width == 0 || field.width > remaining || field.offset != remaining - field.width {
        return false;
      }
      var formed := ValidateField(field, fields);
      if !formed {
        assert field in fields;
        return false;
      }
      names, selected := names + {field.name}, selected || field.selected;
      remaining := remaining - field.width;
    }
    assert fields[..|fields|] == fields;
    ok := remaining == 0;
  }

  /** A manifest without any fields has no schema and is taken as it is. */
  method ValidateSchema(schema: seq<seq<Field>>, widths: seq<U32>) returns (ok: bool)
    ensures ok <==>
      schema == [] || (|schema| == |widths| && forall i :: 0 <= i < |schema| ==> SiteFormed(schema[i], widths[i]))
  {
    if schema == [] {
      return true;
    }
    if |schema| != |widths| {
      return false;
    }
    for i := 0 to |schema|
      invariant forall j :: 0 <= j < i ==> SiteFormed(schema[j], widths[j])
    {
      var formed := ValidateSite(schema[i], widths[i]);
      if !formed {
        return false;
      }
    }
    ok := true;
  }

  /** An accepted instruction names another field as its program counter, wide enough for the machine. */
  lemma {:induction false} PcFound(fields: seq<Field>, name: string)
    ensures FindField(fields, name).Some? <==> exists f <- fields :: f.name == name
    ensures NamesDiffer(fields) ==> forall f <- fields :: f.name == name ==> FindField(fields, name) == Some(f)
  {
    if fields != [] {
      PcFound(fields[1..], name);
      forall f <- fields | f.name == name
        ensures NamesDiffer(fields) ==> FindField(fields, name) == Some(f)
        ensures FindField(fields, name).Some?
      {
        var i :| 0 <= i < |fields| && fields[i] == f;
        if 0 < i {
          assert fields[1..][i - 1] == f;
        }
      }
    }
  }

  /** Every payload bit is in exactly one field, and no field reaches outside the payload. */
  lemma {:induction false} BitsPartitioned(fields: seq<Field>, width: nat, bit: nat)
    requires Tiled(fields, width)
    ensures bit < width <==> exists i :: 0 <= i < |fields| && Holds(fields[i], bit)
    ensures forall i, j :: 0 <= i < |fields| && 0 <= j < |fields| && Holds(fields[i], bit) && Holds(fields[j], bit) ==>
      i == j
  {
    if fields != [] {
      var rest := fields[1..];
      BitsPartitioned(rest, fields[0].offset, bit);
      forall i | 0 < i < |fields|
        ensures fields[i] == rest[i - 1]
      {
      }
      if bit < fields[0].offset {
        var i :| 0 <= i < |rest| && Holds(rest[i], bit);
        assert Holds(fields[i + 1], bit);
      } else if bit < width {
        assert Holds(fields[0], bit);
      }
    }
  }

  /** The field values, each at its offset, added up. */
  function Assembled(fields: seq<Field>, payload: nat): nat {
    if fields == [] then 0
    else Pow2(fields[0].offset) * Bits(payload, fields[0].offset, fields[0].width) + Assembled(fields[1..], payload)
  }

  /** The fields of an accepted schema together are the payload. */
  lemma {:induction false} FieldsReconstruct(fields: seq<Field>, width: nat, payload: nat)
    requires Tiled(fields, width)
    ensures Assembled(fields, payload) == Bits(payload, 0, width)
  {
    if fields == [] {
      assert Pow2(0) == 1;
    } else {
      FieldsReconstruct(fields[1..], fields[0].offset, payload);
      hide Bits, Pow2;
      BitsSplit(payload, 0, fields[0].offset, fields[0].width);
    }
  }

  // ---------------------------------------------------------------- reading a field

  datatype FieldValue = FieldValue(width: U32, encoding: Encoding, words: seq<U32>)

  /** As many words as the width needs, nothing above the width. */
  predicate Clean(v: FieldValue) {
    0 < v.width && |v.words| == (v.width + 31) / 32 && Number(v.words) < Pow2(v.width)
  }

  /** The payload words, absent ones read as zero. */
  function PayloadWords(node: Node): (words: seq<U32>)
    ensures |words| == (node.width + 31) / 32
  {
    seq((node.width + 31) / 32, i => if i in node.words then node.words[i] else 0)
  }

  /** The words a range touches are all recorded. */
  predicate Recorded(node: Node, offset: nat, width: nat)
    requires 0 < width
  {
    forall i :: offset / 32 <= i <= (offset + width - 1) / 32 ==> i in node.words
  }

  predicate Inside(node: Node, field: Field) {
    node.present && 0 < field.width && field.offset + field.width <= node.width
  }

  /** Up to 32 bits from one or two words: shift, join, mask, truncate to a word. */
  method ReadChunk(node: Node, start: nat, count: nat) returns (word: Option<U32>)
    requires 0 < count <= 32 && start + count <= node.width
    ensures word.Some? <==> Recorded(node, start, count)
    ensures word.Some? ==> word.value == Bits(Number(PayloadWords(node)), start, count)
  {
    hide Number, Bits, Pow2, Wrap, PayloadComplete;
    var i, shift := start / 32, start % 32;
    ghost var words := PayloadWords(node);
    if i !in node.words {
      return None;
    }
    WordSize();
    var value := Above(node.words[i], shift);
    if 0 < shift && count > 32 - shift {
      assert (start + count - 1) / 32 == i + 1;
      if i + 1 !in node.words {
        return None;
      }
      value := value + Pow2(32 - shift) * node.words[i + 1];
      AcrossWords(words, i, shift, count);
    } else {
      assert (start + count - 1) / 32 == i;
      WithinWord(words, i, shift, count);
      BitsAre(words[i], shift, count);
    }
    Masked(value, count);
    if count < 32 {
      value := Wrap(count, value);
    }
    word := Some(Wrap(32, value));
  }

  lemma BitsAre(x: nat, shift: nat, count: nat)
    ensures Bits(x, shift, count) == Wrap(count, Above(x, shift))
  {
  }

  /** Masking before truncation leaves the masked bits. */
  lemma Masked(x: nat, count: nat)
    requires count <= 32
    ensures Wrap(32, if count < 32 then Wrap(count, x) else x) == Wrap(count, x)
  {
    if count < 32 {
      Pow2Grows(count, 32);
      WrapSmall(32, Wrap(count, x));
    }
  }

  /** Reads a field of a present occurrence, failing only for a range outside it or a missing word. */
  method CaptureField(node: Node, field: Field) returns (value: Option<FieldValue>)
    ensures value.Some? <==> Inside(node, field) && Recorded(node, field.offset, field.width)
    ensures value.Some? ==> value.value.width == field.width && value.value.encoding == field.encoding
    ensures value.Some? ==> Clean(value.value)
    ensures value.Some? ==> Number(value.value.words) == Bits(Number(PayloadWords(node)), field.offset, field.width)
  {
    hide Number, Bits, Pow2, Wrap, Power.BitLength;
    if !node.present || field.width == 0 || field.offset + field.width > node.width {
      return None;
    }
    ghost var payload := Number(PayloadWords(node));
    var words: seq<U32> := [];
    var bit: nat := 0;
    EmptyRange(payload, field.offset);
    while bit < field.width
      invariant bit == (if 32 * |words| <= field.width then 32 * |words| else field.width)
      invariant |words| == (bit + 31) / 32
      invariant Number(words) == Bits(payload, field.offset, bit)
      invariant 0 < bit ==> Recorded(node, field.offset, bit)
      decreases field.width - bit
    {
      var start := field.offset + bit;
      var count := if field.width - bit < 32 then field.width - bit else 32;
      var word := ReadChunk(node, start, count);
      RecordedSplits(node, field.offset, bit, count);
      if word == None {
        RecordedSplits(node, field.offset, bit + count, field.width - bit - count);
        return None;
      }
      NumberAppend(words, word.value);
      BitsSplit(payload, field.offset, bit, count);
      words := words + [word.value];
      bit := bit + count;
    }
    BitsBelow(payload, field.offset, field.width);
    value := Some(FieldValue(field.width, field.encoding, words));
  }

  lemma EmptyRange(x: nat, offset: nat)
    ensures Bits(x, offset, 0) == 0 == Number([])
  {
    assert Pow2(0) == 1;
  }

  lemma RecordedSplits(node: Node, offset: nat, low: nat, high: nat)
    ensures 0 < low && 0 < high ==>
      (Recorded(node, offset, low + high) <==> Recorded(node, offset, low) && Recorded(node, offset + low, high))
  {
    if 0 < low && 0 < high {
      var a, b, c, d := offset / 32, (offset + low - 1) / 32, (offset + low) / 32, (offset + low + high - 1) / 32;
      assert a <= b <= c <= d && c <= b + 1;
    }
  }

  /** A settled occurrence has every word any field of an accepted schema needs. */
  lemma {:induction false} FieldsRecorded(fields: seq<Field>, width: nat, node: Node, i: nat)
    requires Tiled(fields, width) && width <= node.width && node.present && PayloadComplete(node) && i < |fields|
    ensures Inside(node, fields[i]) && Recorded(node, fields[i].offset, fields[i].width)
  {
    if i == 0 {
      assert fields[0].offset + fields[0].width <= node.width;
    } else {
      FieldsRecorded(fields[1..], fields[0].offset, node, i - 1);
    }
  }

  /** And its fields together give back the whole payload. */
  lemma PayloadRecovered(fields: seq<Field>, node: Node)
    requires Tiled(fields, node.width) && PayloadComplete(node)
    ensures Assembled(fields, Number(PayloadWords(node))) == Number(PayloadWords(node)) < Pow2(node.width)
  {
    var words := PayloadWords(node);
    FieldsReconstruct(fields, node.width, Number(words));
    PayloadBelow(node);
    hide Number, Pow2, Bits;
    AllBits(Number(words), node.width);
  }

  lemma PayloadBelow(node: Node)
    requires PayloadComplete(node)
    ensures Number(PayloadWords(node)) < Pow2(node.width)
  {
    var words, top := PayloadWords(node), node.width % 32;
    NumberBelow(words);
    if top != 0 {
      hide Number, Pow2;
      assert words[|words| - 1] == node.words[|words| - 1];
      assert 32 * (|words| - 1) + top == node.width;
      PaddedBelow(words, top);
    } else {
      hide Number, Pow2;
      assert 32 * |words| == node.width;
    }
  }
}

/** How a slice is shown: its name and the annotations of its captured fields. */
module Captions {
  import opened Machine
  import opened Options
  import opened Power
  import opened EventModel
  import opened Encoder
  import Wire
  import opened Words
  import opened Capture
  import opened Printing
  import opened Stamping
  import opened Readback
  import opened Division
  import Packets

  /** What the manifest says of a site's display; older manifests list no fields. */
  datatype View = View(title: Wire.Text, stall: bool, fields: Option<seq<Field>>) {
    ghost function Captured(): seq<Field> {
      match fields case Some(listed) => listed case None => []
    }
  }

  /** The views of a description's sites: with an accepted schema, or none at all. */
  ghost predicate Viewed(d: Description, views: seq<View>) {
    && |views| == |d.widths| == |d.stalls|
    && forall s :: 0 <= s < |views| ==> SiteViewed(d, views, s)
  }

  ghost predicate SiteViewed(d: Description, views: seq<View>, s: nat)
    requires s < |views| == |d.widths| == |d.stalls|
  {
    && views[s].stall == d.stalls[s] && views[s].fields.Some? == views[0].fields.Some?
    && (views[s].fields.Some? ==> SiteFormed(views[s].fields.value, d.widths[s]))
  }

  /** The text of an instruction, by architecture, address, bits and width. */
  type Disassembler = (string, nat, nat, nat) -> string

  // ---------------------------------------------------------------- one field

  ghost function RawOf(f: Field, payload: nat): (raw: nat)
    ensures raw < Pow2(f.width)
  {
    BitsBelow(payload, f.offset, f.width);
    Bits(payload, f.offset, f.width)
  }

  /** The number a field stands for. */
  ghost function ValueOf(f: Field, raw: nat): int {
    if f.encoding.Signed? && 0 < f.width then Division.Signed(f.width, raw) else raw
  }

  ghost function HexOfField(width: nat, raw: nat): string
    requires raw < Pow2(width)
  {
    Pow2Grows(width, 4 * HexDigits(width));
    "0x" + HexOf(raw, HexDigits(width))
  }

  /** Wire.Text for hexadecimal fields and for numbers no scalar annotation holds, otherwise a scalar. */
  ghost function ShowField(f: Field, raw: nat): Packets.Shown
    requires raw < Pow2(f.width)
  {
    if f.encoding.Hex? then Packets.Words(Ascii(HexOfField(f.width, raw)), true)
    else if f.width > 64 || ((f.encoding.Unsigned? || f.encoding.Enum?) && raw > I64_MAX) then
      Packets.Words(NumberText(ValueOf(f, raw)), true)
    else if f.encoding.Bool? then Packets.Flag(raw)
    else if f.encoding.Signed? then Packets.Signed(ValueOf(f, raw))
    else Packets.Unsigned(raw)
  }

  /** The instruction a field holds, at the address its program counter holds. */
  ghost function Assembly(dis: Disassembler, fields: seq<Field>, f: Field, payload: nat): string {
    var pc := match FindField(fields, f.pc) case Some(g) => RawOf(g, payload) case None => 0;
    dis(f.isa, pc, RawOf(f, payload), f.width)
  }

  ghost function CaptureOf(dis: Disassembler, fields: seq<Field>, f: Field, payload: nat): Packets.Annotation {
    Packets.Annotation(Ascii(f.name),
      if f.encoding.Riscv? then Packets.Words(Ascii(Assembly(dis, fields, f, payload)), true)
      else ShowField(f, RawOf(f, payload)))
  }

  ghost function CapturesOf(dis: Disassembler, fields: seq<Field>, payload: nat): (captures: seq<Packets.Annotation>)
    ensures |captures| == |fields|
    ensures forall i :: 0 <= i < |fields| ==> captures[i] == CaptureOf(dis, fields, fields[i], payload)
  {
    seq(|fields|, i requires 0 <= i < |fields| => CaptureOf(dis, fields, fields[i], payload))
  }

  // ---------------------------------------------------------------- the name of a slice

  ghost function SymbolOf(symbols: seq<(U64, string)>, code: nat): Option<string> {
    if symbols == [] then None else if symbols[0].0 == code then Some(symbols[0].1) else SymbolOf(symbols[1..], code)
  }

  ghost function LabelOf(f: Field, raw: nat): string
    requires raw < Pow2(f.width)
  {
    match SymbolOf(f.symbols, raw) case Some(name) => name case None => HexOfField(f.width, raw)
  }

  /** The label chosen by the last of these fields that selects one. */
  ghost function Selected(fields: seq<Field>, payload: nat): string {
    if fields == [] then ""
    else
      var last := fields[|fields| - 1];
      if last.selected then LabelOf(last, RawOf(last, payload)) else Selected(fields[..|fields| - 1], payload)
  }

  ghost function Mnemonic(text: string): string {
    if text == "" || text[0] == ' ' then "" else [text[0]] + Mnemonic(text[1..])
  }

  /** How many of the first `n` fields are instructions, and the mnemonic of the last. */
  ghost function Instructions(dis: Disassembler, fields: seq<Field>, n: nat, payload: nat): (nat, string)
    requires n <= |fields|
  {
    if n == 0 then (0, "")
    else
      var before := Instructions(dis, fields, n - 1, payload);
      if fields[n - 1].encoding.Riscv? then (before.0 + 1, Mnemonic(Assembly(dis, fields, fields[n - 1], payload)))
        else before
  }

  ghost const STALL: Wire.Text := Ascii("stall")

  /** A stall is called that; a transfer by its selected label, its one instruction, or its site. */
  ghost function NameOf(view: View, dis: Disassembler, payload: nat): Wire.Text {
    var fields := view.Captured();
    var chosen, instructions := Selected(fields, payload), Instructions(dis, fields, |fields|, payload);
    if view.stall then STALL
    else if chosen != "" then Ascii(chosen)
    else if instructions.0 == 1 then Ascii(instructions.1)
    else view.title
  }

  // ---------------------------------------------------------------- a whole slice

  ghost const PAYLOAD: Wire.Text := Ascii("payload_words_lsw_first")

  /** Numbers with commas between them. */
  ghost function Listed(words: seq<U32>): string {
    if words == [] then ""
    else (if |words| == 1 then "" else Listed(words[..|words| - 1]) + ",") + DecimalText(words[|words| - 1])
  }

  /** The fields of the payload, or its words where no fields are listed. */
  ghost function ShownOf(view: View, dis: Disassembler, words: seq<U32>): seq<Packets.Annotation> {
    match view.fields
    case Some(fields) => CapturesOf(dis, fields, Number(words))
    case None => [Packets.Annotation(PAYLOAD, Packets.Words(Ascii("[" + Listed(words) + "]"), true))]
  }

  ghost function LookOf(view: View, dis: Disassembler, words: seq<U32>): Look {
    Look(NameOf(view, dis, Number(words)), ShownOf(view, dis, words))
  }

  ghost function WordsOf(width: nat, words: map<nat, U32>): seq<U32> {
    PayloadWords(Node(true, 0, width, words))
  }

  /** How the exporter shows the slices of each site. */
  ghost function CaptionOf(d: Description, views: seq<View>, dis: Disassembler): Caption<Look> {
    (site: nat, words: map<nat, U32>) =>
      if site < |views| && site < |d.widths| then LookOf(views[site], dis, WordsOf(d.widths[site], words))
        else Look([], [])
  }

  // ---------------------------------------------------------------- showing a slice

  ghost function PayloadIn(node: Node): nat {
    Number(PayloadWords(node))
  }

  /** The text and numbers of a captured value are those of the field. */
  method HexFor(f: Field, v: FieldValue) returns (text: string)
    requires Clean(v) && v.width == f.width && v.encoding == f.encoding
    ensures Raw(v) < Pow2(f.width) && text == HexOfField(f.width, Raw(v))
  {
    hide Clean, Raw, Bits, Number, Pow2, IsHex, ParseHex, HexOf;
    CleanRaw(v);
    var hex := HexText(v);
    text := hex.value;
    Pow2Grows(f.width, 4 * HexDigits(f.width));
    HexIsRaw(v);
    HexUnique(text[2..], HexOf(Raw(v), HexDigits(f.width)));
    assert text == text[..2] + text[2..];
  }

  lemma CleanRaw(v: FieldValue)
    requires Clean(v)
    ensures Enough(v) && 0 < v.width && Raw(v) < Pow2(v.width) && Raw(v) == Number(v.words)
    ensures |v.words| > (if v.width > 32 then 1 else 0)
  {
    WrapSmall(v.width, Number(v.words));
  }

  method DecimalFor(f: Field, v: FieldValue) returns (text: Wire.Text)
    requires Clean(v) && v.width == f.width && v.encoding == f.encoding
    ensures text == NumberText(ValueOf(f, Raw(v)))
  {
    hide Clean, Raw, Canonical, ParseInt, DecimalText, Ascii;
    CleanRaw(v);
    var decimal := Decimal(v);
    CanonicalUnique(decimal.value, DecimalText(ValueOf(f, Raw(v))));
    text := Ascii(decimal.value);
  }

  method NumberFor(f: Field, v: FieldValue) returns (n: nat)
    requires Clean(v) && v.width == f.width <= 64
    ensures n == Raw(v) < Pow2(f.width)
  {
    CleanRaw(v);
    CleanUnsigned(v);
    hide Clean, Raw, Number, Pow2, Wrap;
    var number := UnsignedValue(v);
    n := number.value;
  }

  method SignedFor(f: Field, v: FieldValue) returns (n: int)
    requires Clean(v) && v.width == f.width <= 64 && f.encoding.Signed?
    ensures n == ValueOf(f, Raw(v))
  {
    CleanRaw(v);
    hide Clean, Raw, Number, Pow2, Low;
    var number := SignedValue(v);
    if Raw(v) < Pow2(v.width - 1) {
      SignedIsMeaning(v);
    }
    n := number.value;
  }

  /** The annotation of a field that is not an instruction. */
  method CaptureAnnotation(f: Field, node: Node) returns (a: Packets.Annotation)
    requires Inside(node, f) && Recorded(node, f.offset, f.width)
    ensures a == Packets.Annotation(Ascii(f.name), ShowField(f, RawOf(f, PayloadIn(node))))
  {
    hide Clean, Raw, Number, Bits, Pow2, Recorded, PayloadWords, HexOfField, NumberText, Ascii;
    var value := CaptureField(node, f);
    var v := value.value;
    CleanRaw(v);
    var shown;
    if f.encoding.Hex? {
      var text := HexFor(f, v);
      shown := Packets.Words(Ascii(text), true);
    } else if f.width > 64 {
      var text := DecimalFor(f, v);
      shown := Packets.Words(text, true);
    } else {
      var n := NumberFor(f, v);
      if (f.encoding.Unsigned? || f.encoding.Enum?) && n > I64_MAX {
        var text := DecimalFor(f, v);
        shown := Packets.Words(text, true);
      } else if f.encoding.Bool? {
        shown := Packets.Flag(n);
      } else if f.encoding.Signed? {
        var number := SignedFor(f, v);
        shown := Packets.Signed(number);
      } else {
        shown := Packets.Unsigned(n);
      }
    }
    a := Packets.Annotation(Ascii(f.name), shown);
  }

  /** Text of instructions, remembered by everything it depends on. */
  class Formatter {
    const dis: Disassembler
    var cache: map<(string, nat, nat, nat), string>

    ghost predicate Valid()
      reads this
    {
      |cache| <= 4096 && forall k <- cache :: cache[k] == dis(k.0, k.1, k.2, k.3)
    }

    constructor (d: Disassembler)
      ensures Valid() && dis == d
    {
      dis, cache := d, map[];
    }

    /** The text of an instruction does not depend on what was shown before. */
    method Render(f: Field, node: Node, fields: seq<Field>) returns (text: string)
      requires Valid() && Inside(node, f) && Recorded(node, f.offset, f.width) && f.width <= 64
      requires match FindField(fields, f.pc)
               case Some(pc) => Inside(node, pc) && Recorded(node, pc.offset, pc.width) && pc.width <= 64
               case None => false
      modifies this
      ensures Valid() && text == Assembly(dis, fields, f, PayloadIn(node))
    {
      hide Clean, Raw, Number, Bits, Pow2, Recorded, PayloadWords;
      var value := CaptureField(node, f);
      CleanRaw(value.value);
      var bits := NumberFor(f, value.value);
      var counter := FindField(fields, f.pc).value;
      var address := CaptureField(node, counter);
      CleanRaw(address.value);
      var pc := NumberFor(counter, address.value);
      var key := (f.isa, pc, bits, f.width);
      if key in cache {
        return cache[key];
      }
      text := dis(f.isa, pc, bits, f.width);
      if |cache| >= 4096 {
        cache := map[];
      }
      cache := cache[key := text];
    }
  }

  /** Every field of a settled occurrence of an accepted site can be read. */
  lemma FieldReady(fields: seq<Field>, node: Node, f: Field)
    requires SiteFormed(fields, node.width) && node.present && PayloadComplete(node) && f in fields
    ensures Inside(node, f) && Recorded(node, f.offset, f.width)
  {
    hide FieldFormed, NamesDiffer, AtMostOneSelected, PayloadComplete;
    var i :| 0 <= i < |fields| && fields[i] == f;
    FieldsRecorded(fields, node.width, node, i);
  }

  lemma InstructionReady(fields: seq<Field>, node: Node, f: Field)
    requires SiteFormed(fields, node.width) && node.present && PayloadComplete(node) && f in fields && f.encoding.Riscv?
    ensures Inside(node, f) && Recorded(node, f.offset, f.width) && f.width <= 64
    ensures FindField(fields, f.pc).Some? && FindField(fields, f.pc).value.width <= 64
    ensures Inside(node, FindField(fields, f.pc).value)
    ensures Recorded(node, FindField(fields, f.pc).value.offset, FindField(fields, f.pc).value.width)
  {
    FieldReady(fields, node, f);
    hide Tiled, NamesDiffer, AtMostOneSelected, PayloadComplete, Inside, Recorded;
    assert FieldFormed(f, fields);
    FoundIn(fields, f.pc);
    FieldReady(fields, node, FindField(fields, f.pc).value);
  }

  lemma {:induction false} FoundIn(fields: seq<Field>, name: string)
    ensures FindField(fields, name).Some? ==> FindField(fields, name).value in fields
  {
    if fields != [] {
      FoundIn(fields[1..], name);
    }
  }

  method FindSymbol(symbols: seq<(U64, string)>, code: nat) returns (name: Option<string>)
    ensures name == SymbolOf(symbols, code)
  {
    assert symbols[0..] == symbols;
    for i := 0 to |symbols|
      invariant SymbolOf(symbols, code) == SymbolOf(symbols[i..], code)
    {
      assert symbols[i..][1..] == symbols[i + 1..];
      if symbols[i].0 == code {
        return Some(symbols[i].1);
      }
    }
    name := None;
  }

  method SelectedName(f: Field, node: Node) returns (name: string)
    requires Inside(node, f) && Recorded(node, f.offset, f.width) && f.width <= 64
    ensures name == LabelOf(f, RawOf(f, PayloadIn(node)))
  {
    hide Clean, Raw, Number, Bits, Pow2, Recorded, PayloadWords, HexOfField, SymbolOf;
    var value := CaptureField(node, f);
    CleanRaw(value.value);
    var code := NumberFor(f, value.value);
    var symbol := FindSymbol(f.symbols, code);
    if symbol.Some? {
      return symbol.value;
    }
    name := HexFor(f, value.value);
  }

  /** One field's annotation and, for an instruction, its text. */
  method Annotate(formatter: Formatter, node: Node, fields: seq<Field>, f: Field)
    returns (a: Packets.Annotation, text: string)
    requires formatter.Valid() && SiteFormed(fields, node.width) && node.present && PayloadComplete(node) && f in fields
    modifies formatter
    ensures formatter.Valid() && a == CaptureOf(formatter.dis, fields, f, PayloadIn(node))
    ensures f.encoding.Riscv? ==> text == Assembly(formatter.dis, fields, f, PayloadIn(node))
  {
    hide SiteFormed, PayloadComplete, PayloadIn, ShowField, RawOf, Assembly, Ascii, Inside, Recorded, Formatter.Valid;
    if f.encoding.Riscv? {
      InstructionReady(fields, node, f);
      text := formatter.Render(f, node, fields);
      a := Packets.Annotation(Ascii(f.name), Packets.Words(Ascii(text), true));
    } else {
      FieldReady(fields, node, f);
      a := CaptureAnnotation(f, node);
      text := "";
    }
  }

  /** The words of a payload in index order. */
  method ListWords(node: Node) returns (words: seq<U32>)
    requires PayloadComplete(node)
    ensures words == PayloadWords(node)
  {
    words := [];
    for i := 0 to |node.words|
      invariant |words| == i && forall j :: 0 <= j < i ==> words[j] == node.words[j]
    {
      words := words + [node.words[i]];
    }
  }

  method ListText(words: seq<U32>) returns (text: string)
    ensures text == Listed(words)
  {
    hide DecimalText;
    text := "";
    for i := 0 to |words|
      invariant text == Listed(words[..i])
    {
      assert words[..i + 1][..i] == words[..i];
      if i > 0 {
        text := text + ",";
      }
      text := text + DecimalText(words[i]);
    }
    assert words[..|words|] == words;
  }

  /** The text of an instruction up to its first space. */
  method FirstWord(text: string) returns (word: string)
    ensures word == Mnemonic(text)
  {
    word := "";
    assert text[0..] == text;
    for i := 0 to |text|
      invariant word + Mnemonic(text[i..]) == Mnemonic(text)
    {
      assert text[i..][1..] == text[i + 1..];
      if text[i] == ' ' {
        return;
      }
      assert word + ([text[i]] + Mnemonic(text[i + 1..])) == word + [text[i]] + Mnemonic(text[i + 1..]);
      word := word + [text[i]];
    }
  }

  /** The name and annotations of one slice: reading a settled occurrence of an accepted site never fails. */
  method Describe(view: View, formatter: Formatter, node: Node) returns (look: Look)
    requires formatter.Valid() && node.present && PayloadComplete(node)
    requires view.fields.Some? ==> SiteFormed(view.fields.value, node.width)
    modifies formatter
    ensures formatter.Valid() && look == LookOf(view, formatter.dis, PayloadWords(node))
  {
    if view.fields == None {
      var words := ListWords(node);
      var text := ListText(words);
      var name := if view.stall then Ascii("stall") else view.title;
      return Look(name, [Packets.Annotation(Ascii("payload_words_lsw_first"),
                                            Packets.Words(Ascii("[" + text + "]"), true))]);
    }
    look := DescribeFields(view, formatter, node);
  }

  method DescribeFields(view: View, formatter: Formatter, node: Node) returns (look: Look)
    requires formatter.Valid() && node.present && PayloadComplete(node)
    requires view.fields.Some? && SiteFormed(view.fields.value, node.width)
    modifies formatter
    ensures formatter.Valid() && look == LookOf(view, formatter.dis, PayloadWords(node))
  {
    hide SiteFormed, PayloadComplete, CaptureOf, RawOf, LabelOf, Assembly, Ascii, Inside, Recorded, Formatter.Valid;
    var fields := view.fields.value;
    ghost var dis, payload := formatter.dis, PayloadIn(node);
    var captures: seq<Packets.Annotation> := [];
    var mnemonic, chosen, count := "", "", 0;
    for i := 0 to |fields|
      invariant formatter.Valid()
      invariant |captures| == i && forall j :: 0 <= j < i ==> captures[j] == CaptureOf(dis, fields, fields[j], payload)
      invariant chosen == Selected(fields[..i], payload)
      invariant (count, mnemonic) == Instructions(dis, fields, i, payload)
    {
      var f := fields[i];
      assert fields[..i + 1][..i] == fields[..i];
      var a, text := Annotate(formatter, node, fields, f);
      captures := captures + [a];
      if f.encoding.Riscv? {
        mnemonic := FirstWord(text);
        count := count + 1;
      }
      if f.selected {
        SelectedReady(fields, node, f);
        chosen := SelectedName(f, node);
      }
    }
    assert fields[..|fields|] == fields;
    look := Look(if view.stall then Ascii("stall") else if chosen != "" then Ascii(chosen) else if count == 1
      then Ascii(mnemonic) else view.title,
                 captures);
  }

  lemma SelectedReady(fields: seq<Field>, node: Node, f: Field)
    requires SiteFormed(fields, node.width) && node.present && PayloadComplete(node) && f in fields && f.selected
    ensures Inside(node, f) && Recorded(node, f.offset, f.width) && f.width <= 64
  {
    FieldReady(fields, node, f);
    assert FieldFormed(f, fields);
  }

  /** That is the caption of the occurrence in the trace. */
  lemma DescribesCaption(d: Description, views: seq<View>, dis: Disassembler, site: nat, node: Node)
    requires site < |views| == |d.widths| && node.width == d.widths[site]
    ensures CaptionOf(d, views, dis)(site, node.words) == LookOf(views[site], dis, PayloadWords(node))
  {
    hide LookOf;
    assert WordsOf(node.width, node.words) == PayloadWords(node);
  }
}

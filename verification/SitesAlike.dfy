/** Which sites of a track may be shown alike, decided from the manifest alone, and what a trace then tells. */
module SitesAlike {
  import opened Machine
  import opened Options
  import opened Power
  import opened Division
  import opened EventModel
  import opened Encoder
  import opened Words
  import opened Capture
  import opened Printing
  import opened Stamping
  import opened Readback
  import opened Captions
  import opened Telling
  import Ambiguity
  import Trace
  import ExportSession

  // ---------------------------------------------------------------- what two sites may show alike

  ghost const TOP: nat := 0x8000_0000_0000_0000

  /** The field has values that are shown as decimal text. */
  ghost predicate Wide(f: Field) {
    f.width > 64 || (f.width == 64 && (f.encoding.Unsigned? || f.encoding.Enum?))
  }

  /** The field has values that are shown as scalars, of one kind. */
  ghost predicate SameScalar(f: Field, g: Field) {
    f.width <= 64 && g.width <= 64 && f.encoding.Bool? == g.encoding.Bool? && f.encoding.Signed? == g.encoding.Signed?
  }

  /** Some value of one field is shown like some value of the other. */
  ghost predicate Compatible(f: Field, g: Field) {
    if f.encoding.Hex? || g.encoding.Hex?
      then f.encoding.Hex? && g.encoding.Hex? && HexDigits(f.width) == HexDigits(g.width)
    else (Wide(f) && Wide(g)) || SameScalar(f, g)
  }

  /** The value `code` of an enumeration is shown like some value of the other field. */
  ghost predicate CodeShown(code: nat, g: Field) {
    !g.encoding.Hex? &&
    if code > I64_MAX then Wide(g)
    else g.width <= 64 && !g.encoding.Bool? && !g.encoding.Signed? && code < Pow2(g.width)
  }

  /** A value both fields can hold, shown alike if any is. */
  ghost function Shared(f: Field, g: Field): nat {
    if !f.encoding.Hex? && Wide(f) && Wide(g) then TOP else 0
  }

  lemma HexNotDecimal(width: nat, x: nat, n: int)
    requires x < Pow2(width)
    ensures Ascii(HexOfField(width, x)) != NumberText(n)
  {
    hide Pow2, HexOf, IsHex, ParseHex, Narrow, DecimalText, Ascii;
    Pow2Grows(width, 4 * HexDigits(width));
    var s, t := "0x" + HexOf(x, HexDigits(width)), DecimalText(n);
    HexNarrow(HexOf(x, HexDigits(width)));
    PrefixNarrow(HexOf(x, HexDigits(width)));
    CanonicalNarrow(t);
    NoX(n);
    assert s[1] == 'x';
    if Ascii(s) == Ascii(t) {
      AsciiOnce(s, t);
    }
  }

  lemma NoX(n: int)
    ensures forall i :: 0 <= i < |DecimalText(n)| ==> DecimalText(n)[i] != 'x'
  {
    var s := DecimalText(n);
    forall i | 0 <= i < |s|
      ensures s[i] != 'x'
    {
      if s[0] == '-' && 0 < i {
        assert s[i] == s[1..][i - 1] && s[i] in s[1..];
        assert IsDigit(s[i]);
      } else {
        assert s[i] in s;
      }
    }
  }

  lemma HexLength(width: nat, x: nat)
    requires x < Pow2(width)
    ensures |Ascii(HexOfField(width, x))| == 2 + HexDigits(width)
  {
    hide Pow2, HexOf, Ascii;
    Pow2Grows(width, 4 * HexDigits(width));
    AsciiLength(HexOfField(width, x));
  }

  lemma {:induction false} AsciiLength(s: string)
    ensures |Ascii(s)| == |s|
  {
    if s != "" {
      AsciiLength(s[1..]);
    }
  }

  /** Fields shown alike are compatible. */
  lemma AlikeCompatible(f: Field, g: Field, x: nat, y: nat)
    requires x < Pow2(f.width) && y < Pow2(g.width) && ShowField(f, x) == ShowField(g, y)
    ensures Compatible(f, g)
  {
    hide Pow2, HexOfField, NumberText, Ascii;
    SmallPower(f, x);
    SmallPower(g, y);
    if f.encoding.Hex? {
      HexLength(f.width, x);
      if g.encoding.Hex? {
        HexLength(g.width, y);
      } else {
        HexNotDecimal(f.width, x, ValueOf(g, y));
      }
    } else if g.encoding.Hex? {
      HexLength(g.width, y);
      HexNotDecimal(g.width, y, ValueOf(f, x));
    }
  }

  /** Only a full machine word holds a number above the signed ones. */
  lemma SmallPower(f: Field, x: nat)
    requires x < Pow2(f.width)
    ensures f.width < 64 ==> x <= I64_MAX
  {
    if f.width < 64 {
      Pow2Grows(f.width, 63);
      MachinePowers(64);
    }
  }

  /** A field's code is shown like a value of the other only where that can hold it. */
  lemma AlikeCode(f: Field, g: Field, x: nat, y: nat)
    requires f.encoding.Enum? && f.width <= 64
    requires x < Pow2(f.width) && y < Pow2(g.width) && ShowField(f, x) == ShowField(g, y)
    ensures CodeShown(x, g)
  {
    hide Pow2, HexOfField, NumberText, Ascii;
    SmallPower(g, y);
    AlikeCompatible(f, g, x, y);
    if x > I64_MAX {
      NumberTextOnce(x, ValueOf(g, y));
    }
  }

  /** Compatible fields have a value they show alike. */
  lemma SharedShown(f: Field, g: Field)
    requires Compatible(f, g)
    ensures Shared(f, g) < Pow2(f.width) && Shared(f, g) < Pow2(g.width)
    ensures ShowField(f, Shared(f, g)) == ShowField(g, Shared(f, g))
  {
    hide Ascii, NumberText, HexOf, IsHex, ParseHex;
    TopFits(f);
    TopFits(g);
    ZeroFits(f.width, HexDigits(f.width));
    ZeroFits(g.width, HexDigits(g.width));
    ValueOfShared(f, Shared(f, g));
    ValueOfShared(g, Shared(f, g));
    hide Pow2;
    if f.encoding.Hex? {
      ZeroText(f.width, g.width);
    }
  }

  lemma TopFits(f: Field)
    ensures Wide(f) ==> TOP < Pow2(f.width)
  {
    MachinePowers(64);
    if Wide(f) {
      Pow2Grows(64, f.width);
    }
  }

  lemma ZeroFits(width: nat, digits: nat)
    ensures 0 < Pow2(width) && 0 < Pow2(4 * digits)
  {
  }

  lemma ValueOfShared(f: Field, x: nat)
    requires x == 0 || (x == TOP && Wide(f))
    ensures ValueOf(f, x) == x
  {
    MachinePowers(64);
    if Wide(f) && f.width > 64 {
      Pow2Grows(64, f.width - 1);
    }
  }

  lemma ZeroText(width: nat, width': nat)
    requires HexDigits(width) == HexDigits(width')
    ensures 0 < Pow2(width) && 0 < Pow2(width') && HexOfField(width, 0) == HexOfField(width', 0)
  {
  }

  /** A code that the other field can show is shown by its own value. */
  lemma CodeAlike(f: Field, code: nat, g: Field)
    requires f.encoding.Enum? && f.width <= 64 && code < Pow2(f.width) && CodeShown(code, g)
    ensures code < Pow2(g.width) && ShowField(f, code) == ShowField(g, code)
  {
    hide Ascii, NumberText, HexOfField;
    MachinePowers(64);
    Pow2Grows(f.width, 64);
    if code > I64_MAX {
      Pow2Grows(64, g.width);
      if g.width > 64 {
        Pow2Grows(64, g.width - 1);
      }
    }
  }

  // ---------------------------------------------------------------- a payload for any values

  /** A payload whose fields have these values. */
  ghost function Packed(fields: seq<Field>, raws: seq<nat>): nat
    requires |raws| == |fields|
  {
    if fields == [] then 0 else Pow2(fields[0].offset) * raws[0] + Packed(fields[1..], raws[1..])
  }

  ghost predicate Fit(fields: seq<Field>, raws: seq<nat>) {
    |raws| == |fields| && forall i :: 0 <= i < |fields| ==> raws[i] < Pow2(fields[i].width)
  }

  lemma {:induction false} PackedBelow(fields: seq<Field>, width: nat, raws: seq<nat>)
    requires Tiled(fields, width) && Fit(fields, raws)
    ensures Packed(fields, raws) < Pow2(width)
  {
    if fields == [] {
      assert Pow2(0) == 1;
    } else {
      PackedBelow(fields[1..], fields[0].offset, raws[1..]);
      Pow2Add(fields[0].offset, fields[0].width);
      TopDigit(Packed(fields[1..], raws[1..]), Pow2(fields[0].offset), raws[0], Pow2(fields[0].width));
    }
  }

  /** Every field has its value. */
  lemma {:induction false} PackedRaw(fields: seq<Field>, width: nat, raws: seq<nat>, i: nat)
    requires Tiled(fields, width) && Fit(fields, raws) && i < |fields|
    ensures RawOf(fields[i], Packed(fields, raws)) == raws[i]
    ensures fields[i].offset + fields[i].width <= width
  {
    var rest, p := Packed(fields[1..], raws[1..]), fields[0].offset;
    PackedBelow(fields[1..], p, raws[1..]);
    if i == 0 {
      hide Packed;
      TopField(rest, p, raws[0], fields[0].width);
    } else {
      assert fields[i] == fields[1..][i - 1] && raws[i] == raws[1..][i - 1];
      PackedRaw(fields[1..], p, raws[1..], i - 1);
      DropHigh(rest, raws[0], p, fields[i].offset, fields[i].width);
    }
  }

  lemma TopField(rest: nat, offset: nat, raw: nat, width: nat)
    requires rest < Pow2(offset) && raw < Pow2(width)
    ensures Bits(rest + Pow2(offset) * raw, offset, width) == raw
    ensures Bits(Pow2(offset) * raw + rest, offset, width) == raw
  {
    hide Pow2;
    DivideUnique(rest + Pow2(offset) * raw, Pow2(offset), raw, rest);
    WrapSmall(width, raw);
  }

  /** The words of a number. */
  ghost function Digits(n: nat, x: nat): (words: seq<U32>)
    ensures |words| == n
  {
    if n == 0 then [] else [x % BASE] + Digits(n - 1, x / BASE)
  }

  lemma {:induction false} DigitsNumber(n: nat, x: nat)
    requires x < Pow2(32 * n)
    ensures Number(Digits(n, x)) == x
  {
    if n == 0 {
      assert Pow2(0) == 1;
    } else {
      WordSize();
      Pow2Add(32, 32 * (n - 1));
      Below(x, BASE, Pow2(32 * (n - 1)));
      hide Pow2;
      DigitsNumber(n - 1, x / BASE);
      assert Digits(n, x)[1..] == Digits(n - 1, x / BASE);
    }
  }

  lemma Below(x: nat, p: nat, q: nat)
    requires 0 < p && x < p * q
    ensures x / p < q
  {
    Quotient(x, p);
    if q <= x / p {
      MulGrows(p, q, x / p);
    }
  }

  /** The last word has only the bits left over. */
  lemma {:induction false} LastDigit(n: nat, x: nat, top: nat)
    requires 0 < n && x < Pow2(32 * (n - 1) + top) && top <= 32
    ensures Digits(n, x)[n - 1] < Pow2(top)
  {
    WordSize();
    if n == 1 {
      Pow2Grows(top, 32);
      assert x % BASE == x;
    } else {
      Pow2Add(32, 32 * (n - 2) + top);
      Below(x, BASE, Pow2(32 * (n - 2) + top));
      hide Pow2;
      LastDigit(n - 1, x / BASE, top);
      assert Digits(n, x)[n - 1] == Digits(n - 1, x / BASE)[n - 2];
    }
  }

  /** Words with a given payload. */
  ghost function WordsFor(width: nat, x: nat): map<nat, U32> {
    var n := (width + 31) / 32;
    map i: nat | i < n :: Digits(n, x)[i]
  }

  lemma WordsForShape(width: nat, x: nat)
    ensures |WordsFor(width, x)| == (width + 31) / 32
    ensures forall i :: i in WordsFor(width, x) <==> 0 <= i < (width + 31) / 32
    ensures WordsOf(width, WordsFor(width, x)) == Digits((width + 31) / 32, x)
  {
    hide Digits;
    var n := (width + 31) / 32;
    assert WordsFor(width, x).Keys == FirstOnes(n);
    assert WordsOf(width, WordsFor(width, x)) == Digits(n, x);
  }

  lemma WordsForPayload(width: nat, x: nat)
    requires x < Pow2(width)
    ensures PayloadComplete(Node(true, 0, width, WordsFor(width, x))) && Number(WordsOf(width, WordsFor(width, x))) == x
  {
    hide Pow2, Digits, Number, WordsOf;
    var n := (width + 31) / 32;
    Pow2Grows(width, 32 * n);
    DigitsNumber(n, x);
    WordsForShape(width, x);
    if width % 32 != 0 {
      assert width == 32 * (n - 1) + width % 32;
      LastDigit(n, x, width % 32);
    }
  }

  // ---------------------------------------------------------------- the condition on the manifest

  /** The field that selects the name of a slice. */
  ghost function Chooser(fields: seq<Field>): (k: Option<nat>)
    ensures k.Some? ==> k.value < |fields| && fields[k.value].selected
  {
    if fields == [] then None
    else if fields[|fields| - 1].selected then Some(|fields| - 1)
    else Chooser(fields[..|fields| - 1])
  }

  /** The names of the fields of a site. */
  ghost function Names(fields: seq<Field>): (names: seq<string>)
    ensures |names| == |fields| && forall i :: 0 <= i < |fields| ==> names[i] == fields[i].name
  {
    seq(|fields|, i requires 0 <= i < |fields| => fields[i].name)
  }

  lemma NamesShown(dis: Disassembler, fields: seq<Field>, x: nat, fields': seq<Field>, y: nat)
    requires (forall f <- fields :: Nameable(f.name)) && (forall f <- fields' :: Nameable(f.name))
    requires CapturesOf(dis, fields, x) == CapturesOf(dis, fields', y)
    ensures Names(fields) == Names(fields')
  {
    hide Nameable;
    forall i | 0 <= i < |fields|
      ensures fields[i].name == fields'[i].name
    {
      assert CapturesOf(dis, fields, x)[i] == CapturesOf(dis, fields', y)[i];
      assert fields[i] in fields && fields'[i] in fields';
      NameableNarrow(fields[i].name);
      NameableNarrow(fields'[i].name);
      AsciiOnce(fields[i].name, fields'[i].name);
    }
  }

  lemma NameableNarrow(name: string)
    requires Nameable(name)
    ensures Narrow(name)
  {
    forall i | 0 <= i < |name|
      ensures name[i] as int < 256
    {
      assert name[i] in name;
    }
  }

  /** The fields of two sites can be shown alike: same names in the same order, compatible values; without a
      schema, as many words. */
  ghost predicate FieldsAlike(d: Description, views: seq<View>, s: nat, s': nat)
    requires s < |views| == |d.widths| && s' < |views|
  {
    match (views[s].fields, views[s'].fields)
    case (Some(fs), Some(gs)) => Names(fs) == Names(gs) && forall i :: 0 <= i < |fs| ==> Compatible(fs[i], gs[i])
    case (None, None) => (d.widths[s] + 31) / 32 == (d.widths[s'] + 31) / 32
    case _ => false
  }

  /** A slice of this site can be called what stalls are called, showing what the other site shows. */
  ghost predicate CalledStall(view: View, other: View) {
    view.stall ||
    match Chooser(view.Captured())
    case None => view.title == STALL
    case Some(k) =>
      && k < |other.Captured()|
      && exists symbol <- view.Captured()[k].symbols :: Ascii(symbol.1) == STALL &&
           CodeShown(symbol.0, other.Captured()[k])
  }

  /** Two sites on one track that the manifest does not tell apart. */
  ghost predicate Alike(d: Description, views: seq<View>, s: nat, s': nat)
    requires s < |views| == |d.widths| && s' < |views|
  {
    Rivals(d, s, s') && FieldsAlike(d, views, s, s') && CalledStall(views[s], views[s']) &&
      CalledStall(views[s'], views[s])
  }

  ghost predicate NoneAlike(d: Description, views: seq<View>)
    requires |views| == |d.widths|
  {
    forall s, s' :: 0 <= s < |views| && 0 <= s' < |views| ==> !Alike(d, views, s, s')
  }

  /** Of two sites on one track, one is a stall. */
  lemma OneIsStall(d: Description, views: seq<View>, s: nat, s': nat)
    requires d.Valid() && Viewed(d, views) && s < |views| && s' < |views| && Rivals(d, s, s')
    ensures views[s].stall || views[s'].stall
  {
    assert SiteViewed(d, views, s) && SiteViewed(d, views, s');
  }

  // ---------------------------------------------------------------- names

  lemma {:induction false} ChooserSelects(fields: seq<Field>, payload: nat)
    ensures Selected(fields, payload) ==
      match Chooser(fields) case None => "" case Some(k) => LabelOf(fields[k], RawOf(fields[k], payload))
    decreases |fields|
  {
    if fields != [] && !fields[|fields| - 1].selected {
      var front := fields[..|fields| - 1];
      ChooserSelects(front, payload);
    }
  }

  lemma {:induction false} NoneCounted(dis: Disassembler, fields: seq<Field>, n: nat, payload: nat)
    requires NoInstructions(fields) && n <= |fields|
    ensures Instructions(dis, fields, n, payload) == (0, "")
  {
    if 0 < n {
      NoneCounted(dis, fields, n - 1, payload);
      assert fields[n - 1] in fields;
    }
  }

  lemma {:induction false} SymbolFound(symbols: seq<(U64, string)>, code: nat)
    ensures SymbolOf(symbols, code).Some? ==>
      exists symbol <- symbols :: symbol.0 == code && symbol.1 == SymbolOf(symbols, code).value
    ensures (forall i, j :: 0 <= i < j < |symbols| ==> symbols[i].0 != symbols[j].0) ==>
      forall symbol <- symbols :: symbol.0 == code ==> SymbolOf(symbols, code) == Some(symbol.1)
  {
    if symbols != [] {
      SymbolFound(symbols[1..], code);
      if symbols[0].0 == code {
        assert symbols[0] in symbols;
      }
    }
  }

  lemma AsciiFirst(s: string)
    requires s != "" && s[0] as int < 256
    ensures Ascii(s) != [] && Ascii(s)[0] == s[0] as int
  {
  }

  lemma HexNotStall(width: nat, x: nat)
    requires x < Pow2(width)
    ensures Ascii(HexOfField(width, x)) != STALL
  {
    hide HexOf, Ascii;
    Pow2Grows(width, 4 * HexDigits(width));
    AsciiFirst(HexOfField(width, x));
    AsciiFirst("stall");
  }

  /** The field that selects a name is an enumeration of distinct, named codes that fit it. */
  lemma ChooserFormed(fields: seq<Field>, width: nat, k: nat)
    requires SiteFormed(fields, width) && Chooser(fields) == Some(k)
    ensures fields[k].encoding.Enum? && fields[k].width <= 64 && SymbolsFormed(fields[k].symbols, fields[k].width)
    ensures forall symbol <- fields[k].symbols :: symbol.0 < Pow2(fields[k].width) && symbol.1 != ""
  {
    hide Tiled, NamesDiffer, AtMostOneSelected, Nameable, IsaFormed, PcFormed;
    assert fields[k] in fields && FieldFormed(fields[k], fields);
    MachinePowers(64);
    hide Pow2;
  }

  /** The name of a slice without instructions. */
  lemma NameShown(view: View, dis: Disassembler, payload: nat)
    requires NoInstructions(view.Captured())
    ensures NameOf(view, dis, payload) ==
      if view.stall then STALL
      else match Chooser(view.Captured())
           case None => view.title
           case Some(k) =>
             var chosen := LabelOf(view.Captured()[k], RawOf(view.Captured()[k], payload));
             if chosen != "" then Ascii(chosen) else view.title
  {
    hide Selected, Instructions, Chooser, Ascii;
    ChooserSelects(view.Captured(), payload);
    NoneCounted(dis, view.Captured(), |view.Captured()|, payload);
  }

  /** A label called like a stall is the name of a symbol for that value. */
  lemma StallLabel(f: Field, raw: nat)
    requires f.encoding.Enum? && SymbolsFormed(f.symbols, f.width) && raw < Pow2(f.width)
    ensures Ascii(LabelOf(f, raw)) == STALL ==>
      exists symbol <- f.symbols :: symbol.0 == raw && Ascii(symbol.1) == STALL
    ensures LabelOf(f, raw) != ""
    ensures forall symbol <- f.symbols :: symbol.0 == raw ==> LabelOf(f, raw) == symbol.1
  {
    hide Ascii, HexOfField, SymbolOf;
    SymbolFound(f.symbols, raw);
    HexNotStall(f.width, raw);
    HexSome(f.width, raw);
  }

  lemma HexSome(width: nat, raw: nat)
    requires raw < Pow2(width)
    ensures HexOfField(width, raw) != ""
  {
  }

  // ---------------------------------------------------------------- slices shown alike

  /** A slice called like a stall that shows the same fields as another can be, by the manifest. */
  lemma NamedAlike(view: View, other: View, width: nat, dis: Disassembler, x: nat, y: nat)
    requires NoInstructions(view.Captured()) && (view.fields.Some? ==> SiteFormed(view.fields.value, width))
    requires |view.Captured()| <= |other.Captured()|
    requires forall i :: 0 <= i < |view.Captured()| ==>
               ShowField(view.Captured()[i], RawOf(view.Captured()[i], x)) ==
                 ShowField(other.Captured()[i], RawOf(other.Captured()[i], y))
    requires NameOf(view, dis, x) == STALL
    ensures CalledStall(view, other)
  {
    hide NameOf, SiteFormed, LabelOf, RawOf, ShowField, CodeShown, SymbolsFormed, Ascii;
    NameShown(view, dis, x);
    var fields := view.Captured();
    match Chooser(fields) {
      case None =>
      case Some(k) =>
        ChooserFormed(fields, width, k);
        StallLabel(fields[k], RawOf(fields[k], x));
        AlikeCode(fields[k], other.Captured()[k], RawOf(fields[k], x), RawOf(other.Captured()[k], y));
    }
  }

  /** What the captures of two slices shown alike say of their fields. */
  lemma CapturedAlike(dis: Disassembler, fs: seq<Field>, x: nat, gs: seq<Field>, y: nat)
    requires NoInstructions(fs) && NoInstructions(gs) && CapturesOf(dis, fs, x) == CapturesOf(dis, gs, y)
    ensures |fs| == |gs|
    ensures forall i :: 0 <= i < |fs| ==> ShowField(fs[i], RawOf(fs[i], x)) == ShowField(gs[i], RawOf(gs[i], y))
    ensures forall i :: 0 <= i < |fs| ==> Compatible(fs[i], gs[i])
  {
    hide RawOf, ShowField, Compatible;
    assert |CapturesOf(dis, fs, x)| == |CapturesOf(dis, gs, y)|;
    forall i | 0 <= i < |fs|
      ensures ShowField(fs[i], RawOf(fs[i], x)) == ShowField(gs[i], RawOf(gs[i], y)) && Compatible(fs[i], gs[i])
    {
      assert fs[i] in fs && gs[i] in gs;
      assert CapturesOf(dis, fs, x)[i] == CapturesOf(dis, gs, y)[i];
      AlikeCompatible(fs[i], gs[i], RawOf(fs[i], x), RawOf(gs[i], y));
    }
  }

  lemma FieldNames(fields: seq<Field>, width: nat)
    requires SiteFormed(fields, width)
    ensures forall f <- fields :: Nameable(f.name)
  {
    hide Tiled, NamesDiffer, AtMostOneSelected, Nameable;
  }

  /** Where two slices look alike, the manifest does not tell their sites apart. */
  lemma LooksAlike(d: Description, views: seq<View>, dis: Disassembler, s: nat, s': nat, a: seq<U32>, b: seq<U32>)
    requires d.Valid() && Viewed(d, views) && Valued(views) && s < |views| && s' < |views| && Rivals(d, s, s')
    requires |a| == (d.widths[s] + 31) / 32 && |b| == (d.widths[s'] + 31) / 32
    requires LookOf(views[s], dis, a) == LookOf(views[s'], dis, b)
    ensures Alike(d, views, s, s')
  {
    hide Rivals, NameOf, CapturesOf, ShowField, RawOf, Compatible, SiteFormed, Names, CalledStall, Listed, Ascii;
    hide NoInstructions, Number;
    assert SiteViewed(d, views, s) && SiteViewed(d, views, s');
    assert views[s] in views && views[s'] in views;
    OneIsStall(d, views, s, s');
    var x, y := Number(a), Number(b);
    if views[s].fields.Some? {
      var fs, gs := views[s].fields.value, views[s'].fields.value;
      CapturedAlike(dis, fs, x, gs, y);
      FieldNames(fs, d.widths[s]);
      FieldNames(gs, d.widths[s']);
      NamesShown(dis, fs, x, gs, y);
    } else {
      ListTextTold(a, b);
    }
    BothStall(views[s], views[s'], dis, x, y);
    NamedAlike(views[s], views[s'], d.widths[s], dis, x, y);
    NamedAlike(views[s'], views[s], d.widths[s'], dis, y, x);
  }

  /** If one of two equal names is a stall's, both are. */
  lemma BothStall(view: View, other: View, dis: Disassembler, x: nat, y: nat)
    requires view.stall || other.stall
    requires NameOf(view, dis, x) == NameOf(other, dis, y)
    ensures NameOf(view, dis, x) == NameOf(other, dis, y) == STALL
  {
  }

  // ---------------------------------------------------------------- and the manifest's alike are shown alike

  /** Values that two sites show alike: shared ones, and the code that calls a slice like a stall. */
  ghost predicate ShowsBoth(fs: seq<Field>, gs: seq<Field>, raws: seq<nat>) {
    && |fs| == |gs| == |raws|
    && forall i :: 0 <= i < |raws| ==>
         raws[i] < Pow2(fs[i].width) && raws[i] < Pow2(gs[i].width) &&
           ShowField(fs[i], raws[i]) == ShowField(gs[i], raws[i])
  }

  lemma SharedBoth(fs: seq<Field>, gs: seq<Field>) returns (raws: seq<nat>)
    requires |fs| == |gs| && forall i :: 0 <= i < |fs| ==> Compatible(fs[i], gs[i])
    ensures ShowsBoth(fs, gs, raws)
  {
    hide ShowField, Compatible, Shared, Pow2;
    raws := seq(|fs|, i requires 0 <= i < |fs| == |gs| => Shared(fs[i], gs[i]));
    forall i | 0 <= i < |fs|
      ensures raws[i] < Pow2(fs[i].width) && raws[i] < Pow2(gs[i].width) &&
        ShowField(fs[i], raws[i]) == ShowField(gs[i], raws[i])
    {
      SharedShown(fs[i], gs[i]);
    }
  }

  /** Values under which the slice of `view` is called like a stall. */
  ghost predicate Calls(view: View, raws: seq<nat>) {
    view.stall ||
    match Chooser(view.Captured())
    case None => view.title == STALL
    case Some(k) => k < |raws| && exists symbol <- view.Captured()[k].symbols ::
      symbol.0 == raws[k] && Ascii(symbol.1) == STALL
  }

  /** A code for the selecting field keeps the two sites alike. */
  lemma CodeBoth(view: View, other: View, width: nat, before: seq<nat>) returns (raws: seq<nat>)
    requires view.fields.Some? ==> SiteFormed(view.fields.value, width)
    requires ShowsBoth(view.Captured(), other.Captured(), before) && CalledStall(view, other)
    ensures ShowsBoth(view.Captured(), other.Captured(), raws) && Calls(view, raws)
  {
    hide ShowField, CodeShown, SiteFormed, SymbolsFormed, Ascii, Pow2;
    raws := before;
    if !view.stall && Chooser(view.Captured()).Some? {
      var k := Chooser(view.Captured()).value;
      var f, g := view.Captured()[k], other.Captured()[k];
      ChooserFormed(view.Captured(), width, k);
      var symbol :| symbol in f.symbols && Ascii(symbol.1) == STALL && CodeShown(symbol.0, g);
      CodeAlike(f, symbol.0, g);
      raws := before[k := symbol.0];
    }
  }

  /** The payloads with these values show the fields alike. */
  lemma PackedAlike(dis: Disassembler, fs: seq<Field>, width: nat, gs: seq<Field>, width': nat, raws: seq<nat>)
    requires SiteFormed(fs, width) && SiteFormed(gs, width') && NoInstructions(fs) && NoInstructions(gs)
    requires Names(fs) == Names(gs) && ShowsBoth(fs, gs, raws)
    ensures Fit(fs, raws) && Fit(gs, raws)
    ensures CapturesOf(dis, fs, Packed(fs, raws)) == CapturesOf(dis, gs, Packed(gs, raws))
  {
    hide ShowField, RawOf, Packed, FieldFormed, NamesDiffer, AtMostOneSelected, Pow2, Ascii;
    var x, y := Packed(fs, raws), Packed(gs, raws);
    forall i | 0 <= i < |fs|
      ensures CaptureOf(dis, fs, fs[i], x) == CaptureOf(dis, gs, gs[i], y)
    {
      assert fs[i] in fs && gs[i] in gs && Names(fs)[i] == Names(gs)[i];
      PackedRaw(fs, width, raws, i);
      PackedRaw(gs, width', raws, i);
    }
  }

  /** Such a slice is called like a stall. */
  lemma PackedNamed(view: View, dis: Disassembler, width: nat, raws: seq<nat>)
    requires NoInstructions(view.Captured()) && (view.fields.Some? ==> SiteFormed(view.fields.value, width))
    requires Fit(view.Captured(), raws) && Calls(view, raws)
    ensures NameOf(view, dis, Packed(view.Captured(), raws)) == STALL
  {
    hide NameOf, SiteFormed, LabelOf, RawOf, SymbolsFormed, Ascii, Packed, Pow2;
    var fields, x := view.Captured(), Packed(view.Captured(), raws);
    NameShown(view, dis, x);
    if !view.stall && Chooser(fields).Some? {
      var k := Chooser(fields).value;
      ChooserFormed(fields, width, k);
      TiledFormed(fields, width);
      PackedRaw(fields, width, raws, k);
      StallLabel(fields[k], raws[k]);
    }
  }

  lemma TiledFormed(fields: seq<Field>, width: nat)
    requires SiteFormed(fields, width)
    ensures Tiled(fields, width)
  {
  }

  /** Values for both sites: one of them is a stall and is called that anyway. */
  lemma CodesBoth(v: View, v': View, width: nat, width': nat, before: seq<nat>) returns (raws: seq<nat>)
    requires v.stall || v'.stall
    requires (v.fields.Some? ==> SiteFormed(v.fields.value, width)) &&
      (v'.fields.Some? ==> SiteFormed(v'.fields.value, width'))
    requires ShowsBoth(v.Captured(), v'.Captured(), before) && CalledStall(v, v') && CalledStall(v', v)
    ensures ShowsBoth(v.Captured(), v'.Captured(), raws) && Calls(v, raws) && Calls(v', raws)
  {
    hide SiteFormed, ShowField, CalledStall, Pow2;
    if v.stall {
      raws := CodeBoth(v', v, width', before);
    } else {
      raws := CodeBoth(v, v', width, before);
    }
  }

  lemma PackedFits(view: View, width: nat, raws: seq<nat>)
    requires view.fields.Some? ==> SiteFormed(view.fields.value, width)
    requires Fit(view.Captured(), raws)
    ensures Packed(view.Captured(), raws) < Pow2(width)
    ensures view.fields == None ==> Packed(view.Captured(), raws) == 0
  {
    if view.fields.Some? {
      PackedBelow(view.fields.value, width, raws);
    }
  }

  lemma BothFit(fs: seq<Field>, gs: seq<Field>, raws: seq<nat>)
    requires ShowsBoth(fs, gs, raws)
    ensures Fit(fs, raws) && Fit(gs, raws) && |raws| == |fs| == |gs|
  {
    hide ShowField, Pow2;
  }

  lemma NothingShown()
    ensures ShowsBoth([], [], [])
  {
  }

  /** Two sites that the manifest does not tell apart have slices that look alike. */
  lemma AlikeLooks(d: Description, views: seq<View>, dis: Disassembler, s: nat, s': nat)
    returns (w: map<nat, U32>, w': map<nat, U32>)
    requires d.Valid() && Viewed(d, views) && Valued(views) && s < |views| && s' < |views| && Alike(d, views, s, s')
    ensures Capturable(d, s, w) && Capturable(d, s', w')
    ensures LookOf(views[s], dis, WordsOf(d.widths[s], w)) == LookOf(views[s'], dis, WordsOf(d.widths[s'], w'))
  {
    hide Rivals, NameOf, SiteFormed, CalledStall, NoInstructions, Number, Names, Compatible, Pow2, WordsOf;
    hide WordsFor, Listed, Ascii, Calls, Packed;
    hide PayloadComplete, CapturesOf, Fit, ShowsBoth, Digits;
    assert SiteViewed(d, views, s) && SiteViewed(d, views, s');
    assert views[s] in views && views[s'] in views;
    OneIsStall(d, views, s, s');
    var v, v', width, width' := views[s], views[s'], d.widths[s], d.widths[s'];
    var raws: seq<nat> := [];
    if v.fields.Some? {
      assert |Names(v.fields.value)| == |Names(v'.fields.value)|;
      raws := SharedBoth(v.fields.value, v'.fields.value);
    } else {
      NothingShown();
    }
    raws := CodesBoth(v, v', width, width', raws);
    BothFit(v.Captured(), v'.Captured(), raws);
    PackedFits(v, width, raws);
    PackedFits(v', width', raws);
    var x, y := Packed(v.Captured(), raws), Packed(v'.Captured(), raws);
    w, w' := WordsFor(width, x), WordsFor(width', y);
    WordsForPayload(width, x);
    WordsForPayload(width', y);
    PackedNamed(v, dis, width, raws);
    PackedNamed(v', dis, width', raws);
    if v.fields.Some? {
      PackedAlike(dis, v.fields.value, width, v'.fields.value, width', raws);
    } else {
      WordsForShape(width, x);
      WordsForShape(width', y);
    }
  }

  // ---------------------------------------------------------------- the theorem

  lemma CaptionHere(d: Description, views: seq<View>, dis: Disassembler, s: nat, w: map<nat, U32>)
    requires Viewed(d, views) && d.Valid() && Capturable(d, s, w)
    ensures s < |views| && CaptionOf(d, views, dis)(s, w) == LookOf(views[s], dis, WordsOf(d.widths[s], w))
    ensures |WordsOf(d.widths[s], w)| == (d.widths[s] + 31) / 32
  {
    hide LookOf;
  }

  /** The manifest tells sites apart exactly when their slices never look alike. */
  lemma SitesToldIff(d: Description, views: seq<View>, dis: Disassembler)
    requires d.Valid() && Viewed(d, views) && Valued(views)
    ensures SitesTold(d, views, dis) <==> NoneAlike(d, views)
  {
    hide Rivals, CaptionOf, LookOf, Capturable, WordsOf, FieldsAlike, CalledStall, Valued, Viewed, Description.Valid;
    SameSites(d, views);
    if NoneAlike(d, views) {
      forall s: nat, s': nat, w: map<nat, U32>, w': map<nat, U32> | Rivals(d, s, s') && Capturable(d, s, w) &&
        Capturable(d, s', w')
        ensures CaptionOf(d, views, dis)(s, w) != CaptionOf(d, views, dis)(s', w')
      {
        CaptionHere(d, views, dis, s, w);
        CaptionHere(d, views, dis, s', w');
        var a, b := WordsOf(d.widths[s], w), WordsOf(d.widths[s'], w');
        assert !Alike(d, views, s, s');
        if LookOf(views[s], dis, a) == LookOf(views[s'], dis, b) {
          LooksAlike(d, views, dis, s, s', a, b);
        }
      }
    }
    if !NoneAlike(d, views) {
      var s, s' :| 0 <= s < |views| && 0 <= s' < |views| && Alike(d, views, s, s');
      AlikeNotTold(d, views, dis, s, s');
    }
  }

  lemma AlikeNotTold(d: Description, views: seq<View>, dis: Disassembler, s: nat, s': nat)
    requires d.Valid() && Viewed(d, views) && Valued(views) && s < |views| && s' < |views| && Alike(d, views, s, s')
    ensures !SitesTold(d, views, dis)
  {
    hide Rivals, CaptionOf, LookOf, Capturable, WordsOf, FieldsAlike, CalledStall, Valued, Viewed, Description.Valid;
    var w, w' := AlikeLooks(d, views, dis, s, s');
    CaptionHere(d, views, dis, s, w);
    CaptionHere(d, views, dis, s', w');
  }

  lemma SameSites(d: Description, views: seq<View>)
    requires Viewed(d, views)
    ensures |views| == |d.widths|
  {
  }

  /** The trace of a circuit whose fields are all values determines the graph that was recorded exactly when
      a cycle is a nanosecond or more or no site is a stall, and the manifest tells the sites of each track
      apart. */
  lemma TraceTellsIff(h: Trace.Heading, d: Description, views: seq<View>, dis: Disassembler)
    requires d.Valid() && Viewed(d, views) && Valued(views)
    ensures |views| == |d.widths|
    ensures (d.frequency <= SECOND || !HasStall(d)) && NoneAlike(d, views) <==>
            forall xs, ys :: ExportSession.SameTrace(h, d, CaptionOf(d, views, dis), xs, ys) ==>
              Ambiguity.SameGraph(d, xs, ys)
  {
    hide Viewed, Valued, CaptionOf, SitesTold, NoneAlike, TellsApart, HasStall, PlainCaptions;
    hide ExportSession.SameTrace, Ambiguity.SameGraph, Description.Valid;
    SameSites(d, views);
    CaptionsPlain(d, views, dis);
    ToldIff(d, views, dis);
    SitesToldIff(d, views, dis);
    ExportSession.TraceDeterminesIff(h, d, CaptionOf(d, views, dis));
  }

  /** Field names that differ tell sites apart. */
  lemma NamesTell(d: Description, views: seq<View>)
    requires d.Valid() && Viewed(d, views) && forall v <- views :: v.fields.Some?
    requires forall s, s' :: 0 <= s < |views| && 0 <= s' < |views| && Rivals(d, s, s') ==>
               Names(views[s].Captured()) != Names(views[s'].Captured())
    ensures |views| == |d.widths| && NoneAlike(d, views)
  {
    hide Rivals, Names;
  }

  /** Two stalls that observe one transfer through the same fields are never told apart. */
  lemma TwinStalls(d: Description, views: seq<View>, s: nat, s': nat)
    requires d.Valid() && Viewed(d, views) && s < |views| && s' < |views| && s != s' && TrackOf(d, s) == TrackOf(d, s')
    requires d.stalls[s] && d.stalls[s'] && views[s].fields.Some? && views[s].fields == views[s'].fields
    ensures |views| == |d.widths| && Alike(d, views, s, s')
  {
    assert SiteViewed(d, views, s) && SiteViewed(d, views, s');
    assert CanParent(d, s) == CanParent(d, s') == false;
    hide SiteFormed;
  }
}

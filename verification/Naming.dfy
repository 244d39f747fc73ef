/** What a slice is called, and how the words of a payload without fields are listed. */
module Naming {
  import opened Machine
  import opened Options
  import opened Power
  import opened Capture
  import opened Printing
  import opened Readback
  import opened Captions
  import Telling
  import Packets

  // ---------------------------------------------------------------- names

  /** A mnemonic is the text of an instruction up to its first space. */
  lemma {:induction false} MnemonicIsFirstWord(text: string)
    ensures Mnemonic(text) <= text && ' ' !in Mnemonic(text)
    ensures Mnemonic(text) != text ==> text[|Mnemonic(text)|] == ' '
  {
    if text != "" && text[0] != ' ' {
      MnemonicIsFirstWord(text[1..]);
    }
  }

  /** Number `k` is the first of these symbols for a value. */
  ghost predicate FirstFor(symbols: seq<(U64, string)>, code: nat, k: nat) {
    k < |symbols| && symbols[k].0 == code && forall j :: 0 <= j < k ==> symbols[j].0 != code
  }

  lemma {:induction false} SymbolIs(symbols: seq<(U64, string)>, code: nat)
    ensures (forall s <- symbols :: s.0 != code) ==> SymbolOf(symbols, code) == None
    ensures forall k: nat :: FirstFor(symbols, code, k) ==> SymbolOf(symbols, code) == Some(symbols[k].1)
  {
    if symbols != [] {
      var rest := symbols[1..];
      SymbolIs(rest, code);
      assert forall s <- rest :: s in symbols;
      forall k: nat | FirstFor(symbols, code, k)
        ensures SymbolOf(symbols, code) == Some(symbols[k].1)
      {
        if 0 < k {
          assert FirstFor(rest, code, k - 1);
        }
      }
    }
  }

  /** A selected field gives its first symbol for the value, or the value itself where no symbol has it. */
  lemma LabelIs(f: Field, raw: nat)
    requires raw < Pow2(f.width)
    ensures forall k: nat :: FirstFor(f.symbols, raw, k) ==> LabelOf(f, raw) == f.symbols[k].1
    ensures (forall s <- f.symbols :: s.0 != raw) ==>
      var text := LabelOf(f, raw);
      && |text| == 2 + (f.width + 3) / 4 && text[..2] == "0x"
      && (forall c <- text[2..] :: IsHex(c)) && ParseHex(text[2..]) == raw
  {
    hide Pow2, ParseHex, IsHex, SymbolOf, FirstFor;
    SymbolIs(f.symbols, raw);
    Pow2Grows(f.width, 4 * HexDigits(f.width));
    var hex := HexOf(raw, HexDigits(f.width));
    assert ("0x" + hex)[2..] == hex;
  }

  lemma {:induction false} LastSelected(fields: seq<Field>, payload: nat, k: nat)
    requires k < |fields| && fields[k].selected && forall i :: k < i < |fields| ==> !fields[i].selected
    ensures Selected(fields, payload) == LabelOf(fields[k], RawOf(fields[k], payload))
  {
    hide LabelOf, RawOf;
    if k < |fields| - 1 {
      LastSelected(fields[..|fields| - 1], payload, k);
    }
  }

  lemma {:induction false} NoneSelected(fields: seq<Field>, payload: nat)
    requires forall f <- fields :: !f.selected
    ensures Selected(fields, payload) == ""
  {
    if fields != [] {
      assert fields[|fields| - 1] in fields;
      NoneSelected(fields[..|fields| - 1], payload);
    }
  }

  lemma {:induction false} NoInstruction(dis: Disassembler, fields: seq<Field>, n: nat, payload: nat)
    requires n <= |fields| && forall i :: 0 <= i < n ==> !fields[i].encoding.Riscv?
    ensures Instructions(dis, fields, n, payload).0 == 0
  {
    if 0 < n {
      NoInstruction(dis, fields, n - 1, payload);
    }
  }

  lemma {:induction false} OneInstruction(dis: Disassembler, fields: seq<Field>, n: nat, payload: nat, k: nat)
    requires k < n <= |fields| && forall i :: 0 <= i < n ==> (fields[i].encoding.Riscv? <==> i == k)
    ensures Instructions(dis, fields, n, payload) == (1, Mnemonic(Assembly(dis, fields, fields[k], payload)))
  {
    hide Mnemonic, Assembly;
    if k < n - 1 {
      OneInstruction(dis, fields, n - 1, payload, k);
    } else {
      NoInstruction(dis, fields, n - 1, payload);
    }
  }

  lemma {:induction false} SomeInstruction(dis: Disassembler, fields: seq<Field>, n: nat, payload: nat, k: nat)
    requires k < n <= |fields| && fields[k].encoding.Riscv?
    ensures 0 < Instructions(dis, fields, n, payload).0
    ensures (exists i :: 0 <= i < k && fields[i].encoding.Riscv?) ==> 1 < Instructions(dis, fields, n, payload).0
  {
    hide Mnemonic, Assembly;
    if k < n - 1 {
      SomeInstruction(dis, fields, n - 1, payload, k);
    } else if i :| 0 <= i < k && fields[i].encoding.Riscv? {
      SomeInstruction(dis, fields, n - 1, payload, i);
    }
  }

  /** A stall is called that. */
  lemma CalledStall(view: View, dis: Disassembler, payload: nat)
    requires view.stall
    ensures NameOf(view, dis, payload) == Ascii("stall")
  {
  }

  /** A transfer is called what its last selected field is, if that is called anything. */
  lemma CalledByLabel(view: View, dis: Disassembler, payload: nat, k: nat)
    requires !view.stall && k < |view.Captured()| && view.Captured()[k].selected
    requires forall i :: k < i < |view.Captured()| ==> !view.Captured()[i].selected
    requires LabelOf(view.Captured()[k], RawOf(view.Captured()[k], payload)) != ""
    ensures NameOf(view, dis, payload) == Ascii(LabelOf(view.Captured()[k], RawOf(view.Captured()[k], payload)))
  {
    hide LabelOf, RawOf, Ascii, Instructions;
    LastSelected(view.Captured(), payload, k);
  }

  /** With no field selected and one instruction, it is called by the mnemonic. */
  lemma CalledByInstruction(view: View, dis: Disassembler, payload: nat, k: nat)
    requires !view.stall && k < |view.Captured()| && forall f <- view.Captured() :: !f.selected
    requires forall i :: 0 <= i < |view.Captured()| ==> (view.Captured()[i].encoding.Riscv? <==> i == k)
    ensures NameOf(view, dis, payload) ==
            Ascii(Mnemonic(Assembly(dis, view.Captured(), view.Captured()[k], payload)))
  {
    hide Mnemonic, Assembly, Ascii, Instructions, Selected;
    NoneSelected(view.Captured(), payload);
    OneInstruction(dis, view.Captured(), |view.Captured()|, payload, k);
  }

  /** With no field selected and no instruction, or several, it is called what its site is. */
  lemma CalledBySite(view: View, dis: Disassembler, payload: nat)
    requires !view.stall && forall f <- view.Captured() :: !f.selected
    requires (forall f <- view.Captured() :: !f.encoding.Riscv?) ||
      exists i, j :: 0 <= i < j < |view.Captured()| &&
        view.Captured()[i].encoding.Riscv? && view.Captured()[j].encoding.Riscv?
    ensures NameOf(view, dis, payload) == view.title
  {
    hide Mnemonic, Assembly, Ascii, Instructions, Selected;
    var fields := view.Captured();
    NoneSelected(fields, payload);
    if i, j :| 0 <= i < j < |fields| && fields[i].encoding.Riscv? && fields[j].encoding.Riscv? {
      SomeInstruction(dis, fields, |fields|, payload, j);
    } else {
      NoInstruction(dis, fields, |fields|, payload);
    }
  }

  // ---------------------------------------------------------------- a list of words

  /** The parts of a text between its commas. */
  function Split(text: string): (parts: seq<string>)
    ensures parts != []
  {
    if text == "" then [""]
    else
      var before, last := Split(text[..|text| - 1]), text[|text| - 1];
      if last == ',' then before + [""] else before[..|before| - 1] + [before[|before| - 1] + [last]]
  }

  lemma {:induction false} SplitNext(x: string, y: string)
    requires ',' !in y
    ensures Split(x + "," + y) == Split(x) + [y]
  {
    var s := x + "," + y;
    if y == "" {
      assert s[..|s| - 1] == x;
    } else {
      var y' := y[..|y| - 1];
      assert s[..|s| - 1] == x + "," + y';
      SplitNext(x, y');
      assert y == y' + [y[|y| - 1]];
      assert (Split(x) + [y'])[..|Split(x)|] == Split(x);
    }
  }

  lemma {:induction false} SplitWhole(y: string)
    requires ',' !in y
    ensures Split(y) == [y]
  {
    if y != "" {
      SplitWhole(y[..|y| - 1]);
      assert y == y[..|y| - 1] + [y[|y| - 1]];
    }
  }

  /** Between the commas are the words in order, each as decimal text. */
  lemma {:induction false} ListedSplits(words: seq<U32>)
    requires words != []
    ensures |Split(Listed(words))| == |words|
    ensures forall i :: 0 <= i < |words| ==>
      Canonical(Split(Listed(words))[i]) && ParseInt(Split(Listed(words))[i]) == words[i]
  {
    hide DecimalText, Canonical, ParseInt, Split;
    var before, last := words[..|words| - 1], words[|words| - 1];
    Telling.NoComma(last);
    if before == [] {
      assert Listed(words) == "" + DecimalText(last);
      assert Listed(words) == DecimalText(last);
      SplitWhole(DecimalText(last));
    } else {
      ListedSplits(before);
      SplitNext(Listed(before), DecimalText(last));
      assert Listed(words) == Listed(before) + "," + DecimalText(last);
    }
  }

  /** A payload without listed fields is shown as one list in brackets, low word first. */
  lemma ListShown(view: View, dis: Disassembler, words: seq<U32>)
    requires view.fields == None
    ensures ShownOf(view, dis, words) ==
      [Packets.Annotation(Ascii("payload_words_lsw_first"), Packets.Words(Ascii("[" + Listed(words) + "]"), true))]
  {
  }
}

/** When captions tell which site and payload a slice stands for. */
module Telling {
  import opened Machine
  import opened Options
  import opened Power
  import opened Division
  import opened EventModel
  import opened Encoder
  import opened Words
  import opened Capture
  import opened Printing
  import opened Stamping
  import opened Readback
  import opened Captions
  import Packets

  ghost predicate NoInstructions(fields: seq<Field>) {
    forall f <- fields :: !f.encoding.Riscv?
  }

  /** Every captured field is a value. */
  ghost predicate Valued(views: seq<View>) {
    forall v <- views :: NoInstructions(v.Captured())
  }

  // ---------------------------------------------------------------- payloads of one site

  lemma HexTold(width: nat, x: nat, y: nat)
    requires x < Pow2(width) && y < Pow2(width) && Ascii(HexOfField(width, x)) == Ascii(HexOfField(width, y))
    ensures x == y
  {
    hide Pow2, Ascii, HexOf, IsHex, ParseHex, Narrow;
    Pow2Grows(width, 4 * HexDigits(width));
    var s, t := HexOf(x, HexDigits(width)), HexOf(y, HexDigits(width));
    HexNarrow(s);
    HexNarrow(t);
    PrefixNarrow(s);
    PrefixNarrow(t);
    AsciiOnce("0x" + s, "0x" + t);
    assert ("0x" + s)[2..] == s && ("0x" + t)[2..] == t;
  }

  lemma PrefixNarrow(s: string)
    requires Narrow(s)
    ensures Narrow("0x" + s)
  {
  }

  /** What is shown of a field, unless it is an instruction, tells its value. */
  lemma RawTold(f: Field, x: nat, y: nat)
    requires x < Pow2(f.width) && y < Pow2(f.width) && ShowField(f, x) == ShowField(f, y)
    ensures x == y
  {
    hide Pow2, HexOfField, Ascii, DecimalText, NumberText;
    if f.encoding.Hex? {
      HexTold(f.width, x, y);
    } else {
      if ShowField(f, x).Words? {
        NumberTextOnce(ValueOf(f, x), ValueOf(f, y));
      }
      ValueTold(f, x, y);
    }
  }

  lemma ValueTold(f: Field, x: nat, y: nat)
    requires x < Pow2(f.width) && y < Pow2(f.width)
    ensures ValueOf(f, x) == ValueOf(f, y) ==> x == y
  {
    hide Pow2;
    if 0 < f.width {
      Pow2Grows(f.width - 1, f.width);
    }
  }

  lemma {:induction false} AssembledTold(fields: seq<Field>, x: nat, y: nat)
    requires forall i :: 0 <= i < |fields| ==> RawOf(fields[i], x) == RawOf(fields[i], y)
    ensures Assembled(fields, x) == Assembled(fields, y)
  {
    if fields != [] {
      forall i | 0 <= i < |fields[1..]|
        ensures RawOf(fields[1..][i], x) == RawOf(fields[1..][i], y)
      {
        assert fields[1..][i] == fields[i + 1];
      }
      AssembledTold(fields[1..], x, y);
      assert RawOf(fields[0], x) == RawOf(fields[0], y);
    }
  }

  lemma {:induction false} NumberTold(a: seq<U32>, b: seq<U32>)
    requires |a| == |b| && Number(a) == Number(b)
    ensures a == b
  {
    if a != [] {
      NumberTold(a[1..], b[1..]);
      assert a == [a[0]] + a[1..] && b == [b[0]] + b[1..];
    }
  }

  /** Captures that look alike are of one payload. */
  lemma CapturesTold(dis: Disassembler, fields: seq<Field>, x: nat, y: nat)
    requires NoInstructions(fields) && CapturesOf(dis, fields, x) == CapturesOf(dis, fields, y)
    ensures Assembled(fields, x) == Assembled(fields, y)
  {
    forall i | 0 <= i < |fields|
      ensures RawOf(fields[i], x) == RawOf(fields[i], y)
    {
      hide ShowField, RawOf;
      assert fields[i] in fields;
      assert CapturesOf(dis, fields, x)[i] == CapturesOf(dis, fields, y)[i];
      RawTold(fields[i], RawOf(fields[i], x), RawOf(fields[i], y));
    }
    AssembledTold(fields, x, y);
  }

  lemma WordsTold(width: nat, w: map<nat, U32>, w': map<nat, U32>)
    requires PayloadComplete(Node(true, 0, width, w)) && PayloadComplete(Node(true, 0, width, w'))
    requires WordsOf(width, w) == WordsOf(width, w')
    ensures w == w'
  {
    hide Pow2;
    var n := (width + 31) / 32;
    ExactKeys(w, n);
    ExactKeys(w', n);
    forall i | 0 <= i < n
      ensures w[i] == w'[i]
    {
      assert WordsOf(width, w)[i] == WordsOf(width, w')[i];
    }
  }

  /** A map with `n` keys that has the first `n` numbers has no other. */
  lemma ExactKeys(w: map<nat, U32>, n: nat)
    requires |w| == n && forall i :: 0 <= i < n ==> i in w
    ensures forall i :: i in w <==> 0 <= i < n
  {
    SubsetOfSize(FirstOnes(n), w.Keys);
  }

  ghost function FirstOnes(n: nat): (s: set<nat>)
    ensures |s| == n && forall i :: i in s <==> 0 <= i < n
  {
    if n == 0 then {} else FirstOnes(n - 1) + {n - 1}
  }

  lemma SubsetOfSize(a: set<nat>, b: set<nat>)
    requires a <= b && |a| == |b|
    ensures a == b
  {
    assert |b - a| == |b| - |a|;
  }

  // ---------------------------------------------------------------- lists of words

  lemma NoComma(n: int)
    ensures forall i :: 0 <= i < |DecimalText(n)| ==> DecimalText(n)[i] != ','
  {
    var s := DecimalText(n);
    forall i | 0 <= i < |s|
      ensures s[i] != ','
    {
      if s[0] == '-' && 0 < i {
        assert s[i] == s[1..][i - 1] && s[i] in s[1..];
        assert IsDigit(s[i]);
      } else {
        assert s[i] in s;
      }
    }
  }

  /** The last comma of a text is no later than where a part without commas begins. */
  lemma LastComma(x: string, y: string, x': string, y': string)
    requires x + "," + y == x' + "," + y' && forall i :: 0 <= i < |y| ==> y[i] != ','
    ensures |x'| <= |x|
  {
    var s := x + "," + y;
    assert (x' + "," + y')[|x'|] == ',';
    assert forall i :: |x| < i < |s| ==> s[i] == y[i - |x| - 1];
  }

  lemma SplitAtComma(x: string, y: string, x': string, y': string)
    requires x + "," + y == x' + "," + y'
    requires (forall i :: 0 <= i < |y| ==> y[i] != ',') && (forall i :: 0 <= i < |y'| ==> y'[i] != ',')
    ensures x == x' && y == y'
  {
    LastComma(x, y, x', y');
    LastComma(x', y', x, y);
    var s, t := x + "," + y, x' + "," + y';
    assert s[..|x|] == x && t[..|x'|] == x';
    assert s[|x| + 1..] == y && t[|x'| + 1..] == y';
  }

  /** There is a comma exactly between words. */
  lemma CommaIff(a: seq<U32>)
    ensures Listed(a) == "" <==> a == []
    ensures (exists i :: 0 <= i < |Listed(a)| && Listed(a)[i] == ',') <==> |a| > 1
  {
    if a != [] {
      var last := a[|a| - 1];
      NoComma(last);
      CanonicalNarrow(DecimalText(last));
      if |a| > 1 {
        assert Listed(a)[|Listed(a[..|a| - 1])|] == ',';
      } else {
        assert Listed(a) == DecimalText(last);
      }
    }
  }

  lemma ListedLast(a: seq<U32>)
    requires a != []
    ensures Listed(a) == (if |a| == 1 then "" else Listed(a[..|a| - 1]) + ",") + DecimalText(a[|a| - 1])
  {
  }

  /** A list of words shows each of them. */
  lemma {:induction false} ListedTold(a: seq<U32>, b: seq<U32>)
    requires Listed(a) == Listed(b)
    ensures a == b
    decreases |a|
  {
    hide Listed, DecimalText, Canonical, ParseInt;
    CommaIff(a);
    CommaIff(b);
    if a != [] {
      var x, y := a[|a| - 1], b[|b| - 1];
      NoComma(x);
      NoComma(y);
      ListedLast(a);
      ListedLast(b);
      if |a| > 1 {
        SplitAtComma(Listed(a[..|a| - 1]), DecimalText(x), Listed(b[..|b| - 1]), DecimalText(y));
        ListedTold(a[..|a| - 1], b[..|b| - 1]);
      } else {
        assert "" + DecimalText(x) == DecimalText(x) && "" + DecimalText(y) == DecimalText(y);
      }
      SameNumber(x, y);
      assert a == a[..|a| - 1] + [x] && b == b[..|b| - 1] + [y];
    }
  }

  lemma SameNumber(x: int, y: int)
    requires DecimalText(x) == DecimalText(y)
    ensures x == y
  {
  }

  lemma {:induction false} ListedNarrow(words: seq<U32>)
    ensures Narrow(Listed(words))
  {
    hide DecimalText;
    if words != [] {
      ListedNarrow(words[..|words| - 1]);
      CanonicalNarrow(DecimalText(words[|words| - 1]));
    }
  }

  lemma ListTextTold(a: seq<U32>, b: seq<U32>)
    requires Ascii("[" + Listed(a) + "]") == Ascii("[" + Listed(b) + "]")
    ensures a == b
  {
    hide Ascii, Listed;
    ListedNarrow(a);
    ListedNarrow(b);
    var s, t := "[" + Listed(a) + "]", "[" + Listed(b) + "]";
    AsciiOnce(s, t);
    assert s[1..|s| - 1] == Listed(a) && t[1..|t| - 1] == Listed(b);
    ListedTold(a, b);
  }

  /** Of one site, no two payloads are shown alike. */
  lemma PayloadTold(d: Description, views: seq<View>, dis: Disassembler, site: nat, w: map<nat, U32>, w': map<nat, U32>)
    requires Viewed(d, views) && Valued(views) && Capturable(d, site, w) && Capturable(d, site, w')
    requires CaptionOf(d, views, dis)(site, w) == CaptionOf(d, views, dis)(site, w')
    ensures w == w'
  {
    hide Tiled, FieldFormed, Number, PayloadWords, CapturesOf, NameOf, PayloadComplete, NamesDiffer;
    hide AtMostOneSelected, Listed, Ascii;
    var view, width := views[site], d.widths[site];
    assert SiteViewed(d, views, site) && view in views;
    var a, b := WordsOf(width, w), WordsOf(width, w');
    match view.fields {
      case None =>
        ListTextTold(a, b);
      case Some(fields) =>
        CapturesTold(dis, fields, Number(a), Number(b));
        PayloadRecovered(fields, Node(true, 0, width, w));
        PayloadRecovered(fields, Node(true, 0, width, w'));
        NumberTold(a, b);
    }
    WordsTold(width, w, w');
  }

  // ---------------------------------------------------------------- when captions tell slices apart

  /** Two sites whose slices share a track and a role. */
  ghost predicate Rivals(d: Description, s: nat, s': nat) {
    s != s' && TrackOf(d, s) == TrackOf(d, s') && CanParent(d, s) == CanParent(d, s')
  }

  /** Slices of rival sites never look alike. */
  ghost predicate SitesTold(d: Description, views: seq<View>, dis: Disassembler) {
    forall s, s', w, w' ::
      Rivals(d, s, s') && Capturable(d, s, w) && Capturable(d, s', w') ==>
        CaptionOf(d, views, dis)(s, w) != CaptionOf(d, views, dis)(s', w')
  }

  /** Without instructions, captions tell slices apart exactly when they tell sites apart. */
  lemma ToldIff(d: Description, views: seq<View>, dis: Disassembler)
    requires Viewed(d, views) && Valued(views)
    ensures TellsApart(d, CaptionOf(d, views, dis)) <==> SitesTold(d, views, dis)
  {
    hide Viewed, Valued, CaptionOf, Capturable;
    var caption := CaptionOf(d, views, dis);
    if TellsApart(d, caption) {
      forall s, s', w, w' | Rivals(d, s, s') && Capturable(d, s, w) && Capturable(d, s', w')
        ensures caption(s, w) != caption(s', w')
      {
        var t, parent, look := TrackOf(d, s), CanParent(d, s), caption(s, w);
        assert ShownAs(d, caption, t, parent, look, s, w);
        assert caption(s', w') == look ==> ShownAs(d, caption, t, parent, look, s', w');
      }
    }
    if SitesTold(d, views, dis) {
      forall t, parent, look, s, w, s', w' |
        ShownAs(d, caption, t, parent, look, s, w) && ShownAs(d, caption, t, parent, look, s', w')
        ensures s == s' && w == w'
      {
        if s == s' {
          PayloadTold(d, views, dis, s, w, w');
        }
      }
    }
  }

  /** What the exporter shows of fields always fits its annotations. */
  lemma CaptionsPlain(d: Description, views: seq<View>, dis: Disassembler)
    ensures PlainCaptions(CaptionOf(d, views, dis))
  {
    hide LookOf, Plain;
    forall s: nat, w: map<nat, U32>
      ensures Plain(CaptionOf(d, views, dis)(s, w))
    {
      if s < |views| && s < |d.widths| {
        LookPlain(views[s], dis, WordsOf(d.widths[s], w));
      } else {
        NothingPlain();
      }
    }
  }

  lemma NothingPlain()
    ensures Plain(Look([], []))
  {
  }

  lemma LookPlain(view: View, dis: Disassembler, words: seq<U32>)
    ensures Plain(LookOf(view, dis, words))
  {
    hide CaptureOf, NameOf, Packets.Fits, Interned, Number, Listed, Ascii;
    match view.fields {
      case None =>
        WordsFit(Ascii("[" + Listed(words) + "]"));
      case Some(fields) =>
        forall i | 0 <= i < |fields|
          ensures Packets.Fits(CaptureOf(dis, fields, fields[i], Number(words)).shown)
          ensures Interned(CaptureOf(dis, fields, fields[i], Number(words)))
        {
          CapturePlain(dis, fields, fields[i], Number(words));
        }
    }
  }

  lemma CapturePlain(dis: Disassembler, fields: seq<Field>, f: Field, payload: nat)
    ensures Packets.Fits(CaptureOf(dis, fields, f, payload).shown) && Interned(CaptureOf(dis, fields, f, payload))
  {
    hide RawOf, ShowField, Assembly, Ascii;
    FieldPlain(f, RawOf(f, payload));
  }

  lemma WordsFit(text: seq<Byte>)
    ensures Packets.Fits(Packets.Words(text, true)) && Interned(Packets.Annotation(PAYLOAD, Packets.Words(text, true)))
  {
  }

  lemma FieldPlain(f: Field, raw: nat)
    requires raw < Pow2(f.width)
    ensures Packets.Fits(ShowField(f, raw)) && (ShowField(f, raw).Words? ==> ShowField(f, raw).interned)
  {
    hide Pow2;
    if 0 < f.width <= 64 {
      MachinePowers(f.width);
    } else if f.width == 0 {
      NoPower();
    }
  }

  lemma NoPower()
    ensures Pow2(0) == 1
  {
  }
}

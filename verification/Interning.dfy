/** Packets with interned strings. Each packet carries the definitions it is first to use; four
    bounded dictionaries number their strings 1, 2, 3, ... and later strings stay inline. */
module Interning {
  import opened Options
  import opened Wire

  datatype Kind = Category | Name | AnnotationName | Value

  /** The strings of each dictionary, in identifier order: entry `i` has identifier `i + 1`. */
  datatype Tables = Tables(category: seq<Text>, name: seq<Text>, annotationName: seq<Text>, value: seq<Text>) {
    ghost function Get(k: Kind): seq<Text> {
      match k
      case Category => category
      case Name => name
      case AnnotationName => annotationName
      case Value => value
    }

    ghost function Put(k: Kind, texts: seq<Text>): (t: Tables)
      ensures t.Get(k) == texts && forall j :: j != k ==> t.Get(j) == Get(j)
    {
      match k
      case Category => this.(category := texts)
      case Name => this.(name := texts)
      case AnnotationName => this.(annotationName := texts)
      case Value => this.(value := texts)
    }
  }

  ghost const NO_TABLES := Tables([], [], [], [])
  ghost const MAX_ENTRIES: nat := 4096
  ghost const MAX_LENGTH: nat := 1024
  ghost const MAX_BYTES: nat := 1024 * 1024

  ghost function Total(texts: seq<Text>): nat {
    if texts == [] then 0 else Total(texts[..|texts| - 1]) + |texts[|texts| - 1]|
  }

  ghost function IndexOf(texts: seq<Text>, t: Text): (i: nat)
    requires t in texts
    ensures i < |texts| && texts[i] == t
  {
    if texts[|texts| - 1] == t then |texts| - 1 else IndexOf(texts[..|texts| - 1], t)
  }

  ghost predicate Admits(texts: seq<Text>, t: Text) {
    |texts| < MAX_ENTRIES && |t| <= MAX_LENGTH && Total(texts) + |t| <= MAX_BYTES
  }

  ghost function TableField(k: Kind): nat {
    match k
    case Category => 1
    case Name => 2
    case AnnotationName => 3
    case Value => 29
  }

  ghost function Definition(k: Kind, iid: nat, t: Text): Field {
    BytesField(TableField(k), WriteMessage([IntField(1, iid), BytesField(2, t)]))
  }

  /** Dictionaries, and the definitions waiting for the next packet. */
  datatype Session = Session(tables: Tables, pending: seq<Field>)

  ghost function Reference(s: Session, iidField: nat, inlineField: nat, k: Kind, t: Text): (Session, Field) {
    var texts := s.tables.Get(k);
    if t in texts then
      (s, IntField(iidField, IndexOf(texts, t) + 1))
    else if !Admits(texts, t) then
      (s, BytesField(inlineField, t))
    else
      (Session(s.tables.Put(k, texts + [t]), s.pending + [Definition(k, |texts| + 1, t)]),
       IntField(iidField, |texts| + 1))
  }

  // ---------------------------------------------------------------- reading references

  ghost function ReadReference(t: Tables, iidField: nat, inlineField: nat, k: Kind, f: Field): Option<Text> {
    match f
    case IntField(number, iid) =>
      if number == iidField && 1 <= iid <= |t.Get(k)| then Some(t.Get(k)[iid - 1]) else None
    case BytesField(number, text) =>
      if number == inlineField then Some(text) else None
  }

  ghost function KindOf(table: nat): Option<Kind> {
    if table == 1 then Some(Category)
    else if table == 2 then Some(Name)
    else if table == 3 then Some(AnnotationName)
    else if table == 29 then Some(Value)
    else None
  }

  /** A reader accepts a definition only if it takes the next identifier of its dictionary. */
  ghost function Learn(t: Tables, f: Field): Option<Tables> {
    if !f.BytesField? || KindOf(f.number) == None then None else
    var k := KindOf(f.number).value;
    match ReadMessage(f.payload)
    case None => None
    case Some(entry) =>
      if |entry| == 2 && entry[0] == IntField(1, |t.Get(k)| + 1) && entry[1].BytesField? && entry[1].number == 2
      then Some(t.Put(k, t.Get(k) + [entry[1].payload]))
      else None
  }

  ghost function LearnAll(t: Tables, fs: seq<Field>): Option<Tables>
    decreases |fs|
  {
    if fs == [] then Some(t) else
    match LearnAll(t, fs[..|fs| - 1])
    case None => None
    case Some(t') => Learn(t', fs[|fs| - 1])
  }

  ghost predicate Extends(t: Tables, u: Tables) {
    t.category <= u.category && t.name <= u.name && t.annotationName <= u.annotationName && t.value <= u.value
  }

  /** The pending definitions teach a reader exactly what the session added since `t`. */
  ghost predicate Teaches(t: Tables, s: Session) {
    LearnAll(t, s.pending) == Some(s.tables) && Extends(t, s.tables)
  }

  lemma DefinitionLearned(t: Tables, k: Kind, text: Text)
    ensures Learn(t, Definition(k, |t.Get(k)| + 1, text)) == Some(t.Put(k, t.Get(k) + [text]))
  {
    MessageRoundTrip([IntField(1, |t.Get(k)| + 1), BytesField(2, text)]);
  }

  lemma ReferenceTeaches(t: Tables, s: Session, iidField: nat, inlineField: nat, k: Kind, text: Text)
    requires Teaches(t, s)
    ensures var (s', f) := Reference(s, iidField, inlineField, k, text);
      Teaches(t, s') && Extends(s.tables, s'.tables)
  {
    hide Learn, Total, IndexOf, Definition;
    var (s', f) := Reference(s, iidField, inlineField, k, text);
    if s' != s {
      DefinitionLearned(s.tables, k, text);
      assert s'.pending[..|s'.pending| - 1] == s.pending;
    }
  }

  lemma ReferenceReads(s: Session, iidField: nat, inlineField: nat, k: Kind, text: Text, u: Tables)
    requires iidField != inlineField
    requires Extends(Reference(s, iidField, inlineField, k, text).0.tables, u)
    ensures ReadReference(u, iidField, inlineField, k, Reference(s, iidField, inlineField, k, text).1) == Some(text)
  {
    hide Total, Definition;
  }

  lemma ExtendsTransitive(t: Tables, u: Tables, v: Tables)
    requires Extends(t, u) && Extends(u, v)
    ensures Extends(t, v)
  {
  }

  // ---------------------------------------------------------------- bounds

  ghost predicate Bounded(texts: seq<Text>) {
    && |texts| <= MAX_ENTRIES && Total(texts) <= MAX_BYTES
    && (forall i :: 0 <= i < |texts| ==> |texts[i]| <= MAX_LENGTH)
    && (forall i, j :: 0 <= i < j < |texts| ==> texts[i] != texts[j])
  }

  ghost predicate WithinLimits(t: Tables) {
    forall k: Kind :: Bounded(t.Get(k))
  }

  /** No reference lets a dictionary pass 4096 strings, 1 MiB of text or 1024 bytes a string, or
      number a string twice. */
  lemma ReferenceKeepsLimits(s: Session, iidField: nat, inlineField: nat, k: Kind, text: Text)
    requires WithinLimits(s.tables)
    ensures WithinLimits(Reference(s, iidField, inlineField, k, text).0.tables)
  {
    var texts := s.tables.Get(k);
    assert Bounded(texts);
    assert (texts + [text])[..|texts + [text]| - 1] == texts;
  }
}

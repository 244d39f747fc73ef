/** Interning while a batch is encoded: committed dictionaries are only read, additions are staged
    beside them, and `Commit` joins the two after successful output. */
module PendingInterns {
  import opened Collections
  import opened Wire
  import opened Interning

  datatype Dictionary = Dictionary(ids: map<Text, nat>, bytes: nat)

  const NO_DICTIONARY := Dictionary(map[], 0)

  /** `prior` holds the first strings of `texts`, `recent` the rest, each with its position as identifier. */
  ghost predicate Holds(prior: Dictionary, recent: Dictionary, texts: seq<Text>) {
    && |prior.ids| + |recent.ids| == |texts| && prior.bytes + recent.bytes == Total(texts)
    && prior.ids.Keys !! recent.ids.Keys
    && Covered(prior.ids, recent.ids, texts)
    && Numbered(prior.ids, texts) && Numbered(recent.ids, texts)
  }

  ghost predicate Covered(prior: map<Text, nat>, recent: map<Text, nat>, texts: seq<Text>) {
    forall t :: t in texts ==> t in prior || t in recent
  }

  ghost predicate Numbered(ids: map<Text, nat>, texts: seq<Text>) {
    forall t :: t in ids ==> t in texts && ids[t] == IndexOf(texts, t) + 1
  }

  lemma MergedNumbered(prior: map<Text, nat>, recent: map<Text, nat>, texts: seq<Text>)
    requires Numbered(prior, texts) && Numbered(recent, texts) && Covered(prior, recent, texts)
    ensures Numbered(prior + recent, texts) && Covered(prior + recent, map[], texts) && Numbered(map[], texts)
  {
    hide IndexOf;
  }

  lemma HoldsAppend(prior: Dictionary, recent: Dictionary, texts: seq<Text>, t: Text)
    requires Holds(prior, recent, texts) && t !in texts
    ensures Holds(prior, Dictionary(recent.ids[t := |texts| + 1], recent.bytes + |t|), texts + [t])
  {
    hide IndexOf, Total;
    AddedSize(recent.ids, t, |texts| + 1);
    TotalAppend(texts, t);
    forall u | u in texts + [t]
      ensures IndexOf(texts + [t], u) == if u == t then |texts| else IndexOf(texts, u)
    {
      IndexOfAppend(texts, t, u);
    }
  }

  lemma TotalAppend(texts: seq<Text>, t: Text)
    ensures Total(texts + [t]) == Total(texts) + |t|
  {
    assert (texts + [t])[..|texts|] == texts;
  }

  lemma IndexOfAppend(texts: seq<Text>, t: Text, u: Text)
    requires u in texts + [t] && t !in texts
    ensures IndexOf(texts + [t], u) == if u == t then |texts| else IndexOf(texts, u)
  {
    assert (texts + [t])[..|texts|] == texts;
  }

  lemma HoldsMerged(prior: Dictionary, recent: Dictionary, texts: seq<Text>)
    requires Holds(prior, recent, texts)
    ensures Holds(Dictionary(prior.ids + recent.ids, prior.bytes + recent.bytes), NO_DICTIONARY, texts)
  {
    hide Numbered, Covered, Total;
    UnionSize(prior.ids, recent.ids);
    MergedNumbered(prior.ids, recent.ids, texts);
  }

  class Interns {
    const known: map<Kind, Dictionary>
    var added: map<Kind, Dictionary>
    var pending: Text
    ghost var tables: Tables
    ghost var definitions: seq<Field>

    ghost predicate Valid()
      reads this
    {
      && (forall k: Kind :: k in known && k in added && Holds(known[k], added[k], tables.Get(k)))
      && pending == WriteMessage(definitions)
    }

    ghost function State(): Session
      reads this
    {
      Session(tables, definitions)
    }

    constructor (committed: map<Kind, Dictionary>, ghost t: Tables)
      requires forall k: Kind :: k in committed && Holds(committed[k], NO_DICTIONARY, t.Get(k))
      ensures Valid() && known == committed && State() == Session(t, [])
    {
      hide Holds;
      known := committed;
      added := map[Category := NO_DICTIONARY, Name := NO_DICTIONARY, AnnotationName := NO_DICTIONARY, Value :=
        NO_DICTIONARY];
      pending, definitions := [], [];
      tables := t;
      new;
      forall k: Kind
        ensures k in added && added[k] == NO_DICTIONARY
      {
        match k
        case Category =>
        case Name =>
        case AnnotationName =>
        case Value =>
      }
    }

    /** Appends to a message the field that stands for `value`, staging the definition it may need. */
    method Refer(message: Text, iidField: nat, inlineField: nat, kind: Kind, value: Text) returns (message': Text)
      requires Valid()
      modifies this
      ensures Valid()
      ensures State() == Reference(old(State()), iidField, inlineField, kind, value).0
      ensures message' == message + WriteField(Reference(old(State()), iidField, inlineField, kind, value).1)
    {
      hide Holds, Total, IndexOf, Definition, WriteField, WriteMessage;
      var prior, recent := known[kind], added[kind];
      ghost var texts := tables.Get(kind);
      Lookup(prior, recent, texts, value);
      if value in prior.ids {
        message' := AppendInteger(message, iidField, prior.ids[value]);
      } else if value in recent.ids {
        message' := AppendInteger(message, iidField, recent.ids[value]);
      } else if |prior.ids| + |recent.ids| >= 4096 || |value| > 1024 ||
        prior.bytes + recent.bytes + |value| > 1024 * 1024 {
        message' := AppendBytes(message, inlineField, value);
      } else {
        var iid := |prior.ids| + |recent.ids| + 1;
        Admit(kind, iid, value);
        message' := AppendInteger(message, iidField, iid);
      }
    }

    /** Stages a string as the next of its dictionary. */
    method Admit(kind: Kind, iid: nat, value: Text)
      requires Valid() && value !in tables.Get(kind) && iid == |tables.Get(kind)| + 1
      modifies this
      ensures Valid()
      ensures State() == Session(old(tables).Put(kind, old(tables).Get(kind) + [value]), old(definitions) +
        [Definition(kind, iid, value)])
    {
      hide Holds, Total, IndexOf, WriteMessage, WriteField, Definition;
      ghost var texts := tables.Get(kind);
      var prior, recent := known[kind], added[kind];
      HoldsAppend(prior, recent, texts, value);
      pending := AppendDefinition(pending, kind, iid, value);
      WriteGrows(definitions, Definition(kind, iid, value));
      added := added[kind := Dictionary(recent.ids[value := iid], recent.bytes + |value|)];
      definitions := definitions + [Definition(kind, iid, value)];
      tables := tables.Put(kind, texts + [value]);
    }

    /** The definitions go out with the next packet. */
    method TakePending() returns (taken: Text)
      requires Valid()
      modifies this
      ensures Valid() && taken == WriteMessage(old(definitions)) && State() == Session(old(tables), [])
    {
      taken := pending;
      pending, definitions := [], [];
    }

    method Commit() returns (committed: map<Kind, Dictionary>)
      requires Valid()
      ensures forall k: Kind :: k in committed && Holds(committed[k], NO_DICTIONARY, tables.Get(k))
    {
      committed := map k: Kind | k in known && k in added ::
        Dictionary(known[k].ids + added[k].ids, known[k].bytes + added[k].bytes);
      forall k: Kind
        ensures Holds(committed[k], NO_DICTIONARY, tables.Get(k))
      {
        HoldsMerged(known[k], added[k], tables.Get(k));
      }
    }
  }

  method AppendDefinition(out: Text, kind: Kind, iid: nat, value: Text) returns (out': Text)
    ensures out' == out + WriteField(Definition(kind, iid, value))
  {
    hide WriteField;
    WriteGrows([IntField(1, iid)], BytesField(2, value));
    WriteOne(IntField(1, iid));
    assert [IntField(1, iid)] + [BytesField(2, value)] == [IntField(1, iid), BytesField(2, value)];
    hide WriteMessage;
    var entry := AppendInteger([], 1, iid);
    assert entry == WriteField(IntField(1, iid));
    entry := AppendBytes(entry, 2, value);
    var table := match kind case Category => 1 case Name => 2 case AnnotationName => 3 case Value => 29;
    out' := AppendBytes(out, table, entry);
  }

  lemma Lookup(prior: Dictionary, recent: Dictionary, texts: seq<Text>, t: Text)
    requires Holds(prior, recent, texts)
    ensures |prior.ids| + |recent.ids| == |texts| && prior.bytes + recent.bytes == Total(texts)
    ensures t in texts <==> t in prior.ids || t in recent.ids
    ensures t in prior.ids && t in texts ==> prior.ids[t] == IndexOf(texts, t) + 1
    ensures t in recent.ids && t in texts ==> recent.ids[t] == IndexOf(texts, t) + 1
  {
  }
}

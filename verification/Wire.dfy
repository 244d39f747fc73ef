/** The protobuf wire format the exporter writes: base-128 varints, and messages whose fields are
    varints or length-delimited bytes. Every writer here is inverted by a reader. */
module Wire {
  import opened Collections
  import opened Options
  import opened Machine

  type Text = seq<Byte>

  // ---------------------------------------------------------------- varints

  ghost function Varint(n: nat): (s: Text)
    ensures s != []
  {
    if n < 128 then [n] else [n % 128 + 128] + Varint(n / 128)
  }

  ghost function ReadVarint(s: Text): (r: Option<(nat, Text)>)
    ensures r.Some? ==> |r.value.1| < |s|
  {
    if s == [] then None
    else if s[0] < 128 then Some((s[0], s[1..]))
    else
      match ReadVarint(s[1..])
      case None => None
      case Some((high, rest)) => Some((s[0] - 128 + 128 * high, rest))
  }

  lemma {:induction false} VarintRoundTrip(n: nat, rest: Text)
    ensures ReadVarint(Varint(n) + rest) == Some((n, rest))
  {
    var s := Varint(n) + rest;
    if n < 128 {
      assert s == [n] + rest && s[1..] == rest;
    } else {
      VarintRoundTrip(n / 128, rest);
      assert s[1..] == Varint(n / 128) + rest;
    }
  }

  /** Appends the groups of `n`, seven bits at a time, low group first. */
  method AppendVarint(out: Text, n: nat) returns (out': Text)
    ensures out' == out + Varint(n)
  {
    out' := out;
    var left: nat := n;
    while left >= 128
      invariant out' + Varint(left) == out + Varint(n)
    {
      VarintGroup(out', left);
      out' := out' + [left % 128 + 128];
      left := left / 128;
    }
    out' := out' + [left];
  }

  lemma VarintGroup(out: Text, n: nat)
    requires 128 <= n
    ensures out + Varint(n) == (out + [n % 128 + 128]) + Varint(n / 128)
  {
  }

  // ---------------------------------------------------------------- messages

  datatype Field =
    | IntField(number: nat, value: nat)
    | BytesField(number: nat, payload: Text)

  /** The key is the field number and, in its low three bits, the wire type. */
  ghost function WriteField(f: Field): (s: Text)
    ensures s != []
  {
    match f
    case IntField(number, value) => Varint(number * 8) + Varint(value)
    case BytesField(number, payload) => Varint(number * 8 + 2) + Varint(|payload|) + payload
  }

  ghost function ReadField(s: Text): (r: Option<(Field, Text)>)
    ensures r.Some? ==> |r.value.1| < |s|
  {
    match ReadVarint(s)
    case None => None
    case Some((key, rest)) =>
      match ReadVarint(rest)
      case None => None
      case Some((value, rest')) =>
        if key % 8 == 0 then Some((IntField(key / 8, value), rest'))
        else if key % 8 == 2 && value <= |rest'| then Some((BytesField(key / 8, rest'[..value]), rest'[value..]))
        else None
  }

  lemma IntFieldRoundTrip(number: nat, value: nat, rest: Text)
    ensures ReadField(WriteField(IntField(number, value)) + rest) == Some((IntField(number, value), rest))
  {
    hide Varint, ReadVarint;
    Associate(Varint(number * 8), Varint(value), rest);
    VarintRoundTrip(number * 8, Varint(value) + rest);
    VarintRoundTrip(value, rest);
  }

  lemma BytesFieldRoundTrip(number: nat, payload: Text, rest: Text)
    ensures ReadField(WriteField(BytesField(number, payload)) + rest) == Some((BytesField(number, payload), rest))
  {
    hide Varint, ReadVarint;
    var tail := payload + rest;
    Associate(Varint(number * 8 + 2) + Varint(|payload|), payload, rest);
    Associate(Varint(number * 8 + 2), Varint(|payload|), tail);
    VarintRoundTrip(number * 8 + 2, Varint(|payload|) + tail);
    VarintRoundTrip(|payload|, tail);
    Divide(payload, rest);
  }

  lemma FieldRoundTrip(f: Field, rest: Text)
    ensures ReadField(WriteField(f) + rest) == Some((f, rest))
  {
    match f
    case IntField(number, value) => IntFieldRoundTrip(number, value, rest);
    case BytesField(number, payload) => BytesFieldRoundTrip(number, payload, rest);
  }

  ghost function WriteMessage(fs: seq<Field>): Text {
    if fs == [] then [] else WriteField(fs[0]) + WriteMessage(fs[1..])
  }

  ghost function ReadMessage(s: Text): Option<seq<Field>>
    decreases |s|
  {
    if s == [] then Some([]) else
    match ReadField(s)
    case None => None
    case Some((f, rest)) =>
      match ReadMessage(rest)
      case None => None
      case Some(fs) => Some([f] + fs)
  }

  /** What was written is what is read, field by field, whatever the payloads contain. */
  lemma {:induction false} MessageRoundTrip(fs: seq<Field>)
    ensures ReadMessage(WriteMessage(fs)) == Some(fs)
    decreases |fs|
  {
    hide ReadField, WriteField;
    if fs != [] {
      MessageRoundTrip(fs[1..]);
      FieldRoundTrip(fs[0], WriteMessage(fs[1..]));
      assert [fs[0]] + fs[1..] == fs;
    }
  }

  lemma {:induction false} WriteConcat(a: seq<Field>, b: seq<Field>)
    ensures WriteMessage(a + b) == WriteMessage(a) + WriteMessage(b)
    decreases |a|
  {
    hide WriteField;
    if a == [] {
      assert a + b == b;
    } else {
      WriteConcat(a[1..], b);
      assert (a + b)[0] == a[0] && (a + b)[1..] == a[1..] + b;
      Associate(WriteField(a[0]), WriteMessage(a[1..]), WriteMessage(b));
    }
  }

  // ---------------------------------------------------------------- appending to a message

  /** Appends an integer field: its key, then its value. */
  method AppendInteger(out: Text, number: nat, value: nat) returns (out': Text)
    ensures out' == out + WriteField(IntField(number, value))
  {
    out' := AppendVarint(out, number * 8);
    out' := AppendVarint(out', value);
    Associate(out, Varint(number * 8), Varint(value));
  }

  /** Appends a bytes field: its key, the length, then the bytes. */
  method AppendBytes(out: Text, number: nat, value: Text) returns (out': Text)
    ensures out' == out + WriteField(BytesField(number, value))
  {
    out' := AppendVarint(out, number * 8 + 2);
    out' := AppendVarint(out', |value|);
    out' := out' + value;
    Associate(out, Varint(number * 8 + 2), Varint(|value|));
    Associate(out, Varint(number * 8 + 2) + Varint(|value|), value);
  }

  lemma WriteOne(f: Field)
    ensures WriteMessage([f]) == WriteField(f)
  {
    assert [f][1..] == [];
    assert WriteField(f) + [] == WriteField(f);
  }

  /** A message grows by a field. */
  lemma WriteGrows(fs: seq<Field>, f: Field)
    ensures WriteMessage(fs + [f]) == WriteMessage(fs) + WriteField(f)
  {
    hide WriteField;
    WriteConcat(fs, [f]);
    WriteOne(f);
  }
}

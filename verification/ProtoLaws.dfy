/** The laws of the message codec: size, round trip, merge, and what an older reader sees. */
module ProtoLaws {
  import opened Bytes
  import opened ProtoWire
  import opened ProtoMessage

  ghost predicate FieldsFit(fields: Schema) {
    forall field | field in fields :: FieldOk(field)
  }

  // ---------------------------------------------------------------- ByteSize

  /** The serialized length is ByteSize, recursively, while it fits the C++ int that counts it. */
  lemma {:induction false} SizeIsLength(fields: Schema, m: Message)
    requires FieldsFit(fields) && FieldsOk(fields, m) && ByteSize(fields, m) < TWO_31
    ensures |Serialize(fields, m)| == ByteSize(fields, m)
    decreases fields, 0
  {
    if fields != [] {
      assert fields[0] in fields;
      if fields[0].number in m {
        ValueSizeIsLength(fields[0], m[fields[0].number]);
      }
      SizeIsLength(fields[1..], m);
    }
  }

  lemma {:induction false} ValueSizeIsLength(field: Field, v: Value)
    requires FieldOk(field) && ValueOk(field, v) && SizeOfValue(field, v) < TWO_31
    ensures |EncodeValue(field, v)| == SizeOfValue(field, v)
    decreases field, 1
  {
    match field.kind
    case Text => VarintSizeIsLength(|v.s|);
    case Nested(sub) =>
      SizeIsLength(sub, v.m);
      VarintSizeIsLength(ByteSize(sub, v.m));
    case _ =>
      NumberRoundTrip(field.kind, v.i);
      VarintSizeIsLength(ToWire(v.i));
  }

  lemma NumberRoundTrip(kind: Kind, i: int)
    requires IsScalar(kind) && NumberOk(kind, i)
    requires kind.Enum? ==> IsInt32(i)
    ensures -TWO_63 <= i && ToWire(i) < TWO_64 && FromWire(kind, ToWire(i)) == i
  {
  }

  // ---------------------------------------------------------------- parsing what was serialized

  lemma {:induction false} CaseOfField(schema: Schema, k: nat)
    requires k < |schema| && forall i, j | 0 <= i < j < |schema| :: schema[i].number < schema[j].number
    ensures CaseOf(schema, schema[k].number) == k
  {
    if k > 0 {
      assert schema[0].number < schema[k].number;
      CaseOfField(schema[1..], k - 1);
    }
  }

  lemma {:induction false} CaseOfUnknown(schema: Schema, number: nat)
    requires forall field | field in schema :: field.number != number
    ensures CaseOf(schema, number) == |schema|
  {
    if schema != [] {
      assert schema[0] in schema;
      CaseOfUnknown(schema[1..], number);
    }
  }

  lemma {:induction false} DepthOfField(schema: Schema, field: Field)
    requires field in schema
    ensures FieldDepth(field) <= Depth(schema)
  {
    if schema[0] != field {
      DepthOfField(schema[1..], field);
    }
  }

  lemma ReadOneByteTag(t: byte, rest: seq<byte>)
    requires 0 < t < 0x80
    ensures ReadTag([t] + rest) == Read(t as nat, rest)
  {
    assert Varint(t as nat) == [t];
    VarintRoundTrip(t as nat, rest);
  }

  lemma ReadText(field: Field, a: Message, text: seq<byte>, rest: seq<byte>, depth: nat)
    requires field.kind.Text? && |text| < TWO_31
    ensures ReadField(field, a, Varint(|text|) + text + rest, depth)
            == FieldRead(true, a[field.number := Str(text)], rest)
  {
    assert Varint(|text|) + text + rest == Varint(|text|) + (text + rest);
    VarintRoundTrip(|text|, text + rest);
    assert (text + rest)[..|text|] == text && (text + rest)[|text|..] == rest;
  }

  lemma ReadNumber(field: Field, a: Message, i: int, rest: seq<byte>, depth: nat)
    requires FieldOk(field) && IsScalar(field.kind) && NumberOk(field.kind, i)
    ensures ReadField(field, a, Varint(ToWire(i)) + rest, depth)
            == FieldRead(true, a[field.number := Num(i)], rest)
  {
    NumberRoundTrip(field.kind, i);
    VarintRoundTrip(ToWire(i), rest);
  }

  lemma ReadNested(field: Field, a: Message, bytes: seq<byte>, merged: Message, rest: seq<byte>, depth: nat)
    requires field.kind.Nested? && |bytes| < TWO_31 && depth > 0
    requires ParseLoop(field.kind.schema, Present(a, field.number), bytes, depth - 1) == Parsed(true, true, merged, [])
    ensures ReadField(field, a, Varint(|bytes|) + (bytes + rest), depth)
            == FieldRead(true, a[field.number := Sub(merged)], rest)
  {
    VarintRoundTrip(|bytes|, bytes + rest);
    assert Limited(bytes + rest, |bytes|) == bytes && (bytes + rest)[|bytes|..] == rest;
  }

  lemma EncodedNested(field: Field, m: Message, rest: seq<byte>)
    requires field.kind.Nested? && |Serialize(field.kind.schema, m)| == ByteSize(field.kind.schema, m)
    ensures var bytes := Serialize(field.kind.schema, m);
            EncodeValue(field, Sub(m)) + rest == Varint(|bytes|) + (bytes + rest)
  {
  }

  lemma ReadWholeNested(field: Field, a: Message, m: Message, rest: seq<byte>, depth: nat)
    requires field.kind.Nested? && depth > 0
    requires |Serialize(field.kind.schema, m)| == ByteSize(field.kind.schema, m) < TWO_31
    ensures var sub, present := field.kind.schema, Present(a, field.number);
            ParseLoop(sub, present, Serialize(sub, m), depth - 1)
            == Parsed(true, true, MergeFrom(sub, present, m), [])
            ==> ReadField(field, a, EncodeValue(field, Sub(m)) + rest, depth)
                == FieldRead(true, a[field.number := MergeValue(field, a, Sub(m))], rest)
  {
    EncodedNested(field, m, rest);
    var sub, present := field.kind.schema, Present(a, field.number);
    var bytes, merged := Serialize(sub, m), MergeFrom(sub, present, m);
    if ParseLoop(sub, present, bytes, depth - 1) == Parsed(true, true, merged, []) {
      ReadNested(field, a, bytes, merged, rest, depth);
    }
  }

  lemma {:induction false} ReadEncodedNested(field: Field, a: Message, m: Message, rest: seq<byte>, depth: nat)
    requires field.kind.Nested? && SchemaOk(field.kind.schema) && FieldsOk(field.kind.schema, m)
    requires ByteSize(field.kind.schema, m) < TWO_31 && 1 + Depth(field.kind.schema) <= depth
    ensures ReadField(field, a, EncodeValue(field, Sub(m)) + rest, depth)
            == FieldRead(true, a[field.number := MergeValue(field, a, Sub(m))], rest)
    decreases field, 1, 0
  {
    hide ParseLoop, ReadField;
    match field.kind
    case Nested(sub) =>
      SizeIsLength(sub, m);
      ParseIsMerge(sub, Present(a, field.number), m, depth - 1);
      ReadWholeNested(field, a, m, rest, depth);
  }

  /** Parsing serialize(b) into a is MergeFrom(a, b), recursively through nested messages. */
  lemma {:induction false} ParseIsMerge(schema: Schema, a: Message, b: Message, depth: nat)
    requires SchemaOk(schema) && FieldsOk(schema, b) && ByteSize(schema, b) < TWO_31 && Depth(schema) <= depth
    ensures ParseLoop(schema, a, Serialize(schema, b), depth) == Parsed(true, true, MergeFrom(schema, a, b), [])
    decreases schema, 1, 0
  {
    KnownOfSelf(schema, schema);
    CompatibleWithSelf(schema);
    ParseSerialized(schema, schema, a, b, [], depth);
    assert Serialize(schema, b) + [] == Serialize(schema, b);
    LoopAtEnd(schema, MergeFrom(schema, a, b), depth);
  }

  /** One case of the switch reads back an encoded value and merges it into the field. */
  lemma {:induction false} ReadEncoded(field: Field, a: Message, v: Value, rest: seq<byte>, depth: nat)
    requires FieldOk(field) && ValueOk(field, v) && SizeOfValue(field, v) < TWO_31
    requires FieldDepth(field) <= depth
    ensures ReadField(field, a, EncodeValue(field, v) + rest, depth)
            == FieldRead(true, a[field.number := MergeValue(field, a, v)], rest)
    decreases field, 2, 0
  {
    match field.kind
    case Text => ReadText(field, a, v.s, rest, depth);
    case Nested(_) => ReadEncodedNested(field, a, v.m, rest, depth);
    case _ => ReadNumber(field, a, v.i, rest, depth);
  }

  /** The fields of a writer's type that a reader's type knows. */
  function Known(reader: Schema, fields: Schema): (r: Schema) {
    if fields == [] then []
    else if fields[0] in reader then [fields[0]] + Known(reader, fields[1..])
    else Known(reader, fields[1..])
  }

  lemma {:induction false} KnownOfSelf(reader: Schema, fields: Schema)
    requires forall field | field in fields :: field in reader
    ensures Known(reader, fields) == fields
  {
    if fields != [] {
      assert fields[0] in fields;
      KnownOfSelf(reader, fields[1..]);
    }
  }

  /** A newer writer: every field is either declared alike by the reader or has a number it does not use. */
  ghost predicate Compatible(reader: Schema, fields: Schema) {
    forall field, own | field in fields && own in reader && own.number == field.number :: own == field
  }

  lemma CompatibleWithSelf(schema: Schema)
    requires SchemaOk(schema)
    ensures FieldsFit(schema) && Compatible(schema, schema)
  {
    forall field, own | field in schema && own in schema && own.number == field.number ensures own == field {
      var i :| 0 <= i < |schema| && schema[i] == field;
      var j :| 0 <= j < |schema| && schema[j] == own;
    }
  }

  lemma SkipLengthDelimited(x: seq<byte>, tag: nat, rest: seq<byte>, depth: nat)
    requires tag % 8 == WIRE_LENGTH && |x| < TWO_31
    ensures SkipField(Varint(|x|) + (x + rest), tag, depth) == Some(rest)
  {
    VarintRoundTrip(|x|, x + rest);
    assert (x + rest)[|x|..] == rest;
  }

  lemma SkipNumber(w: nat, tag: nat, rest: seq<byte>, depth: nat)
    requires tag % 8 == WIRE_VARINT && w < TWO_64
    ensures SkipField(Varint(w) + rest, tag, depth) == Some(rest)
  {
    VarintRoundTrip(w, rest);
  }

  /** An unknown field is skipped whole. */
  lemma SkipUnknown(field: Field, v: Value, rest: seq<byte>, depth: nat)
    requires FieldOk(field) && ValueOk(field, v) && SizeOfValue(field, v) < TWO_31
    ensures SkipField(EncodeValue(field, v) + rest, Tag(field), depth) == Some(rest)
  {
    TagParts(field);
    match field.kind
    case Text =>
      assert EncodeValue(field, v) + rest == Varint(|v.s|) + (v.s + rest);
      SkipLengthDelimited(v.s, Tag(field), rest, depth);
    case Nested(sub) =>
      SizeIsLength(sub, v.m);
      EncodedNested(field, v.m, rest);
      SkipLengthDelimited(Serialize(sub, v.m), Tag(field), rest, depth);
    case _ =>
      NumberRoundTrip(field.kind, v.i);
      SkipNumber(ToWire(v.i), Tag(field), rest, depth);
  }

  lemma TagParts(f: Field)
    requires FieldOk(f)
    ensures 0 < Tag(f) < 0x80 && Tag(f) / 8 == f.number && Tag(f) % 8 == WireType(f.kind)
  {
  }

  /** One turn of the loop on a field of its own. */
  lemma LoopTurn(schema: Schema, i: nat, m: Message, s: seq<byte>, depth: nat)
    requires i < |schema| && ReadTag(s).value != 0
    requires CaseOf(schema, ReadTag(s).value / 8) == i && ReadTag(s).value % 8 == WireType(schema[i].kind)
    ensures var f := ReadField(schema[i], m, ReadTag(s).rest, depth);
            ParseLoop(schema, m, s, depth)
            == if f.ok then ParseLoop(schema, f.m, f.rest, depth) else Parsed(false, false, f.m, f.rest)
  {
  }

  /** At the limit the loop ends, legitimately. */
  lemma LoopAtEnd(schema: Schema, m: Message, depth: nat)
    ensures ParseLoop(schema, m, [], depth) == Parsed(true, true, m, [])
  {
  }

  lemma LoopOnField(reader: Schema, f: Field, a: Message, s: seq<byte>, a': Message, rest: seq<byte>, depth: nat)
    requires SchemaOk(reader) && f in reader && FieldOk(f)
    requires ReadField(f, a, s, depth) == FieldRead(true, a', rest)
    ensures ParseLoop(reader, a, [Tag(f) as byte] + s, depth) == ParseLoop(reader, a', rest, depth)
  {
    TagParts(f);
    ReadOneByteTag(Tag(f) as byte, s);
    var k :| 0 <= k < |reader| && reader[k] == f;
    CaseOfField(reader, k);
    LoopTurn(reader, k, a, [Tag(f) as byte] + s, depth);
  }

  lemma LoopOnUnknown(reader: Schema, f: Field, a: Message, s: seq<byte>, rest: seq<byte>, depth: nat)
    requires FieldOk(f) && forall own | own in reader :: own.number != f.number
    requires SkipField(s, Tag(f), depth) == Some(rest)
    ensures ParseLoop(reader, a, [Tag(f) as byte] + s, depth) == ParseLoop(reader, a, rest, depth)
  {
    TagParts(f);
    ReadOneByteTag(Tag(f) as byte, s);
    CaseOfUnknown(reader, f.number);
  }

  lemma Regroup(a: seq<byte>, b: seq<byte>, c: seq<byte>, d: seq<byte>)
    ensures a + b + c + d == a + (b + (c + d))
  {
  }

  lemma SerializeFirst(fields: Schema, b: Message, tail: seq<byte>)
    requires fields != [] && FieldOk(fields[0])
    ensures var more := Serialize(fields[1..], b) + tail;
            Serialize(fields, b) + tail
            == if fields[0].number in b
               then [Tag(fields[0]) as byte] + (EncodeValue(fields[0], b[fields[0].number]) + more)
               else more
  {
    hide EncodeValue;
    if fields[0].number in b {
      var t, e, r := [Tag(fields[0]) as byte], EncodeValue(fields[0], b[fields[0].number]), Serialize(fields[1..], b);
      assert Serialize(fields, b) == t + e + r;
      hide Serialize;
      Regroup(t, e, r, tail);
    } else {
      assert Serialize(fields, b) == [] + Serialize(fields[1..], b) == Serialize(fields[1..], b);
    }
  }

  /**
   * Parsing serialized fields, with anything behind them, merges the known ones into the message and
   * goes on with what is behind.
   */
  lemma {:induction false} ParseSerialized(reader: Schema, fields: Schema, a: Message, b: Message,
                                           tail: seq<byte>, depth: nat)
    requires SchemaOk(reader) && FieldsFit(fields) && Compatible(reader, fields)
    requires FieldsOk(fields, b) && ByteSize(fields, b) < TWO_31 && Depth(reader) <= depth
    ensures ParseLoop(reader, a, Serialize(fields, b) + tail, depth)
            == ParseLoop(reader, MergeFrom(Known(reader, fields), a, b), tail, depth)
    decreases fields, 0, |fields|
  {
    if fields == [] {
      assert Serialize(fields, b) + tail == tail;
    } else {
      var f, more := fields[0], fields[1..];
      assert f in fields;
      SerializeFirst(fields, b, tail);
      if f.number !in b {
        ParseSerialized(reader, more, a, b, tail, depth);
      } else {
        var v, rest := b[f.number], Serialize(more, b) + tail;
        if f in reader {
          var a' := a[f.number := MergeValue(f, a, v)];
          DepthOfField(reader, f);
          ReadEncoded(f, a, v, rest, depth);
          LoopOnField(reader, f, a, EncodeValue(f, v) + rest, a', rest, depth);
          ParseSerialized(reader, more, a', b, tail, depth);
        } else {
          SkipUnknown(f, v, rest, depth);
          LoopOnUnknown(reader, f, a, EncodeValue(f, v) + rest, rest, depth);
          ParseSerialized(reader, more, a, b, tail, depth);
        }
      }
    }
  }

  // ---------------------------------------------------------------- what merging means

  ghost predicate Ascending(fields: Schema) {
    forall i, j | 0 <= i < j < |fields| :: fields[i].number < fields[j].number
  }

  lemma {:induction false} MergeOfOther(fields: Schema, a: Message, from: Message, n: nat)
    requires forall f | f in fields :: f.number != n
    ensures var r := MergeFrom(fields, a, from);
            (n in r <==> n in a) && (n in a ==> r[n] == a[n])
    decreases |fields|
  {
    if fields != [] {
      var h := fields[0];
      assert h in fields;
      var a' := if h.number in from then a[h.number := MergeValue(h, a, from[h.number])] else a;
      MergeOfOther(fields[1..], a', from, n);
    }
  }

  /** Field by field: set in `from`, the field takes its value (merged if nested); otherwise it is kept. */
  lemma {:induction false} MergeOfField(fields: Schema, a: Message, from: Message, f: Field)
    requires Ascending(fields) && f in fields
    ensures var r := MergeFrom(fields, a, from);
            if f.number in from then f.number in r && r[f.number] == MergeValue(f, a, from[f.number])
            else (f.number in r <==> f.number in a) && (f.number in a ==> r[f.number] == a[f.number])
    decreases |fields|
  {
    var h := fields[0];
    var a' := if h.number in from then a[h.number := MergeValue(h, a, from[h.number])] else a;
    if f == h {
      MergeOfOther(fields[1..], a', from, h.number);
    } else {
      MergeOfField(fields[1..], a', from, f);
      assert Present(a', f.number) == Present(a, f.number);
    }
  }

  lemma FieldWithNumber(fields: Schema, n: nat) returns (f: Field)
    requires n in Numbers(fields)
    ensures f in fields && f.number == n
  {
    var i :| 0 <= i < |fields| && fields[i].number == n;
    f := fields[i];
  }

  lemma {:induction false} FieldValueOk(fields: Schema, m: Message, f: Field)
    requires FieldsOk(fields, m) && f in fields && f.number in m
    ensures ValueOk(f, m[f.number])
  {
    if f != fields[0] {
      FieldValueOk(fields[1..], m, f);
    }
  }

  /** Merging into an empty message copies. */
  lemma {:induction false} MergeIntoEmpty(schema: Schema, b: Message)
    requires SchemaOk(schema) && MessageOk(schema, b)
    ensures MergeFrom(schema, map[], b) == b
    decreases schema, 0
  {
    var r := MergeFrom(schema, map[], b);
    forall n: nat
      ensures (n in r <==> n in b) && (n in b ==> r[n] == b[n])
    {
      if n in Numbers(schema) {
        var f := FieldWithNumber(schema, n);
        MergeOfField(schema, map[], b, f);
        if n in b {
          FieldValueOk(schema, b, f);
          ValueIntoEmpty(f, b[n]);
        }
      } else {
        MergeOfOther(schema, map[], b, n);
      }
    }
  }

  lemma {:induction false} ValueIntoEmpty(f: Field, v: Value)
    requires FieldOk(f) && ValueOk(f, v)
    ensures MergeValue(f, map[], v) == v
    decreases f, 1
  {
    match f.kind
    case Nested(sub) => MergeIntoEmpty(sub, v.m);
    case _ =>
  }

  /**
   * Round trip: parsing the serialized form of a well-typed message into an empty one gives it back,
   * and ParseFromArray accepts it exactly if all its required fields are set.
   */
  lemma RoundTrip(schema: Schema, b: Message)
    requires SchemaOk(schema) && MessageOk(schema, b)
    requires ByteSize(schema, b) < TWO_31 && Depth(schema) <= RECURSION_LIMIT
    ensures ParseFromArray(schema, Serialize(schema, b)) == FromArray(IsInitialized(schema, b), b)
  {
    ParseIsMerge(schema, map[], b, RECURSION_LIMIT);
    MergeIntoEmpty(schema, b);
  }

  /**
   * A reader whose type lacks some of the writer's fields reads the ones it has and skips the others.
   */
  lemma OlderReader(reader: Schema, writer: Schema, a: Message, b: Message, depth: nat)
    requires SchemaOk(reader) && SchemaOk(writer) && Compatible(reader, writer)
    requires MessageOk(writer, b) && ByteSize(writer, b) < TWO_31 && Depth(reader) <= depth
    ensures ParseLoop(reader, a, Serialize(writer, b), depth)
            == Parsed(true, true, MergeFrom(Known(reader, writer), a, b), [])
  {
    ParseSerialized(reader, writer, a, b, [], depth);
    assert Serialize(writer, b) + [] == Serialize(writer, b);
  }

  // ---------------------------------------------------------------- concatenation ("Last One Wins")

  lemma {:induction false} EmptyOk(fields: Schema)
    ensures FieldsOk(fields, map[])
  {
    if fields != [] {
      EmptyOk(fields[1..]);
    }
  }

  /** Merging is associative, nested messages included. */
  lemma {:induction false} MergeAssociative(schema: Schema, a: Message, b: Message, c: Message)
    requires SchemaOk(schema) && MessageOk(schema, a) && MessageOk(schema, b) && MessageOk(schema, c)
    ensures MergeFrom(schema, MergeFrom(schema, a, b), c) == MergeFrom(schema, a, MergeFrom(schema, b, c))
    decreases schema, 0
  {
    var ab, bc := MergeFrom(schema, a, b), MergeFrom(schema, b, c);
    var l, r := MergeFrom(schema, ab, c), MergeFrom(schema, a, bc);
    forall n: nat
      ensures (n in l <==> n in r) && (n in l ==> l[n] == r[n])
    {
      if n in Numbers(schema) {
        var f := FieldWithNumber(schema, n);
        assert FieldOk(f);
        MergeOfField(schema, a, b, f);
        MergeOfField(schema, b, c, f);
        MergeOfField(schema, ab, c, f);
        MergeOfField(schema, a, bc, f);
        if n in a { FieldValueOk(schema, a, f); }
        if n in b { FieldValueOk(schema, b, f); }
        if n in c {
          FieldValueOk(schema, c, f);
          ValueAssociative(f, a, b, c, ab);
        }
      } else {
        MergeOfOther(schema, a, b, n);
        MergeOfOther(schema, b, c, n);
        MergeOfOther(schema, ab, c, n);
        MergeOfOther(schema, a, bc, n);
      }
    }
    assert l.Keys == r.Keys;
  }

  ghost predicate MemberOk(f: Field, m: Message) {
    f.number in m ==> ValueOk(f, m[f.number])
  }

  lemma {:induction false} ValueAssociative(f: Field, a: Message, b: Message, c: Message, ab: Message)
    requires FieldOk(f) && MemberOk(f, a) && MemberOk(f, b) && f.number in c && ValueOk(f, c[f.number])
    requires if f.number in b then f.number in ab && ab[f.number] == MergeValue(f, a, b[f.number])
             else Present(ab, f.number) == Present(a, f.number)
    ensures MergeValue(f, ab, c[f.number]) == MergeValue(f, a, MergeValue(f, b, c[f.number]))
    decreases f, 1
  {
    var n := f.number;
    match f.kind
    case Nested(sub) =>
      if n in b {
        EmptyOk(sub);
        MergeAssociative(sub, Present(a, n), b[n].m, c[n].m);
      } else {
        MergeIntoEmpty(sub, c[n].m);
      }
    case _ =>
  }

  /** Parsing two serialized messages one behind the other gives the merge of the two. */
  lemma ParseConcatenation(schema: Schema, b: Message, c: Message, depth: nat)
    requires SchemaOk(schema) && MessageOk(schema, b) && MessageOk(schema, c) && Depth(schema) <= depth
    requires ByteSize(schema, b) < TWO_31 && ByteSize(schema, c) < TWO_31
    ensures ParseLoop(schema, map[], Serialize(schema, b) + Serialize(schema, c), depth)
            == Parsed(true, true, MergeFrom(schema, b, c), [])
  {
    KnownOfSelf(schema, schema);
    CompatibleWithSelf(schema);
    ParseSerialized(schema, schema, map[], b, Serialize(schema, c), depth);
    MergeIntoEmpty(schema, b);
    ParseIsMerge(schema, b, c, depth);
  }

  /** IsInitialized: every required field is set, and every nested message that is set is initialized. */
  lemma {:induction false} InitializedMeans(fields: Schema, m: Message)
    ensures IsInitialized(fields, m)
            <==> (forall f | f in fields && f.required :: f.number in m)
                 && (forall f | f in fields && f.number in m && f.kind.Nested? && m[f.number].Sub? ::
                       IsInitialized(f.kind.schema, m[f.number].m))
    decreases |fields|
  {
    if fields != [] {
      var f, rest := fields[0], fields[1..];
      InitializedMeans(rest, m);
      assert forall g | g in fields :: g == f || g in rest;
    }
  }
}

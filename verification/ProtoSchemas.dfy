/** The generated messages of the call protocol and the packet header, field by field. */
module ProtoSchemas {
  import opened Bytes
  import opened ProtoWire
  import opened ProtoMessage
  import opened ProtoLaws

  const PUSH_SERVICE_CONFIG: Schema := [
    Field(1, false, Bool), Field(2, false, Bool), Field(3, false, Int32), Field(4, false, Int32),
    Field(5, false, Int32)]

  const STREAM_CONFIG: Schema := [
    Field(1, true, Enum({1, 2})), Field(2, false, UInt32), Field(3, false, UInt32), Field(4, false, Bool)]

  const BIND_RELAY_REQUEST: Schema := [
    Field(1, true, UInt64), Field(2, true, Text), Field(3, false, Text), Field(4, false, Int32),
    Field(5, false, Text), Field(6, false, Nested(STREAM_CONFIG)), Field(7, false, Nested(STREAM_CONFIG)),
    Field(8, false, Nested(STREAM_CONFIG))]

  const BURROW_PACKET: Schema := [
    Field(1, true, UInt64), Field(2, true, Text), Field(3, true, UInt64), Field(4, true, UInt64),
    Field(5, true, Enum({1, 2, 3, 4}))]

  const ROUTER_PACKET: Schema := [
    Field(1, true, UInt64), Field(2, false, UInt64), Field(3, false, Text), Field(4, false, UInt64),
    Field(5, false, Text), Field(6, false, UInt64), Field(7, false, Enum({1, 2, 3, 4})),
    Field(8, false, Text), Field(9, false, Int64), Field(10, false, Text)]

  const USER_PACKET: Schema := [
    Field(1, false, UInt32), Field(2, true, Enum({1, 2, 3, 4, 5, 6, 7, 8, 9, 10, 11, 12})),
    Field(3, true, UInt64), Field(4, true, Text), Field(5, false, UInt64), Field(6, false, Text),
    Field(7, false, Int64), Field(8, false, Text)]

  const CLIENT_HEADER: Schema := [
    Field(1, false, Int32), Field(2, false, Int64), Field(3, false, Text), Field(4, false, Text),
    Field(5, false, Text), Field(6, false, Text), Field(7, false, Text),
    Field(8, false, Enum({1, 2, 3, 4, 5, 6})), Field(9, false, Int32), Field(10, false, Int32),
    Field(11, false, Text)]

  const CALL_MESSAGES: set<Schema> := {
    PUSH_SERVICE_CONFIG, STREAM_CONFIG, BIND_RELAY_REQUEST, BURROW_PACKET, ROUTER_PACKET, USER_PACKET,
    CLIENT_HEADER}

  /** No field is a message. */
  predicate Flat(schema: Schema) {
    forall field | field in schema :: !field.kind.Nested?
  }

  lemma {:induction false} FlatDepth(schema: Schema)
    requires Flat(schema)
    ensures Depth(schema) == 0
  {
    if schema != [] {
      assert schema[0] in schema;
      FlatDepth(schema[1..]);
    }
  }

  lemma {:induction false} DepthAtMost(schema: Schema, n: nat)
    requires forall field | field in schema :: FieldDepth(field) <= n
    ensures Depth(schema) <= n
  {
    if schema != [] {
      assert schema[0] in schema;
      DepthAtMost(schema[1..], n);
    }
  }

  /** Numbered 1, 2, 3, ..., with at most 15 fields, small enums, and no more than one level of messages. */
  predicate Plain(schema: Schema) {
    |schema| < 16 && forall i | 0 <= i < |schema| :: schema[i].number == i + 1 && PlainKind(schema[i].kind)
  }

  predicate PlainKind(kind: Kind) {
    match kind
    case Enum(valid) => forall v | v in valid :: 0 < v < 16
    case Nested(sub) => sub == STREAM_CONFIG
    case _ => true
  }

  lemma StreamConfigOk()
    ensures SchemaOk(STREAM_CONFIG) && Depth(STREAM_CONFIG) == 0 && Flat(STREAM_CONFIG)
  {
    FlatDepth(STREAM_CONFIG);
  }

  lemma PlainOk(schema: Schema)
    requires Plain(schema)
    ensures SchemaOk(schema) && Depth(schema) <= 1
  {
    StreamConfigOk();
    DepthAtMost(schema, 1);
  }

  /** All of them meet the conditions of the message laws. */
  lemma SchemasOk(schema: Schema)
    requires schema in CALL_MESSAGES
    ensures SchemaOk(schema) && Depth(schema) <= 1
  {
    hide SchemaOk, Depth;
    assert Plain(schema);
    PlainOk(schema);
  }

  /** For every message of every class: parse(serialize(b)) is b, accepted iff its required fields are set. */
  lemma CallMessageRoundTrip(schema: Schema, b: Message)
    requires schema in CALL_MESSAGES && MessageOk(schema, b) && ByteSize(schema, b) < 0x8000_0000
    ensures ParseFromArray(schema, Serialize(schema, b)) == FromArray(IsInitialized(schema, b), b)
  {
    SchemasOk(schema);
    RoundTrip(schema, b);
  }

  /** Without nested messages a merge overwrites: the last one wins, field by field. */
  lemma FlatMerge(schema: Schema, a: Message, b: Message)
    requires SchemaOk(schema) && Flat(schema) && MessageOk(schema, b)
    ensures MergeFrom(schema, a, b) == a + b
  {
    var r := MergeFrom(schema, a, b);
    forall n: nat
      ensures (n in r <==> n in a + b) && (n in r ==> r[n] == (a + b)[n])
    {
      if n in Numbers(schema) {
        var f := FieldWithNumber(schema, n);
        MergeOfField(schema, a, b, f);
      } else {
        MergeOfOther(schema, a, b, n);
      }
    }
    assert r.Keys == (a + b).Keys;
  }

  lemma BindStreamField(n: nat) returns (f: Field)
    requires 6 <= n <= 8
    ensures f == Field(n, false, Nested(STREAM_CONFIG)) && f in BIND_RELAY_REQUEST && Ascending(BIND_RELAY_REQUEST)
  {
    SchemasOk(BIND_RELAY_REQUEST);
    f := BIND_RELAY_REQUEST[n - 1];
  }

  /** A stream configuration both requests carry is merged field by field, not replaced. */
  lemma StreamConfigsMerge(a: Message, b: Message, n: nat)
    requires MessageOk(BIND_RELAY_REQUEST, a) && MessageOk(BIND_RELAY_REQUEST, b)
    requires 6 <= n <= 8 && n in a && n in b
    ensures a[n].Sub? && b[n].Sub?
    ensures var r := MergeFrom(BIND_RELAY_REQUEST, a, b); n in r && r[n] == Sub(a[n].m + b[n].m)
  {
    hide SchemaOk, MergeFrom, FieldsOk, Numbers, Ascending;
    var f := BindStreamField(n);
    StreamConfigOk();
    FieldValueOk(BIND_RELAY_REQUEST, a, f);
    FieldValueOk(BIND_RELAY_REQUEST, b, f);
    MergeOfField(BIND_RELAY_REQUEST, a, b, f);
    FlatMerge(STREAM_CONFIG, a[n].m, b[n].m);
  }

  /** On the wire, with the varints of the encoding specification: 150 is 96 01, 300 is AC 02, -1 takes ten bytes. */
  lemma KnownBytes()
    ensures Varint(150) == [0x96, 0x01] && Varint(300) == [0xac, 0x02]
    ensures Serialize(PUSH_SERVICE_CONFIG, map[3 := Num(150)]) == [0x18, 0x96, 0x01]
    ensures Varint(ToWire(-1)) == [0xff, 0xff, 0xff, 0xff, 0xff, 0xff, 0xff, 0xff, 0xff, 0x01]
  {
    assert Varint(150) == [0x96] + Varint(1);
    assert Varint(300) == [0xac] + Varint(2);
    assert ToWire(150) == 150;
    hide Varint, Serialize, ToWire;
    SingleField(PUSH_SERVICE_CONFIG, map[3 := Num(150)], 2);
    MinusOne();
  }

  /** A message with one field set is one tag and one value. */
  lemma {:induction false} SingleField(fields: Schema, m: Message, k: nat)
    requires k < |fields| && fields[k].number in m && fields[k].number < 16
    requires forall i | 0 <= i < |fields| && i != k :: fields[i].number !in m
    ensures Serialize(fields, m) == [Tag(fields[k]) as byte] + EncodeValue(fields[k], m[fields[k].number])
    decreases |fields|
  {
    if k > 0 {
      SingleField(fields[1..], m, k - 1);
    } else {
      NoField(fields[1..], m);
    }
  }

  lemma {:induction false} SingleFieldOk(fields: Schema, m: Message, k: nat)
    requires k < |fields| && fields[k].number in m
    requires forall i | 0 <= i < |fields| && i != k :: fields[i].number !in m
    ensures ByteSize(fields, m) == 1 + SizeOfValue(fields[k], m[fields[k].number])
    ensures ValueOk(fields[k], m[fields[k].number]) ==> FieldsOk(fields, m)
    decreases |fields|
  {
    if k > 0 {
      SingleFieldOk(fields[1..], m, k - 1);
    } else {
      NoField(fields[1..], m);
    }
  }

  lemma {:induction false} NoField(fields: Schema, m: Message)
    requires forall i | 0 <= i < |fields| :: fields[i].number !in m
    ensures Serialize(fields, m) == [] && ByteSize(fields, m) == 0 && FieldsOk(fields, m)
    decreases |fields|
  {
    if fields != [] {
      assert fields[0].number !in m;
      NoField(fields[1..], m);
    }
  }

  lemma MinusOne()
    ensures Varint(ToWire(-1)) == [0xff, 0xff, 0xff, 0xff, 0xff, 0xff, 0xff, 0xff, 0xff, 0x01]
  {
    assert Varint(1) == [0x01];
    assert Varint(0xff) == [0xff] + Varint(1);
    assert Varint(0x7fff) == [0xff] + Varint(0xff);
    assert Varint(0x3f_ffff) == [0xff] + Varint(0x7fff);
    assert Varint(0x1fff_ffff) == [0xff] + Varint(0x3f_ffff);
    assert Varint(0xf_ffff_ffff) == [0xff] + Varint(0x1fff_ffff);
    assert Varint(0x7ff_ffff_ffff) == [0xff] + Varint(0xf_ffff_ffff);
    assert Varint(0x3_ffff_ffff_ffff) == [0xff] + Varint(0x7ff_ffff_ffff);
    assert Varint(0x1ff_ffff_ffff_ffff) == [0xff] + Varint(0x3_ffff_ffff_ffff);
    assert Varint(0xffff_ffff_ffff_ffff) == [0xff] + Varint(0x1ff_ffff_ffff_ffff);
  }

  /** StreamConfig as the .proto file has it, with the strategy the generated code lacks. */
  const WIDER_STREAM_CONFIG: Schema := [
    Field(1, true, Enum({1, 2, 3})), Field(2, false, UInt32), Field(3, false, UInt32), Field(4, false, Bool)]

  const STRATEGY: nat := 1
  const BATCH_ACK_STRATEGY: int := 3

  /** What the generated code keeps of such a configuration. */
  function Narrowed(b: Message): Message {
    if STRATEGY in b && b[STRATEGY] == Num(BATCH_ACK_STRATEGY) then b - {STRATEGY} else b
  }

  /** The strategy is read if the generated code knows it, and dropped otherwise. */
  lemma ReadStrategy(v: Value, rest: seq<byte>)
    requires ValueOk(WIDER_STREAM_CONFIG[0], v)
    ensures ReadField(STREAM_CONFIG[0], map[], EncodeValue(WIDER_STREAM_CONFIG[0], v) + rest, RECURSION_LIMIT)
            == FieldRead(true, if v == Num(BATCH_ACK_STRATEGY) then map[] else map[STRATEGY := v], rest)
  {
    assert STREAM_CONFIG[0].kind == Enum({1, 2}) && WIDER_STREAM_CONFIG[0].kind == Enum({1, 2, 3});
    hide ReadVarint64;
    VarintRoundTrip(v.i, rest);
  }

  /** All fields of a reader's type but the first. */
  lemma ReadOthers(reader: Schema, a: Message, b: Message, depth: nat)
    requires SchemaOk(reader) && reader != [] && Depth(reader) <= depth
    requires FieldsOk(reader[1..], b) && ByteSize(reader[1..], b) < 0x8000_0000
    ensures ParseLoop(reader, a, Serialize(reader[1..], b), depth)
            == Parsed(true, true, MergeFrom(reader[1..], a, b), [])
  {
    var fields := reader[1..];
    CompatibleWithSelf(reader);
    assert FieldsFit(fields) && Compatible(reader, fields);
    hide ParseLoop, Serialize, MergeFrom, FieldsOk, ByteSize, SchemaOk, Depth;
    KnownOfSelf(reader, fields);
    ParseSerialized(reader, fields, a, b, [], depth);
    assert Serialize(fields, b) + [] == Serialize(fields, b);
    LoopAtEnd(reader, MergeFrom(fields, a, b), depth);
  }

  /** A first field that a newer writer declares otherwise, under the same tag, and what reading it gives. */
  lemma ReadFirstOtherwise(reader: Schema, w: Field, a: Message, b: Message, depth: nat)
    requires SchemaOk(reader) && reader != [] && FieldOk(w) && w.number == reader[0].number && Tag(w) == Tag(reader[0])
    requires var more := Serialize(reader[1..], b);
             if w.number in b
             then ReadField(reader[0], map[], EncodeValue(w, b[w.number]) + more, depth) == FieldRead(true, a, more)
             else a == map[]
    ensures ParseLoop(reader, map[], Serialize([w] + reader[1..], b), depth)
            == ParseLoop(reader, a, Serialize(reader[1..], b), depth)
  {
    var writer, more := [w] + reader[1..], Serialize(reader[1..], b);
    assert writer[1..] == reader[1..] && writer[0] == w && FieldOk(reader[0]);
    SerializeFirst(writer, b, []);
    hide ParseLoop, Serialize, ReadField, EncodeValue, SchemaOk;
    assert more + [] == more && Serialize(writer, b) + [] == Serialize(writer, b);
    if w.number in b {
      LoopOnField(reader, reader[0], map[], EncodeValue(w, b[w.number]) + more, a, more, depth);
    }
  }

  lemma MergeOthers(a: Message, b: Message)
    requires b.Keys <= Numbers(WIDER_STREAM_CONFIG) && a.Keys <= {STRATEGY}
    ensures MergeFrom(STREAM_CONFIG[1..], a, b) == a + (b - {STRATEGY})
  {
    var fields := STREAM_CONFIG[1..];
    assert fields == [Field(2, false, UInt32), Field(3, false, UInt32), Field(4, false, Bool)];
    var r := MergeFrom(fields, a, b);
    forall n: nat
      ensures (n in r <==> n in a + (b - {STRATEGY})) && (n in r ==> r[n] == (a + (b - {STRATEGY}))[n])
    {
      if n == 2 || n == 3 || n == 4 {
        assert fields[n - 2].number == n;
        MergeOfField(fields, a, b, fields[n - 2]);
      } else {
        MergeOfOther(fields, a, b, n);
        assert n in b ==> n == STRATEGY;
      }
    }
    assert r.Keys == (a + (b - {STRATEGY})).Keys;
  }

  lemma WiderParts()
    ensures WIDER_STREAM_CONFIG == [WIDER_STREAM_CONFIG[0]] + STREAM_CONFIG[1..]
    ensures Tag(WIDER_STREAM_CONFIG[0]) == Tag(STREAM_CONFIG[0]) && FieldOk(WIDER_STREAM_CONFIG[0])
    ensures WIDER_STREAM_CONFIG[0].number == STREAM_CONFIG[0].number == STRATEGY
  {
  }

  lemma WiderMessage(b: Message)
    requires MessageOk(WIDER_STREAM_CONFIG, b) && ByteSize(WIDER_STREAM_CONFIG, b) < 0x8000_0000
    ensures STRATEGY in b ==> ValueOk(WIDER_STREAM_CONFIG[0], b[STRATEGY])
    ensures FieldsOk(STREAM_CONFIG[1..], b) && ByteSize(STREAM_CONFIG[1..], b) < 0x8000_0000
    ensures b.Keys <= Numbers(WIDER_STREAM_CONFIG)
  {
    assert WIDER_STREAM_CONFIG[1..] == STREAM_CONFIG[1..];
  }

  /** Parsing a configuration of the .proto file with the generated code. */
  lemma ParseWider(b: Message)
    requires MessageOk(WIDER_STREAM_CONFIG, b) && ByteSize(WIDER_STREAM_CONFIG, b) < 0x8000_0000
    ensures ParseLoop(STREAM_CONFIG, map[], Serialize(WIDER_STREAM_CONFIG, b), RECURSION_LIMIT)
            == Parsed(true, true, Narrowed(b), [])
  {
    hide Serialize, ParseLoop, ReadField, EncodeValue, SchemaOk, MergeFrom, FieldsOk, ByteSize, MessageOk, Depth,
      FieldOk, Numbers, ValueOk, Tag;
    var w := WIDER_STREAM_CONFIG[0];
    WiderParts();
    WiderMessage(b);
    StreamConfigOk();
    var kept := STRATEGY in b && b[STRATEGY] != Num(BATCH_ACK_STRATEGY);
    var a: Message := if kept then map[STRATEGY := b[STRATEGY]] else map[];
    if STRATEGY in b {
      ReadStrategy(b[STRATEGY], Serialize(STREAM_CONFIG[1..], b));
    }
    ReadFirstOtherwise(STREAM_CONFIG, w, a, b, RECURSION_LIMIT);
    ReadOthers(STREAM_CONFIG, a, b, RECURSION_LIMIT);
    MergeOthers(a, b);
    assert a + (b - {STRATEGY}) == Narrowed(b);
  }

  /**
   * For every stream configuration of the .proto file: the generated code accepts it if and only if its
   * strategy is set and not the third one; a third strategy is dropped, everything else is kept.
   */
  lemma UnknownStrategyDropped(b: Message)
    requires MessageOk(WIDER_STREAM_CONFIG, b) && ByteSize(WIDER_STREAM_CONFIG, b) < 0x8000_0000
    ensures var r := ParseFromArray(STREAM_CONFIG, Serialize(WIDER_STREAM_CONFIG, b));
            && r.m == Narrowed(b)
            && (r.ok <==> STRATEGY in b && b[STRATEGY] != Num(BATCH_ACK_STRATEGY))
  {
    hide Serialize, ParseLoop, ByteSize, FieldsOk;
    ParseWider(b);
    StrategyRequired(Narrowed(b));
  }

  lemma StrategyRequired(m: Message)
    ensures IsInitialized(STREAM_CONFIG, m) <==> STRATEGY in m
  {
    InitializedMeans(STREAM_CONFIG, m);
    hide IsInitialized;
    assert STREAM_CONFIG[0] in STREAM_CONFIG && STREAM_CONFIG[0].number == STRATEGY;
  }

  lemma ThirdStrategyMessage(b: Message)
    requires b == map[STRATEGY := Num(BATCH_ACK_STRATEGY)]
    ensures MessageOk(WIDER_STREAM_CONFIG, b) && ByteSize(WIDER_STREAM_CONFIG, b) == 2
    ensures Serialize(WIDER_STREAM_CONFIG, b) == [0x08] + EncodeValue(WIDER_STREAM_CONFIG[0], Num(BATCH_ACK_STRATEGY))
  {
    hide Serialize, ByteSize, FieldsOk, EncodeValue;
    SingleField(WIDER_STREAM_CONFIG, b, 0);
    SingleFieldOk(WIDER_STREAM_CONFIG, b, 0);
    assert STRATEGY in Numbers(WIDER_STREAM_CONFIG);
  }

  /** The configuration that has nothing but the third strategy is 08 03 on the wire. */
  lemma ThirdStrategyBytes()
    ensures Serialize(WIDER_STREAM_CONFIG, map[STRATEGY := Num(BATCH_ACK_STRATEGY)]) == [0x08, 0x03]
    ensures ParseFromArray(STREAM_CONFIG, [0x08, 0x03]) == FromArray(false, map[])
  {
    hide ParseFromArray, Serialize, MessageOk, ByteSize;
    var b: Message := map[STRATEGY := Num(BATCH_ACK_STRATEGY)];
    ThirdStrategyMessage(b);
    assert EncodeValue(WIDER_STREAM_CONFIG[0], Num(BATCH_ACK_STRATEGY)) == Varint(3) == [0x03];
    UnknownStrategyDropped(b);
    assert Narrowed(b) == map[];
  }
}

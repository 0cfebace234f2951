/**
 * Generated message code. Every generated class is the same text with its own fields filled in, so
 * a message type is a Schema (its fields in declaration order) and a message is the map from the
 * numbers of the fields whose has-bit is set to their values. This module defines what the generated
 * Serialize, ByteSize, MergeFrom and the plain tag loop compute.
 */
module ProtoMessage {
  import opened Bytes
  import opened ProtoWire

  datatype Kind =
    | UInt32 | UInt64 | Int32 | Int64 | Bool
    | Enum(valid: set<int>)
    | Text
    | Nested(schema: Schema)

  datatype Field = Field(number: nat, required: bool, kind: Kind)

  type Schema = seq<Field>

  datatype Value = Num(i: int) | Str(s: seq<byte>) | Sub(m: Message)

  type Message = map<nat, Value>

  /** Field numbers ascend and fit a one-byte tag, as in every message of the call protocol. */
  ghost predicate SchemaOk(schema: Schema)
    decreases schema, 0
  {
    && (forall i, j | 0 <= i < j < |schema| :: schema[i].number < schema[j].number)
    && forall field | field in schema :: FieldOk(field)
  }

  ghost predicate FieldOk(field: Field)
    decreases field, 1
  {
    && 0 < field.number < 16
    && match field.kind
       case Enum(valid) => forall v | v in valid :: IsInt32(v)
       case Nested(sub) => SchemaOk(sub)
       case _ => true
  }

  /** How many more levels of nesting the type has. */
  function Depth(schema: Schema): nat
    decreases schema, 0
  {
    if schema == [] then 0 else
      var here, rest := FieldDepth(schema[0]), Depth(schema[1..]);
      if here > rest then here else rest
  }

  function FieldDepth(field: Field): nat
    decreases field, 1
  {
    match field.kind case Nested(sub) => 1 + Depth(sub) case _ => 0
  }

  predicate IsScalar(kind: Kind) { !kind.Text? && !kind.Nested? }

  /** The values the C++ field of this kind can hold. */
  predicate NumberOk(kind: Kind, i: int)
    requires IsScalar(kind)
  {
    match kind
    case UInt32 => 0 <= i < TWO_32
    case UInt64 => 0 <= i < TWO_64
    case Int32 => IsInt32(i)
    case Int64 => -TWO_63 <= i < TWO_63
    case Bool => i == 0 || i == 1
    case Enum(valid) => i in valid
  }

  ghost predicate ValueOk(field: Field, v: Value)
    decreases field, 1
  {
    match field.kind
    case Text => v.Str?
    case Nested(sub) => v.Sub? && MessageOk(sub, v.m)
    case _ => v.Num? && NumberOk(field.kind, v.i)
  }

  ghost predicate FieldsOk(fields: Schema, m: Message)
    decreases fields, 0
  {
    fields != [] ==>
      && (fields[0].number in m ==> ValueOk(fields[0], m[fields[0].number]))
      && FieldsOk(fields[1..], m)
  }

  function Numbers(fields: Schema): set<nat> {
    set i | 0 <= i < |fields| :: fields[i].number
  }

  ghost predicate MessageOk(schema: Schema, m: Message)
    decreases schema, 1
  {
    m.Keys <= Numbers(schema) && FieldsOk(schema, m)
  }

  // ---------------------------------------------------------------- serialization and its size

  function WireType(kind: Kind): nat {
    if IsScalar(kind) then WIRE_VARINT else WIRE_LENGTH
  }

  function Tag(field: Field): nat {
    field.number * 8 + WireType(field.kind)
  }

  /** A negative number is sign-extended to 64 bits. */
  function ToWire(i: int): (w: nat)
    requires -TWO_63 <= i
  {
    if i < 0 then i + TWO_64 else i
  }

  function SizeOfValue(field: Field, v: Value): (n: nat)
    decreases field, 1
  {
    match (field.kind, v)
    case (Text, Str(s)) => VarintSize(|s|) + |s|
    case (Nested(sub), Sub(m)) => VarintSize(ByteSize(sub, m)) + ByteSize(sub, m)
    case (Bool, _) => 1
    case (_, Num(i)) => VarintSize(if -TWO_63 <= i then ToWire(i) else 0)
    case _ => 0
  }

  /** ByteSize: one tag byte and the size of the value, for every field whose has-bit is set. */
  function ByteSize(fields: Schema, m: Message): (n: nat)
    decreases fields, 0
  {
    if fields == [] then 0 else
      (if fields[0].number in m then 1 + SizeOfValue(fields[0], m[fields[0].number]) else 0)
      + ByteSize(fields[1..], m)
  }

  function EncodeValue(field: Field, v: Value): (s: seq<byte>)
    decreases field, 1
  {
    match (field.kind, v)
    case (Text, Str(s)) => Varint(|s|) + s
    case (Nested(sub), Sub(m)) => Varint(ByteSize(sub, m)) + Serialize(sub, m)
    case (_, Num(i)) => if -TWO_63 <= i then Varint(ToWire(i)) else []
    case _ => []
  }

  /** SerializeWithCachedSizes: the fields whose has-bit is set, in declaration order. */
  function Serialize(fields: Schema, m: Message): (s: seq<byte>)
    decreases fields, 0
  {
    if fields == [] then [] else
      (if fields[0].number in m && fields[0].number < 16
       then [Tag(fields[0]) as byte] + EncodeValue(fields[0], m[fields[0].number]) else [])
      + Serialize(fields[1..], m)
  }

  // ---------------------------------------------------------------- merging

  /** The nested message a mutable_ accessor returns: the present one or a fresh one. */
  function Present(m: Message, number: nat): Message {
    if number in m && m[number].Sub? then m[number].m else map[]
  }

  /** MergeFrom: every field set in `from` is copied, nested messages are merged. */
  function MergeFrom(fields: Schema, m: Message, from: Message): (r: Message)
    decreases fields, 0
  {
    if fields == [] then m
    else if fields[0].number !in from then MergeFrom(fields[1..], m, from)
    else MergeFrom(fields[1..], m[fields[0].number := MergeValue(fields[0], m, from[fields[0].number])], from)
  }

  function MergeValue(field: Field, m: Message, v: Value): Value
    decreases field, 1
  {
    match (field.kind, v)
    case (Nested(sub), Sub(from)) => Sub(MergeFrom(sub, Present(m, field.number), from))
    case _ => v
  }

  // ---------------------------------------------------------------- parsing, the plain tag loop

  /**
   * The outcome of MergePartialFromCodedStream: its result, whether it stopped at the limit
   * (ConsumedEntireMessage), the message as it then stands, and the bytes left.
   */
  datatype Parsed = Parsed(ok: bool, atEnd: bool, m: Message, rest: seq<byte>)

  datatype FieldRead = FieldRead(ok: bool, m: Message, rest: seq<byte>)

  function FromWire(kind: Kind, w: nat): int
    requires IsScalar(kind)
  {
    match kind
    case UInt32 => w % TWO_32
    case UInt64 => w
    case Int32 => ToInt32(w % TWO_32)
    case Int64 => if w < TWO_63 then w else w - TWO_64
    case Bool => if w % TWO_32 != 0 then 1 else 0
    case Enum(_) => ToInt32(w % TWO_32)
  }

  /** The switch: the position of a field number among the cases. */
  function CaseOf(fields: Schema, number: nat): (i: nat)
    ensures i <= |fields|
    ensures i < |fields| ==> fields[i].number == number
  {
    if fields == [] || fields[0].number == number then 0 else 1 + CaseOf(fields[1..], number)
  }

  /** What a nested message may read: PushLimit never widens the limit in force. */
  function Limited(s: seq<byte>, length: nat): (r: seq<byte>)
    ensures |r| <= |s|
  {
    if length < TWO_31 && length <= |s| then s[..length] else s
  }

  /** One case of the switch after its tag: read the value and set the field. */
  function ReadField(field: Field, m: Message, s: seq<byte>, depth: nat): (r: FieldRead)
    ensures r.ok ==> |r.rest| < |s|
    decreases field, 1, |s|
  {
    match field.kind
    case Text =>
      var set0 := if field.number in m then m else m[field.number := Str([])];
      (match ReadVarint32(s)
       case None => FieldRead(false, set0, s)
       case Some(Read(length, rest)) =>
         if length >= TWO_31 then FieldRead(false, set0, rest)
         else if length <= |rest| then FieldRead(true, m[field.number := Str(rest[..length])], rest[length..])
         else FieldRead(false, m[field.number := Str(rest)], []))
    case Nested(sub) =>
      var set0 := m[field.number := Sub(Present(m, field.number))];
      (match ReadVarint32(s)
       case None => FieldRead(false, set0, s)
       case Some(Read(length, rest)) =>
         if depth == 0 then FieldRead(false, set0, rest) else
         var inner := Limited(rest, length);
         var p := ParseLoop(sub, Present(m, field.number), inner, depth - 1);
         FieldRead(p.ok && p.atEnd, m[field.number := Sub(p.m)], rest[|inner|..]))
    case _ =>
      match ReadVarint64(s)
      case None => FieldRead(false, m, s)
      case Some(Read(w, rest)) =>
        var i := FromWire(field.kind, w);
        FieldRead(true, if NumberOk(field.kind, i) then m[field.number := Num(i)] else m, rest)
  }

  /** The loop without its shortcuts: read a tag, dispatch on it, repeat. */
  function ParseLoop(schema: Schema, m: Message, s: seq<byte>, depth: nat): (r: Parsed)
    ensures r.ok && r.atEnd ==> r.rest == []
    decreases schema, 0, |s|
  {
    var t := ReadTag(s);
    if t.value == 0 then Parsed(true, s == [], m, t.rest) else
    var i := CaseOf(schema, t.value / 8);
    if i < |schema| && t.value % 8 == WireType(schema[i].kind) then
      var f := ReadField(schema[i], m, t.rest, depth);
      if f.ok then ParseLoop(schema, f.m, f.rest, depth) else Parsed(false, false, f.m, f.rest)
    else if t.value % 8 == WIRE_END_GROUP then Parsed(true, false, m, t.rest)
    else
      match SkipField(t.rest, t.value, depth)
      case None => Parsed(false, false, m, t.rest)
      case Some(rest) => ParseLoop(schema, m, rest, depth)
  }

  /** IsInitialized: every required field is set, in nested messages as well. */
  predicate IsInitialized(fields: Schema, m: Message)
    decreases fields, 0
  {
    fields != [] ==>
      && (if fields[0].number in m then IsValueInitialized(fields[0], m[fields[0].number]) else !fields[0].required)
      && IsInitialized(fields[1..], m)
  }

  predicate IsValueInitialized(field: Field, v: Value)
    decreases field, 1
  {
    match (field.kind, v)
    case (Nested(sub), Sub(m)) => IsInitialized(sub, m)
    case _ => true
  }

  const RECURSION_LIMIT: nat := 100

  datatype FromArray = FromArray(ok: bool, m: Message)

  /** ParseFromArray: into a cleared message, all bytes consumed, all required fields present. */
  function ParseFromArray(schema: Schema, s: seq<byte>): FromArray {
    var p := ParseLoop(schema, map[], s, RECURSION_LIMIT);
    FromArray(p.ok && IsInitialized(schema, p.m) && p.atEnd, p.m)
  }
}

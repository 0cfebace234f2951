/**
 * The encoding by its bytes (Protocol Buffers Encoding, "Base 128 Varints" and "Message Structure"): which types
 * the fields have, what a number on the wire becomes, and how far a reader that does not know a field goes.
 */
module ProtoBytes {
  import opened Bytes
  import opened ProtoWire
  import opened ProtoMessage
  import opened ProtoLaws
  import opened ProtoSchemas

  // ---------------------------------------------------------------- the fields of the messages

  /** uint32, uint64, int32, int64, bool, enum, string, message. */
  function Letter(kind: Kind): char {
    match kind
    case UInt32 => 'u' case UInt64 => 'U' case Int32 => 'i' case Int64 => 'I' case Bool => 'b'
    case Enum(_) => 'e' case Text => 's' case Nested(_) => 'm'
  }

  /** The types of the fields in the order of their numbers, and which of them have to be set. */
  ghost predicate Declares(schema: Schema, types: string, required: set<nat>) {
    && |schema| == |types|
    && forall k | 0 <= k < |types| ::
         schema[k].number == k + 1 && Letter(schema[k].kind) == types[k] && (schema[k].required <==> k + 1 in required)
  }

  ghost predicate UpTo(field: Field, n: int) { field.kind.Enum? && forall i :: i in field.kind.valid <==> 1 <= i <= n }

  lemma MessageFields()
    ensures Declares(PUSH_SERVICE_CONFIG, "bbiii", {}) && Declares(STREAM_CONFIG, "euub", {1})
    ensures Declares(BIND_RELAY_REQUEST, "Ussismmm", {1, 2}) && Declares(BURROW_PACKET, "UsUUe", {1, 2, 3, 4, 5})
    ensures Declares(ROUTER_PACKET, "UUsUsUesIs", {1}) && Declares(USER_PACKET, "ueUsUsIs", {2, 3, 4})
    ensures Declares(CLIENT_HEADER, "iIssssseiis", {})
  {
  }

  lemma EnumValues()
    ensures UpTo(STREAM_CONFIG[0], 2) && UpTo(BURROW_PACKET[4], 4) && UpTo(ROUTER_PACKET[6], 4)
    ensures UpTo(USER_PACKET[1], 12) && UpTo(CLIENT_HEADER[7], 6)
    ensures forall k | 5 <= k < 8 :: BIND_RELAY_REQUEST[k].kind == Nested(STREAM_CONFIG)
  {
  }

  /** So a burrow packet is accepted if and only if all its five fields are set. */
  lemma BurrowRequired(m: Message)
    ensures IsInitialized(BURROW_PACKET, m) <==> {1, 2, 3, 4, 5} <= m.Keys
  {
    InitializedMeans(BURROW_PACKET, m);
    assert BURROW_PACKET[0] in BURROW_PACKET && BURROW_PACKET[1] in BURROW_PACKET && BURROW_PACKET[2] in BURROW_PACKET;
    assert BURROW_PACKET[3] in BURROW_PACKET && BURROW_PACKET[4] in BURROW_PACKET;
    hide IsInitialized;
  }

  /** A whole burrow packet: user 1 with resource "r", call 2, burrow 3, and the echo over the internet. */
  lemma BurrowBytes()
    ensures Serialize(BURROW_PACKET, map[1 := Num(1), 2 := Str([0x72]), 3 := Num(2), 4 := Num(3), 5 := Num(4)])
            == [0x08, 0x01, 0x12, 0x01, 0x72, 0x18, 0x02, 0x20, 0x03, 0x28, 0x04]
  {
    var m: Message := map[1 := Num(1), 2 := Str([0x72]), 3 := Num(2), 4 := Num(3), 5 := Num(4)];
    var f := BURROW_PACKET;
    SmallField(f[0], 1);
    SmallText(f[1]);
    SmallField(f[2], 2);
    SmallField(f[3], 3);
    SmallField(f[4], 4);
    assert f[0].number == 1 && f[1].number == 2 && f[2].number == 3 && f[3].number == 4 && f[4].number == 5;
    assert |f| == 5 && f[0..] == f && f[5..] == [];
    Gathered(f, m);
  }

  lemma Gathered(f: Schema, m: Message)
    requires |f| == 5 && forall k | 0 <= k < 5 :: f[k].number == k + 1 && k + 1 in m
    requires forall k | k in {0, 2, 3, 4} :: Tag(f[k]) == 8 * (k + 1)
    requires Tag(f[1]) == 0x12 && EncodeValue(f[1], m[2]) == [0x01, 0x72]
    requires EncodeValue(f[0], m[1]) == [0x01] && EncodeValue(f[2], m[3]) == [0x02]
    requires EncodeValue(f[3], m[4]) == [0x03] && EncodeValue(f[4], m[5]) == [0x04]
    ensures Serialize(f, m) == [0x08, 0x01, 0x12, 0x01, 0x72, 0x18, 0x02, 0x20, 0x03, 0x28, 0x04]
  {
    hide EncodeValue, Tag, Serialize;
    SerializeStep(f, m, 0); SerializeStep(f, m, 1); SerializeStep(f, m, 2); SerializeStep(f, m, 3);
    SerializeStep(f, m, 4);
    NothingSerialized(m);
    assert f[0..] == f && f[5..] == [];
  }

  lemma SmallText(field: Field)
    requires field.kind.Text?
    ensures EncodeValue(field, Str([0x72])) == [0x01, 0x72]
  {
    assert Varint(1) == [0x01];
  }

  lemma SmallField(field: Field, i: int)
    requires IsScalar(field.kind) && 0 <= i < 0x80
    ensures EncodeValue(field, Num(i)) == [i as byte]
  {
  }

  lemma SerializeStep(fields: Schema, m: Message, k: nat)
    requires k < |fields| && fields[k].number in m && fields[k].number < 16
    ensures Serialize(fields[k..], m)
            == [Tag(fields[k]) as byte] + EncodeValue(fields[k], m[fields[k].number]) + Serialize(fields[k + 1..], m)
  {
    assert fields[k..][1..] == fields[k + 1..];
  }

  lemma NothingSerialized(m: Message)
    ensures Serialize([], m) == []
  {
  }

  // ---------------------------------------------------------------- numbers

  /** `i` is the number of this type that agrees with the 64-bit word w in the bits the type has. */
  ghost predicate Means(kind: Kind, w: nat, i: int)
    requires IsScalar(kind)
  {
    match kind
    case UInt32 => 0 <= i < 0x1_0000_0000 && (w - i) % 0x1_0000_0000 == 0
    case UInt64 => i == w
    case Int32 => -0x8000_0000 <= i < 0x8000_0000 && (w - i) % 0x1_0000_0000 == 0
    case Int64 => -0x8000_0000_0000_0000 <= i < 0x8000_0000_0000_0000 && (w - i) % 0x1_0000_0000_0000_0000 == 0
    case Bool => i == if w % 0x1_0000_0000 == 0 then 0 else 1
    case Enum(_) => -0x8000_0000 <= i < 0x8000_0000 && (w - i) % 0x1_0000_0000 == 0
  }

  /** Any word read for a field: the number of its type that agrees with it, which an enum keeps only if it is known. */
  lemma NumberRead(field: Field, m: Message, w: nat, rest: seq<byte>, depth: nat) returns (i: int)
    requires IsScalar(field.kind) && w < 0x1_0000_0000_0000_0000
    ensures Means(field.kind, w, i)
    ensures ReadField(field, m, Varint(w) + rest, depth)
            == FieldRead(true, if field.kind.Enum? && i !in field.kind.valid then m else m[field.number := Num(i)],
                         rest)
  {
    VarintRoundTrip(w, rest);
    i := FromWire(field.kind, w);
    hide Varint, ReadVarint64;
    WordMeans(field.kind, w);
  }

  lemma WordMeans(kind: Kind, w: nat)
    requires IsScalar(kind) && w < 0x1_0000_0000_0000_0000
    ensures Means(kind, w, FromWire(kind, w)) && (NumberOk(kind, FromWire(kind, w)) <==>
              (kind.Enum? ==> FromWire(kind, w) in kind.valid))
  {
    if kind.Int32? || kind.Enum? { LowBits(w); }
  }

  lemma LowBits(w: nat)
    ensures (w - ToInt32(w % 0x1_0000_0000)) % 0x1_0000_0000 == 0
  {
    var q, low := w / 0x1_0000_0000, w % 0x1_0000_0000;
    var k := (w - ToInt32(low)) / 0x1_0000_0000;
    assert w == q * 0x1_0000_0000 + low;
    if low < 0x8000_0000 {
      assert w - ToInt32(low) == q * 0x1_0000_0000;
    } else {
      assert w - ToInt32(low) == (q + 1) * 0x1_0000_0000;
    }
  }

  /** A text with any announced length: if the bytes run out, what is left becomes the value, and reading fails. */
  lemma TextRead(field: Field, m: Message, length: nat, rest: seq<byte>, depth: nat)
    requires field.kind.Text? && length < 0x1_0000_0000
    ensures var f := ReadField(field, m, Varint(length) + rest, depth);
            && (f.ok <==> length <= |rest| && length < 0x8000_0000)
            && (f.ok ==> f.m == m[field.number := Str(rest[..length])] && f.rest == rest[length..])
            && (|rest| < length < 0x8000_0000 ==> f.m == m[field.number := Str(rest)] && f.rest == [])
  {
    VarintRoundTrip(length, rest);
    hide Varint, ReadVarint32;
  }

  /**
   * A nested message with any announced length: it is parsed from the bytes announced, or from all that are left
   * if there are fewer or the length is no int, and has to end where they end; with no level left it is not read.
   */
  lemma NestedRead(field: Field, m: Message, length: nat, rest: seq<byte>, depth: nat)
    requires field.kind.Nested? && length < 0x1_0000_0000
    ensures var f := ReadField(field, m, Varint(length) + rest, depth);
            if depth == 0 then f == FieldRead(false, m[field.number := Sub(Present(m, field.number))], rest) else
            var inner := if length < 0x8000_0000 && length <= |rest| then rest[..length] else rest;
            var p := ParseLoop(field.kind.schema, Present(m, field.number), inner, depth - 1);
            f == FieldRead(p.ok && p.atEnd, m[field.number := Sub(p.m)], rest[|inner|..])
  {
    VarintRoundTrip(length, rest);
    hide Varint, ReadVarint32, ParseLoop;
  }

  // ---------------------------------------------------------------- how far a reader goes

  /** A varint ends at the first byte below 80 hex, which has to be among the first ten. */
  lemma {:induction false} DigitsEnd(s: seq<byte>, most: nat, k: nat)
    requires k <= |s| && k <= most && forall j | 0 <= j < k :: s[j] >= 0x80
    requires k == most || k == |s| || s[k] < 0x80
    ensures if k == most || k == |s| then ReadDigits(s, most) == None
            else ReadDigits(s, most).Some? && ReadDigits(s, most).value.rest == s[k + 1..]
  {
    if k > 0 {
      DigitsEnd(s[1..], most - 1, k - 1);
    }
  }

  lemma TenBytesAtMost(s: seq<byte>, k: nat)
    requires k <= 10 && k <= |s| && forall j | 0 <= j < k :: s[j] >= 0x80
    requires k == 10 || k == |s| || s[k] < 0x80
    ensures ReadVarint64(s).Some? <==> k < 10 && k < |s|
    ensures k < 10 && k < |s| ==> ReadVarint64(s).value.rest == s[k + 1..]
  {
    DigitsEnd(s, 10, k);
    hide ReadDigits;
  }

  /** What is skipped of an unknown field, by the last three bits of its tag; groups are below. */
  lemma FixedSkips(s: seq<byte>, tag: nat, depth: nat)
    ensures tag % 8 == 1 ==> SkipField(s, tag, depth) == if |s| >= 8 then Some(s[8..]) else None
    ensures tag % 8 == 5 ==> SkipField(s, tag, depth) == if |s| >= 4 then Some(s[4..]) else None
    ensures tag % 8 in {4, 6, 7} ==> SkipField(s, tag, depth) == None
  {
  }

  lemma VarintSkips(w: nat, rest: seq<byte>, tag: nat, depth: nat)
    requires w < 0x1_0000_0000_0000_0000
    ensures tag % 8 == 0 ==> SkipField(Varint(w) + rest, tag, depth) == Some(rest)
    ensures tag % 8 == 2 && w < 0x1_0000_0000 ==>
              SkipField(Varint(w) + rest, tag, depth)
              == if w < 0x8000_0000 && w <= |rest| then Some(rest[w..]) else None
  {
    VarintRoundTrip(w, rest);
    hide Varint, ReadVarint64;
  }

  /** Where 32 bits are wanted the others are discarded, and the bits of a tenth byte beyond the lowest always are. */
  lemma BitsDiscarded(w: nat, last: byte, rest: seq<byte>)
    requires w < 0x1_0000_0000_0000_0000 && last < 0x80
    ensures ReadVarint32(Varint(w) + rest) == Some(Read(w % 0x1_0000_0000, rest))
    ensures ReadVarint64([0x80, 0x80, 0x80, 0x80, 0x80, 0x80, 0x80, 0x80, 0x80, last] + rest)
            == Some(Read(last as nat % 2 * 0x8000_0000_0000_0000, rest))
  {
    VarintRoundTrip(w, rest);
    hide Varint;
    EmptyDigits([0x80, 0x80, 0x80, 0x80, 0x80, 0x80, 0x80, 0x80, 0x80, last] + rest, 9, 10);
    Limits();
    hide ReadDigits, Limit;
    var v := last as nat;
    assert v * 0x8000_0000_0000_0000 == v / 2 * 0x1_0000_0000_0000_0000 + v % 2 * 0x8000_0000_0000_0000;
  }

  lemma {:induction false} EmptyDigits(s: seq<byte>, k: nat, most: nat)
    requires k < |s| && k < most && s[k] < 0x80 && forall j | 0 <= j < k :: s[j] == 0x80
    ensures ReadDigits(s, most) == Some(Read(s[k] as nat * Limit(k), s[k + 1..]))
  {
    if k > 0 {
      EmptyDigits(s[1..], k - 1, most - 1);
      assert 0x80 * (s[k] as nat * Limit(k - 1)) == s[k] as nat * Limit(k);
    }
  }

  /** A zero tag, a tag that cannot be read, and an end of a group end the loop early: the message is not accepted. */
  lemma StopsEarly(schema: Schema, s: seq<byte>)
    requires s != [] && (s[0] == 0 || s[0] == 0x0c || (|s| >= 10 && forall j | 0 <= j < 10 :: s[j] >= 0x80))
    ensures !ParseFromArray(schema, s).ok
  {
    if s[0] < 0x80 {
      assert s == [s[0]] + s[1..] && Varint(s[0] as nat) == [s[0]];
      VarintRoundTrip(s[0] as nat, s[1..]);
      if s[0] == 0x0c { EndGroupStops(schema, s); }
    } else {
      TenBytesAtMost(s, 10);
    }
    hide ReadVarint64, Varint, IsInitialized, ReadField, SkipField;
  }

  lemma EndGroupStops(schema: Schema, s: seq<byte>)
    requires ReadVarint32(s).Some? && ReadVarint32(s).value.value == 0x0c
    ensures var p := ParseLoop(schema, map[], s, RECURSION_LIMIT); !(p.ok && p.atEnd)
  {
    var i := CaseOf(schema, 1);
    hide ReadVarint32, ReadField, SkipField, CaseOf;
    assert i < |schema| ==> WireType(schema[i].kind) != 4;
  }

  /** A field whose tag has another wire type is not read, but skipped. */
  lemma OtherWireType(schema: Schema, k: nat, m: Message, fixed: seq<byte>, rest: seq<byte>, depth: nat)
    requires SchemaOk(schema) && k < |schema| && |fixed| == 4
    ensures ParseLoop(schema, m, [(schema[k].number * 8 % 0x100 + 5) as byte] + fixed + rest, depth)
            == ParseLoop(schema, m, rest, depth)
  {
    assert FieldOk(schema[k]);
    var tag := schema[k].number * 8 + 5;
    assert [tag as byte] + (fixed + rest) == [(schema[k].number * 8 % 0x100 + 5) as byte] + fixed + rest;
    assert (fixed + rest)[4..] == rest;
    hide SchemaOk, FieldOk, ParseLoop;
    FixedSkips(fixed + rest, tag, depth);
    FixedTurn(schema, m, tag as byte, fixed + rest, depth);
  }

  lemma FixedTurn(schema: Schema, m: Message, tag: byte, s: seq<byte>, depth: nat)
    requires tag < 0x80 && tag % 8 == 5
    ensures ParseLoop(schema, m, [tag] + s, depth)
            == match SkipField(s, tag as nat, depth)
               case None => Parsed(false, false, m, s)
               case Some(rest) => ParseLoop(schema, m, rest, depth)
  {
    hide SkipField, ReadField, ReadTag, CaseOf;
    ReadOneByteTag(tag, s);
  }

  /** d groups, each inside the one before: their start tags 0B and their end tags 0C. */
  function Groups(d: nat): seq<byte> {
    if d == 0 then [] else [0x0b] + Groups(d - 1) + [0x0c]
  }

  lemma {:induction false} GroupSkips(d: nat, rest: seq<byte>, depth: nat)
    ensures SkipField(Groups(d) + [0x0c] + rest, 0x0b, depth) == if d < depth then Some(rest) else None
    decreases d
  {
    var s := Groups(d) + [0x0c] + rest;
    if depth > 0 {
      GroupEnds(rest, depth - 1);
      if d == 0 {
        assert s == [0x0c] + rest;
      } else {
        var inner := Groups(d - 1) + [0x0c] + ([0x0c] + rest);
        assert s == [0x0b] + inner;
        ReadOneByteTag(0x0b, inner);
        GroupSkips(d - 1, [0x0c] + rest, depth - 1);
        GroupGoesOn(inner, rest, depth - 1);
      }
      hide Groups;
      GroupField(s, depth);
    }
  }

  lemma GroupEnds(rest: seq<byte>, depth: nat)
    ensures SkipMessage([0x0c] + rest, depth) == Skipped(0x0c, rest)
  {
    ReadOneByteTag(0x0c, rest);
  }

  lemma GroupGoesOn(inner: seq<byte>, rest: seq<byte>, depth: nat)
    requires SkipMessage([0x0c] + rest, depth) == Skipped(0x0c, rest)
    requires SkipField(inner, 0x0b, depth) in {Some([0x0c] + rest), None}
    ensures SkipMessage([0x0b] + inner, depth)
            == if SkipField(inner, 0x0b, depth).None? then SkipFailed else Skipped(0x0c, rest)
  {
    ReadOneByteTag(0x0b, inner);
  }

  lemma GroupField(s: seq<byte>, depth: nat)
    requires depth > 0
    ensures SkipField(s, 0x0b, depth)
            == match SkipMessage(s, depth - 1)
               case SkipFailed => None
               case Skipped(lastTag, rest) => if lastTag == 0x0c then Some(rest) else None
  {
  }

  lemma GroupTurn(schema: Schema, m: Message, s: seq<byte>, depth: nat)
    requires schema != [] && schema[0].number == 1 && IsScalar(schema[0].kind)
    ensures ParseLoop(schema, m, [0x0b] + s, depth)
            == match SkipField(s, 0x0b, depth)
               case None => Parsed(false, false, m, s)
               case Some(rest) => ParseLoop(schema, m, rest, depth)
  {
    hide SkipField, ReadField, ReadTag;
    ReadOneByteTag(0x0b, s);
  }

  lemma GroupsLoop(schema: Schema, d: nat)
    requires d > 0 && schema != [] && schema[0].number == 1 && IsScalar(schema[0].kind)
    ensures var p := ParseLoop(schema, map[], Groups(d), 100);
            p.m == map[] && (p.ok && p.atEnd <==> d <= 100)
  {
    hide SkipField, ParseLoop;
    var s := Groups(d - 1) + [0x0c];
    assert Groups(d) == [0x0b] + s;
    assert s == Groups(d - 1) + [0x0c] + [];
    hide Groups;
    GroupSkips(d - 1, [], 100);
    GroupTurn(schema, map[], s, 100);
    LoopAtEnd(schema, map[], 100);
  }

  lemma GroupsParse(schema: Schema, d: nat)
    requires d > 0 && schema != [] && schema[0].number == 1 && IsScalar(schema[0].kind)
    requires IsInitialized(schema, map[])
    ensures ParseFromArray(schema, Groups(d)) == FromArray(d <= 100, map[])
  {
    hide ParseLoop, Groups, IsInitialized;
    GroupsLoop(schema, d);
  }

  /** Nested groups nobody knows are skipped up to a hundred deep, and no deeper. */
  lemma HundredGroups(d: nat)
    requires d > 0
    ensures ParseFromArray(PUSH_SERVICE_CONFIG, Groups(d)) == FromArray(d <= 100, map[])
  {
    hide ParseFromArray, Groups, IsInitialized;
    EmptyPush();
    GroupsParse(PUSH_SERVICE_CONFIG, d);
  }

  lemma EmptyPush()
    ensures IsInitialized(PUSH_SERVICE_CONFIG, map[])
  {
    InitializedMeans(PUSH_SERVICE_CONFIG, map[]);
  }
}

/**
 * The generated message classes: parsing in place with the jumps from field to field, and the
 * accumulating ByteSize, SerializeWithCachedSizes and MergeFrom, against the functions of ProtoMessage.
 */
module ProtoGenerated {
  import opened Bytes
  import opened ProtoWire
  import opened ProtoMessage
  import opened ProtoStream
  import opened ProtoLaws

  /** What is left to do once the tag of case `i` has been consumed. */
  ghost function AfterTag(schema: Schema, i: nat, m: Message, s: seq<byte>, depth: nat): Parsed
    requires i < |schema|
  {
    var f := ReadField(schema[i], m, s, depth);
    if f.ok then ParseLoop(schema, f.m, f.rest, depth) else Parsed(false, false, f.m, f.rest)
  }

  /** The jump: meeting the one-byte tag of field `i` is the same as going round the loop. */
  lemma ExpectedTag(schema: Schema, i: nat, m: Message, s: seq<byte>, depth: nat)
    requires SchemaOk(schema) && i < |schema| && s != [] && s[0] as nat == Tag(schema[i])
    ensures ParseLoop(schema, m, s, depth) == AfterTag(schema, i, m, s[1..], depth)
  {
    hide ReadField;
    assert FieldOk(schema[i]);
    TagParts(schema[i]);
    ReadOneByteTag(s[0], s[1..]);
    assert s == [s[0]] + s[1..];
    CaseOfField(schema, i);
    LoopTurn(schema, i, m, s, depth);
  }

  /** The four ways one turn of the plain loop goes. */
  lemma Turn(schema: Schema, m: Message, s: seq<byte>, depth: nat)
    ensures var (t, all) := (ReadTag(s), ParseLoop(schema, m, s, depth));
            if t.value == 0 then all == Parsed(true, s == [], m, t.rest) else
            var i := CaseOf(schema, t.value / 8);
            if i < |schema| && t.value % 8 == WireType(schema[i].kind) then all == AfterTag(schema, i, m, t.rest, depth)
            else if t.value % 8 == WIRE_END_GROUP then all == Parsed(true, false, m, t.rest)
            else match ProtoWire.SkipField(t.rest, t.value, depth)
                 case None => !all.ok && all.m == m
                 case Some(rest) => all == ParseLoop(schema, m, rest, depth)
  {
  }

  /** ReadMessageNoVirtual as a function, for a length that could be read. */
  lemma NestedRead(field: Field, m: Message, s: seq<byte>, depth: nat, length: nat, rest: seq<byte>)
    requires field.kind.Nested? && depth > 0 && ReadVarint32(s) == Some(Read(length, rest))
    ensures var (inner, r) := (Limited(rest, length), ReadField(field, m, s, depth));
            var p := ParseLoop(field.kind.schema, Present(m, field.number), inner, depth - 1);
            r == FieldRead(p.ok && p.atEnd, m[field.number := Sub(p.m)], rest[|inner|..])
  {
  }

  lemma FitsTagByte(schema: Schema, i: nat)
    requires SchemaOk(schema) && i < |schema|
    ensures FieldOk(schema[i]) && 0 < Tag(schema[i]) < 0x80
  {
    assert FieldOk(schema[i]);
    TagParts(schema[i]);
  }

  /** What is written for the first of the fields, in front of the others. */
  lemma WriteFirst(fields: Schema, m: Message, r: seq<byte>)
    requires fields != [] && FieldOk(fields[0])
    ensures var f := fields[0];
            r + Serialize(fields, m)
            == (if f.number in m then (r + [Tag(f) as byte]) + EncodeValue(f, m[f.number]) else r)
               + Serialize(fields[1..], m)
  {
    hide EncodeValue;
    var f, rest := fields[0], Serialize(fields[1..], m);
    if f.number in m {
      var t, e := [Tag(f) as byte], EncodeValue(f, m[f.number]);
      assert Serialize(fields, m) == t + e + rest;
      hide Serialize;
      Regroup(r, t, e, rest);
    } else {
      assert Serialize(fields, m) == [] + rest == rest;
    }
  }

  lemma NothingToWrite(m: Message)
    ensures Serialize([], m) == []
  {
  }

  class GeneratedMessage {
    const schema: Schema
    var fields: Message

    constructor (schema: Schema, fields: Message)
      ensures this.schema == schema && this.fields == fields
    {
      this.schema, this.fields := schema, fields;
    }

    /** The code behind one label of the switch: read the value of a field whose tag is consumed. */
    method ParseField(field: Field, input: CodedInputStream) returns (ok: bool)
      requires FieldOk(field) && input.Valid() && !input.legitimateEnd
      modifies this, input
      ensures input.Valid()
      ensures var f := ReadField(field, old(fields), old(input.Left()), RECURSION_LIMIT - old(input.depth));
              ok == f.ok && fields == f.m && (ok ==> input.Left() == f.rest)
      ensures ok ==> input.limit == old(input.limit) && input.depth == old(input.depth) && !input.legitimateEnd
      decreases field, 1
    {
      hide ParseLoop, ProtoWire.ReadVarint32, ProtoWire.ReadVarint64, FromWire, NumberOk, SchemaOk;
      match field.kind {
        case Text =>
          fields := if field.number in fields then fields else fields[field.number := Str([])];
          var found, text;
          ok, found, text := input.ReadString();
          if found {
            fields := fields[field.number := Str(text)];
          }
        case Nested(sub) => ok := ParseNested(field, input);
        case _ =>
          var w;
          ok, w := input.ReadVarint64();
          if ok {
            var i := FromWire(field.kind, w);
            if NumberOk(field.kind, i) {
              fields := fields[field.number := Num(i)];
            }
          }
      }
    }

    /** ReadMessageNoVirtual into the field's own message. */
    method ParseNested(field: Field, input: CodedInputStream) returns (ok: bool)
      requires field.kind.Nested? && FieldOk(field) && input.Valid() && !input.legitimateEnd
      modifies this, input
      ensures input.Valid()
      ensures var f := ReadField(field, old(fields), old(input.Left()), RECURSION_LIMIT - old(input.depth));
              ok == f.ok && fields == f.m && (ok ==> input.Left() == f.rest)
      ensures ok ==> input.limit == old(input.limit) && input.depth == old(input.depth) && !input.legitimateEnd
      decreases field, 0
    {
      hide ParseLoop, ProtoWire.ReadVarint32, SchemaOk;
      var child := new GeneratedMessage(field.kind.schema, Present(fields, field.number));
      fields := fields[field.number := Sub(child.fields)];
      var length;
      ok, length := input.ReadVarint32();
      if !ok || input.depth == RECURSION_LIMIT {
        return false;
      }
      ghost var rest := input.Left();
      NestedRead(field, old(fields), old(input.Left()), RECURSION_LIMIT - input.depth, length, rest);
      hide ReadField;
      input.depth := input.depth + 1;
      var oldLimit := input.PushLimit(length);
      ok := child.MergePartialFromCodedStream(input);
      fields := fields[field.number := Sub(child.fields)];
      ok := ok && input.legitimateEnd;
      if ok {
        assert rest[|Limited(rest, length)|..] == input.buffer[input.pos..oldLimit];
        input.PopLimit(oldLimit);
        input.depth := input.depth - 1;
      }
    }

    /**
     * The code behind the label of case `first`, its tag consumed: after a field the parser expects the tag
     * of the next one and jumps straight to its label, and after the last one it expects the end. `back`
     * says that it goes round the loop again.
     */
    method FollowJumps(first: nat, input: CodedInputStream) returns (ok: bool, back: bool)
      requires SchemaOk(schema) && first < |schema| && input.Valid() && !input.legitimateEnd
      modifies this, input
      ensures input.Valid() && (back ==> ok)
      ensures var depth: nat := RECURSION_LIMIT - old(input.depth);
              var p := AfterTag(schema, first, old(fields), old(input.Left()), depth);
              if back then p == ParseLoop(schema, fields, input.Left(), depth)
              else ok == p.ok && fields == p.m && (ok ==> p.atEnd && input.legitimateEnd && input.pos == input.limit)
      ensures back ==> !input.legitimateEnd && |input.Left()| < |old(input.Left())|
      ensures ok ==> input.limit == old(input.limit) && input.depth == old(input.depth)
      decreases schema, 0
    {
      hide ReadField, ParseLoop, Tag, SchemaOk, FieldOk;
      ghost var depth: nat := RECURSION_LIMIT - input.depth;
      ghost var all := AfterTag(schema, first, fields, input.Left(), depth);
      var i := first;
      while true
        invariant input.Valid() && !input.legitimateEnd && input.limit == old(input.limit)
        invariant input.depth == old(input.depth)
        invariant i < |schema| && |input.Left()| <= |old(input.Left())|
        invariant all == AfterTag(schema, i, fields, input.Left(), depth)
        decreases |schema| - i
      {
        FitsTagByte(schema, i);
        ok := ParseField(schema[i], input);
        if !ok {
          return false, false;
        }
        assert all == ParseLoop(schema, fields, input.Left(), depth);
        if i + 1 < |schema| {
          FitsTagByte(schema, i + 1);
          ghost var was := input.Left();
          var jump := input.ExpectTag(Tag(schema[i + 1]) as byte);
          if !jump {
            return true, true;
          }
          ExpectedTag(schema, i + 1, fields, was, depth);
          i := i + 1;
        } else {
          var atEnd := input.ExpectAtEnd();
          if !atEnd {
            return true, true;
          }
          LoopAtEnd(schema, fields, depth);
          return true, false;
        }
      }
    }

    /** MergePartialFromCodedStream: read a tag, jump to its case, follow the jumps from there. */
    method MergePartialFromCodedStream(input: CodedInputStream) returns (ok: bool)
      requires SchemaOk(schema) && input.Valid() && !input.legitimateEnd
      modifies this, input
      ensures input.Valid()
      ensures var p := ParseLoop(schema, old(fields), old(input.Left()), RECURSION_LIMIT - old(input.depth));
              ok == p.ok && fields == p.m && (ok ==> input.legitimateEnd == p.atEnd)
      ensures ok ==> input.limit == old(input.limit) && input.depth == old(input.depth)
      ensures ok && input.legitimateEnd ==> input.pos == input.limit
      decreases schema, 1
    {
      hide ReadField, ParseLoop, ProtoWire.SkipField, CaseOf, ProtoWire.ReadTag, SchemaOk, WireType, AfterTag;
      ghost var depth: nat := RECURSION_LIMIT - input.depth;
      ghost var all := ParseLoop(schema, fields, input.Left(), depth);
      while true
        invariant input.Valid() && !input.legitimateEnd && input.limit == old(input.limit)
        invariant input.depth == old(input.depth)
        invariant all == ParseLoop(schema, fields, input.Left(), depth)
        decreases input.limit - input.pos
      {
        Turn(schema, fields, input.Left(), depth);
        var tag := input.ReadTag();
        if tag == 0 {
          return true;
        }
        var i := CaseOf(schema, tag / 8);
        if i < |schema| && tag % 8 == WireType(schema[i].kind) {
          var back;
          ok, back := FollowJumps(i, input);
          if !back {
            return ok;
          }
        } else {
          if tag % 8 == WIRE_END_GROUP {
            return true;
          }
          ok := input.SkipField(tag);
          if !ok {
            return false;
          }
        }
      }
    }

    /** ParseFromArray: clear, merge, and demand all required fields and all bytes. */
    method ParseFromArray(data: seq<byte>) returns (ok: bool)
      requires SchemaOk(schema)
      modifies this
      ensures FromArray(ok, fields) == ProtoMessage.ParseFromArray(schema, data)
    {
      hide ParseLoop, SchemaOk, IsInitialized;
      fields := map[];
      var input := new CodedInputStream(data);
      ok := MergePartialFromCodedStream(input);
      ok := ok && IsInitialized(schema, fields) && input.legitimateEnd;
    }

    /** ByteSize: the sizes of the fields whose has-bit is set, added up in declaration order. */
    method ByteSize() returns (totalSize: nat)
      ensures totalSize == ProtoMessage.ByteSize(schema, fields)
      decreases schema, 0
    {
      totalSize := 0;
      var i := 0;
      while i < |schema|
        invariant 0 <= i <= |schema|
        invariant totalSize + ProtoMessage.ByteSize(schema[i..], fields) == ProtoMessage.ByteSize(schema, fields)
      {
        assert schema[i..][1..] == schema[i + 1..];
        if schema[i].number in fields {
          var size := ValueSize(schema[i], fields[schema[i].number]);
          totalSize := totalSize + (1 + size);
        }
        i := i + 1;
      }
    }

    /** StringSize, MessageSizeNoVirtual and the varint sizes. */
    static method ValueSize(field: Field, v: Value) returns (size: nat)
      ensures size == SizeOfValue(field, v)
      decreases field, 1
    {
      match (field.kind, v) {
        case (Text, Str(s)) => size := VarintSize(|s|) + |s|;
        case (Nested(sub), Sub(m)) =>
          var child := new GeneratedMessage(sub, m);
          size := child.ByteSize();
          size := VarintSize(size) + size;
        case (Bool, _) => size := 1;
        case (_, Num(i)) => size := VarintSize(if -TWO_63 <= i then ToWire(i) else 0);
        case _ => size := 0;
      }
    }

    /** SerializeWithCachedSizes, appending to what the output already holds. */
    method SerializeWithCachedSizes(output: seq<byte>) returns (r: seq<byte>)
      requires FieldsFit(schema)
      ensures r == output + Serialize(schema, fields)
      decreases schema, 0
    {
      hide Serialize, EncodeValue, Tag;
      r := output;
      var i := 0;
      assert schema[0..] == schema;
      while i < |schema|
        invariant 0 <= i <= |schema|
        invariant r + Serialize(schema[i..], fields) == output + Serialize(schema, fields)
      {
        assert schema[i..][1..] == schema[i + 1..] && schema[i] in schema;
        WriteFirst(schema[i..], fields, r);
        if schema[i].number in fields {
          TagParts(schema[i]);
          r := r + [Tag(schema[i]) as byte];
          r := WriteValue(schema[i], fields[schema[i].number], r);
        }
        i := i + 1;
      }
      assert schema[i..] == [];
      NothingToWrite(fields);
      assert r + [] == r;
    }

    static method WriteValue(field: Field, v: Value, output: seq<byte>) returns (r: seq<byte>)
      requires FieldOk(field)
      ensures r == output + EncodeValue(field, v)
      decreases field, 1
    {
      match (field.kind, v) {
        case (Text, Str(s)) => r := output + (Varint(|s|) + s);
        case (Nested(sub), Sub(m)) =>
          var child := new GeneratedMessage(sub, m);
          var size := child.ByteSize();
          CompatibleWithSelf(sub);
          r := child.SerializeWithCachedSizes(output + Varint(size));
          assert r == output + (Varint(size) + Serialize(sub, m));
        case (_, Num(i)) => r := output + if -TWO_63 <= i then Varint(ToWire(i)) else [];
        case _ => r := output;
      }
    }

    /** MergeFrom another object of the class. */
    method MergeFrom(from: GeneratedMessage)
      requires from != this && from.schema == schema
      modifies this
      ensures fields == ProtoMessage.MergeFrom(schema, old(fields), from.fields)
      decreases schema, 0
    {
      var i := 0;
      while i < |schema|
        invariant 0 <= i <= |schema|
        invariant ProtoMessage.MergeFrom(schema[i..], fields, from.fields)
                  == ProtoMessage.MergeFrom(schema, old(fields), from.fields)
      {
        assert schema[i..][1..] == schema[i + 1..];
        if schema[i].number in from.fields {
          var v := MergedValue(schema[i], fields, from.fields[schema[i].number]);
          fields := fields[schema[i].number := v];
        }
        i := i + 1;
      }
    }

    static method MergedValue(field: Field, m: Message, v: Value) returns (r: Value)
      ensures r == MergeValue(field, m, v)
      decreases field, 1
    {
      match (field.kind, v) {
        case (Nested(sub), Sub(from)) =>
          var mine := new GeneratedMessage(sub, Present(m, field.number));
          var theirs := new GeneratedMessage(sub, from);
          mine.MergeFrom(theirs);
          r := Sub(mine.fields);
        case _ => r := v;
      }
    }
  }
}

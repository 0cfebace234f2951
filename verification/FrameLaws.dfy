/** What encodePacket and decodePacketAndHandle guarantee each other. */
module FrameLaws {
  import opened Bytes
  import Adler32
  import AdlerDetection
  import opened ProtoWire
  import opened ProtoMessage
  import opened ProtoLaws
  import opened ProtoSchemas
  import opened Frame

  lemma FixedHeaderFields(bodySize: nat, rest: seq<byte>)
    requires bodySize < TWO_31
    ensures var p := FixedHeader(bodySize) + rest;
            Int16At(p, 0) == HEADER_MAGIC && Int16At(p, 2) == HEADER_VERSION && Int32At(p, 4) == bodySize
  {
    var p := FixedHeader(bodySize) + rest;
    assert p[0..2] == Big16(HEADER_MAGIC) && p[2..4] == Big16(HEADER_VERSION) && p[4..8] == Big32(bodySize);
    Big16Inverse(HEADER_MAGIC, p, 0);
    Big16Inverse(HEADER_VERSION, p, 2);
    Big32Inverse(bodySize, p, 4);
  }

  lemma CrcRange(data: seq<byte>)
    ensures 0 <= ComputeCrc(data) < TWO_32
  {
    hide Adler32.Checksum;
    assert Adler32.Checksum(Adler32.INITIAL, data).Reduced();
  }

  lemma StoredCrc(crc: int, p: seq<byte>, at: nat)
    requires 0 <= crc < TWO_32 && at + 4 <= |p| && p[at..at + 4] == Big32(crc)
    ensures Int32At(p, at) % TWO_32 == crc
  {
    hide Big32, Int32At;
    Big32Inverse(crc, p, at);
  }

  /** The checks a sealed packet passes. */
  lemma SealedChecks(body: seq<byte>)
    requires |body| < TWO_31
    ensures var (p, end) := (Sealed(body), HEADER_LENGTH + |body|);
            && Int16At(p, 0) == HEADER_MAGIC && Int16At(p, 2) == HEADER_VERSION && Int32At(p, 4) == |body|
            && ComputeCrc(p[..end]) == Int32At(p, end) % TWO_32
            && p[HEADER_LENGTH..end] == body
  {
    hide ComputeCrc, Big16, Big32, Int16At, Int32At, FixedHeader;
    var covered := FixedHeader(|body|) + body;
    var crc := ComputeCrc(covered);
    var p, end := Sealed(body), HEADER_LENGTH + |body|;
    assert p == FixedHeader(|body|) + (body + Big32(crc));
    FixedHeaderFields(|body|, body + Big32(crc));
    assert p[..end] == covered && p[end..end + 4] == Big32(crc);
    CrcRange(covered);
    StoredCrc(crc, p, end);
  }

  /** A body of no bytes decodes as a ping. */
  lemma EmptyBodyIsPing(ks: Keystream, bodyKey: seq<byte>, keyOf: seq<byte> -> seq<byte>)
    ensures Decode(ks, Sealed([]), bodyKey, keyOf) == Ping
  {
    SealedChecks([]);
  }

  // ---------------------------------------------------------------- round trip

  lemma BodyHeaderFields(head: nat, size: nat, front: seq<byte>, rest: seq<byte>)
    requires |front| == HEADER_LENGTH && head < 0x8000 && size < TWO_31
    ensures var p := front + BodyHeader(head, size) + rest;
            Int16At(p, 8) == PROTOBUF && Int16At(p, 10) == head && Int32At(p, 12) == size
  {
    var p := front + BodyHeader(head, size) + rest;
    assert p[8..10] == Big16(PROTOBUF) && p[10..12] == Big16(head) && p[12..16] == Big32(size);
    Big16Inverse(PROTOBUF, p, 8);
    Big16Inverse(head, p, 10);
    Big32Inverse(size, p, 12);
  }

  /** What the decoder makes of a header and the payload behind it. */
  ghost function Handed(ks: Keystream, header: Message, payload: seq<byte>, keyOf: seq<byte> -> seq<byte>): Decoded {
    if Cmd(header) != SECMSG then Frame(PROTOBUF, header, payload) else
    match TryCrypt(ks, keyOf(TextField(header, ID_FIELD)), payload)
    case None => Rejected
    case Some(plain) => Frame(PROTOBUF, header, plain)
  }

  lemma DecodeParts(ks: Keystream, p: seq<byte>, header: Message, head: nat, payload: seq<byte>,
                    keyOf: seq<byte> -> seq<byte>)
    requires 16 + head + |payload| <= |p|
    requires Int16At(p, 8) == PROTOBUF && Int16At(p, 10) == head && Int32At(p, 12) == |payload|
    requires ParseFromArray(CLIENT_HEADER, p[16..16 + head]) == FromArray(true, header)
    requires p[16 + head..16 + head + |payload|] == payload
    ensures DecodeBody(ks, p, keyOf) == Handed(ks, header, payload, keyOf)
  {
    hide ParseFromArray, TryCrypt, Int16At, Int32At, TextField;
  }

  lemma RawBodySlices(front: seq<byte>, head: nat, bytes: seq<byte>, payload: seq<byte>, crc: seq<byte>)
    requires |front| == HEADER_LENGTH && |bytes| == head < 0x8000 && |payload| < TWO_31
    ensures var p := front + (BodyHeader(head, |payload|) + bytes + payload) + crc;
            && |p| == 16 + head + |payload| + |crc|
            && Int16At(p, 8) == PROTOBUF && Int16At(p, 10) == head && Int32At(p, 12) == |payload|
            && p[16..16 + head] == bytes && p[16 + head..16 + head + |payload|] == payload
  {
    hide Int16At, Int32At, BodyHeader;
    var p := front + (BodyHeader(head, |payload|) + bytes + payload) + crc;
    assert p == front + BodyHeader(head, |payload|) + (bytes + payload + crc);
    BodyHeaderFields(head, |payload|, front, bytes + payload + crc);
  }

  /** Decoding the plain body of a header and its payload, wherever the packet came from. */
  lemma DecodeRawBody(ks: Keystream, header: Message, payload: seq<byte>, front: seq<byte>, crc: seq<byte>,
                      keyOf: seq<byte> -> seq<byte>)
    requires MessageOk(CLIENT_HEADER, header) && |front| == HEADER_LENGTH
    requires ByteSize(CLIENT_HEADER, header) < 0x8000 && |payload| < TWO_31
    ensures DecodeBody(ks, front + RawBody(header, ByteSize(CLIENT_HEADER, header), payload) + crc, keyOf)
            == Handed(ks, header, payload, keyOf)
  {
    hide Serialize, ParseFromArray, MessageOk, BodyHeader, ByteSize, DecodeBody, Handed;
    var head := ByteSize(CLIENT_HEADER, header);
    var p := front + RawBody(header, head, payload) + crc;
    HeaderRoundTrip(header);
    RawBodySlices(front, head, Serialize(CLIENT_HEADER, header), payload, crc);
    DecodeParts(ks, p, header, head, payload, keyOf);
  }

  lemma {:induction false} OptionalInitialized(fields: Schema, m: Message)
    requires Flat(fields) && forall f | f in fields :: !f.required
    ensures IsInitialized(fields, m)
  {
    if fields != [] {
      assert fields[0] in fields;
      OptionalInitialized(fields[1..], m);
    }
  }

  lemma HeaderRoundTrip(header: Message)
    requires MessageOk(CLIENT_HEADER, header) && ByteSize(CLIENT_HEADER, header) < TWO_31
    ensures |Serialize(CLIENT_HEADER, header)| == ByteSize(CLIENT_HEADER, header)
    ensures ParseFromArray(CLIENT_HEADER, Serialize(CLIENT_HEADER, header)) == FromArray(true, header)
  {
    SchemasOk(CLIENT_HEADER);
    HeaderIsOptional();
    OptionalRoundTrip(CLIENT_HEADER, header);
  }

  lemma HeaderIsOptional()
    ensures Flat(CLIENT_HEADER) && forall f | f in CLIENT_HEADER :: !f.required
  {
  }

  lemma OptionalRoundTrip(schema: Schema, m: Message)
    requires SchemaOk(schema) && Depth(schema) <= 1 && Flat(schema) && forall f | f in schema :: !f.required
    requires MessageOk(schema, m) && ByteSize(schema, m) < TWO_31
    ensures |Serialize(schema, m)| == ByteSize(schema, m)
    ensures ParseFromArray(schema, Serialize(schema, m)) == FromArray(true, m)
  {
    hide Serialize, ParseFromArray, ByteSize, FieldsOk, IsInitialized;
    SizeIsLength(schema, m);
    RoundTrip(schema, m);
    OptionalInitialized(schema, m);
  }

  lemma DecodeSealed(ks: Keystream, body: seq<byte>, bodyKey: seq<byte>, keyOf: seq<byte> -> seq<byte>)
    requires 0 < |body| < TWO_31
    ensures var (p, end) := (Sealed(body), HEADER_LENGTH + |body|);
            Decode(ks, p, bodyKey, keyOf)
            == DecodeBody(ks, p[..HEADER_LENGTH] + (if bodyKey == [] then body else Crypt(ks, bodyKey, body))
                              + p[end..], keyOf)
  {
    hide ComputeCrc, Int16At, Int32At, DecodeBody, Crypt, Sealed;
    SealedChecks(body);
    var p, end := Sealed(body), HEADER_LENGTH + |body|;
    assert p == p[..HEADER_LENGTH] + body + p[end..];
  }

  /** The body key the receiving end holds: none before the answer to CONN. */
  function ReceiverKey(header: Message, bodyKey: seq<byte>): seq<byte> {
    if Cmd(header) == CONN then [] else bodyKey
  }

  lemma DecodeFinal(ks: Keystream, header: Message, payload: seq<byte>, final: seq<byte>, bodyKey: seq<byte>,
                    keyOf: seq<byte> -> seq<byte>)
    requires MessageOk(CLIENT_HEADER, header) && 0 < ByteSize(CLIENT_HEADER, header) < 0x8000
    requires 0 < |final| < TWO_31 && |payload| < TWO_31
    requires var raw := RawBody(header, ByteSize(CLIENT_HEADER, header), payload);
             if Cmd(header) == CONN then final == raw else bodyKey != [] && final == Crypt(ks, bodyKey, raw)
    ensures Decode(ks, Sealed(final), ReceiverKey(header, bodyKey), keyOf) == Handed(ks, header, payload, keyOf)
  {
    hide Decode, DecodeBody, RawBody, Sealed, Crypt, MessageOk, ByteSize, Handed;
    var raw := RawBody(header, ByteSize(CLIENT_HEADER, header), payload);
    var key := ReceiverKey(header, bodyKey);
    CryptTwice(ks, bodyKey, raw);
    DecodeSealed(ks, final, key, keyOf);
    DecodeRawBody(ks, header, payload, Sealed(final)[..HEADER_LENGTH], Sealed(final)[HEADER_LENGTH + |final|..], keyOf);
  }

  lemma {:induction false} PresentFieldHasSize(fields: Schema, m: Message, f: Field)
    requires f in fields && f.number in m
    ensures ByteSize(fields, m) > 0
  {
    if f != fields[0] {
      PresentFieldHasSize(fields[1..], m, f);
    }
  }

  lemma CommandHasSize(header: Message)
    requires CMD_FIELD in header
    ensures ByteSize(CLIENT_HEADER, header) > 0
  {
    hide ByteSize;
    assert CLIENT_HEADER[4] == Field(CMD_FIELD, false, Text);
    PresentFieldHasSize(CLIENT_HEADER, header, Field(CMD_FIELD, false, Text));
  }

  /** What the sender put into the packet besides the header. */
  function Plain(message: Option<seq<byte>>): seq<byte> {
    if message.Some? then message.value else []
  }

  /** The two ends can talk: a body key after the handshake, and for SECMSG a payload and the key for it. */
  ghost predicate KeysAgree(header: Message, message: Option<seq<byte>>, bodyKey: seq<byte>,
                            keyOf: seq<byte> -> seq<byte>)
  {
    && (Cmd(header) != CONN ==> bodyKey != [])
    && (Cmd(header) == SECMSG ==> Plain(message) != [] && keyOf(TextField(header, ID_FIELD)) != [])
  }

  ghost function Encrypted(ks: Keystream, header: Message, message: Option<seq<byte>>, payloadKey: seq<byte>)
    : (r: seq<byte>)
    ensures |r| == |Plain(message)|
  {
    if Cmd(header) == SECMSG then Crypt(ks, payloadKey, Plain(message)) else Plain(message)
  }

  lemma PayloadOf(ks: Keystream, header: Message, message: Option<seq<byte>>, bodyKey: seq<byte>,
                  keyOf: seq<byte> -> seq<byte>)
    requires KeysAgree(header, message, bodyKey, keyOf)
    ensures var key := keyOf(TextField(header, ID_FIELD));
            && FinalPayload(ks, header, message, key) == Some(Encrypted(ks, header, message, key))
            && Handed(ks, header, Encrypted(ks, header, message, key), keyOf) == Frame(PROTOBUF, header, Plain(message))
  {
    CryptTwice(ks, keyOf(TextField(header, ID_FIELD)), Plain(message));
  }

  /** The body encodePacket seals when the header is short enough for its length field. */
  lemma EncodeShort(ks: Keystream, header: Message, message: Option<seq<byte>>, bodyKey: seq<byte>,
                    payloadKey: seq<byte>, payload: seq<byte>, size: nat)
    requires CMD_FIELD in header && size == ByteSize(CLIENT_HEADER, header) == |Serialize(CLIENT_HEADER, header)|
    requires 0 < size < 0x8000 && (Cmd(header) != CONN ==> bodyKey != [])
    requires FinalPayload(ks, header, message, payloadKey) == Some(payload)
    ensures var raw := RawBody(header, size, payload);
            && |raw| == 8 + size + |payload|
            && Encode(ks, header, message, bodyKey, payloadKey)
               == Packet(Sealed(if Cmd(header) == CONN then raw else Crypt(ks, bodyKey, raw)))
  {
    hide ByteSize, Serialize, FinalPayload, Sealed, BodyHeader, Crypt;
    assert ToInt16(size) == size;
  }

  /** A longer one is encoded as a ping or overruns its buffer. */
  lemma EncodeLong(ks: Keystream, header: Message, message: Option<seq<byte>>, bodyKey: seq<byte>,
                   payloadKey: seq<byte>, payload: seq<byte>, size: nat)
    requires CMD_FIELD in header && size == ByteSize(CLIENT_HEADER, header) == |Serialize(CLIENT_HEADER, header)|
    requires size >= 0x8000 && (Cmd(header) != CONN ==> bodyKey != [])
    requires FinalPayload(ks, header, message, payloadKey) == Some(payload)
    ensures Encode(ks, header, message, bodyKey, payloadKey)
            == if ToInt16(size) <= 0 then Packet(Sealed([])) else Overrun
  {
    hide ByteSize, Serialize, FinalPayload, Sealed, BodyHeader, Crypt;
    assert ToInt16(size) < size;
  }

  /**
   * Round trip. A header with a command, its payload and the keys both ends hold: decoding the encoded
   * packet gives all of it back if and only if the header is shorter than 2^15 bytes.
   */
  lemma FrameRoundTrip(ks: Keystream, header: Message, message: Option<seq<byte>>, bodyKey: seq<byte>,
                       keyOf: seq<byte> -> seq<byte>)
    requires CMD_FIELD in header && MessageOk(CLIENT_HEADER, header) && KeysAgree(header, message, bodyKey, keyOf)
    requires ByteSize(CLIENT_HEADER, header) + |Plain(message)| + 20 < TWO_31
    ensures var e := Encode(ks, header, message, bodyKey, keyOf(TextField(header, ID_FIELD)));
            ByteSize(CLIENT_HEADER, header) < 0x8000
            <==> e.Packet? && Decode(ks, e.bytes, ReceiverKey(header, bodyKey), keyOf)
                              == Frame(PROTOBUF, header, Plain(message))
  {
    hide ByteSize, Serialize, FinalPayload, Handed, Decode, Encode, RawBody, MessageOk, Sealed, Crypt;
    var size, key := ByteSize(CLIENT_HEADER, header), keyOf(TextField(header, ID_FIELD));
    var payload := Encrypted(ks, header, message, key);
    HeaderRoundTrip(header);
    CommandHasSize(header);
    PayloadOf(ks, header, message, bodyKey, keyOf);
    if size < 0x8000 {
      EncodeShort(ks, header, message, bodyKey, key, payload, size);
      var raw := RawBody(header, size, payload);
      DecodeFinal(ks, header, payload, if Cmd(header) == CONN then raw else Crypt(ks, bodyKey, raw), bodyKey, keyOf);
    } else {
      EncodeLong(ks, header, message, bodyKey, key, payload, size);
      EmptyBodyIsPing(ks, ReceiverKey(header, bodyKey), keyOf);
    }
  }

  // ---------------------------------------------------------------- the headers the client makes

  const SERVER: seq<byte> := [120, 105, 97, 111, 109, 105, 46, 99, 111, 109]
  const CS_REQ: int := 2

  /** createClientHeader: everything but the error fields and the subcommand. */
  function ClientHeader(chid: int, uuid: int, resource: seq<byte>, cmd: seq<byte>, id: seq<byte>, cipher: int)
    : Message
  {
    map[1 := Num(chid), 2 := Num(uuid), 3 := Str(SERVER), 4 := Str(resource), CMD_FIELD := Str(cmd),
        ID_FIELD := Str(id), 8 := Num(CS_REQ), 9 := Num(cipher)]
  }

  lemma {:induction false} FieldsOkFrom(fields: Schema, m: Message)
    requires forall f | f in fields && f.number in m :: ValueOk(f, m[f.number])
    ensures FieldsOk(fields, m)
  {
    if fields != [] {
      assert fields[0] in fields;
      FieldsOkFrom(fields[1..], m);
    }
  }

  /** The bytes of the texts in a message, and at most 12 more for every field. */
  function TextBytes(fields: Schema, m: Message): nat {
    if fields == [] then 0 else
      (if fields[0].number in m && fields[0].kind.Text? && m[fields[0].number].Str? then |m[fields[0].number].s| else 0)
      + TextBytes(fields[1..], m)
  }

  lemma {:induction false} SizeByTexts(fields: Schema, m: Message)
    requires Flat(fields)
    ensures TextBytes(fields, m) <= ByteSize(fields, m) <= TextBytes(fields, m) + 11 * |fields|
  {
    if fields != [] {
      assert fields[0] in fields;
      SizeByTexts(fields[1..], m);
    }
  }

  /** CLIENT_HEADER, one property at a time. */
  ghost predicate HeaderLike(f: Schema) {
    && |f| == 11 && (forall k | 0 <= k < 11 :: f[k].number == k + 1)
    && f[0].kind == Int32 && f[1].kind == Int64 && f[7].kind.Enum? && CS_REQ in f[7].kind.valid && f[8].kind == Int32
    && f[9].kind == Int32 && (forall k | k in {2, 3, 4, 5, 6, 10} :: f[k].kind == Text)
  }

  lemma ClientHeaderLike()
    ensures HeaderLike(CLIENT_HEADER) && Flat(CLIENT_HEADER)
  {
  }

  /** The fields createClientHeader sets. */
  ghost predicate HasHeaderFields(h: Message, chid: int, uuid: int, resource: seq<byte>, cmd: seq<byte>, id: seq<byte>,
                                  cipher: int)
  {
    && h.Keys == {1, 2, 3, 4, 5, 7, 8, 9}
    && h[1] == Num(chid) && h[2] == Num(uuid) && h[3] == Str(SERVER) && h[4] == Str(resource) && h[5] == Str(cmd)
    && h[7] == Str(id) && h[8] == Num(CS_REQ) && h[9] == Num(cipher)
  }

  lemma TextsOfHeader(f: Schema, h: Message, chid: int, uuid: int, resource: seq<byte>, cmd: seq<byte>, id: seq<byte>,
                      cipher: int)
    requires HeaderLike(f) && HasHeaderFields(h, chid, uuid, resource, cmd, id, cipher)
    ensures TextBytes(f, h) == 10 + |resource| + |cmd| + |id|
  {
    hide TextBytes;
    TextStep(f, h, 0); TextStep(f, h, 1); TextStep(f, h, 2); TextStep(f, h, 3);
    TextStep(f, h, 4); TextStep(f, h, 5); TextStep(f, h, 6); TextStep(f, h, 7);
    TextStep(f, h, 8); TextStep(f, h, 9); TextStep(f, h, 10);
    NoTexts(h);
    assert f[0..] == f && f[11..] == [];
  }

  lemma NoTexts(m: Message)
    ensures TextBytes([], m) == 0
  {
  }

  lemma HeaderValuesOk(f: Schema, h: Message, chid: int, uuid: int, resource: seq<byte>, cmd: seq<byte>, id: seq<byte>,
                       cipher: int)
    requires HeaderLike(f) && HasHeaderFields(h, chid, uuid, resource, cmd, id, cipher)
    requires IsInt32(chid) && -TWO_63 <= uuid < TWO_63 && IsInt32(cipher)
    ensures MessageOk(f, h)
  {
    hide FieldsOk;
    forall g | g in f && g.number in h ensures ValueOk(g, h[g.number]) {
      var k :| 0 <= k < 11 && f[k] == g;
    }
    FieldsOkFrom(f, h);
    forall n | n in h.Keys ensures n in Numbers(f) {
      assert f[n - 1].number == n;
    }
  }

  lemma TextStep(fields: Schema, m: Message, k: nat)
    requires k < |fields|
    ensures var f := fields[k];
            TextBytes(fields[k..], m)
            == (if f.number in m && f.kind.Text? && m[f.number].Str? then |m[f.number].s| else 0)
               + TextBytes(fields[k + 1..], m)
  {
    assert fields[k..][1..] == fields[k + 1..];
  }

  /** It is well formed, and as long as its texts with at most 131 bytes more. */
  lemma ClientHeaderOk(chid: int, uuid: int, resource: seq<byte>, cmd: seq<byte>, id: seq<byte>, cipher: int)
    requires IsInt32(chid) && -TWO_63 <= uuid < TWO_63 && IsInt32(cipher)
    ensures var h := ClientHeader(chid, uuid, resource, cmd, id, cipher);
            && MessageOk(CLIENT_HEADER, h)
            && 10 + |resource| + |cmd| + |id| <= ByteSize(CLIENT_HEADER, h) <= 131 + |resource| + |cmd| + |id|
            && Cmd(h) == cmd && TextField(h, ID_FIELD) == id
  {
    hide ByteSize, FieldsOk, TextBytes, MessageOk, HeaderLike, Flat;
    var h := ClientHeader(chid, uuid, resource, cmd, id, cipher);
    ClientHeaderLike();
    HeaderValuesOk(CLIENT_HEADER, h, chid, uuid, resource, cmd, id, cipher);
    SizeByTexts(CLIENT_HEADER, h);
    TextsOfHeader(CLIENT_HEADER, h, chid, uuid, resource, cmd, id, cipher);
  }

  /**
   * The first packet of a session, with whatever ids and names the user has: its payload comes back if and
   * only if its header is shorter than 2^15 bytes, which it is unless its names take up all of that; from
   * there up to 2^16 it is sent as a ping.
   */
  lemma ConnRoundTrip(ks: Keystream, chid: int, uuid: int, resource: seq<byte>, id: seq<byte>, message: seq<byte>,
                      keyOf: seq<byte> -> seq<byte>)
    requires IsInt32(chid) && -TWO_63 <= uuid < TWO_63
    requires |resource| + |id| + |message| + 155 < TWO_31
    ensures var h := ClientHeader(chid, uuid, resource, CONN, id, 0);
            var e := Encode(ks, h, Some(message), [], keyOf(id));
            && (ByteSize(CLIENT_HEADER, h) < 0x8000
                <==> e.Packet? && Decode(ks, e.bytes, [], keyOf) == Frame(PROTOBUF, h, message))
            && (|resource| + |id| < 0x7f79 ==> ByteSize(CLIENT_HEADER, h) < 0x8000)
            && (0x7ff2 <= |resource| + |id| <= 0xff79 ==> e == Packet(Sealed([])))
  {
    hide Encode, Decode, ByteSize, MessageOk, ClientHeader, Sealed, TextField;
    var h := ClientHeader(chid, uuid, resource, CONN, id, 0);
    ClientHeaderOk(chid, uuid, resource, CONN, id, 0);
    assert CONN != SECMSG && |CONN| == 4;
    HasCommand(chid, uuid, resource, CONN, id, 0);
    FrameRoundTrip(ks, h, Some(message), [], keyOf);
    if 0x7ff2 <= |resource| + |id| <= 0xff79 {
      LongHeaderIsPing(ks, h, message, [], keyOf(id));
    }
  }

  /** A header of 2^15 to 2^16 bytes makes a ping. */
  lemma LongHeaderIsPing(ks: Keystream, h: Message, message: seq<byte>, bodyKey: seq<byte>, payloadKey: seq<byte>)
    requires CMD_FIELD in h && MessageOk(CLIENT_HEADER, h) && Cmd(h) == CONN
    requires 0x8000 <= ByteSize(CLIENT_HEADER, h) <= 0x1_0000
    ensures Encode(ks, h, Some(message), bodyKey, payloadKey) == Packet(Sealed([]))
  {
    hide Encode, ByteSize, MessageOk, Sealed, Serialize, FinalPayload, ToInt16, TextField;
    HeaderRoundTrip(h);
    PlainPayload(ks, h, message, payloadKey);
    TruncatedSize(ByteSize(CLIENT_HEADER, h));
    EncodeLong(ks, h, Some(message), bodyKey, payloadKey, message, ByteSize(CLIENT_HEADER, h));
  }

  lemma PlainPayload(ks: Keystream, h: Message, message: seq<byte>, payloadKey: seq<byte>)
    requires Cmd(h) == CONN
    ensures FinalPayload(ks, h, Some(message), payloadKey) == Some(message)
  {
    assert |CONN| != |SECMSG|;
  }

  lemma TruncatedSize(size: nat)
    requires 0x8000 <= size <= 0x1_0000
    ensures ToInt16(size) <= 0
  {
  }

  lemma HasCommand(chid: int, uuid: int, resource: seq<byte>, cmd: seq<byte>, id: seq<byte>, cipher: int)
    ensures CMD_FIELD in ClientHeader(chid, uuid, resource, cmd, id, cipher)
  {
  }

  /** Without a command the packet is a ping, whatever message and keys came with it. */
  lemma PingRoundTrip(ks: Keystream, header: Message, message: Option<seq<byte>>, bodyKey: seq<byte>,
                      payloadKey: seq<byte>, receiverKey: seq<byte>, keyOf: seq<byte> -> seq<byte>)
    requires CMD_FIELD !in header
    ensures var e := Encode(ks, header, message, bodyKey, payloadKey);
            e.Packet? && Decode(ks, e.bytes, receiverKey, keyOf) == Ping
  {
    EmptyBodyIsPing(ks, receiverKey, keyOf);
  }

  /** A SECMSG without a message is sent, but no receiver accepts it. */
  lemma SecmsgNeedsPayload(ks: Keystream, header: Message, bodyKey: seq<byte>, payloadKey: seq<byte>,
                           keyOf: seq<byte> -> seq<byte>)
    requires CMD_FIELD in header && MessageOk(CLIENT_HEADER, header) && Cmd(header) == SECMSG && bodyKey != []
    requires ByteSize(CLIENT_HEADER, header) < 0x8000
    ensures var e := Encode(ks, header, None, bodyKey, payloadKey);
            e.Packet? && Decode(ks, e.bytes, bodyKey, keyOf) == Rejected
    ensures Encode(ks, header, Some([]), bodyKey, payloadKey) == EncodeFailed
  {
    hide ByteSize, Serialize, Decode, RawBody, MessageOk, Sealed, Crypt;
    var size := ByteSize(CLIENT_HEADER, header);
    HeaderRoundTrip(header);
    CommandHasSize(header);
    EncodeShort(ks, header, None, bodyKey, payloadKey, [], size);
    DecodeFinal(ks, header, [], Crypt(ks, bodyKey, RawBody(header, size, [])), bodyKey, keyOf);
  }

  // ---------------------------------------------------------------- corruption

  /** What encodePacket returns is always a sealed body. */
  lemma EncodedIsSealed(ks: Keystream, header: Message, message: Option<seq<byte>>, bodyKey: seq<byte>,
                        payloadKey: seq<byte>)
    returns (body: seq<byte>)
    requires Encode(ks, header, message, bodyKey, payloadKey).Packet?
    ensures Encode(ks, header, message, bodyKey, payloadKey).bytes == Sealed(body)
  {
    hide Sealed, Serialize, ByteSize, RawBody, FinalPayload;
    body := [];
    var head := ToInt16(ByteSize(CLIENT_HEADER, header));
    if CMD_FIELD in header && head > 0 {
      var raw := RawBody(header, head, FinalPayload(ks, header, message, payloadKey).value);
      body := if Cmd(header) == CONN then raw else Crypt(ks, bodyKey, raw);
    }
  }

  /** A packet with the right length field is rejected if its checksum differs from its trailer. */
  lemma WrongChecksum(ks: Keystream, q: seq<byte>, bodyKey: seq<byte>, keyOf: seq<byte> -> seq<byte>)
    requires |q| >= HEADER_LENGTH + BODY_CRC_LEN && Int32At(q, 4) == |q| - 12
    requires ComputeCrc(q[..|q| - 4]) != Int32At(q, |q| - 4) % TWO_32
    ensures Decode(ks, q, bodyKey, keyOf) == Rejected
  {
    hide ComputeCrc, Int32At, DecodeBody;
  }

  lemma CrcDiffers(a: seq<byte>, b: seq<byte>)
    requires Adler32.Checksum(Adler32.INITIAL, a) != Adler32.Checksum(Adler32.INITIAL, b)
    ensures ComputeCrc(a) != ComputeCrc(b)
  {
    hide Adler32.Checksum;
    var x, y := Adler32.Checksum(Adler32.INITIAL, a), Adler32.Checksum(Adler32.INITIAL, b);
    assert x.Reduced() && y.Reduced();
  }

  lemma Int32Residue(s: seq<byte>, t: seq<byte>, i: nat)
    requires i + 4 <= |s| && i + 4 <= |t| && Int32At(s, i) % TWO_32 == Int32At(t, i) % TWO_32
    ensures s[i..i + 4] == t[i..i + 4]
  {
    hide Int32At;
    Int32AtInjective(s, t, i);
  }

  /** Changing any one byte of a sealed packet outside its length field gets it rejected. */
  lemma ByteChangeRejected(ks: Keystream, body: seq<byte>, i: nat, y: byte, bodyKey: seq<byte>,
                           keyOf: seq<byte> -> seq<byte>)
    requires |body| < TWO_31 && i < |Sealed(body)| && !(4 <= i < 8) && y != Sealed(body)[i]
    ensures Decode(ks, Sealed(body)[i := y], bodyKey, keyOf) == Rejected
  {
    hide Sealed, ComputeCrc, Int16At, Int32At, DecodeBody, Adler32.Checksum;
    var p, end := Sealed(body), HEADER_LENGTH + |body|;
    var q := p[i := y];
    SealedChecks(body);
    if i < 4 {
      if Int16At(q, 0) == Int16At(p, 0) { Int16AtInjective(q, p, 0); }
      if Int16At(q, 2) == Int16At(p, 2) { Int16AtInjective(q, p, 2); }
    } else {
      SameInt32(p, q, 4);
      if i < end {
        assert q[..end] == p[..end][i := y];
        AdlerDetection.ByteChangeDetected(Adler32.INITIAL, p[..end], i, y);
        CrcDiffers(p[..end], q[..end]);
        SameInt32(p, q, end);
      } else {
        assert q[..end] == p[..end];
        if Int32At(q, end) % TWO_32 == Int32At(p, end) % TWO_32 {
          Int32Residue(q, p, end);
          SliceAt(q, p, end, i - end);
        }
      }
      WrongChecksum(ks, q, bodyKey, keyOf);
    }
  }

  lemma SameInt32(p: seq<byte>, q: seq<byte>, i: nat)
    requires i + 4 <= |p| && i + 4 <= |q| && p[i..i + 4] == q[i..i + 4]
    ensures Int32At(p, i) == Int32At(q, i)
  {
    SliceAt(p, q, i, 0);
    SliceAt(p, q, i, 1);
    SliceAt(p, q, i, 2);
    SliceAt(p, q, i, 3);
  }

  lemma SliceAt(p: seq<byte>, q: seq<byte>, i: nat, k: nat)
    requires i + 4 <= |p| && i + 4 <= |q| && p[i..i + 4] == q[i..i + 4] && k < 4
    ensures p[i + k] == q[i + k]
  {
    assert p[i..i + 4][k] == q[i..i + 4][k];
  }

  /**
   * Swapping two body bytes gets the packet rejected unless they are equal or a multiple of 65521
   * positions apart; in those cases the checksum does not notice.
   */
  lemma SwapRejected(ks: Keystream, body: seq<byte>, i: nat, j: nat, bodyKey: seq<byte>, keyOf: seq<byte> -> seq<byte>)
    requires |body| < TWO_31 && 8 <= i < j < HEADER_LENGTH + |body|
    ensures var (p, end) := (Sealed(body), HEADER_LENGTH + |body|);
            var q := AdlerDetection.Swap(p, i, j);
            && (ComputeCrc(q[..end]) == Int32At(q, end) % TWO_32
                <==> p[i] == p[j] || (j - i) % Adler32.BASE == 0)
            && (p[i] != p[j] && (j - i) % Adler32.BASE != 0 ==> Decode(ks, q, bodyKey, keyOf) == Rejected)
  {
    hide Sealed, ComputeCrc, Int16At, Int32At, DecodeBody, Adler32.Checksum;
    var p, end := Sealed(body), HEADER_LENGTH + |body|;
    var q := AdlerDetection.Swap(p, i, j);
    SealedChecks(body);
    SameInt32(p, q, 4);
    SameInt32(p, q, end);
    assert q[..end] == AdlerDetection.Swap(p[..end], i, j);
    AdlerDetection.SwapDetected(Adler32.INITIAL, p[..end], i, j);
    if p[i] != p[j] && (j - i) % Adler32.BASE != 0 {
      CrcDiffers(p[..end], q[..end]);
      WrongChecksum(ks, q, bodyKey, keyOf);
    } else {
      CrcSame(p[..end], q[..end]);
    }
  }

  lemma CrcSame(a: seq<byte>, b: seq<byte>)
    requires Adler32.Checksum(Adler32.INITIAL, a) == Adler32.Checksum(Adler32.INITIAL, b)
    ensures ComputeCrc(a) == ComputeCrc(b)
  {
  }

  /** Both, for what encodePacket produced. */
  lemma CorruptedPacketRejected(ks: Keystream, header: Message, message: Option<seq<byte>>, bodyKey: seq<byte>,
                                payloadKey: seq<byte>, i: nat, j: nat, y: byte, receiverKey: seq<byte>,
                                keyOf: seq<byte> -> seq<byte>)
    requires Encode(ks, header, message, bodyKey, payloadKey).Packet?
    ensures var p := Encode(ks, header, message, bodyKey, payloadKey).bytes;
            && (i < |p| < TWO_31 && !(4 <= i < 8) && y != p[i]
                ==> Decode(ks, p[i := y], receiverKey, keyOf) == Rejected)
            && (8 <= i < j < |p| - BODY_CRC_LEN && |p| < TWO_31 && p[i] != p[j] && j - i < Adler32.BASE
                ==> Decode(ks, AdlerDetection.Swap(p, i, j), receiverKey, keyOf) == Rejected)
  {
    hide Encode, Sealed, Decode;
    var body := EncodedIsSealed(ks, header, message, bodyKey, payloadKey);
    var p := Sealed(body);
    if i < |p| < TWO_31 && !(4 <= i < 8) && y != p[i] {
      ByteChangeRejected(ks, body, i, y, receiverKey, keyOf);
    }
    if 8 <= i < j < |p| - BODY_CRC_LEN && |p| < TWO_31 && p[i] != p[j] && j - i < Adler32.BASE {
      SwapRejected(ks, body, i, j, receiverKey, keyOf);
    }
  }

  // ---------------------------------------------------------------- the layout, byte by byte

  /** The ping on the wire: magic, version, length 0, and the Adler-32 checksum of those eight bytes. */
  lemma PingBytes()
    ensures Sealed([]) == [0xc2, 0xfe, 0x00, 0x05, 0, 0, 0, 0, 0x0d, 0x23, 0x01, 0xc6]
  {
    var h: seq<byte> := [0xc2, 0xfe, 0x00, 0x05, 0, 0, 0, 0];
    PingHeader();
    PingCrc(h);
    hide ComputeCrc, FixedHeader, Big32;
    assert h + [] == h;
    assert Sealed([]) == h + Big32(0x0d23_01c6);
    PingTrailer();
  }

  lemma PingHeader()
    ensures FixedHeader(0) == [0xc2, 0xfe, 0x00, 0x05, 0, 0, 0, 0]
  {
    assert Big16(HEADER_MAGIC) == [0xc2, 0xfe] && Big16(HEADER_VERSION) == [0x00, 0x05] && Big32(0) == [0, 0, 0, 0];
  }

  lemma PingTrailer()
    ensures Big32(0x0d23_01c6) == [0x0d, 0x23, 0x01, 0xc6]
  {
  }

  lemma PingCrc(h: seq<byte>)
    requires h == [0xc2, 0xfe, 0x00, 0x05, 0, 0, 0, 0]
    ensures ComputeCrc(h) == 0x0d23_01c6
  {
    hide Adler32.Checksum;
    NextByte(h, 0, 1, 0);
    NextByte(h, 1, 195, 195);
    NextByte(h, 2, 449, 644);
    NextByte(h, 3, 449, 1093);
    NextByte(h, 4, 454, 1547);
    NextByte(h, 5, 454, 2001);
    NextByte(h, 6, 454, 2455);
    NextByte(h, 7, 454, 2909);
    assert h[..8] == h;
  }

  /** Small sums need no reduction. */
  lemma NextByte(data: seq<byte>, k: nat, s1: nat, s2: nat)
    requires k < |data| && s1 < 0x1000 && s2 < 0x1000
    requires if k == 0 then s1 == 1 && s2 == 0
             else Adler32.Checksum(Adler32.INITIAL, data[..k]) == Adler32.Sums(s1, s2)
    ensures Adler32.Checksum(Adler32.INITIAL, data[..k + 1])
            == Adler32.Sums(s1 + data[k] as int, s2 + s1 + data[k] as int)
  {
    assert data[..k + 1][..k] == data[..k] && (k == 0 ==> data[..k] == []);
  }
}

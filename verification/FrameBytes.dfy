/**
 * What encodePacket puts on the wire, byte by byte, and what decodePacketAndHandle makes of any bytes: which parts are
 * encrypted, for which commands, with which key, and what is rejected.
 */
module FrameBytes {
  import opened Bytes
  import Adler32
  import opened ProtoWire
  import opened ProtoMessage
  import opened ProtoSchemas
  import opened Frame
  import opened FrameLaws

  /** The commands are texts. */
  ghost predicate IsText(bytes: seq<byte>, text: string) {
    |bytes| == |text| && forall k | 0 <= k < |text| :: bytes[k] as int == text[k] as int
  }

  lemma Commands()
    ensures IsText(CONN, "CONN") && IsText(BIND, "BIND") && IsText(KICK, "KICK") && IsText(SECMSG, "SECMSG")
    ensures IsText(SERVER, "xiaomi.com") && CS_REQ == 2
  {
  }

  /** The cipher is the exclusive or, bit by bit: a zero of the keystream leaves a bit alone, a one flips it. */
  lemma CipherBits(x: byte)
    ensures XorByte(x, 0) == x && XorByte(x, 255) == 255 - x
  {
    assert PowerOfTwo(8) == 0x100;
    Zeros(x as nat, 8);
    Ones(x as nat, 8);
  }

  lemma {:induction false} Zeros(x: nat, n: nat)
    requires x < PowerOfTwo(n)
    ensures Xor(x, 0, n) == x
  {
    if n > 0 { Zeros(x / 2, n - 1); }
  }

  lemma {:induction false} Ones(x: nat, n: nat)
    requires x < PowerOfTwo(n)
    ensures Xor(x, PowerOfTwo(n) - 1, n) == PowerOfTwo(n) - 1 - x
  {
    if n > 0 {
      Ones(x / 2, n - 1);
      OddHalf(PowerOfTwo(n - 1));
    }
  }

  lemma OddHalf(half: nat)
    requires half > 0
    ensures (2 * half - 1) / 2 == half - 1 && (2 * half - 1) % 2 == 1
  {
  }

  /** The plain body: payload type 2, the header's length, the payload's length, the header, the payload. */
  function Body(header: seq<byte>, payload: seq<byte>): seq<byte> {
    [0, 2] + [(|header| / 0x100 % 0x100) as byte, (|header| % 0x100) as byte]
    + [(|payload| / 0x100_0000 % 0x100) as byte, (|payload| / 0x1_0000 % 0x100) as byte,
       (|payload| / 0x100 % 0x100) as byte, (|payload| % 0x100) as byte]
    + header + payload
  }

  lemma BodyIs(header: Message, payload: seq<byte>, size: nat)
    requires size == |Serialize(CLIENT_HEADER, header)|
    ensures RawBody(header, size, payload) == Body(Serialize(CLIENT_HEADER, header), payload)
  {
    hide Serialize;
    assert Big16(PROTOBUF) == [0, 2];
  }

  /**
   * For any header with a command in its field 5 that is shorter than 2^15 bytes, any message and any keys.
   * "SECMSG": the message is encrypted with the payload key, and it fails without one or without a message text.
   * Any command but "CONN": the body is encrypted with the body key, and it fails without one. "CONN": the body
   * is sent in the clear.
   */
  lemma EncodeDecides(ks: Keystream, header: Message, cmd: seq<byte>, message: Option<seq<byte>>, bodyKey: seq<byte>,
                      payloadKey: seq<byte>)
    requires MessageOk(CLIENT_HEADER, header) && 5 in header && header[5] == Str(cmd)
    requires ByteSize(CLIENT_HEADER, header) < 0x8000
    ensures var e := Encode(ks, header, message, bodyKey, payloadKey);
            var secret := IsText(cmd, "SECMSG") && message.Some?;
            if (secret && (message.value == [] || payloadKey == [])) || (!IsText(cmd, "CONN") && bodyKey == [])
            then e == EncodeFailed
            else
              var plain := if message.Some? then message.value else [];
              var payload := if secret then Crypt(ks, payloadKey, plain) else plain;
              var body := Body(Serialize(CLIENT_HEADER, header), payload);
              e == Packet(Sealed(if IsText(cmd, "CONN") then body else Crypt(ks, bodyKey, body)))
  {
    hide ByteSize, Serialize, MessageOk, Sealed, Crypt, Body, RawBody, FinalPayload, IsText, Encode;
    var size := ByteSize(CLIENT_HEADER, header);
    HeaderRoundTrip(header);
    CommandHasSize(header);
    CommandIs(cmd);
    PayloadDecides(ks, header, cmd, message, payloadKey);
    assert Cmd(header) == cmd;
    hide Cmd;
    var payload := FinalPayload(ks, header, message, payloadKey);
    if payload.None? || (cmd != CONN && bodyKey == []) {
      NothingToSend(ks, header, message, bodyKey, payloadKey, size);
    } else {
      BodyIs(header, payload.value, size);
      EncodeShort(ks, header, message, bodyKey, payloadKey, payload.value, size);
    }
  }

  lemma NothingToSend(ks: Keystream, header: Message, message: Option<seq<byte>>, bodyKey: seq<byte>,
                      payloadKey: seq<byte>, size: nat)
    requires 5 in header && 0 < size == ByteSize(CLIENT_HEADER, header) < 0x8000
    requires FinalPayload(ks, header, message, payloadKey).None? || (Cmd(header) != CONN && bodyKey == [])
    ensures Encode(ks, header, message, bodyKey, payloadKey) == EncodeFailed
  {
    hide ByteSize, FinalPayload, RawBody, Sealed, Cmd;
  }

  lemma PayloadDecides(ks: Keystream, header: Message, cmd: seq<byte>, message: Option<seq<byte>>, key: seq<byte>)
    requires 5 in header && header[5] == Str(cmd)
    ensures FinalPayload(ks, header, message, key)
            == if message.None? then Some([])
               else if !IsText(cmd, "SECMSG") then message
               else if message.value == [] || key == [] then None else Some(Crypt(ks, key, message.value))
  {
    hide Crypt;
    CommandIs(cmd);
  }

  lemma CommandIs(cmd: seq<byte>)
    ensures cmd == SECMSG <==> IsText(cmd, "SECMSG")
    ensures cmd == CONN <==> IsText(cmd, "CONN")
    ensures cmd == BIND <==> IsText(cmd, "BIND")
    ensures cmd == KICK <==> IsText(cmd, "KICK")
  {
    if IsText(cmd, "SECMSG") { assert forall k | 0 <= k < 6 :: cmd[k] == SECMSG[k]; }
    if IsText(cmd, "CONN") { assert forall k | 0 <= k < 4 :: cmd[k] == CONN[k]; }
    if IsText(cmd, "BIND") { assert forall k | 0 <= k < 4 :: cmd[k] == BIND[k]; }
    if IsText(cmd, "KICK") { assert forall k | 0 <= k < 4 :: cmd[k] == KICK[k]; }
  }

  /** Four bytes as an unsigned number, the most significant first. */
  function Word(p: seq<byte>, i: nat): nat
    requires i + 4 <= |p|
  {
    p[i] as nat * 0x100_0000 + p[i + 1] as nat * 0x1_0000 + p[i + 2] as nat * 0x100 + p[i + 3] as nat
  }

  /** The body decrypted in place with the connection's key, if it has one. */
  function Plain(ks: Keystream, p: seq<byte>, end: nat, bodyKey: seq<byte>): seq<byte>
    requires 8 <= end <= |p|
  {
    if bodyKey == [] then p else p[..8] + Crypt(ks, bodyKey, p[8..end]) + p[end..]
  }

  /**
   * The decoder up to the body, for any bytes: those that do not begin with C2 FE 00 05 are rejected, whatever their
   * checksum; so are those whose checksum, behind the announced body, is not the Adler-32 of everything before
   * it. What passes with an empty body is a ping, any other body is decrypted and read on.
   */
  lemma DecodeChecks(ks: Keystream, p: seq<byte>, bodyKey: seq<byte>, keyOf: seq<byte> -> seq<byte>)
    requires |p| >= 8
    ensures var r := Decode(ks, p, bodyKey, keyOf);
            var size := if Word(p, 4) < 0x8000_0000 then Word(p, 4) else Word(p, 4) - 0x1_0000_0000;
            var end := 8 + size;
            if p[..4] != [0xc2, 0xfe, 0x00, 0x05] then r == Rejected
            else if end < 0 || end + 4 > |p| then r == Misread
            else if Adler32.Pack(Adler32.Checksum(Adler32.INITIAL, p[..end])) != Word(p, end) then r == Rejected
            else if size == 0 then r == Ping
            else if size > 0 then r == DecodeBody(ks, Plain(ks, p, end, bodyKey), keyOf)
            else r == if bodyKey == [] then DecodeBody(ks, p, keyOf) else Misread
  {
    hide Adler32.Checksum, DecodeBody, Crypt;
    assert p[..4] == [p[0], p[1], p[2], p[3]];
    ShortIs(p, 0, 0xc2, 0xfe);
    ShortIs(p, 2, 0x00, 0x05);
    WordIs(p, 4);
    var end := 8 + Int32At(p, 4);
    if 0 <= end && end + 4 <= |p| { WordIs(p, end); }
    hide Int16At, Int32At, Word;
  }

  /** Where the header ends, by the two bytes that announce its length. */
  function HeaderEnd(p: seq<byte>): nat
    requires |p| >= 16
  {
    16 + p[10] as nat * 0x100 + p[11] as nat
  }

  /** A body, for any bytes: its header has to be in the buffer and to parse. */
  lemma HeaderDecides(ks: Keystream, p: seq<byte>, keyOf: seq<byte> -> seq<byte>)
    requires |p| >= 16
    ensures p[10] >= 0x80 || HeaderEnd(p) > |p| ==> DecodeBody(ks, p, keyOf) == Misread
    ensures p[10] < 0x80 && HeaderEnd(p) <= |p| && !ParseFromArray(CLIENT_HEADER, p[16..HeaderEnd(p)]).ok ==>
              DecodeBody(ks, p, keyOf) == Rejected
  {
    HalfIs(p, 10);
    hide ParseFromArray, Int16At, HeaderEnd, DecodeBody;
    BodyParts(ks, p, keyOf);
  }

  /**
   * With a header that parses, a payload that is in the buffer is handed over, decrypted with the user's key if the
   * command is "SECMSG"; an empty one of those is rejected, and so is an empty key.
   */
  lemma PayloadArrives(ks: Keystream, p: seq<byte>, header: Message, keyOf: seq<byte> -> seq<byte>)
    requires |p| >= 16 && p[10] < 0x80 && HeaderEnd(p) <= |p|
    requires ParseFromArray(CLIENT_HEADER, p[16..HeaderEnd(p)]) == FromArray(true, header)
    ensures var (r, kind, cmd) := (DecodeBody(ks, p, keyOf), Int16At(p, 8), TextField(header, 5));
            var (start, size) := (HeaderEnd(p), Word(p, 12));
            if size >= 0x8000_0000 || start + size > |p| then
              r == if IsText(cmd, "CONN") || IsText(cmd, "BIND") || IsText(cmd, "KICK") || IsText(cmd, "SECMSG")
                   then Misread else Frame(kind, header, [])
            else if !IsText(cmd, "SECMSG") then r == Frame(kind, header, p[start..start + size])
            else
              var key := keyOf(TextField(header, 7));
              r == if key == [] || size == 0 then Rejected
                   else Frame(kind, header, Crypt(ks, key, p[start..start + size]))
  {
    hide ParseFromArray, Crypt, IsText, TextField, Delivered, DecodeBody;
    WordIs(p, 12);
    HalfIs(p, 10);
    hide Int16At, Int32At, Word, HeaderEnd;
    var start, size := HeaderEnd(p), Int32At(p, 12);
    var payload := if 0 <= size && start + size <= |p| then Some(p[start..start + size]) else None;
    assert DecodeBody(ks, p, keyOf) == Delivered(ks, Int16At(p, 8), header, payload, keyOf) by {
      BodyParts(ks, p, keyOf);
    }
    DeliveredIs(ks, Int16At(p, 8), header, payload, keyOf);
  }

  /** What becomes of a parsed header and its payload, if that is in the buffer. */
  function Delivered(ks: Keystream, kind: int, header: Message, payload: Option<seq<byte>>,
                     keyOf: seq<byte> -> seq<byte>): Decoded
  {
    match payload
    case None => if Cmd(header) in {CONN, BIND, KICK, SECMSG} then Misread else Frame(kind, header, [])
    case Some(bytes) =>
      if Cmd(header) != SECMSG then Frame(kind, header, bytes) else
      match TryCrypt(ks, keyOf(TextField(header, ID_FIELD)), bytes)
      case None => Rejected
      case Some(plain) => Frame(kind, header, plain)
  }

  lemma BodyParts(ks: Keystream, p: seq<byte>, keyOf: seq<byte> -> seq<byte>)
    requires |p| >= 16
    ensures var (start, size) := (16 + Int16At(p, 10), Int32At(p, 12));
            if start < 16 || start > |p| then DecodeBody(ks, p, keyOf) == Misread else
            var parsed := ParseFromArray(CLIENT_HEADER, p[16..start]);
            if !parsed.ok then DecodeBody(ks, p, keyOf) == Rejected else
            var payload := if 0 <= size && start + size <= |p| then Some(p[start..start + size]) else None;
            DecodeBody(ks, p, keyOf) == Delivered(ks, Int16At(p, 8), parsed.m, payload, keyOf)
  {
    hide ParseFromArray, TryCrypt, Int16At, Int32At, Cmd, TextField;
  }

  lemma DeliveredIs(ks: Keystream, kind: int, header: Message, payload: Option<seq<byte>>,
                    keyOf: seq<byte> -> seq<byte>)
    ensures var (r, cmd) := (Delivered(ks, kind, header, payload, keyOf), TextField(header, 5));
            if payload.None? then
              r == if IsText(cmd, "CONN") || IsText(cmd, "BIND") || IsText(cmd, "KICK") || IsText(cmd, "SECMSG")
                   then Misread else Frame(kind, header, [])
            else if !IsText(cmd, "SECMSG") then r == Frame(kind, header, payload.value)
            else
              var key := keyOf(TextField(header, 7));
              r == if key == [] || payload.value == [] then Rejected
                   else Frame(kind, header, Crypt(ks, key, payload.value))
  {
    CommandIs(Cmd(header));
    hide Crypt, IsText, TextField;
  }

  lemma HalfIs(p: seq<byte>, i: nat)
    requires i + 2 <= |p|
    ensures Int16At(p, i) < 0 <==> p[i] >= 0x80
    ensures p[i] < 0x80 ==> Int16At(p, i) == p[i] as int * 0x100 + p[i + 1] as int
  {
  }

  lemma ShortIs(p: seq<byte>, i: nat, high: byte, low: byte)
    requires i + 2 <= |p|
    ensures Int16At(p, i) == ToInt16(high as int * 0x100 + low as int) <==> p[i] == high && p[i + 1] == low
  {
  }

  lemma WordIs(p: seq<byte>, i: nat)
    requires i + 4 <= |p|
    ensures Int32At(p, i) % 0x1_0000_0000 == Word(p, i)
    ensures Word(p, i) < 0x8000_0000 ==> Int32At(p, i) == Word(p, i)
  {
  }

  /** A packet with a body on the wire: the header with nothing but the command CONN, and the payload 01. */
  lemma ConnBytes(ks: Keystream, bodyKey: seq<byte>, payloadKey: seq<byte>)
    ensures Encode(ks, map[5 := Str([67, 79, 78, 78])], Some([1]), bodyKey, payloadKey)
            == Packet([0xc2, 0xfe, 0x00, 0x05, 0, 0, 0, 0x0f, 0x00, 0x02, 0x00, 0x06, 0, 0, 0, 0x01,
                       0x2a, 0x04, 0x43, 0x4f, 0x4e, 0x4e, 0x01, 0x2e, 0x69, 0x03, 0x3b])
  {
    hide Encode, Sealed, ByteSize, Serialize, MessageOk;
    var header: Message := map[5 := Str([67, 79, 78, 78])];
    ConnHeader(header);
    EncodeDecides(ks, header, [67, 79, 78, 78], Some([1]), bodyKey, payloadKey);
    assert IsText([67, 79, 78, 78], "CONN") && !IsText([67, 79, 78, 78], "SECMSG");
    assert Body([0x2a, 0x04, 0x43, 0x4f, 0x4e, 0x4e], [1])
           == [0, 2, 0, 6, 0, 0, 0, 1, 0x2a, 0x04, 0x43, 0x4f, 0x4e, 0x4e, 1];
    SealedConn();
  }

  lemma ConnHeader(header: Message)
    requires header == map[5 := Str([67, 79, 78, 78])]
    ensures Serialize(CLIENT_HEADER, header) == [0x2a, 0x04, 0x43, 0x4f, 0x4e, 0x4e]
    ensures MessageOk(CLIENT_HEADER, header) && ByteSize(CLIENT_HEADER, header) == 6
  {
    hide Serialize, ByteSize, FieldsOk;
    assert CLIENT_HEADER[4] == Field(5, false, Text);
    assert forall i | 0 <= i < |CLIENT_HEADER| && i != 4 :: CLIENT_HEADER[i].number !in header;
    SingleField(CLIENT_HEADER, header, 4);
    SingleFieldOk(CLIENT_HEADER, header, 4);
    assert Tag(CLIENT_HEADER[4]) == 0x2a && Varint(4) == [4];
    assert 5 in Numbers(CLIENT_HEADER);
  }

  const COVERED: seq<byte> := [
    0xc2, 0xfe, 0x00, 0x05, 0, 0, 0, 0x0f, 0x00, 0x02, 0x00, 0x06, 0, 0, 0, 0x01, 0x2a, 0x04, 0x43, 0x4f, 0x4e, 0x4e, 1]

  lemma SealedConn()
    ensures Sealed([0, 2, 0, 6, 0, 0, 0, 1, 0x2a, 0x04, 0x43, 0x4f, 0x4e, 0x4e, 1])
            == COVERED + [0x2e, 0x69, 0x03, 0x3b]
  {
    ConnFixedHeader();
    ConnCrc();
    ConnTrailer();
    hide ComputeCrc, FixedHeader, Big32;
    assert [0xc2, 0xfe, 0x00, 0x05, 0, 0, 0, 0x0f] + [0, 2, 0, 6, 0, 0, 0, 1, 0x2a, 0x04, 0x43, 0x4f, 0x4e, 0x4e, 1]
           == COVERED;
  }

  lemma ConnFixedHeader()
    ensures FixedHeader(15) == [0xc2, 0xfe, 0x00, 0x05, 0, 0, 0, 0x0f]
  {
    assert Big16(HEADER_MAGIC) == [0xc2, 0xfe] && Big16(HEADER_VERSION) == [0x00, 0x05] && Big32(15) == [0, 0, 0, 15];
  }

  lemma ConnTrailer()
    ensures Big32(0x2e69_033b) == [0x2e, 0x69, 0x03, 0x3b]
  {
  }

  lemma ConnCrc()
    ensures ComputeCrc(COVERED) == 0x2e69_033b
  {
    hide Adler32.Checksum;
    var a, b: seq<byte>, c: seq<byte> := COVERED[..8], COVERED[8..16], COVERED[16..];
    assert a == [0xc2, 0xfe, 0x00, 0x05, 0, 0, 0, 0x0f] && b == [0x00, 0x02, 0x00, 0x06, 0, 0, 0, 0x01];
    assert c == [0x2a, 0x04, 0x43, 0x4f, 0x4e, 0x4e, 1];
    SumEight(a, 1, 0);
    SumEight(b, 469, 3378);
    SumSeven(c, 478, 7175);
    SumEight([0] + c, 478, 6697);
    Adler32.ChecksumConcat(Adler32.INITIAL, a, b);
    Adler32.ChecksumConcat(Adler32.INITIAL, a + b, c);
    assert a + b + c == COVERED;
  }

  lemma SumOne(x: byte, s1: nat, s2: nat)
    requires s1 + s2 + x as nat < Adler32.BASE
    ensures Adler32.Checksum(Adler32.Sums(s1, s2), [x]) == Adler32.Sums(s1 + x as nat, s2 + s1 + x as nat)
  {
    assert [x][..0] == [];
  }

  lemma SumTwo(x: seq<byte>, s1: nat, s2: nat)
    requires |x| == 2 && s1 < 3000 && s2 < 25000
    ensures Adler32.Checksum(Adler32.Sums(s1, s2), x)
            == Adler32.Sums(s1 + x[0] as nat + x[1] as nat, s2 + 2 * s1 + 2 * x[0] as nat + x[1] as nat)
  {
    hide Adler32.Checksum;
    SumOne(x[0], s1, s2);
    SumOne(x[1], s1 + x[0] as nat, s2 + s1 + x[0] as nat);
    Adler32.ChecksumConcat(Adler32.Sums(s1, s2), [x[0]], [x[1]]);
    assert [x[0]] + [x[1]] == x;
  }

  lemma SumFour(x: seq<byte>, s1: nat, s2: nat)
    requires |x| == 4 && s1 < 2000 && s2 < 18000
    ensures var (a, b, c, d) := (x[0] as nat, x[1] as nat, x[2] as nat, x[3] as nat);
            Adler32.Checksum(Adler32.Sums(s1, s2), x)
            == Adler32.Sums(s1 + a + b + c + d, s2 + 4 * s1 + 4 * a + 3 * b + 2 * c + d)
  {
    hide Adler32.Checksum;
    SumTwo(x[..2], s1, s2);
    var r := Adler32.Checksum(Adler32.Sums(s1, s2), x[..2]);
    SumTwo(x[2..], r.s1, r.s2);
    Adler32.ChecksumConcat(Adler32.Sums(s1, s2), x[..2], x[2..]);
    assert x[..2] + x[2..] == x;
  }

  lemma SumEight(x: seq<byte>, s1: nat, s2: nat)
    requires |x| == 8 && s1 < 900 && s2 < 10000
    ensures var r := Adler32.Checksum(Adler32.Sums(s1, s2), x);
            && r.s1 == s1 + x[0] as nat + x[1] as nat + x[2] as nat + x[3] as nat + x[4] as nat + x[5] as nat
                       + x[6] as nat + x[7] as nat
            && r.s2 == s2 + 8 * s1 + 8 * x[0] as nat + 7 * x[1] as nat + 6 * x[2] as nat + 5 * x[3] as nat
                       + 4 * x[4] as nat + 3 * x[5] as nat + 2 * x[6] as nat + x[7] as nat
  {
    hide Adler32.Checksum;
    SumFour(x[..4], s1, s2);
    var r := Adler32.Checksum(Adler32.Sums(s1, s2), x[..4]);
    SumFour(x[4..], r.s1, r.s2);
    Adler32.ChecksumConcat(Adler32.Sums(s1, s2), x[..4], x[4..]);
    assert x[..4] + x[4..] == x;
  }

  /** Seven bytes are eight with a zero in front, which adds the first sum to the second once more. */
  lemma SumSeven(x: seq<byte>, s1: nat, s2: nat)
    requires |x| == 7 && s1 < 900 && s1 <= s2 < 10000
    ensures Adler32.Checksum(Adler32.Sums(s1, s2), x) == Adler32.Checksum(Adler32.Sums(s1, s2 - s1), [0] + x)
  {
    var s := Adler32.Sums(s1, s2 - s1);
    assert [0 as byte][..0] == [];
    assert Adler32.Checksum(s, [0]) == Adler32.Update(s, 0) == Adler32.Sums(s1, s2);
    hide Adler32.Checksum;
    Adler32.ChecksumConcat(s, [0], x);
  }
}

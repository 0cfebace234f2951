/** encodePacket and decodePacketAndHandle as they work: on byte buffers, in place. */
module FrameBuffer {
  import opened Bytes
  import Adler32
  import opened ProtoWire
  import opened ProtoMessage
  import opened ProtoSchemas
  import opened ProtoLaws
  import opened ProtoGenerated
  import opened Frame

  method Short2Char(data: int, result: array<byte>, index: nat)
    requires index + 2 <= result.Length
    modifies result
    ensures result[..] == old(result[..index]) + Big16(data) + old(result[index + 2..])
  {
    result[index] := (data / 0x100 % 0x100) as byte;
    result[index + 1] := (data % 0x100) as byte;
  }

  method Int2Char(data: int, result: array<byte>, index: nat)
    requires index + 4 <= result.Length
    modifies result
    ensures result[..] == old(result[..index]) + Big32(data) + old(result[index + 4..])
  {
    result[index] := (data / 0x100_0000 % 0x100) as byte;
    result[index + 1] := (data / 0x1_0000 % 0x100) as byte;
    result[index + 2] := (data / 0x100 % 0x100) as byte;
    result[index + 3] := (data % 0x100) as byte;
  }

  /** memmove of a string into a packet. */
  method Move(packet: array<byte>, at: nat, bytes: seq<byte>)
    requires at + |bytes| <= packet.Length
    modifies packet
    ensures packet[..] == old(packet[..at]) + bytes + old(packet[at + |bytes|..])
  {
    forall k | 0 <= k < |bytes| {
      packet[at + k] := bytes[k];
    }
  }

  method ComputeCrc32(packet: array<byte>, len: nat) returns (crc: int)
    requires len <= packet.Length
    ensures crc == ComputeCrc(packet[..len])
  {
    hide Adler32.Checksum;
    assert Adler32.Split(1) == Adler32.INITIAL;
    var r := Adler32.Checksum32(1, packet, len, false);
    crc := r as int;
  }

  /** DoRC4Crypt: the text with the keystream XORed to it, byte by byte. */
  method DoRC4Crypt(ks: Keystream, key: seq<byte>, text: seq<byte>) returns (r: seq<byte>)
    ensures r == Crypt(ks, key, text)
  {
    var output := new byte[|text|];
    var k := 0;
    while k < |text|
      invariant 0 <= k <= |text| == output.Length
      invariant output[..k] == Crypt(ks, key, text)[..k]
    {
      output[k] := XorByte(text[k], ks(key, k));
      k := k + 1;
    }
    r := output[..];
  }

  method TryRC4(ks: Keystream, key: seq<byte>, text: seq<byte>) returns (r: Option<seq<byte>>)
    ensures r == TryCrypt(ks, key, text)
  {
    if text == [] || key == [] {
      return None;
    }
    var output := DoRC4Crypt(ks, key, text);
    r := Some(output);
  }

  /** The fixed header, the body and the checksum written into a fresh, zeroed packet. */
  method Seal(finalBody: seq<byte>) returns (packet: array<byte>)
    ensures packet[..] == Sealed(finalBody)
  {
    hide ComputeCrc, Big16, Big32;
    var bodySize := |finalBody|;
    var packetSize := HEADER_LENGTH + bodySize + BODY_CRC_LEN;
    packet := new byte[packetSize](_ => 0);
    Short2Char(HEADER_MAGIC, packet, 0);
    Short2Char(HEADER_VERSION, packet, 2);
    Int2Char(bodySize, packet, 4);
    Move(packet, HEADER_LENGTH, finalBody);
    assert packet[..packetSize - BODY_CRC_LEN] == FixedHeader(bodySize) + finalBody;
    var crc := ComputeCrc32(packet, packetSize - BODY_CRC_LEN);
    Int2Char(crc, packet, packetSize - BODY_CRC_LEN);
  }

  method RawBodyHeader(head: int, payloadSize: int) returns (r: seq<byte>)
    ensures r == BodyHeader(head, payloadSize)
  {
    hide Big16, Big32;
    var rawBody := new byte[BODY_HEADER_LENGTH](_ => 32);
    Short2Char(PROTOBUF, rawBody, 0);
    Short2Char(head, rawBody, 2);
    Int2Char(payloadSize, rawBody, 4);
    r := rawBody[..];
  }

  method EncodePacket(ks: Keystream, header: GeneratedMessage, message: Option<seq<byte>>, bodyKey: seq<byte>,
                      payloadKey: seq<byte>) returns (r: Encoded)
    requires header.schema == CLIENT_HEADER
    ensures r == Encode(ks, header.fields, message, bodyKey, payloadKey)
  {
    hide ByteSize, Serialize, Sealed, BodyHeader, TryCrypt, SchemaOk, FieldsFit, ToInt16;
    var head, rawHeader, payload := 0, [], [];
    if CMD_FIELD in header.fields {
      var size := header.ByteSize();
      head := ToInt16(size);
      HeaderFits();
      rawHeader := header.SerializeWithCachedSizes([]);
      if message.Some? {
        payload := message.value;
        if Cmd(header.fields) == SECMSG {
          var cipher := TryRC4(ks, payloadKey, payload);
          if cipher.None? {
            return EncodeFailed;
          }
          payload := cipher.value;
        }
      }
    }
    var finalBody := [];
    if head > 0 {
      var bodySize := BODY_HEADER_LENGTH + head + |payload|;
      var rawBody := RawBodyHeader(head, |payload|);
      rawBody := rawBody + rawHeader + payload;
      assert rawBody == RawBody(header.fields, head, payload);
      finalBody := rawBody;
      if Cmd(header.fields) != CONN {
        var cipher := TryRC4(ks, bodyKey, rawBody);
        if cipher.None? {
          return EncodeFailed;
        }
        finalBody := cipher.value;
      }
      if |finalBody| != bodySize {
        return Overrun;
      }
    }
    var packet := Seal(finalBody);
    r := Packet(packet[..]);
  }

  lemma HeaderFits()
    ensures SchemaOk(CLIENT_HEADER) && FieldsFit(CLIENT_HEADER)
  {
    SchemasOk(CLIENT_HEADER);
    CompatibleWithSelf(CLIENT_HEADER);
  }

  /** decodePacketAndHandle, decrypting the body and then the payload where they stand. */
  method DecodePacket(ks: Keystream, packet: array<byte>, bodyKey: seq<byte>, keyOf: seq<byte> -> seq<byte>)
    returns (r: Decoded)
    modifies packet
    ensures r == Decode(ks, old(packet[..]), bodyKey, keyOf)
  {
    hide ComputeCrc, DecodeBody, Crypt, Int16At, Int32At;
    if packet.Length < HEADER_LENGTH {
      return Misread;
    }
    if Int16At(packet[..], 0) != HEADER_MAGIC || Int16At(packet[..], 2) != HEADER_VERSION {
      return Rejected;
    }
    var bodySize := Int32At(packet[..], 4);
    var crcOffset := HEADER_LENGTH + bodySize;
    if crcOffset < 0 || crcOffset + BODY_CRC_LEN > packet.Length {
      return Misread;
    }
    var crc := ComputeCrc32(packet, crcOffset);
    assert packet[..crcOffset] == packet[..][..crcOffset];
    if crc != Int32At(packet[..], crcOffset) % 0x1_0000_0000 {
      return Rejected;
    }
    if bodySize == 0 {
      return Ping;
    }
    if bodyKey != [] {
      if bodySize < 0 {
        return Misread;
      }
      var plain := DoRC4Crypt(ks, bodyKey, packet[HEADER_LENGTH..crcOffset]);
      Move(packet, HEADER_LENGTH, plain);
    }
    r := DecodeBodyInPlace(ks, packet, keyOf);
  }

  method DecodeBodyInPlace(ks: Keystream, packet: array<byte>, keyOf: seq<byte> -> seq<byte>) returns (r: Decoded)
    modifies packet
    ensures r == DecodeBody(ks, old(packet[..]), keyOf)
  {
    hide Crypt, Int16At, Int32At, ProtoMessage.ParseFromArray, SchemaOk, FieldsFit;
    if packet.Length < HEADER_LENGTH + BODY_HEADER_LENGTH {
      return Misread;
    }
    var payloadType, head, size := Int16At(packet[..], 8), Int16At(packet[..], 10), Int32At(packet[..], 12);
    var start := HEADER_LENGTH + BODY_HEADER_LENGTH + head;
    if head < 0 || start > packet.Length {
      return Misread;
    }
    HeaderFits();
    var header := new GeneratedMessage(CLIENT_HEADER, map[]);
    var parsed := header.ParseFromArray(packet[HEADER_LENGTH + BODY_HEADER_LENGTH..start]);
    if !parsed {
      return Rejected;
    }
    var cmd := Cmd(header.fields);
    if size < 0 || start + size > packet.Length {
      return if cmd in {CONN, BIND, KICK, SECMSG} then Misread else Frame(payloadType, header.fields, []);
    }
    if cmd == SECMSG {
      var plain := TryRC4(ks, keyOf(TextField(header.fields, ID_FIELD)), packet[start..start + size]);
      if plain.None? {
        return Rejected;
      }
      Move(packet, start, plain.value);
    }
    r := Frame(payloadType, header.fields, packet[start..start + size]);
  }
}

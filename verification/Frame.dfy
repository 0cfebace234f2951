/**
 * The framing of PacketManager: a fixed header, a body holding a protobuf header and a payload, and an
 * Adler-32 trailer. RC4 enters as an arbitrary keystream per key that is XORed to the text.
 */
module Frame {
  import opened Bytes
  import Adler32
  import opened ProtoWire
  import opened ProtoMessage
  import opened ProtoSchemas

  // ---------------------------------------------------------------- the cipher

  /** The k-th byte of the keystream a key generates. */
  type Keystream = (seq<byte>, nat) -> byte

  /** Exclusive or of the low n bits. */
  function Xor(a: nat, b: nat, n: nat): (r: nat) {
    if n == 0 then 0 else (a % 2 + b % 2) % 2 + 2 * Xor(a / 2, b / 2, n - 1)
  }

  function XorByte(a: byte, b: byte): (r: byte) {
    XorFits(a as nat, b as nat);
    Xor(a as nat, b as nat, 8) as byte
  }

  lemma XorFits(a: nat, b: nat)
    ensures Xor(a, b, 8) < 0x100
  {
    XorBound(a, b, 8);
    assert PowerOfTwo(8) == 0x100;
  }

  function PowerOfTwo(n: nat): nat {
    if n == 0 then 1 else 2 * PowerOfTwo(n - 1)
  }

  lemma {:induction false} XorBound(a: nat, b: nat, n: nat)
    ensures Xor(a, b, n) < PowerOfTwo(n)
  {
    if n > 0 { XorBound(a / 2, b / 2, n - 1); }
  }

  lemma {:induction false} XorTwice(a: nat, b: nat, n: nat)
    requires a < PowerOfTwo(n)
    ensures Xor(Xor(a, b, n), b, n) == a
  {
    if n > 0 {
      var low, high := (a % 2 + b % 2) % 2, Xor(a / 2, b / 2, n - 1);
      XorTwice(a / 2, b / 2, n - 1);
      assert Xor(a, b, n) == low + 2 * high;
      XorStep(low, high, b, n);
      TwiceIsNone(a % 2, b % 2);
      hide Xor;
    }
  }

  lemma XorStep(low: nat, high: nat, b: nat, n: nat)
    requires low < 2 && n > 0
    ensures Xor(low + 2 * high, b, n) == (low + b % 2) % 2 + 2 * Xor(high, b / 2, n - 1)
  {
    assert (low + 2 * high) % 2 == low && (low + 2 * high) / 2 == high;
  }

  lemma TwiceIsNone(x: nat, y: nat)
    requires x < 2 && y < 2
    ensures ((x + y) % 2 + y) % 2 == x
  {
  }

  function Crypt(ks: Keystream, key: seq<byte>, text: seq<byte>): (r: seq<byte>)
    ensures |r| == |text|
  {
    seq(|text|, k requires 0 <= k < |text| => XorByte(text[k], ks(key, k)))
  }

  /** Encrypting twice with the same key gives the text back. */
  lemma CryptTwice(ks: Keystream, key: seq<byte>, text: seq<byte>)
    ensures Crypt(ks, key, Crypt(ks, key, text)) == text
  {
    forall k | 0 <= k < |text| ensures Crypt(ks, key, Crypt(ks, key, text))[k] == text[k] {
      assert PowerOfTwo(8) == 0x100;
      XorTwice(text[k] as nat, ks(key, k) as nat, 8);
    }
  }

  /** CryptoRC4Util::Encrypt and Decrypt: an empty text or key is an error. */
  function TryCrypt(ks: Keystream, key: seq<byte>, text: seq<byte>): (r: Option<seq<byte>>)
    ensures r.None? <==> key == [] || text == []
    ensures r.Some? ==> |r.value| == |text|
  {
    if text == [] || key == [] then None else Some(Crypt(ks, key, text))
  }

  // ---------------------------------------------------------------- packets as values

  /** 0xc2fe as the int16_t constant it initialises, and the protocol version. */
  const HEADER_MAGIC: int := 0xc2fe - 0x1_0000
  const HEADER_VERSION: int := 5
  const PROTOBUF: int := 2
  const HEADER_LENGTH: nat := 8
  const BODY_HEADER_LENGTH: nat := 8
  const BODY_CRC_LEN: nat := 4
  const CMD_FIELD: nat := 5
  const ID_FIELD: nat := 7

  const CONN: seq<byte> := [67, 79, 78, 78]
  const BIND: seq<byte> := [66, 73, 78, 68]
  const KICK: seq<byte> := [75, 73, 67, 75]
  const SECMSG: seq<byte> := [83, 69, 67, 77, 83, 71]

  /** The value of a string field, empty when it is not set. */
  function TextField(header: Message, number: nat): seq<byte> {
    if number in header && header[number].Str? then header[number].s else []
  }

  function Cmd(header: Message): seq<byte> { TextField(header, CMD_FIELD) }

  function ComputeCrc(data: seq<byte>): int {
    Adler32.Pack(Adler32.Checksum(Adler32.INITIAL, data))
  }

  function FixedHeader(bodySize: int): (s: seq<byte>)
    ensures |s| == HEADER_LENGTH
  {
    Big16(HEADER_MAGIC) + Big16(HEADER_VERSION) + Big32(bodySize)
  }

  /** A packet around a finished body. */
  function Sealed(body: seq<byte>): (p: seq<byte>)
    ensures |p| == HEADER_LENGTH + |body| + BODY_CRC_LEN
  {
    var covered := FixedHeader(|body|) + body;
    covered + Big32(ComputeCrc(covered))
  }

  function BodyHeader(head: int, payloadSize: int): (s: seq<byte>)
    ensures |s| == BODY_HEADER_LENGTH
  {
    Big16(PROTOBUF) + Big16(head) + Big32(payloadSize)
  }

  function RawBody(header: Message, head: int, payload: seq<byte>): seq<byte> {
    BodyHeader(head, |payload|) + Serialize(CLIENT_HEADER, header) + payload
  }

  /** -1; or more bytes than the buffer allocated for them; or the packet. */
  datatype Encoded = EncodeFailed | Overrun | Packet(bytes: seq<byte>)

  /** The payload as it goes into the body: encrypted for SECMSG, empty without a message. */
  function FinalPayload(ks: Keystream, header: Message, message: Option<seq<byte>>, payloadKey: seq<byte>)
    : Option<seq<byte>>
  {
    match message
    case None => Some([])
    case Some(plain) => if Cmd(header) == SECMSG then TryCrypt(ks, payloadKey, plain) else Some(plain)
  }

  /** encodePacket; `message` is the serialized message, or none for a null pointer. */
  function Encode(ks: Keystream, header: Message, message: Option<seq<byte>>, bodyKey: seq<byte>,
                  payloadKey: seq<byte>): Encoded
  {
    if CMD_FIELD !in header then Packet(Sealed([])) else
    var head := ToInt16(ByteSize(CLIENT_HEADER, header));
    match FinalPayload(ks, header, message, payloadKey)
    case None => EncodeFailed
    case Some(payload) =>
      if head <= 0 then Packet(Sealed([])) else
      var raw := RawBody(header, head, payload);
      var final := if Cmd(header) == CONN then Some(raw) else TryCrypt(ks, bodyKey, raw);
      if final.None? then EncodeFailed
      else if |final.value| != BODY_HEADER_LENGTH + head + |payload| then Overrun
      else Packet(Sealed(final.value))
  }

  /** -1; a ping; bytes outside the packet are needed; or a header and the plaintext of its payload. */
  datatype Decoded = Rejected | Ping | Misread | Frame(payloadType: int, header: Message, payload: seq<byte>)

  /** decodePacketAndHandle up to the point where the payload is handed to its parser. */
  function Decode(ks: Keystream, packet: seq<byte>, bodyKey: seq<byte>, keyOf: seq<byte> -> seq<byte>): Decoded {
    if |packet| < HEADER_LENGTH then Misread
    else if Int16At(packet, 0) != HEADER_MAGIC || Int16At(packet, 2) != HEADER_VERSION then Rejected else
    var bodySize := Int32At(packet, 4);
    var crcOffset := HEADER_LENGTH + bodySize;
    if crcOffset < 0 || crcOffset + BODY_CRC_LEN > |packet| then Misread
    else if ComputeCrc(packet[..crcOffset]) != Int32At(packet, crcOffset) % TWO_32 then Rejected
    else if bodySize == 0 then Ping
    else if bodyKey == [] then DecodeBody(ks, packet, keyOf)
    else if bodySize < 0 then Misread
    else DecodeBody(ks, packet[..HEADER_LENGTH] + Crypt(ks, bodyKey, packet[HEADER_LENGTH..crcOffset])
                        + packet[crcOffset..], keyOf)
  }

  function DecodeBody(ks: Keystream, packet: seq<byte>, keyOf: seq<byte> -> seq<byte>): Decoded {
    if |packet| < HEADER_LENGTH + BODY_HEADER_LENGTH then Misread else
    var payloadType, head, size := Int16At(packet, 8), Int16At(packet, 10), Int32At(packet, 12);
    var start := HEADER_LENGTH + BODY_HEADER_LENGTH + head;
    if head < 0 || start > |packet| then Misread else
    var parsed := ParseFromArray(CLIENT_HEADER, packet[HEADER_LENGTH + BODY_HEADER_LENGTH..start]);
    if !parsed.ok then Rejected else
    var cmd := Cmd(parsed.m);
    if size < 0 || start + size > |packet| then
      if cmd in {CONN, BIND, KICK, SECMSG} then Misread else Frame(payloadType, parsed.m, [])
    else if cmd != SECMSG then Frame(payloadType, parsed.m, packet[start..start + size])
    else
      match TryCrypt(ks, keyOf(TextField(parsed.m, ID_FIELD)), packet[start..start + size])
      case None => Rejected
      case Some(plain) => Frame(payloadType, parsed.m, plain)
  }
}

/**
 * The wire primitives the generated message code calls: base-128 varints, tags, and skipping of
 * fields nobody knows (Protocol Buffers Encoding, "Base 128 Varints" and "Message Structure").
 * Readers take the bytes left before the current limit and return what is left after them.
 */
module ProtoWire {
  import opened Bytes

  datatype Option<+T> = None | Some(value: T)

  datatype Read = Read(value: nat, rest: seq<byte>)

  // ---------------------------------------------------------------- varints

  function Varint(v: nat): (s: seq<byte>)
    ensures |s| > 0
  {
    if v < 0x80 then [v as byte] else [(v % 0x80 + 0x80) as byte] + Varint(v / 0x80)
  }

  /** ReadVarint64Slow: at most ten bytes, the bits beyond the 64th shifted out. */
  function ReadVarint64(s: seq<byte>): (r: Option<Read>)
    ensures r.Some? ==> |r.value.rest| < |s| && r.value.value < TWO_64
  {
    match ReadDigits(s, 10)
    case None => None
    case Some(Read(v, rest)) => Some(Read(v % TWO_64, rest))
  }

  function ReadDigits(s: seq<byte>, most: nat): (r: Option<Read>)
    ensures r.Some? ==> |r.value.rest| < |s|
  {
    if most == 0 || s == [] then None
    else if s[0] < 0x80 then Some(Read(s[0] as nat, s[1..]))
    else
      match ReadDigits(s[1..], most - 1)
      case None => None
      case Some(Read(v, rest)) => Some(Read(s[0] as nat - 0x80 + 0x80 * v, rest))
  }

  /** ReadVarint32: the same bytes are consumed, the high-order bits are discarded. */
  function ReadVarint32(s: seq<byte>): (r: Option<Read>)
    ensures r.Some? ==> |r.value.rest| < |s| && r.value.value < TWO_32
  {
    match ReadVarint64(s)
    case None => None
    case Some(Read(v, rest)) => Some(Read(v % TWO_32, rest))
  }

  /** VarintSize64, a comparison per length. */
  function VarintSize(v: nat): (n: nat) {
    if v < 0x8_0000_0000 then
      if v < 0x80 then 1 else if v < 0x4000 then 2 else if v < 0x20_0000 then 3 else if v < 0x1000_0000 then 4 else 5
    else if v < 0x400_0000_0000 then 6 else if v < 0x2_0000_0000_0000 then 7
    else if v < 0x100_0000_0000_0000 then 8 else if v < TWO_63 then 9 else 10
  }

  /** 128 to the n. */
  function Limit(n: nat): (p: nat)
    ensures p > 0
  {
    if n == 0 then 1 else 0x80 * Limit(n - 1)
  }

  lemma {:induction false} VarintLength(v: nat, n: nat)
    requires 0 < n && v < Limit(n) && (n == 1 || v >= Limit(n - 1))
    ensures |Varint(v)| == n
  {
    if n > 1 {
      assert v >= 0x80 by { assert Limit(n - 1) >= 0x80 by { LimitGrows(n - 1); } }
      if n > 2 { assert v / 0x80 >= Limit(n - 2); }
      VarintLength(v / 0x80, n - 1);
    }
  }

  lemma {:induction false} LimitGrows(n: nat)
    requires n > 0
    ensures Limit(n) >= 0x80
  {
    if n > 1 { LimitGrows(n - 1); }
  }

  lemma Limits()
    ensures Limit(0) == 1 && Limit(1) == 0x80 && Limit(2) == 0x4000 && Limit(3) == 0x20_0000
    ensures Limit(4) == 0x1000_0000 && Limit(5) == 0x8_0000_0000 && Limit(6) == 0x400_0000_0000
    ensures Limit(7) == 0x2_0000_0000_0000 && Limit(8) == 0x100_0000_0000_0000 && Limit(9) == TWO_63
    ensures Limit(10) >= TWO_64
  {
    assert Limit(5) == 0x80 * Limit(4) && Limit(4) == 0x80 * Limit(3);
    assert Limit(7) == 0x80 * Limit(6) && Limit(6) == 0x80 * Limit(5);
    assert Limit(9) == 0x80 * Limit(8) && Limit(8) == 0x80 * Limit(7);
  }

  /** The comparisons of VarintSize64 give the number of bytes written. */
  lemma VarintSizeIsLength(v: nat)
    requires v < TWO_64
    ensures |Varint(v)| == VarintSize(v) <= 10
  {
    Limits();
    VarintLength(v, VarintSize(v));
  }

  lemma ReadOneDigit(b: byte, rest: seq<byte>, most: nat)
    requires most > 0
    ensures b < 0x80 ==> ReadDigits([b] + rest, most) == Some(Read(b as nat, rest))
    ensures b >= 0x80 && ReadDigits(rest, most - 1).Some? ==>
              var r := ReadDigits(rest, most - 1).value;
              ReadDigits([b] + rest, most) == Some(Read(b as nat - 0x80 + 0x80 * r.value, r.rest))
  {
    assert ([b] + rest)[1..] == rest;
  }

  lemma FirstDigit(v: nat) returns (b: byte, high: nat)
    requires v >= 0x80
    ensures b >= 0x80 && b as nat - 0x80 + 0x80 * high == v && high < v
    ensures Varint(v) == [b] + Varint(high) && |Varint(v)| == 1 + |Varint(high)|
  {
    b, high := (v % 0x80 + 0x80) as byte, v / 0x80;
  }

  lemma {:induction false} ReadDigitsOfVarint(v: nat, most: nat, rest: seq<byte>)
    requires |Varint(v)| <= most
    ensures ReadDigits(Varint(v) + rest, most) == Some(Read(v, rest))
    decreases v
  {
    hide ReadDigits;
    if v < 0x80 {
      ReadOneDigit(v as byte, rest, most);
    } else {
      var b, high := FirstDigit(v);
      hide Varint;
      ReadDigitsOfVarint(high, most - 1, rest);
      assert Varint(v) + rest == [b] + (Varint(high) + rest);
      ReadOneDigit(b, Varint(high) + rest, most);
    }
  }

  lemma ReadFromDigits(s: seq<byte>, v: nat, rest: seq<byte>)
    requires v < TWO_64 && ReadDigits(s, 10) == Some(Read(v, rest))
    ensures ReadVarint64(s) == Some(Read(v, rest))
    ensures v < TWO_32 ==> ReadVarint32(s) == Some(Read(v, rest))
  {
    hide ReadDigits;
  }

  /** Reading a written varint gives the value and stops right after it. */
  lemma VarintRoundTrip(v: nat, rest: seq<byte>)
    requires v < TWO_64
    ensures ReadVarint64(Varint(v) + rest) == Some(Read(v, rest))
    ensures v < TWO_32 ==> ReadVarint32(Varint(v) + rest) == Some(Read(v, rest))
  {
    VarintSizeIsLength(v);
    ReadDigitsOfVarint(v, 10, rest);
    ReadFromDigits(Varint(v) + rest, v, rest);
  }

  // ---------------------------------------------------------------- tags and unknown fields

  const WIRE_VARINT := 0
  const WIRE_LENGTH := 2
  const WIRE_END_GROUP := 4

  /** ReadTag: 0 at the end of the bytes, on a malformed varint, and on a literal zero tag. */
  function ReadTag(s: seq<byte>): (r: Read)
    ensures r.value != 0 ==> |r.rest| < |s|
    ensures r.value < TWO_32 && |r.rest| <= |s|
  {
    match ReadVarint32(s)
    case None => Read(0, s)
    case Some(t) => t
  }

  /** ReadLittleEndian32/64 as far as skipping is concerned. */
  function Drop(s: seq<byte>, n: nat): Option<seq<byte>> {
    if n <= |s| then Some(s[n..]) else None
  }

  datatype Skipped = SkipFailed | Skipped(lastTag: nat, rest: seq<byte>)

  /** WireFormatLite::SkipField, with `depth` levels of nesting still allowed. */
  function SkipField(s: seq<byte>, tag: nat, depth: nat): (r: Option<seq<byte>>)
    ensures r.Some? ==> |r.value| <= |s|
    decreases depth, 0, |s|
  {
    match tag % 8
    case 0 => (match ReadVarint64(s) case None => None case Some(Read(_, rest)) => Some(rest))
    case 1 => Drop(s, 8)
    case 2 =>
      (match ReadVarint32(s)
       case None => None
       case Some(Read(n, rest)) => if n >= TWO_31 then None else Drop(rest, n))
    case 3 =>
      if depth == 0 then None else
      (match SkipMessage(s, depth - 1)
       case SkipFailed => None
       case Skipped(lastTag, rest) => if lastTag == tag / 8 * 8 + WIRE_END_GROUP then Some(rest) else None)
    case 5 => Drop(s, 4)
    case _ => None
  }

  /** WireFormatLite::SkipMessage: fields until the end or an end-group tag. */
  function SkipMessage(s: seq<byte>, depth: nat): (r: Skipped)
    ensures r.Skipped? ==> |r.rest| <= |s|
    decreases depth, 1, |s|
  {
    var t := ReadTag(s);
    if t.value == 0 then Skipped(0, t.rest)
    else if t.value % 8 == WIRE_END_GROUP then Skipped(t.value, t.rest)
    else
      match SkipField(t.rest, t.value, depth)
      case None => SkipFailed
      case Some(rest) => SkipMessage(rest, depth)
  }
}

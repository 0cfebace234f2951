/**
 * The stream a generated parser reads from, restricted to a flat array: a position, the limit in
 * force, the nesting depth, and whether the last tag read hit the limit.
 */
module ProtoStream {
  import opened Bytes
  import opened ProtoWire
  import opened ProtoMessage

  /** Keeping 64 bits at every step keeps the same 64 bits at the end. */
  lemma KeepLowBits(x: nat, y: nat)
    ensures (x % TWO_64 + y) % TWO_64 == (x + y) % TWO_64
  {
    var q := x / TWO_64;
    assert x + y == (x % TWO_64 + y) + q * TWO_64;
    MultipleOut(x % TWO_64 + y, q);
  }

  lemma MultipleOut(x: nat, q: nat)
    ensures (x + q * TWO_64) % TWO_64 == x % TWO_64
  {
    var d := (x + q * TWO_64) / TWO_64 - (x / TWO_64 + q);
    assert (x + q * TWO_64) % TWO_64 - x % TWO_64 == -TWO_64 * d;
  }

  /** v << 7n. */
  function Shift(n: nat, v: nat): (r: nat) {
    if v == 0 then 0 else Limit(n) + Shift(n, v - 1)
  }

  lemma {:induction false} ShiftIsProduct(n: nat, v: nat)
    ensures Shift(n, v) == Limit(n) * v
  {
    if v > 0 {
      ShiftIsProduct(n, v - 1);
      assert Limit(n) * v == Limit(n) * (v - 1) + Limit(n);
    }
  }

  lemma ShiftStep(n: nat, digit: nat, v: nat)
    ensures Shift(n, digit + 0x80 * v) == Shift(n, digit) + Shift(n + 1, v)
  {
    ShiftIsProduct(n, digit + 0x80 * v);
    ShiftIsProduct(n, digit);
    ShiftIsProduct(n + 1, v);
    assert Limit(n) * (digit + 0x80 * v) == Limit(n) * digit + 0x80 * Limit(n) * v;
  }

  /** What the digits still to be read add to what has been read. */
  ghost function Total(full: nat, count: nat, rest: Option<Read>): Option<Read> {
    match rest
    case None => None
    case Some(r) => Some(Read(full + Shift(count, r.value), r.rest))
  }

  lemma TotalStep(full: nat, count: nat, s: seq<byte>)
    requires count < 10 && s != []
    ensures var digit := s[0] as nat % 0x80;
            Total(full, count, ReadDigits(s, 10 - count))
            == if s[0] < 0x80 then Some(Read(full + Shift(count, digit), s[1..]))
               else Total(full + Shift(count, digit), count + 1, ReadDigits(s[1..], 9 - count))
  {
    var digit := s[0] as nat % 0x80;
    var next := ReadDigits(s[1..], 9 - count);
    if s[0] >= 0x80 && next.Some? {
      ShiftStep(count, digit, next.value.value);
    }
  }

  lemma TotalEnd(full: nat, count: nat, s: seq<byte>)
    requires count == 10 || (count < 10 && s == [])
    ensures Total(full, count, ReadDigits(s, 10 - count)) == None
  {
  }

  lemma ShiftNone(all: Option<Read>)
    ensures Total(0, 0, all) == all
  {
    if all.Some? { ShiftIsProduct(0, all.value.value); }
  }

  /** One turn of the skipping loop. */
  lemma SkipTurn(s: seq<byte>, depth: nat)
    ensures var (t, all) := (ProtoWire.ReadTag(s), ProtoWire.SkipMessage(s, depth));
            if t.value == 0 || t.value % 8 == WIRE_END_GROUP then all == Skipped(t.value, t.rest)
            else match ProtoWire.SkipField(t.rest, t.value, depth)
                 case None => all == SkipFailed
                 case Some(rest) => all == ProtoWire.SkipMessage(rest, depth)
  {
  }

  class CodedInputStream {
    const buffer: seq<byte>
    var pos: nat
    var limit: nat
    var depth: nat
    var legitimateEnd: bool

    constructor (data: seq<byte>)
      ensures Valid() && Left() == data && depth == 0 && !legitimateEnd
    {
      buffer := data;
      pos, limit, depth, legitimateEnd := 0, |data|, 0, false;
    }

    ghost predicate Valid()
      reads this
    {
      pos <= limit <= |buffer| && depth <= RECURSION_LIMIT
    }

    /** The bytes up to the limit in force. */
    ghost function Left(): seq<byte>
      reads this
      requires Valid()
    {
      buffer[pos..limit]
    }

    /** ReadVarint64Slow. */
    method ReadVarint64() returns (ok: bool, value: nat)
      requires Valid()
      modifies this`pos
      ensures Valid()
      ensures match ProtoWire.ReadVarint64(old(Left()))
              case None => !ok
              case Some(r) => ok && value == r.value && Left() == r.rest
    {
      hide ReadDigits, Shift, Total;
      value := 0;
      var count: nat := 0;
      ghost var full: nat := 0;
      ghost var all := ReadDigits(Left(), 10);
      ShiftNone(all);
      while true
        invariant Valid() && count <= 10 && value == full % TWO_64
        invariant Total(full, count, ReadDigits(Left(), 10 - count)) == Total(0, 0, all)
        decreases 10 - count
      {
        if count == 10 || pos == limit {
          ok := false;
          TotalEnd(full, count, Left());
          return;
        }
        var b := buffer[pos];
        TotalStep(full, count, Left());
        assert Left()[0] == b && Left()[1..] == buffer[pos + 1..limit];
        var digit := b as nat % 0x80;
        KeepLowBits(full, Shift(count, digit));
        value := (value + Shift(count, digit)) % TWO_64;
        full := full + Shift(count, digit);
        pos := pos + 1;
        count := count + 1;
        if b < 0x80 {
          ok := true;
          return;
        }
      }
    }

    method ReadVarint32() returns (ok: bool, value: nat)
      requires Valid()
      modifies this`pos
      ensures Valid()
      ensures match ProtoWire.ReadVarint32(old(Left()))
              case None => !ok
              case Some(r) => ok && value == r.value && Left() == r.rest
    {
      ok, value := ReadVarint64();
      value := value % TWO_32;
    }

    /** ReadTag: 0 ends the message; legitimately only if nothing is left below the limit. */
    method ReadTag() returns (tag: nat)
      requires Valid() && !legitimateEnd
      modifies this`pos, this`legitimateEnd
      ensures Valid() && tag == ProtoWire.ReadTag(old(Left())).value
      ensures tag != 0 ==> Left() == ProtoWire.ReadTag(old(Left())).rest && !legitimateEnd
      ensures legitimateEnd <==> old(Left()) == []
      ensures legitimateEnd ==> Left() == []
    {
      if pos == limit {
        legitimateEnd := true;
        return 0;
      }
      assert Left() != [];
      var ok, value := ReadVarint32();
      tag := if ok then value else 0;
    }

    /** ExpectTag: consume the expected one-byte tag if it is next. */
    method ExpectTag(expected: byte) returns (found: bool)
      requires Valid() && expected < 0x80
      modifies this`pos
      ensures Valid() && (found <==> old(Left()) != [] && old(Left())[0] == expected)
      ensures Left() == if found then old(Left())[1..] else old(Left())
    {
      found := pos < limit && buffer[pos] == expected;
      if found {
        pos := pos + 1;
      }
    }

    /** ExpectAtEnd: at the limit, pretend ReadTag was called and hit it. */
    method ExpectAtEnd() returns (atEnd: bool)
      requires Valid() && !legitimateEnd
      modifies this`legitimateEnd
      ensures atEnd == legitimateEnd == (Left() == [])
    {
      atEnd := pos == limit;
      if atEnd {
        legitimateEnd := true;
      }
    }

    /** Skip, and the reads of which only the length matters. */
    method Skip(n: nat) returns (ok: bool)
      requires Valid()
      modifies this`pos
      ensures Valid()
      ensures match Drop(old(Left()), n) case None => !ok case Some(rest) => ok && Left() == rest
    {
      ok := n <= limit - pos;
      if ok {
        pos := pos + n;
      }
    }

    /** ReadString: the bytes of one length-delimited field, or what is left of them. */
    method ReadString() returns (ok: bool, found: bool, text: seq<byte>)
      requires Valid()
      modifies this`pos
      ensures Valid()
      ensures match ProtoWire.ReadVarint32(old(Left()))
              case None => !ok && !found
              case Some(Read(length, rest)) =>
                if length >= TWO_31 then !ok && !found
                else found && ok == (length <= |rest|)
                     && if ok then text == rest[..length] && Left() == rest[length..] else text == rest
    {
      var length;
      text := [];
      ok, length := ReadVarint32();
      found := ok && length < 0x8000_0000;
      if !found {
        return false, false, [];
      }
      ghost var rest := Left();
      ok := length <= limit - pos;
      var end := if ok then pos + length else limit;
      text := buffer[pos..end];
      pos := end;
      assert ok ==> text == rest[..length] && Left() == rest[length..];
    }

    /** PushLimit: the limit `length` bytes ahead, unless a closer one is in force. */
    method PushLimit(length: nat) returns (oldLimit: nat)
      requires Valid()
      modifies this`limit
      ensures Valid() && oldLimit == old(limit) && limit <= oldLimit
      ensures Left() == Limited(old(Left()), length)
    {
      oldLimit := limit;
      if length < 0x8000_0000 && length <= limit - pos {
        limit := pos + length;
      }
    }

    /** PopLimit: the outer limit again, and the end just met was not the outer one. */
    method PopLimit(oldLimit: nat)
      requires Valid() && limit <= oldLimit <= |buffer|
      modifies this`limit, this`legitimateEnd
      ensures Valid() && limit == oldLimit && !legitimateEnd
      ensures Left() == buffer[pos..oldLimit]
    {
      limit := oldLimit;
      legitimateEnd := false;
    }

    /** ReadVarint32 of a length, negative as an int from 2^31 on. */
    method SkipLength() returns (ok: bool)
      requires Valid()
      modifies this`pos
      ensures Valid()
      ensures match ProtoWire.SkipField(old(Left()), WIRE_LENGTH, 0)
              case None => !ok
              case Some(rest) => ok && Left() == rest
    {
      var n;
      ok, n := ReadVarint32();
      if ok {
        if n >= 0x8000_0000 {
          return false;
        }
        ok := Skip(n);
      }
    }

    /** WireFormatLite::SkipField. */
    method SkipField(tag: nat) returns (ok: bool)
      requires Valid() && !legitimateEnd
      modifies this
      ensures Valid() && limit == old(limit)
      ensures match ProtoWire.SkipField(old(Left()), tag, RECURSION_LIMIT - old(depth))
              case None => !ok
              case Some(rest) => ok && Left() == rest && depth == old(depth) && !legitimateEnd
      decreases RECURSION_LIMIT - depth, 0, limit - pos
    {
      match tag % 8 {
        case 0 =>
          var value;
          ok, value := ReadVarint64();
        case 1 => ok := Skip(8);
        case 2 => ok := SkipLength();
        case 3 =>
          if depth == RECURSION_LIMIT {
            return false;
          }
          depth := depth + 1;
          var lastTag;
          ok, lastTag := SkipMessage();
          if ok {
            depth := depth - 1;
            ok := lastTag == tag / 8 * 8 + WIRE_END_GROUP;
          }
        case 5 => ok := Skip(4);
        case _ => ok := false;
      }
    }

    /** WireFormatLite::SkipMessage, with the last tag it read. */
    method SkipMessage() returns (ok: bool, lastTag: nat)
      requires Valid() && !legitimateEnd
      modifies this
      ensures Valid() && limit == old(limit)
      ensures match ProtoWire.SkipMessage(old(Left()), RECURSION_LIMIT - old(depth))
              case SkipFailed => !ok
              case Skipped(last, rest) =>
                ok && lastTag == last && depth == old(depth)
                && (last != 0 ==> Left() == rest && !legitimateEnd)
      decreases RECURSION_LIMIT - depth, 1, limit - pos
    {
      hide ProtoWire.ReadTag, ProtoWire.SkipField, ProtoWire.SkipMessage;
      ghost var all := ProtoWire.SkipMessage(Left(), RECURSION_LIMIT - depth);
      while true
        invariant Valid() && limit == old(limit) && depth == old(depth) && !legitimateEnd && pos >= old(pos)
        invariant all == ProtoWire.SkipMessage(Left(), RECURSION_LIMIT - depth)
        decreases limit - pos
      {
        SkipTurn(Left(), RECURSION_LIMIT - depth);
        lastTag := ReadTag();
        if lastTag == 0 || lastTag % 8 == WIRE_END_GROUP {
          return true, lastTag;
        }
        ok := SkipField(lastTag);
        if !ok {
          return false, lastTag;
        }
      }
    }
  }
}

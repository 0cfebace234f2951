/** Bytes, fixed-width integers and the big-endian layout shared by the codecs. */
module Bytes {
  newtype byte = x: int | 0 <= x < 0x100

  const TWO_16: int := 0x1_0000
  const TWO_31: int := 0x8000_0000
  const TWO_32: int := 0x1_0000_0000
  const TWO_63: int := 0x8000_0000_0000_0000
  const TWO_64: int := 0x1_0000_0000_0000_0000

  predicate IsInt16(x: int) { -0x8000 <= x < 0x8000 }

  predicate IsInt32(x: int) { -TWO_31 <= x < TWO_31 }

  /** The conversion of an integer to int16_t: keep 16 bits, read them as two's complement. */
  function ToInt16(x: int): (r: int)
    ensures IsInt16(r) && (r - x) % TWO_16 == 0
    ensures IsInt16(x) ==> r == x
  {
    var low := x % TWO_16;
    if low < 0x8000 then low else low - TWO_16
  }

  function ToInt32(x: int): (r: int)
    ensures IsInt32(r) && (r - x) % TWO_32 == 0
    ensures IsInt32(x) ==> r == x
  {
    var low := x % TWO_32;
    if low < TWO_31 then low else low - TWO_32
  }

  /** The two bytes short2char writes: high byte first (`>>` on a negative value is arithmetic). */
  function Big16(x: int): (s: seq<byte>)
    ensures |s| == 2
  {
    [(x / 0x100 % 0x100) as byte, (x % 0x100) as byte]
  }

  /** The four bytes int2char writes: most significant byte first. */
  function Big32(x: int): (s: seq<byte>)
    ensures |s| == 4
  {
    [(x / 0x100_0000 % 0x100) as byte, (x / 0x1_0000 % 0x100) as byte,
     (x / 0x100 % 0x100) as byte, (x % 0x100) as byte]
  }

  /** char2short: the value of two big-endian bytes as an int16_t. */
  function Int16At(s: seq<byte>, i: nat): (x: int)
    requires i + 2 <= |s|
    ensures IsInt16(x)
  {
    ToInt16(s[i] as int * 0x100 + s[i + 1] as int)
  }

  /** char2int: the value of four big-endian bytes as an int32_t. */
  function Int32At(s: seq<byte>, i: nat): (x: int)
    requires i + 4 <= |s|
    ensures IsInt32(x)
  {
    ToInt32(s[i] as int * 0x100_0000 + s[i + 1] as int * 0x1_0000 + s[i + 2] as int * 0x100 + s[i + 3] as int)
  }

  /** Reading back two written bytes gives the int16_t that was written. */
  lemma Big16Inverse(x: int, s: seq<byte>, i: nat)
    requires i + 2 <= |s| && s[i..i + 2] == Big16(x)
    ensures Int16At(s, i) == ToInt16(x)
  {
    assert s[i] == s[i..i + 2][0] && s[i + 1] == s[i..i + 2][1];
    assert x % TWO_16 == x / 0x100 % 0x100 * 0x100 + x % 0x100;
  }

  /** Reading back four written bytes gives the int32_t that was written. */
  lemma Big32Inverse(x: int, s: seq<byte>, i: nat)
    requires i + 4 <= |s| && s[i..i + 4] == Big32(x)
    ensures Int32At(s, i) == ToInt32(x)
  {
    var t := s[i..i + 4];
    assert s[i] == t[0] && s[i + 1] == t[1] && s[i + 2] == t[2] && s[i + 3] == t[3];
    SplitDigits(x);
  }

  lemma SplitDigits(x: int)
    ensures x % TWO_32 == x / 0x100_0000 % 0x100 * 0x100_0000 + x / 0x1_0000 % 0x100 * 0x1_0000
                          + x / 0x100 % 0x100 * 0x100 + x % 0x100
  {
    var a := x / 0x100;
    var b := a / 0x100;
    var c := b / 0x100;
    assert b == x / 0x1_0000 && c == x / 0x100_0000;
    assert c == c / 0x100 * 0x100 + c % 0x100;
  }

  /** The same int32_t at the same place means the same four bytes. */
  lemma Int32AtInjective(s: seq<byte>, t: seq<byte>, i: nat)
    requires i + 4 <= |s| && i + 4 <= |t|
    requires Int32At(s, i) == Int32At(t, i)
    ensures s[i..i + 4] == t[i..i + 4]
  {
    var x := s[i] as int * 0x100_0000 + s[i + 1] as int * 0x1_0000 + s[i + 2] as int * 0x100 + s[i + 3] as int;
    var y := t[i] as int * 0x100_0000 + t[i + 1] as int * 0x1_0000 + t[i + 2] as int * 0x100 + t[i + 3] as int;
    ToInt32Injective(x, y);
    SameDigits(s[i] as int, s[i + 1] as int, s[i + 2] as int, s[i + 3] as int,
               t[i] as int, t[i + 1] as int, t[i + 2] as int, t[i + 3] as int);
  }

  lemma ToInt32Injective(x: nat, y: nat)
    requires x < TWO_32 && y < TWO_32 && ToInt32(x) == ToInt32(y)
    ensures x == y
  {
  }

  lemma SameDigits(a: nat, b: nat, c: nat, d: nat, e: nat, f: nat, g: nat, h: nat)
    requires a < 0x100 && b < 0x100 && c < 0x100 && d < 0x100 && e < 0x100 && f < 0x100 && g < 0x100 && h < 0x100
    requires a * 0x100_0000 + b * 0x1_0000 + c * 0x100 + d == e * 0x100_0000 + f * 0x1_0000 + g * 0x100 + h
    ensures a == e && b == f && c == g && d == h
  {
  }

  lemma Int16AtInjective(s: seq<byte>, t: seq<byte>, i: nat)
    requires i + 2 <= |s| && i + 2 <= |t|
    requires Int16At(s, i) == Int16At(t, i)
    ensures s[i] == t[i] && s[i + 1] == t[i + 1]
  {
  }
}

/**
 * The Adler-32 checksum: section 2.2 of RFC 1950 as the definition, the deferred-reduction
 * implementation proved equal to it, the division-free reductions, and the combine formula.
 *
 * Shifts and masks are written as the divisions and remainders they are on unsigned values;
 * `adler | (sum2 << 16)` is the sum of its two disjoint halves.
 */
module Adler32 {
  import opened Bytes

  const BASE: int := 65521
  const NMAX: int := 5552

  /** Arithmetic of this type is checked to stay in 32 bits, whatever the width of unsigned long. */
  newtype uint32 = x: int | 0 <= x < 0x1_0000_0000
  newtype off64 = x: int | -0x8000_0000_0000_0000 <= x < 0x8000_0000_0000_0000

  datatype Sums = Sums(s1: nat, s2: nat) {
    predicate Reduced() { s1 < BASE && s2 < BASE }
  }

  function Split(adler: uint32): (s: Sums) {
    Sums(adler as int % TWO_16, adler as int / TWO_16)
  }

  function Pack(s: Sums): int {
    s.s1 + s.s2 * TWO_16
  }

  /** "split Adler-32 into component sums". */
  method Unpack(adler: uint32) returns (s1: uint32, s2: uint32)
    ensures Sums(s1 as int, s2 as int) == Split(adler)
    ensures s1 < 0x1_0000 && s2 < 0x1_0000
  {
    s2 := adler / 0x1_0000 % 0x1_0000;
    s1 := adler % 0x1_0000;
  }

  /** "return recombined sums". */
  method Recombine(s1: uint32, s2: uint32) returns (r: uint32)
    requires s1 < 0x1_0000 && s2 < 0x1_0000
    ensures r as int == Pack(Sums(s1 as int, s2 as int))
  {
    r := s1 + s2 * 0x1_0000;
  }

  function Reduce(s: Sums): (r: Sums)
    ensures r.Reduced()
  {
    Sums(s.s1 % BASE, s.s2 % BASE)
  }

  const INITIAL := Sums(1, 0)

  // ---------------------------------------------------------------- the definition of RFC 1950

  function Update(s: Sums, b: byte): (r: Sums)
    ensures r.Reduced()
  {
    var s1 := (s.s1 + b as int) % BASE;
    Sums(s1, (s.s2 + s1) % BASE)
  }

  /** The two sums after `data`, both reduced modulo BASE at every byte. */
  function Checksum(s: Sums, data: seq<byte>): (r: Sums)
    ensures s.Reduced() || data != [] ==> r.Reduced()
  {
    if data == [] then s else Update(Checksum(s, data[..|data| - 1]), data[|data| - 1])
  }

  /** The definition at work: "abc". */
  lemma KnownChecksum()
    ensures Pack(Checksum(INITIAL, [97, 98, 99])) == 0x024d_0127
  {
    var a: seq<byte> := [97, 98, 99];
    assert a[..2] == [97, 98] && a[..2][..1] == [97] && a[..2][..1][..0] == [];
    assert Checksum(INITIAL, [97]) == Sums(98, 98);
    assert Checksum(INITIAL, [97, 98]) == Sums(196, 294);
  }

  /** Checksumming A and then B is checksumming A followed by B. */
  lemma {:induction false} ChecksumConcat(s: Sums, a: seq<byte>, b: seq<byte>)
    ensures Checksum(Checksum(s, a), b) == Checksum(s, a + b)
    decreases |b|
  {
    if b == [] {
      assert a + b == a;
    } else {
      ChecksumConcat(s, a, b[..|b| - 1]);
      assert (a + b)[..|a + b| - 1] == a + b[..|b| - 1];
    }
  }

  // ---------------------------------------------------------------- deferred reduction

  /** The same two sums with no reduction at all: what the inner loops accumulate. */
  function Raw(s: Sums, data: seq<byte>): Sums
    decreases |data|
  {
    if data == [] then s else
      var p := Raw(s, data[..|data| - 1]);
      Sums(p.s1 + data[|data| - 1] as int, p.s2 + p.s1 + data[|data| - 1] as int)
  }

  /** Reducing once at the end of a stretch gives the sums reduced at every byte. */
  lemma {:induction false} ReduceOnce(s: Sums, data: seq<byte>)
    requires s.Reduced()
    ensures Checksum(s, data) == Reduce(Raw(s, data))
    decreases |data|
  {
    if data != [] {
      ReduceOnce(s, data[..|data| - 1]);
      UpdateReduced(Raw(s, data[..|data| - 1]), data[|data| - 1]);
    }
  }

  lemma UpdateReduced(p: Sums, b: byte)
    ensures Update(Reduce(p), b) == Reduce(Sums(p.s1 + b as int, p.s2 + p.s1 + b as int))
  {
    var x := b as int;
    SwapResidue(p.s1, x);
    SwapResidue(p.s2, (p.s1 + x) % BASE);
    SwapResidue(p.s1 + x, p.s2);
  }

  lemma SwapResidue(x: int, y: int)
    ensures (x + y) % BASE == (x % BASE + y) % BASE
  {
    SameResidue(x % BASE + y, x / BASE);
    assert x == x % BASE + x / BASE * BASE;
  }

  /** After n bytes the sums exceed their starting values by at most 255n and n*s1 + 255n(n+1)/2. */
  lemma {:induction false} RawBound(s: Sums, data: seq<byte>)
    ensures Raw(s, data).s1 <= s.s1 + 255 * |data|
    ensures 2 * Raw(s, data).s2 <= 2 * s.s2 + 2 * (|data| * s.s1) + 255 * (|data| * (|data| + 1))
    decreases |data|
  {
    if data != [] {
      var n := |data| - 1;
      RawBound(s, data[..n]);
      assert (n + 1) * s.s1 == n * s.s1 + s.s1;
      assert (n + 1) * (n + 2) == n * (n + 1) + 2 * n + 2;
    }
  }

  /** NMAX bytes fit: neither sum leaves 32 bits, even from halves that are not reduced. */
  lemma NoOverflow(s: Sums, data: seq<byte>)
    requires s.s1 < TWO_16 && s.s2 < TWO_16 && |data| <= NMAX
    ensures Raw(s, data).s1 < TWO_32 && Raw(s, data).s2 < TWO_32
  {
    RawBound(s, data);
    var n := |data|;
    Monotone(n, NMAX, s.s1);
    Monotone(n, NMAX, n + 1);
  }

  lemma Monotone(x: nat, y: nat, z: nat)
    requires x <= y
    ensures 0 <= x * z <= y * z
  {
    assert y * z == x * z + (y - x) * z;
  }

  /** The bytes 255, n times. */
  function AllOnes(n: nat): (s: seq<byte>)
    ensures |s| == n
  {
    seq(n, _ => 255)
  }

  lemma {:induction false} RawOfAllOnes(s: Sums, n: nat)
    ensures Raw(s, AllOnes(n)) == Sums(s.s1 + 255 * n, s.s2 + n * s.s1 + 255 * (n * (n + 1) / 2))
  {
    if n > 0 {
      RawOfAllOnes(s, n - 1);
      assert AllOnes(n)[..n - 1] == AllOnes(n - 1);
      assert n * s.s1 == (n - 1) * s.s1 + s.s1;
      assert n * (n + 1) == (n - 1) * n + 2 * n;
      assert n * (n + 1) / 2 == (n - 1) * n / 2 + n;
    }
  }

  /** NMAX is the largest stretch that always fits from reduced sums: one byte more can overflow. */
  lemma NmaxIsLargest()
    ensures Raw(Sums(BASE - 1, BASE - 1), AllOnes(NMAX + 1)).s2 >= TWO_32
    ensures NMAX % 16 == 0
  {
    RawOfAllOnes(Sums(BASE - 1, BASE - 1), NMAX + 1);
  }

  // ---------------------------------------------------------------- reductions without division

  /** CHOP: 65536 is 15 modulo BASE, so the high half can be folded onto the low half. */
  method Chop(a: uint32) returns (r: uint32)
    ensures r as int == a as int % TWO_16 + 15 * (a as int / TWO_16)
    ensures r as int % BASE == a as int % BASE
  {
    var tmp := a / 0x1_0000;
    r := a % 0x1_0000;
    r := r + (tmp * 16 - tmp);
    FoldHigh(a as int, TWO_16, 15, 1);
  }

  /** Replacing q*m by q*k keeps the residue when m is k plus a multiple of BASE. */
  lemma FoldHigh(a: int, m: int, k: int, multiple: int)
    requires m > 0 && m == k + multiple * BASE
    ensures (a % m + k * (a / m)) % BASE == a % BASE
  {
    var q := a / m;
    assert a == a % m + m * q;
    assert a == (a % m + k * q) + multiple * q * BASE by {
      assert m * q == k * q + multiple * BASE * q;
      assert multiple * BASE * q == multiple * q * BASE;
    }
    SameResidue(a % m + k * q, multiple * q);
  }

  lemma SameResidue(x: int, k: int)
    ensures (x + k * BASE) % BASE == x % BASE
  {
    var y := x + k * BASE;
    assert y == BASE * (x / BASE + k) + x % BASE;
    Quotient(y, x / BASE + k, x % BASE);
  }

  lemma Quotient(y: int, q: int, r: int)
    requires y == BASE * q + r && 0 <= r < BASE
    ensures y % BASE == r
  {
    var d := y / BASE - q;
    assert y % BASE - r == -BASE * d;
  }

  method Mod28(a: uint32, noDivide: bool) returns (r: uint32)
    requires a < 0x1000_0000
    ensures r as int == a as int % BASE
  {
    if noDivide {
      r := Chop(a);
      if r >= 65521 { r := r - 65521; }
    } else {
      r := a % 65521;
    }
  }

  method Mod(a: uint32, noDivide: bool) returns (r: uint32)
    ensures r as int == a as int % BASE
  {
    if noDivide {
      r := Chop(a);
      r := Mod28(r, true);
    } else {
      r := a % 65521;
    }
  }

  /** One 16-bit fold of MOD63, on a 64-bit value. */
  method Fold16(a: off64) returns (r: off64)
    requires 0 <= a < 0x100_0000_0000
    ensures r as int == a as int % TWO_16 + 15 * (a as int / TWO_16)
    ensures r as int % BASE == a as int % BASE
  {
    var tmp := a / 0x1_0000;
    r := a % 0x1_0000;
    r := r + (tmp * 16 - tmp);
    FoldHigh(a as int, TWO_16, 15, 1);
  }

  method Mod63(a: off64, noDivide: bool) returns (r: off64)
    requires a >= 0
    ensures r as int == a as int % BASE
  {
    if noDivide {
      var tmp := a / 0x1_0000_0000;
      r := a % 0x1_0000_0000;
      r := r + (tmp * 256 - tmp * 32 + tmp);
      FoldHigh(a as int, TWO_32, 225, 65551);
      r := Fold16(r);
      r := Fold16(r);
      if r >= 65521 { r := r - 65521; }
    } else {
      r := a % 65521;
    }
  }

  // ---------------------------------------------------------------- adler32

  /** DO1 on the byte at `pos`, where [start..pos) has been accumulated since the last reduction. */
  method Do1(buf: array<byte>, ghost start: nat, pos: nat, ghost at: Sums, adler: uint32, sum2: uint32)
    returns (adler': uint32, sum2': uint32)
    requires start <= pos < buf.Length && pos < start + NMAX
    requires at.s1 < TWO_16 && at.s2 < TWO_16
    requires Sums(adler as int, sum2 as int) == Raw(at, buf[start..pos])
    ensures Sums(adler' as int, sum2' as int) == Raw(at, buf[start..pos + 1])
  {
    assert buf[start..pos + 1][..pos - start] == buf[start..pos];
    NoOverflow(at, buf[start..pos + 1]);
    adler' := adler + buf[pos] as uint32;
    sum2' := sum2 + adler';
  }

  /** DO16: sixteen unrolled DO1 steps. */
  method Do16(buf: array<byte>, ghost start: nat, pos: nat, ghost at: Sums, adler: uint32, sum2: uint32)
    returns (adler': uint32, sum2': uint32)
    requires start <= pos && pos + 16 <= buf.Length && pos + 16 <= start + NMAX
    requires at.s1 < TWO_16 && at.s2 < TWO_16
    requires Sums(adler as int, sum2 as int) == Raw(at, buf[start..pos])
    ensures Sums(adler' as int, sum2' as int) == Raw(at, buf[start..pos + 16])
  {
    adler', sum2' := adler, sum2;
    for i := 0 to 16
      invariant Sums(adler' as int, sum2' as int) == Raw(at, buf[start..pos + i])
    {
      adler', sum2' := Do1(buf, start, pos + i, at, adler', sum2');
    }
  }

  /** `if (x >= BASE) x -= BASE`: a remainder for anything below twice BASE. */
  method SubtractBase(x: uint32) returns (r: uint32)
    requires x <= 131056
    ensures x < 131042 ==> r as int == x as int % BASE
    ensures r < 0x1_0000
  {
    r := x;
    if r >= 65521 { r := r - 65521; }
  }

  /** The path for one byte: two conditional subtractions. */
  method ChecksumByte(adler0: uint32, b: byte) returns (r: uint32)
    ensures Split(adler0).Reduced() ==> r as int == Pack(Checksum(Split(adler0), [b]))
  {
    var adler, sum2 := Unpack(adler0);
    adler := SubtractBase(adler + b as uint32);
    sum2 := SubtractBase(sum2 + adler);
    ReduceSingle(Split(adler0), b);
    r := Recombine(adler, sum2);
  }

  /** The path for fewer than sixteen bytes: one subtraction and one reduction at the end. */
  method ChecksumShort(adler0: uint32, buf: array<byte>, len0: nat, noDivide: bool) returns (r: uint32)
    requires len0 <= buf.Length && len0 < 16
    ensures Split(adler0).Reduced() ==> r as int == Pack(Checksum(Split(adler0), buf[..len0]))
  {
    ghost var s := Split(adler0);
    var len, pos := len0, 0;
    var adler, sum2 := Unpack(adler0);
    while len > 0
      invariant 0 <= len && pos + len == len0
      invariant Sums(adler as int, sum2 as int) == Raw(s, buf[0..pos])
    {
      len := len - 1;
      adler, sum2 := Do1(buf, 0, pos, s, adler, sum2);
      pos := pos + 1;
    }
    assert buf[..len0] == buf[0..pos];
    ShortBound(s, buf[..len0]);
    if s.Reduced() { ReduceOnce(s, buf[..len0]); }
    adler := SubtractBase(adler);
    sum2 := Mod28(sum2, noDivide);
    r := Recombine(adler, sum2);
  }

  /** One block of NMAX bytes: 347 times DO16, then one reduction of each sum. */
  method Block(buf: array<byte>, start: nat, ghost at: Sums, adler0: uint32, sum0: uint32, noDivide: bool)
    returns (adler: uint32, sum2: uint32)
    requires start + NMAX <= buf.Length && at.s1 < TWO_16 && at.s2 < TWO_16
    requires at == Sums(adler0 as int, sum0 as int)
    ensures Sums(adler as int, sum2 as int) == Reduce(Raw(at, buf[start..start + NMAX]))
  {
    adler, sum2 := adler0, sum0;
    var n, pos := 5552 / 16, start;
    assert buf[start..start] == [];
    while true
      invariant 0 < n <= 347 && pos == start + 16 * (347 - n)
      invariant Sums(adler as int, sum2 as int) == Raw(at, buf[start..pos])
      decreases n
    {
      adler, sum2 := Do16(buf, start, pos, at, adler, sum2);
      pos := pos + 16;
      n := n - 1;
      if n == 0 { break; }
    }
    adler := Mod(adler, noDivide);
    sum2 := Mod(sum2, noDivide);
  }

  /** The remaining bytes, fewer than NMAX: DO16 while it fits, then single bytes, then one reduction. */
  method Rest(buf: array<byte>, start: nat, len0: nat, ghost at: Sums, adler0: uint32, sum0: uint32, noDivide: bool)
    returns (adler: uint32, sum2: uint32)
    requires start + len0 <= buf.Length && len0 < NMAX && at.s1 < TWO_16 && at.s2 < TWO_16
    requires at == Sums(adler0 as int, sum0 as int)
    ensures Sums(adler as int, sum2 as int) == Reduce(Raw(at, buf[start..start + len0]))
  {
    adler, sum2 := adler0, sum0;
    var len, pos := len0, start;
    assert buf[start..start] == [];
    while len >= 16
      invariant 0 <= len && pos + len == start + len0 && start <= pos
      invariant Sums(adler as int, sum2 as int) == Raw(at, buf[start..pos])
    {
      len := len - 16;
      adler, sum2 := Do16(buf, start, pos, at, adler, sum2);
      pos := pos + 16;
    }
    while len > 0
      invariant 0 <= len && pos + len == start + len0 && start <= pos
      invariant Sums(adler as int, sum2 as int) == Raw(at, buf[start..pos])
    {
      len := len - 1;
      adler, sum2 := Do1(buf, start, pos, at, adler, sum2);
      pos := pos + 1;
    }
    adler := Mod(adler, noDivide);
    sum2 := Mod(sum2, noDivide);
  }

  lemma CloseBlock(all: seq<byte>, s: Sums, start: nat, end: nat, at: Sums)
    requires start <= end <= |all|
    requires s.Reduced() && at == Checksum(s, all[..start])
    ensures Reduce(Raw(at, all[start..end])) == Checksum(s, all[..end])
  {
    ReduceOnce(at, all[start..end]);
    ChecksumConcat(s, all[..start], all[start..end]);
    assert all[..start] + all[start..end] == all[..end];
  }

  /**
   * adler32(adler, buf, len), in either build. No 32-bit sum overflows for any starting value; from
   * reduced halves, every path computes the checksum of the definition.
   */
  method Checksum32(adler0: uint32, buf: array?<byte>, len0: nat, noDivide: bool) returns (r: uint32)
    requires buf == null ==> len0 != 1
    requires buf != null ==> len0 <= buf.Length
    ensures buf == null ==> r == 1
    ensures buf != null && Split(adler0).Reduced() ==> r as int == Pack(Checksum(Split(adler0), buf[..len0]))
  {
    if len0 == 1 {
      assert buf[..1] == [buf[0]];
      r := ChecksumByte(adler0, buf[0]);
      return;
    }
    if buf == null {
      return 1;
    }
    if len0 < 16 {
      r := ChecksumShort(adler0, buf, len0, noDivide);
      return;
    }
    ghost var s := Split(adler0);
    var len, pos := len0, 0;
    var adler, sum2 := Unpack(adler0);
    while len >= 5552
      invariant 0 <= len && pos + len == len0
      invariant adler < 0x1_0000 && sum2 < 0x1_0000
      invariant s.Reduced() ==> Sums(adler as int, sum2 as int) == Checksum(s, buf[..pos])
    {
      ghost var at := Sums(adler as int, sum2 as int);
      len := len - 5552;
      adler, sum2 := Block(buf, pos, at, adler, sum2, noDivide);
      if s.Reduced() { CloseBlock(buf[..], s, pos, pos + NMAX, at); }
      pos := pos + 5552;
    }
    if len > 0 {
      ghost var at := Sums(adler as int, sum2 as int);
      adler, sum2 := Rest(buf, pos, len, at, adler, sum2, noDivide);
      if s.Reduced() { CloseBlock(buf[..], s, pos, pos + len, at); }
    }
    r := Recombine(adler, sum2);
  }

  lemma ReduceSingle(s: Sums, b: byte)
    ensures Checksum(s, [b]) == Update(s, b)
  {
    assert [b][..0] == [];
  }

  /** Fewer than sixteen bytes leave the first sum below twice BASE and the second below 2^28. */
  lemma ShortBound(s: Sums, data: seq<byte>)
    requires s.s1 < TWO_16 && s.s2 < TWO_16 && |data| < 16
    ensures Raw(s, data).s1 < 2 * BASE && Raw(s, data).s2 < 0x1000_0000
  {
    RawBound(s, data);
    Monotone(|data|, 15, s.s1);
    Monotone(|data|, 15, |data| + 1);
  }

  // ---------------------------------------------------------------- adler32_combine

  /** The checksum of a concatenation, from the two checksums and the second length only. */
  function Combined(a: Sums, b: Sums, len2: nat): (r: Sums)
    ensures r.Reduced()
  {
    Sums((a.s1 + b.s1 - 1) % BASE, (a.s2 + b.s2 + len2 * (a.s1 - 1)) % BASE)
  }

  /** The unreduced sums from (a.s1, a.s2) are the sums from (1, 0), shifted. */
  lemma {:induction false} RawShift(a: Sums, data: seq<byte>)
    ensures Raw(a, data).s1 == Raw(INITIAL, data).s1 + a.s1 - 1
    ensures Raw(a, data).s2 == Raw(INITIAL, data).s2 + a.s2 + |data| * (a.s1 - 1)
    decreases |data|
  {
    if data != [] {
      var n := |data| - 1;
      RawShift(a, data[..n]);
      assert (n + 1) * (a.s1 - 1) == n * (a.s1 - 1) + (a.s1 - 1);
    }
  }

  /** Combining the checksums of A and of B is checksumming A followed by B. */
  lemma CombineIsConcat(s: Sums, a: seq<byte>, b: seq<byte>)
    requires s.Reduced()
    ensures Combined(Checksum(s, a), Checksum(INITIAL, b), |b|) == Checksum(s, a + b)
  {
    var p := Checksum(s, a);
    ChecksumConcat(s, a, b);
    ReduceOnce(p, b);
    ReduceOnce(INITIAL, b);
    RawShift(p, b);
    CombinedReduced(p, Raw(INITIAL, b), |b|);
  }

  lemma CombinedReduced(p: Sums, x: Sums, len2: nat)
    ensures Combined(p, Reduce(x), len2)
            == Sums((x.s1 + p.s1 - 1) % BASE, (x.s2 + p.s2 + len2 * (p.s1 - 1)) % BASE)
  {
    SwapResidue(x.s1, p.s1 - 1);
    SwapResidue(x.s2, p.s2 + len2 * (p.s1 - 1));
  }

  /**
   * adler32_combine_: -1 for a negative length; otherwise no step overflows, and the conditional
   * subtractions are exactly the two remainders of Combined.
   */
  method Adler32Combine(adler1: uint32, adler2: uint32, len2: off64, noDivide: bool) returns (r: uint32)
    requires Split(adler1).Reduced() && Split(adler2).Reduced()
    ensures len2 < 0 ==> r == 0xFFFF_FFFF
    ensures len2 >= 0 ==> r as int == Pack(Combined(Split(adler1), Split(adler2), len2 as int))
  {
    if len2 < 0 {
      return 0xFFFF_FFFF;
    }
    ghost var a, b := Split(adler1), Split(adler2);
    var len := Mod63(len2, noDivide);
    var rem := len as uint32;
    var sum1, high1 := Unpack(adler1);
    var low2, high2 := Unpack(adler2);
    ProductFits(rem as int, sum1 as int);
    var sum2 := rem * sum1;
    sum2 := Mod(sum2, noDivide);
    CombineResidue(a, b, len2 as int);
    sum1 := sum1 + (low2 + 65521 - 1);
    sum2 := sum2 + (high1 + high2 + 65521 - rem);
    SameResidue(a.s1 + b.s1 - 1, 1);
    sum1 := SubtractTwice(sum1, 65521);
    sum2 := SubtractTwice(sum2, 131042);
    r := Recombine(sum1, sum2);
  }

  /** Subtract `first` (BASE or twice BASE) if it fits, then BASE if it fits: below BASE, same residue. */
  method SubtractTwice(x: uint32, first: uint32) returns (r: uint32)
    requires (first == 65521 && x < 196563) || (first == 131042 && x < 262084)
    ensures r as int == x as int % BASE
  {
    r := x;
    if r >= first { r := r - first; }
    if r >= 65521 { r := r - 65521; }
  }

  lemma ProductFits(rem: nat, x: nat)
    requires rem < BASE && x < TWO_16
    ensures 0 <= rem * x < TWO_32
  {
    Monotone(rem, 65520, x);
  }

  lemma CombineResidue(a: Sums, b: Sums, len2: nat)
    ensures var rem := len2 % BASE;
            (rem * a.s1 % BASE + a.s2 + b.s2 + BASE - rem) % BASE == (a.s2 + b.s2 + len2 * (a.s1 - 1)) % BASE
  {
    var rem, q := len2 % BASE, len2 / BASE;
    var rest := a.s2 + b.s2 - rem;
    SwapResidue(rem * a.s1, rest + BASE);
    SameResidue(rem * a.s1 + rest, 1);
    assert len2 * (a.s1 - 1) == rem * a.s1 - rem + q * (a.s1 - 1) * BASE by {
      assert len2 == rem + q * BASE;
      assert (rem + q * BASE) * (a.s1 - 1) == rem * (a.s1 - 1) + q * BASE * (a.s1 - 1);
      assert q * BASE * (a.s1 - 1) == q * (a.s1 - 1) * BASE;
    }
    SameResidue(rem * a.s1 + rest, q * (a.s1 - 1));
  }
}

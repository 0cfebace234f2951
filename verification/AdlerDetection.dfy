/** Which changes of the data the Adler-32 checksum detects. */
module AdlerDetection {
  import opened Bytes
  import opened Adler32

  // ---------------------------------------------------------------- BASE is prime

  lemma NoSmallDivisor(d: nat)
    requires 1 < d < 256
    ensures BASE % d != 0
  {
  }

  /** Euclid's lemma for BASE and a byte-sized factor: dividing m*d it divides m. */
  lemma {:induction false} DividesFactor(m: int, d: nat)
    requires 0 < d < 256 && m * d % BASE == 0
    ensures m % BASE == 0
    decreases d
  {
    if d > 1 {
      NoSmallDivisor(d);
      var q, r, k := BASE / d, BASE % d, m * d / BASE;
      assert BASE == q * d + r && m * d == k * BASE;
      assert m * r == (m - q * k) * BASE by {
        assert m * (q * d + r) == q * (m * d) + m * r;
      }
      SameResidue(0, m - q * k);
      DividesFactor(m, r);
    }
  }

  // ---------------------------------------------------------------- one byte, two bytes

  /** What replacing one byte does to the unreduced sums: the second sum weighs it by its distance to the end. */
  lemma {:induction false} RawReplace(s: Sums, data: seq<byte>, i: nat, y: byte)
    requires i < |data|
    ensures Raw(s, data[i := y]).s1 == Raw(s, data).s1 + y as int - data[i] as int
    ensures Raw(s, data[i := y]).s2 == Raw(s, data).s2 + (|data| - i) * (y as int - data[i] as int)
    decreases |data|
  {
    var n := |data| - 1;
    if i < n {
      RawReplace(s, data[..n], i, y);
      assert data[i := y][..n] == data[..n][i := y];
      var delta := y as int - data[i] as int;
      assert (n + 1 - i) * delta == (n - i) * delta + delta;
    } else {
      assert data[i := y][..n] == data[..n];
    }
  }

  lemma ResidueShift(x: int, shift: int)
    ensures (x + shift) % BASE == x % BASE <==> shift % BASE == 0
  {
    if shift % BASE == 0 {
      assert shift == shift / BASE * BASE;
      SameResidue(x, shift / BASE);
    }
    if (x + shift) % BASE == x % BASE {
      Quotient(shift, (x + shift) / BASE - x / BASE, 0);
    }
  }

  lemma SumsDiffer(p: Sums, q: Sums, shift1: int, shift2: int)
    requires q.s1 == p.s1 + shift1 && q.s2 == p.s2 + shift2
    ensures Reduce(p) != Reduce(q) <==> shift1 % BASE != 0 || shift2 % BASE != 0
  {
    ResidueShift(p.s1, shift1);
    ResidueShift(p.s2, shift2);
  }

  /** Two checksums differ exactly when the unreduced sums differ modulo BASE. */
  lemma ChecksumsDiffer(s: Sums, a: seq<byte>, b: seq<byte>)
    requires s.Reduced()
    ensures Checksum(s, a) != Checksum(s, b) <==> Reduce(Raw(s, a)) != Reduce(Raw(s, b))
  {
    ReduceOnce(s, a);
    ReduceOnce(s, b);
  }

  lemma RawByteChange(s: Sums, data: seq<byte>, i: nat, y: byte)
    requires i < |data| && y != data[i]
    ensures Reduce(Raw(s, data)) != Reduce(Raw(s, data[i := y]))
  {
    RawReplace(s, data, i, y);
    ResidueShift(Raw(s, data).s1, y as int - data[i] as int);
  }

  /** Changing any one byte changes the checksum. */
  lemma ByteChangeDetected(s: Sums, data: seq<byte>, i: nat, y: byte)
    requires s.Reduced() && i < |data| && y != data[i]
    ensures Checksum(s, data[i := y]) != Checksum(s, data)
  {
    ChecksumsDiffer(s, data, data[i := y]);
    RawByteChange(s, data, i, y);
  }

  function Swap(data: seq<byte>, i: nat, j: nat): (r: seq<byte>)
    requires i < |data| && j < |data|
    ensures |r| == |data|
  {
    data[i := data[j]][j := data[i]]
  }

  /** The distance-weighted difference of two bytes vanishes modulo BASE only if a factor does. */
  lemma ProductResidue(m: int, delta: int)
    requires -256 < delta < 256
    ensures m * delta % BASE == 0 <==> delta == 0 || m % BASE == 0
  {
    if delta != 0 && m % BASE == 0 {
      assert m == m / BASE * BASE;
      assert m * delta == m / BASE * delta * BASE by {
        assert m / BASE * BASE * delta == m / BASE * delta * BASE;
      }
      SameResidue(0, m / BASE * delta);
    }
    if delta != 0 && m * delta % BASE == 0 {
      if delta < 0 {
        assert m * -delta == -(m * delta);
        assert m * delta == m * delta / BASE * BASE;
        SameResidue(0, -(m * delta / BASE));
        DividesFactor(m, -delta);
      } else {
        DividesFactor(m, delta);
      }
    }
  }

  /** What a swap does to the unreduced sums: only the second one moves. */
  lemma RawSwap(s: Sums, data: seq<byte>, i: nat, j: nat)
    requires i < j < |data|
    ensures Raw(s, Swap(data, i, j)).s1 == Raw(s, data).s1
    ensures Raw(s, Swap(data, i, j)).s2 == Raw(s, data).s2 + (j - i) * (data[j] as int - data[i] as int)
  {
    RawReplace(s, data, i, data[j]);
    RawReplace(s, data[i := data[j]], j, data[i]);
    var delta := data[j] as int - data[i] as int;
    assert (|data| - i) * delta + (|data| - j) * -delta == (j - i) * delta;
  }

  lemma WeightedShift(p: Sums, q: Sums, m: int, delta: int)
    requires q.s1 == p.s1 && q.s2 == p.s2 + m * delta && -256 < delta < 256
    ensures Reduce(p) != Reduce(q) <==> delta != 0 && m % BASE != 0
  {
    SumsDiffer(p, q, 0, q.s2 - p.s2);
    ProductResidue(m, delta);
  }

  lemma RawSwapDetected(s: Sums, data: seq<byte>, i: nat, j: nat)
    requires i < j < |data|
    ensures Reduce(Raw(s, data)) != Reduce(Raw(s, Swap(data, i, j)))
            <==> data[i] != data[j] && (j - i) % BASE != 0
  {
    RawSwap(s, data, i, j);
    WeightedShift(Raw(s, data), Raw(s, Swap(data, i, j)), j - i, data[j] as int - data[i] as int);
  }

  /** Swapping two bytes is detected unless they are equal or a multiple of 65521 positions apart. */
  lemma SwapDetected(s: Sums, data: seq<byte>, i: nat, j: nat)
    requires s.Reduced() && i < j < |data|
    ensures Checksum(s, Swap(data, i, j)) != Checksum(s, data) <==> data[i] != data[j] && (j - i) % BASE != 0
  {
    ChecksumsDiffer(s, data, Swap(data, i, j));
    RawSwapDetected(s, data, i, j);
  }
}

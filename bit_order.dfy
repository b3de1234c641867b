/** The bit-addressing convention shared by the writer and the reader.

    A bit sequence is a `seq<bool>`. Bit `i` lives in byte `i / 8` at in-byte
    position `i % 8`, least significant bit first, so the bits of an unsigned
    value `v` appear in the order bit 0, bit 1, ... of `v`. Multi-byte integers
    are first split into little-endian bytes, which gives the same order. */
module BitOrder {

  type u8 = x: nat | x < 0x100
  type u16 = x: nat | x < 0x1_0000
  type u32 = x: nat | x < 0x1_0000_0000
  /** `usize` is taken to be 64 bits wide. */
  type usize = x: nat | x < 0x1_0000_0000_0000_0000

  const USIZE_BITS: nat := 64

  function Pow2(n: nat): (p: nat)
    ensures p >= 1
  {
    if n == 0 then 1 else 2 * Pow2(n - 1)
  }

  lemma {:induction false} Pow2Add(a: nat, b: nat)
    ensures Pow2(a + b) == Pow2(a) * Pow2(b)
  {
    if a > 0 {
      Pow2Add(a - 1, b);
      assert Pow2(a + b) == 2 * Pow2(a - 1 + b);
    }
  }

  lemma {:induction false} Pow2Mono(a: nat, b: nat)
    requires a <= b
    ensures Pow2(a) <= Pow2(b)
  {
    if a < b {
      Pow2Mono(a, b - 1);
    }
  }

  lemma Pow2Byte()
    ensures Pow2(8) == 0x100
  {
  }

  lemma Pow2U16()
    ensures Pow2(16) == 0x1_0000
  {
    Pow2Byte();
    Pow2Add(8, 8);
  }

  lemma Pow2U32()
    ensures Pow2(32) == 0x1_0000_0000
  {
    Pow2U16();
    Pow2Add(16, 16);
  }

  lemma Pow2Usize()
    ensures Pow2(USIZE_BITS) == 0x1_0000_0000_0000_0000
  {
    Pow2U32();
    Pow2Add(32, 32);
  }

  /** Quotient and remainder are unique. */
  lemma DivModUnique(v: int, d: int, q: int, r: int)
    requires d > 0 && 0 <= r < d && v == d * q + r
    ensures v / d == q && v % d == r
  {
    var q', r' := v / d, v % d;
    assert d * (q - q') == r' - r;
    if q > q' {
      assert d * (q - q') >= d by { MulAtLeast(d, q - q'); }
    } else if q < q' {
      assert d * (q' - q) >= d by { MulAtLeast(d, q' - q); }
    }
  }

  lemma MulAtLeast(d: int, k: int)
    requires d > 0 && k >= 1
    ensures d * k >= d
  {
  }

  /** Dividing by 2 and then by 2^n is dividing by 2^(n+1); the remainders combine likewise. */
  lemma {:induction false} HalveSplit(v: nat, n: nat)
    ensures v / Pow2(n + 1) == (v / 2) / Pow2(n)
    ensures v % Pow2(n + 1) == v % 2 + 2 * ((v / 2) % Pow2(n))
  {
    var q, r := v / 2, v % 2;
    var P := Pow2(n);
    var q2, r2 := q / P, q % P;
    assert v == 2 * P * q2 + (2 * r2 + r);
    DivModUnique(v, 2 * P, q2, 2 * r2 + r);
  }

  /** The low `n` bits of `v`, least significant first. */
  function ToBits(v: nat, n: nat): (s: seq<bool>)
    ensures |s| == n
  {
    if n == 0 then [] else [v % 2 == 1] + ToBits(v / 2, n - 1)
  }

  /** The unsigned value whose bit `i` is `s[i]` (the sum of `2^i` over the set bits). */
  function FromBits(s: seq<bool>): (v: nat)
    ensures v < Pow2(|s|)
  {
    if s == [] then 0 else (if s[0] then 1 else 0) + 2 * FromBits(s[1..])
  }

  /** Bit `i` of the encoding is bit `i` of the value. */
  lemma {:induction false} ToBitsAt(v: nat, n: nat, i: nat)
    requires i < n
    ensures ToBits(v, n)[i] == ((v / Pow2(i)) % 2 == 1)
  {
    if i > 0 {
      assert ToBits(v, n)[i] == ToBits(v / 2, n - 1)[i - 1];
      ToBitsAt(v / 2, n - 1, i - 1);
      HalveSplit(v, i - 1);
      assert v / Pow2(i) == (v / 2) / Pow2(i - 1);
    }
  }

  /** Reading back `n` encoded bits yields the value truncated to `n` bits. */
  lemma {:induction false} FromToBits(v: nat, n: nat)
    ensures FromBits(ToBits(v, n)) == v % Pow2(n)
  {
    if n > 0 {
      var s := ToBits(v, n);
      assert s[1..] == ToBits(v / 2, n - 1);
      FromToBits(v / 2, n - 1);
      HalveSplit(v, n - 1);
    }
  }

  /** A value that fits in `n` bits survives encoding and decoding unchanged. */
  lemma FromToBitsFits(v: nat, n: nat)
    requires v < Pow2(n)
    ensures FromBits(ToBits(v, n)) == v
  {
    FromToBits(v, n);
  }

  /** Encoding a decoded bit sequence at its own width gives the sequence back. */
  lemma {:induction false} ToFromBits(s: seq<bool>)
    ensures ToBits(FromBits(s), |s|) == s
  {
    if s != [] {
      ToFromBits(s[1..]);
      var v := FromBits(s);
      assert v % 2 == (if s[0] then 1 else 0) && v / 2 == FromBits(s[1..]);
    }
  }

  /** Two values that fit in `n` bits and have the same `n`-bit encoding are equal. */
  lemma ToBitsInjective(v: nat, w: nat, n: nat)
    requires v < Pow2(n) && w < Pow2(n) && ToBits(v, n) == ToBits(w, n)
    ensures v == w
  {
    FromToBitsFits(v, n);
    FromToBitsFits(w, n);
  }

  /** An `n`-bit encoding determines the value up to its low `n` bits: whatever
      fits in `n` bits and has the same encoding as `v` is `v` truncated to `n` bits. */
  lemma ToBitsDetermines(v: nat, w: nat, n: nat)
    requires w < Pow2(n) && ToBits(w, n) == ToBits(v, n)
    ensures w == v % Pow2(n)
  {
    FromToBitsFits(w, n);
    FromToBits(v, n);
  }

  /** Only the low `n` bits of a value take part in its `n`-bit encoding. */
  lemma ToBitsMod(v: nat, n: nat)
    ensures ToBits(v % Pow2(n), n) == ToBits(v, n)
  {
    FromToBits(v, n);
    ToFromBits(ToBits(v, n));
  }

  /** `v` shifted right by `a` bits, one halving at a time. */
  function Shr(v: nat, a: nat): nat
  {
    if a == 0 then v else Shr(v / 2, a - 1)
  }

  /** Shifting right by `a` bits is dividing by `2^a`. */
  lemma {:induction false} ShrIsDiv(v: nat, a: nat)
    ensures Shr(v, a) == v / Pow2(a)
  {
    if a > 0 {
      ShrIsDiv(v / 2, a - 1);
      HalveSplit(v, a - 1);
    }
  }

  /** The first `a + b` bits of `v` are its first `a` bits followed by the
      first `b` bits of what is left after shifting out those `a`. */
  lemma {:induction false} ToBitsSplit(v: nat, a: nat, b: nat)
    ensures ToBits(v, a + b) == ToBits(v, a) + ToBits(Shr(v, a), b)
  {
    if a > 0 {
      ToBitsSplit(v / 2, a - 1, b);
      assert ToBits(v, a + b) == [v % 2 == 1] + ToBits(v / 2, (a - 1) + b);
    }
  }

  /** Truncating a wider encoding keeps the low bits: `ToBits(v, n)[..k] == ToBits(v, k)`. */
  lemma ToBitsPrefix(v: nat, n: nat, k: nat)
    requires k <= n
    ensures ToBits(v, n)[..k] == ToBits(v, k)
  {
    ToBitsSplit(v, k, n - k);
  }

  /** The bits of a byte run, byte after byte, each byte least significant bit first. */
  function BytesToBits(bs: seq<u8>): (s: seq<bool>)
    ensures |s| == 8 * |bs|
  {
    if bs == [] then [] else ToBits(bs[0], 8) + BytesToBits(bs[1..])
  }

  /** Regroups a whole number of bytes' worth of bits into bytes. */
  function BitsToBytes(s: seq<bool>): (bs: seq<u8>)
    requires |s| % 8 == 0
    ensures |bs| == |s| / 8
  {
    if s == [] then []
    else
      Pow2Byte();
      [FromBits(s[..8]) as u8] + BitsToBytes(s[8..])
  }

  /** Bit `8k + j` of a byte run is bit `j` of byte `k`. */
  lemma {:induction false} BytesToBitsAt(bs: seq<u8>, k: nat, j: nat)
    requires k < |bs| && j < 8
    ensures BytesToBits(bs)[8 * k + j] == ((bs[k] / Pow2(j)) % 2 == 1)
  {
    if k == 0 {
      ToBitsAt(bs[0], 8, j);
    } else {
      BytesToBitsAt(bs[1..], k - 1, j);
      assert BytesToBits(bs)[8 * k + j] == BytesToBits(bs[1..])[8 * (k - 1) + j];
    }
  }

  /** Splitting bits into bytes and flattening them again is the identity. */
  lemma {:induction false} BitsToBytesToBits(s: seq<bool>)
    requires |s| % 8 == 0
    ensures BytesToBits(BitsToBytes(s)) == s
  {
    if s != [] {
      BitsToBytesToBits(s[8..]);
      ToFromBits(s[..8]);
      assert s == s[..8] + s[8..];
    }
  }

  /** Flattening bytes and regrouping them is the identity. */
  lemma {:induction false} BytesToBitsToBytes(bs: seq<u8>)
    ensures BitsToBytes(BytesToBits(bs)) == bs
  {
    if bs != [] {
      var s := BytesToBits(bs);
      assert s[..8] == ToBits(bs[0], 8) && s[8..] == BytesToBits(bs[1..]);
      Pow2Byte();
      FromToBitsFits(bs[0], 8);
      BytesToBitsToBytes(bs[1..]);
    }
  }

  /** The `n` little-endian bytes of `v` (Rust's `to_le_bytes` for an `n`-byte integer). */
  function LeBytes(v: nat, n: nat): (bs: seq<u8>)
    ensures |bs| == n
  {
    if n == 0 then [] else [v % 0x100] + LeBytes(v / 0x100, n - 1)
  }

  /** Laying out the little-endian bytes of `v` bit by bit is the same as
      laying out the bits of `v` from the least significant one up. */
  lemma {:induction false} LeBytesBits(v: nat, n: nat)
    ensures BytesToBits(LeBytes(v, n)) == ToBits(v, 8 * n)
  {
    if n > 0 {
      Pow2Byte();
      LeBytesBits(v / 0x100, n - 1);
      ToBitsSplit(v, 8, 8 * (n - 1));
      ShrIsDiv(v, 8);
      ToBitsMod(v, 8);
      assert 8 * n == 8 + 8 * (n - 1);
    }
  }

  /** `s` extended with the fewest `false` bits that make its length a multiple of 8
      (there is exactly one multiple of 8 in `[|s|, |s| + 8)`). */
  function Padded(s: seq<bool>): (r: seq<bool>)
    ensures |s| <= |r| < |s| + 8 && |r| % 8 == 0
    ensures r[..|s|] == s
    ensures forall i :: |s| <= i < |r| ==> !r[i]
  {
    s + seq((8 - |s| % 8) % 8, _ => false)
  }

  /** Padding an aligned sequence changes nothing, so padding twice is padding once. */
  lemma PaddedIdempotent(s: seq<bool>)
    ensures |s| % 8 == 0 ==> Padded(s) == s
    ensures Padded(Padded(s)) == Padded(s)
  {
  }
}

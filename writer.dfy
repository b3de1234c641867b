/** `FleaBitWriter`: an append-only bit buffer. Every push appends at the end;
    the single exception is `SetBool`, which overwrites one bit that is
    already there. Integers wider than a byte are split into little-endian
    bytes first, which lays their bits out least significant first. */
module BitWriter {
  import opened BitOrder
  import Lib
  import BitReader

  class Writer {
    var bits: seq<bool>

    constructor ()
      ensures bits == []
    {
      bits := [];
    }

    /** The number of bits written so far. */
    function Len(): (n: nat)
      reads this
      ensures n == |bits|
    {
      |bits|
    }

    /** Appends one bit; the bits already written stay as they are. */
    method Bool(v: bool)
      modifies this
      ensures bits == old(bits) + [v]
    {
      bits := bits + [v];
    }

    /** Overwrites bit `pos`, which must already have been written. */
    method SetBool(pos: nat, v: bool)
      requires pos < |bits|
      modifies this
      ensures bits == old(bits)[pos := v]
      ensures |bits| == old(|bits|) && bits[pos] == v
      ensures forall i :: 0 <= i < |bits| && i != pos ==> bits[i] == old(bits[i])
    {
      bits := bits[pos := v];
    }

    /** Appends the 8 bits of `v`, least significant first. */
    method U8(v: u8)
      modifies this
      ensures bits == old(bits) + ToBits(v, 8)
    {
      bits := bits + ToBits(v, 8);
    }

    /** Appends the low `n` bits of `v`; `n == 0` appends nothing. */
    method U8Part(v: u8, n: nat)
      requires n <= 8
      modifies this
      ensures bits == old(bits) + ToBits(v, n)
    {
      var b := ToBits(v, 8);
      ToBitsPrefix(v, 8, n);
      bits := bits + b[..n];
    }

    /** Appends the 16 bits of `v`: its little-endian bytes, each least significant bit first. */
    method U16(v: u16)
      modifies this
      ensures bits == old(bits) + ToBits(v, 16)
    {
      var b := BytesToBits(LeBytes(v, 2));
      LeBytesBits(v, 2);
      bits := bits + b;
    }

    /** Appends the first `n` bits of the little-endian layout of `v`, that is its low `n` bits. */
    method U16Part(v: u16, n: nat)
      requires n <= 16
      modifies this
      ensures bits == old(bits) + ToBits(v, n)
    {
      var b := BytesToBits(LeBytes(v, 2));
      LeBytesBits(v, 2);
      ToBitsPrefix(v, 16, n);
      bits := bits + b[..n];
    }

    method U32(v: u32)
      modifies this
      ensures bits == old(bits) + ToBits(v, 32)
    {
      var b := BytesToBits(LeBytes(v, 4));
      LeBytesBits(v, 4);
      bits := bits + b;
    }

    method U32Part(v: u32, n: nat)
      requires n <= 32
      modifies this
      ensures bits == old(bits) + ToBits(v, n)
    {
      var b := BytesToBits(LeBytes(v, 4));
      LeBytesBits(v, 4);
      ToBitsPrefix(v, 32, n);
      bits := bits + b[..n];
    }

    method Usize(v: usize)
      modifies this
      ensures bits == old(bits) + ToBits(v, USIZE_BITS)
    {
      var b := BytesToBits(LeBytes(v, USIZE_BITS / 8));
      LeBytesBits(v, USIZE_BITS / 8);
      bits := bits + b;
    }

    method UsizePart(v: usize, n: nat)
      requires n <= USIZE_BITS
      modifies this
      ensures bits == old(bits) + ToBits(v, n)
    {
      var b := BytesToBits(LeBytes(v, USIZE_BITS / 8));
      LeBytesBits(v, USIZE_BITS / 8);
      ToBitsPrefix(v, USIZE_BITS, n);
      bits := bits + b[..n];
    }

    /** Appends the bytes of `v` in the given order, each least significant bit first. */
    method Bytes(v: seq<u8>)
      modifies this
      ensures bits == old(bits) + BytesToBits(v)
    {
      bits := bits + BytesToBits(v);
    }

    /** Appends `false` bits until the length is a multiple of 8. */
    method Pad()
      modifies this
      ensures bits == Padded(old(bits))
    {
      var len := |bits|;
      var rem := len % 8;
      if rem == 0 {
        return;
      }
      var pad := 8 - rem;
      for i := 0 to pad
        invariant bits == old(bits) + seq(i, _ => false)
      {
        Bool(false);
      }
    }

    /** Appends every bit of `v`, including those its cursor has already passed. */
    method ExtendAll(v: BitReader.Reader)
      modifies this
      ensures bits == old(bits) + v.bits
    {
      bits := bits + v.bits;
    }

    /** The bytes that hold the written bits: one per started byte, with bit
        `i` at position `i % 8` of byte `i / 8`. */
    function IntoVec(): (v: seq<u8>)
      reads this
      ensures |v| == (|bits| + 7) / 8
      ensures BytesToBits(v)[..|bits|] == bits
    {
      BitsToBytesToBits(Padded(bits));
      BitsToBytes(Padded(bits))
    }

    method ToString() returns (s: string)
      ensures s == Lib.Render(bits)
    {
      var reader := IntoReader();
      s := Lib.Debug(reader.bits);
    }

    /** A reader over exactly the written bits, positioned at the start. */
    method IntoReader() returns (r: BitReader.Reader)
      ensures fresh(r) && r.Valid() && r.bits == bits && r.pos == 0
    {
      r := new BitReader.Reader.Over(bits);
    }
  }
}

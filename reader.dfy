/** `FleaBitReader`: a cursor over a fixed bit sequence. Every read takes the
    next bits after `pos` and advances `pos` past them; nothing ever changes
    `bits`. Reading past the end is a contract violation (the source panics),
    so each read requires that enough bits remain. */
module BitReader {
  import opened BitOrder
  import Lib

  class Reader {
    var bits: seq<bool>
    var pos: nat

    /** The read offset never passes the end of the sequence. */
    ghost predicate Valid()
      reads this
    {
      pos <= |bits|
    }

    /** A reader over the bits of an owned byte vector. */
    constructor FromVec(v: seq<u8>)
      ensures Valid() && bits == BytesToBits(v) && pos == 0
    {
      bits := BytesToBits(v);
      pos := 0;
    }

    /** A reader over a copy of the bits of a borrowed byte slice. */
    constructor FromSlice(v: seq<u8>)
      ensures Valid() && bits == BytesToBits(v) && pos == 0
    {
      bits := BytesToBits(v);
      pos := 0;
    }

    /** A reader at the start of `bits`, as built by `into_reader` and `crop_end`. */
    constructor Over(bits: seq<bool>)
      ensures Valid() && this.bits == bits && pos == 0
    {
      this.bits := bits;
      pos := 0;
    }

    method Bool() returns (b: bool)
      requires pos < |bits|
      modifies this
      ensures Valid() && bits == old(bits) && pos == old(pos) + 1
      ensures b == bits[old(pos)]
    {
      b := bits[pos];
      pos := pos + 1;
    }

    method U8() returns (v: u8)
      requires pos + 8 <= |bits|
      modifies this
      ensures Valid() && bits == old(bits) && pos == old(pos) + 8
      ensures ToBits(v, 8) == bits[old(pos)..pos]
    {
      Pow2Byte();
      v := FromBits(bits[pos..pos + 8]);
      ToFromBits(bits[pos..pos + 8]);
      pos := pos + 8;
    }

    /** Reads `n` bits as the low bits of a `u8`; the high bits are zero. */
    method U8Part(n: nat) returns (v: u8)
      requires 1 <= n <= 8 && pos + n <= |bits|
      modifies this
      ensures Valid() && bits == old(bits) && pos == old(pos) + n
      ensures v < Pow2(n) && ToBits(v, n) == bits[old(pos)..pos]
    {
      Pow2Byte();
      Pow2Mono(n, 8);
      v := FromBits(bits[pos..pos + n]);
      ToFromBits(bits[pos..pos + n]);
      pos := pos + n;
    }

    method U16() returns (v: u16)
      requires pos + 16 <= |bits|
      modifies this
      ensures Valid() && bits == old(bits) && pos == old(pos) + 16
      ensures ToBits(v, 16) == bits[old(pos)..pos]
    {
      Pow2U16();
      v := FromBits(bits[pos..pos + 16]);
      ToFromBits(bits[pos..pos + 16]);
      pos := pos + 16;
    }

    /** Reads `n` bits as the low bits of a `u16`; the high bits are zero. */
    method U16Part(n: nat) returns (v: u16)
      requires 1 <= n <= 16 && pos + n <= |bits|
      modifies this
      ensures Valid() && bits == old(bits) && pos == old(pos) + n
      ensures v < Pow2(n) && ToBits(v, n) == bits[old(pos)..pos]
    {
      Pow2U16();
      Pow2Mono(n, 16);
      v := FromBits(bits[pos..pos + n]);
      ToFromBits(bits[pos..pos + n]);
      pos := pos + n;
    }

    method U32() returns (v: u32)
      requires pos + 32 <= |bits|
      modifies this
      ensures Valid() && bits == old(bits) && pos == old(pos) + 32
      ensures ToBits(v, 32) == bits[old(pos)..pos]
    {
      Pow2U32();
      v := FromBits(bits[pos..pos + 32]);
      ToFromBits(bits[pos..pos + 32]);
      pos := pos + 32;
    }

    method Usize() returns (v: usize)
      requires pos + USIZE_BITS <= |bits|
      modifies this
      ensures Valid() && bits == old(bits) && pos == old(pos) + USIZE_BITS
      ensures ToBits(v, USIZE_BITS) == bits[old(pos)..pos]
    {
      Pow2Usize();
      v := FromBits(bits[pos..pos + USIZE_BITS]);
      ToFromBits(bits[pos..pos + USIZE_BITS]);
      pos := pos + USIZE_BITS;
    }

    /** Reads `n` bits as the low bits of a `usize`; the high bits are zero. */
    method UsizePart(n: nat) returns (v: usize)
      requires 1 <= n <= USIZE_BITS && pos + n <= |bits|
      modifies this
      ensures Valid() && bits == old(bits) && pos == old(pos) + n
      ensures v < Pow2(n) && ToBits(v, n) == bits[old(pos)..pos]
    {
      Pow2Usize();
      Pow2Mono(n, USIZE_BITS);
      v := FromBits(bits[pos..pos + n]);
      ToFromBits(bits[pos..pos + n]);
      pos := pos + n;
    }

    /** Reads `count` whole bytes. The bit run is re-packed so that its first bit
        becomes bit 0 of the first byte, whether or not `pos` is byte-aligned. */
    method Bytes(count: nat) returns (r: seq<u8>)
      requires pos + 8 * count <= |bits|
      modifies this
      ensures Valid() && bits == old(bits) && pos == old(pos) + 8 * count
      ensures |r| == count && BytesToBits(r) == bits[old(pos)..pos]
    {
      var run := bits[pos..pos + 8 * count];
      r := BitsToBytes(run);
      BitsToBytesToBits(run);
      pos := pos + 8 * count;
    }

    /** A new reader over the bits not yet read; this reader is left as it is. */
    method CropEnd() returns (r: Reader)
      requires Valid()
      ensures fresh(r) && r.Valid() && r.bits == bits[pos..] && r.pos == 0
    {
      r := new Reader.Over(bits[pos..]);
    }

    function Len(): (n: nat)
      reads this
      ensures n == |bits|
    {
      |bits|
    }

    /** The number of bits not yet read. */
    function RemainingLen(): (n: nat)
      requires Valid()
      reads this
      ensures pos + n == Len()
    {
      |bits| - pos
    }

    /** Whether every bit has been read. */
    function IsEnd(): (e: bool)
      reads this
      ensures e <==> pos >= Len()
      ensures Valid() ==> (e <==> RemainingLen() == 0)
    {
      pos >= |bits|
    }

    method ToString() returns (s: string)
      ensures s == Lib.Render(bits)
    {
      s := Lib.Debug(bits);
    }
  }
}

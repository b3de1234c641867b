# bitflow in Dafny

A model of `bitflow`, a small Rust crate for packing values into a bit stream
and unpacking them again. It has three parts:

- `FleaBitWriter`, an append-only bit buffer. It takes single bits, `u8`,
  `u16`, `u32` and `usize` values (whole or cut down to their low bits) and
  byte runs. It can overwrite one bit, pad to a byte boundary, and turn into
  bytes or into a reader.
- `FleaBitReader`, a cursor `pos` over a fixed bit sequence. Each read takes
  the next bits and moves `pos` past them.
- `debug`, which draws a bit sequence as groups of 8 characters joined by `_`.

Bit `i` of the stream lives at position `i % 8` of byte `i / 8`, least
significant bit first. Wider integers are split into little-endian bytes. So
the bits written for a value `v` are bit 0, bit 1, … of `v`.

Files:

- `bit_order.dfy` (`BitOrder`): the bit convention.
  - `ToBits`/`FromBits` encode and decode a number as bits.
  - `BytesToBits`/`BitsToBytes` go between bytes and bits.
  - `LeBytes` is `to_le_bytes`; `Padded` is what `pad` produces.
  - Round-trip lemmas connect each pair.
- `lib.dfy` (`Lib`): `debug` as the loop method `Debug`, proved equal to the
  function `Render`, with lemmas about the layout `Render` produces.
- `writer.dfy` (`BitWriter`): the class `Writer`, whose field `bits` the
  methods update in place.
- `reader.dfy` (`BitReader`): the class `Reader`, with fields `bits` and
  `pos`.
- `lib_tests.dfy` (`LibTests`): the crate's test functions as methods.
  - Each method writes, renders and reads back.
  - For the `u16`, `usize`, `usize_sized` and byte-run tests, the read-back is
    proved for every value and either leading bit.
  - The `to_string` and `basics` tests are proved for their own values only.
  - The rendered layout is proved for the value the test uses.
  - The `*RoundTrip` methods widen the read-back to every kind of field.
    Each writes any prefix of stray bits and then one field of any value.
    It reads the prefix back one `bool` at a time, then reads the field.
    The prefix and the value come back, and the reader is at the end.
  - Layouts of more than one group are written as `Joined([g1, g2, …])`, the
    groups joined by `_`. For example, `Joined(["00011010", ".......1"])` is
    `"00011010_.......1"`.

## Model

| member | source | states |
|---|---|---|
| BitOrder.ToBits | src/writer.rs:25-28 | the `n` bits appended for `v`, `n` of them; `ToBitsAt` gives bit `i` as bit `i` of `v` |
| BitOrder.FromBits | src/reader.rs:33-37 | the value `load` assembles from a bit run, first bit least significant; it is below `2^len` |
| BitOrder.LeBytes | src/writer.rs:37 | `to_le_bytes`: `n` bytes, least significant first |
| BitOrder.BytesToBits | src/writer.rs:75-78 | the bits of `BitVec::from_slice`: `8` per byte, byte after byte |
| BitOrder.BitsToBytes | src/reader.rs:78-81 | `force_align` then `into_vec` on a whole number of bytes: one byte per 8 bits |
| BitOrder.ToBitsAt | src/writer.rs:36-40 | bit `i` of an `n`-bit encoding is bit `i` of the value, `(v / 2^i) % 2` |
| BitOrder.LeBytesBits | src/writer.rs:36-40 | the little-endian bytes of `v`, laid out bit by bit, are the low `8n` bits of `v`, least significant first |
| BitOrder.ToBitsPrefix | src/writer.rs:30-34 | the first `k` bits of an `n`-bit encoding are the `k`-bit encoding, so `b[..bits]` keeps the low bits |
| BitOrder.FromToBits | src/reader.rs:39-43 | decoding `n` encoded bits gives the value reduced mod `2^n` |
| BitOrder.ToFromBits | src/reader.rs:33-37 | re-encoding a decoded bit run at its own width gives the run back |
| BitOrder.ToBitsDetermines | src/reader.rs:70-74 | a value below `2^n` whose `n` bits match those of `v` is `v mod 2^n` |
| BitOrder.BytesToBitsAt | src/writer.rs:75-78 | bit `8k + j` of a byte run is bit `j` of byte `k` |
| BitOrder.BitsToBytesToBits | src/reader.rs:76-82 | regrouping a whole number of bytes' worth of bits into bytes and flattening them again is the identity |
| BitOrder.BytesToBitsToBytes | src/reader.rs:76-82 | flattening bytes and regrouping them is the identity |
| BitOrder.Padded | src/writer.rs:81-92 | padding adds 0 to 7 `false` bits, keeps the old bits, and makes the length a multiple of 8 |
| BitOrder.PaddedIdempotent | src/writer.rs:82-86 | an aligned sequence is left unchanged, so padding twice is padding once |
| Lib.GroupCount | src/lib.rs:13-35 | the loop draws `max(1, ceil(n / 8))` groups: at least one, enough for every bit, no spare group |
| Lib.Render | src/lib.rs:11-39 | the empty sequence renders as 8 characters; otherwise the output has `9 * ceil(n / 8) - 1` characters |
| Lib.RenderAt | src/lib.rs:18-29 | character `j` of group `i` shows bit `8i + 7 - j`: `.` past the end, else `1` or `0` |
| Lib.RenderSeparator | src/lib.rs:15-17 | a single `_` stands before every group but the first |
| Lib.RenderShort | src/lib.rs:18-30 | up to 8 bits render as one group, bit 7 first and bit 0 last |
| Lib.RenderFirstByte | src/lib.rs:14-36 | the rendering of a full first byte and a non-empty rest is the first byte's group, `_`, then the rest's rendering |
| Lib.Debug | src/lib.rs:11-39 | the push loop builds exactly `Render(bits)` |
| BitWriter.Writer.constructor | src/writer.rs:9-11 | a new writer holds no bits |
| BitWriter.Writer.Len | src/writer.rs:13-15 | the number of bits written |
| BitWriter.Writer.Bool | src/writer.rs:17-19 | appends exactly `v`; earlier bits are unchanged |
| BitWriter.Writer.SetBool | src/writer.rs:21-23 | requires `pos < len`; bit `pos` becomes `v`; the length and every other bit are unchanged |
| BitWriter.Writer.U8 | src/writer.rs:25-28 | appends the 8 bits of `v`, least significant first |
| BitWriter.Writer.U8Part | src/writer.rs:30-34 | requires `n <= 8`; appends the low `n` bits of `v`, nothing when `n == 0` |
| BitWriter.Writer.U16 | src/writer.rs:36-40 | appends the 16 bits of `v` as little-endian bytes, so bit `i` is bit `i` of `v` |
| BitWriter.Writer.U16Part | src/writer.rs:42-47 | requires `n <= 16`; appends the low `n` bits of `v` |
| BitWriter.Writer.U32 | src/writer.rs:49-53 | appends the 32 bits of `v` |
| BitWriter.Writer.U32Part | src/writer.rs:55-60 | requires `n <= 32`; appends the low `n` bits of `v` |
| BitWriter.Writer.Usize | src/writer.rs:62-66 | appends the 64 bits of `v` |
| BitWriter.Writer.UsizePart | src/writer.rs:68-73 | requires `n <= 64`; appends the low `n` bits of `v` |
| BitWriter.Writer.Bytes | src/writer.rs:75-78 | appends the bits of the bytes in order, each byte least significant bit first |
| BitWriter.Writer.Pad | src/writer.rs:80-92 | the new bits are `Padded(old bits)`: the loop pushes `false` until the length is a multiple of 8 |
| BitWriter.Writer.ExtendAll | src/writer.rs:94-97 | appends every bit of the reader, whatever its `pos` |
| BitWriter.Writer.IntoVec | src/writer.rs:99-101 | `ceil(len / 8)` bytes whose first `len` bits are the written bits |
| BitWriter.Writer.ToString | src/writer.rs:103-106 | the rendering of the written bits |
| BitWriter.Writer.IntoReader | src/writer.rs:108-113 | a new reader over exactly the written bits, at position 0 |
| BitReader.Reader.Over | src/writer.rs:109-112 | a reader over exactly the given bits, at position 0, as `into_reader` and `crop_end` build it |
| BitReader.Reader.FromVec | src/reader.rs:13-18 | the bits of the bytes, `8 * len` of them, at position 0 |
| BitReader.Reader.FromSlice | src/reader.rs:20-25 | the bits of the bytes, `8 * len` of them, at position 0 |
| BitReader.Reader.Bool | src/reader.rs:27-31 | requires `pos < len`; returns `bits[pos]` and advances `pos` by 1 |
| BitReader.Reader.U8 | src/reader.rs:33-37 | requires 8 bits left; returns the byte whose bits are the next 8; advances `pos` by 8 |
| BitReader.Reader.U8Part | src/reader.rs:39-43 | requires `1 <= n <= 8` and `n` bits left; returns the value below `2^n` whose bits are the next `n` |
| BitReader.Reader.U16 | src/reader.rs:45-49 | requires 16 bits left; returns the value whose bits are the next 16 |
| BitReader.Reader.U16Part | src/reader.rs:51-55 | requires `1 <= n <= 16` and `n` bits left; returns the value below `2^n` whose bits are the next `n` |
| BitReader.Reader.U32 | src/reader.rs:57-61 | requires 32 bits left; returns the value whose bits are the next 32 |
| BitReader.Reader.Usize | src/reader.rs:63-68 | requires 64 bits left; returns the value whose bits are the next 64 |
| BitReader.Reader.UsizePart | src/reader.rs:70-74 | requires `1 <= n <= 64` and `n` bits left; returns the value below `2^n` whose bits are the next `n` |
| BitReader.Reader.Bytes | src/reader.rs:76-82 | requires `8 * count` bits left; returns `count` bytes whose bits are the next `8 * count`, re-aligned when `pos` is not byte-aligned |
| BitReader.Reader.CropEnd | src/reader.rs:84-88 | a new reader over the unread bits, at position 0; this reader is unchanged |
| BitReader.Reader.Len | src/reader.rs:90-92 | the number of bits |
| BitReader.Reader.RemainingLen | src/reader.rs:94-96 | `pos + remaining == len` |
| BitReader.Reader.IsEnd | src/reader.rs:98-100 | true exactly when `pos >= len`, that is when no bits remain |
| BitReader.Reader.ToString | src/reader.rs:102-104 | the rendering of all the bits, whatever `pos` is |
| LibTests.LayoutsOfToString | src/lib.rs:46-58 | after each write the buffer renders as `.......0`, `......10`, `00011010`, `00011010_.......1` |
| LibTests.ToStringScenario | src/lib.rs:46-59 | the writer's `to_string` after each write returns those four layouts |
| LibTests.BoolScenario | src/lib.rs:62-70 | one bit renders as `.......0` or `.......1`; it reads back as itself and the reader is then at the end |
| LibTests.LayoutsOfBasics | src/lib.rs:77-82 | `false` then `u8(135)`, `u8_part(255, 2)`, `u8_part(33, 7)` render as `00001110_.......1`, `00001110_.....111`, `00001110_00001111_......01` |
| LibTests.ReadsOfBasics | src/lib.rs:84-89 | bits matching 135, the low 2 bits of 255 and the low 7 bits of 33 read back as 135, 3 and 33 |
| LibTests.BasicsScenario | src/lib.rs:73-90 | the four layouts of the test, then the reads return `false`, 135, 3, 33 and the reader ends |
| LibTests.LayoutOfU16Written | src/lib.rs:95-97 | `false` then `u16(0xffff)` renders as `11111110_11111111_.......1` |
| LibTests.U16Scenario | src/lib.rs:93-103 | any bit then any `u16` read back unchanged and the reader ends; with `false` and `0xffff`, the layout of the test |
| LibTests.LayoutOfUsizeWritten | src/lib.rs:107-114 | `false` then `usize(usize::MAX - 1)` renders as `11111100`, seven groups `11111111`, and `.......1` |
| LibTests.UsizeScenario | src/lib.rs:106-123 | any bit then any `usize` read back unchanged and the reader ends; with `false` and `usize::MAX - 1`, the layout of the test |
| LibTests.LayoutOfUsizeSizedWritten | src/lib.rs:127-134 | `false`, `usize_part(0x01ff0000ff, 33)`, `false` renders as `11111110_00000001_00000000_11111110_.....011` |
| LibTests.TruncatedTo33 | src/lib.rs:138 | `0x01ff0000ff` cut to 33 bits is `0x1ff0000ff` |
| LibTests.UsizePartScenario | src/lib.rs:126-141 | a bit, any `usize` cut to any `n` in 1..64 bits, and a bit read back as the bit, `v mod 2^n` and the bit, and the reader ends; the test's value and layout as a case |
| LibTests.LayoutOfBytesAlignedWritten | src/lib.rs:146-147 | the bytes `[255, 160]` render as `11111111_10100000` |
| LibTests.BytesAlignedScenario | src/lib.rs:144-151 | any byte run reads back unchanged; `[255, 160]` has the layout of the test |
| LibTests.LayoutOfBytesMisalignedWritten | src/lib.rs:156-158 | `false` then the bytes `[255, 160]` render as `11111110_01000001_.......1` |
| LibTests.BytesMisalignedScenario | src/lib.rs:154-163 | after any one bit, any byte run reads back unchanged; with `false` and `[255, 160]`, the layout of the test |
| LibTests.BoolRoundTrip | src/reader.rs:27-31 | after any prefix, a `bool` reads back as written; the prefix reads back too and the reader ends |
| LibTests.U8RoundTrip | src/reader.rs:33-37 | after any prefix, any `u8` reads back unchanged and the reader ends |
| LibTests.U8PartRoundTrip | src/reader.rs:39-43 | after any prefix, `u8_part(v, n)` with `n` in 1..8 reads back as `v mod 2^n` |
| LibTests.U16RoundTrip | src/reader.rs:45-49 | after any prefix, any `u16` reads back unchanged |
| LibTests.U16PartRoundTrip | src/reader.rs:51-55 | after any prefix, `u16_part(v, n)` with `n` in 1..16 reads back as `v mod 2^n` |
| LibTests.U32RoundTrip | src/reader.rs:57-61 | after any prefix, any `u32` reads back unchanged |
| LibTests.U32PartRoundTrip | src/writer.rs:55-60 | after any prefix, `u32_part(v, n)` with `n` in 1..32, read with `usize_part(n)`, gives `v mod 2^n` |
| LibTests.UsizeRoundTrip | src/reader.rs:63-68 | after any prefix, any `usize` reads back unchanged |
| LibTests.UsizePartRoundTrip | src/reader.rs:70-74 | after any prefix, `usize_part(v, n)` with `n` in 1..64 reads back as `v mod 2^n` |
| LibTests.BytesRoundTrip | src/reader.rs:76-82 | after any prefix, aligned or not, any byte run reads back unchanged |
| LibTests.LayoutsOfPad | src/lib.rs:169-175 | padding nothing gives nothing, rendered `........`; `false`, `true` padded is a whole byte rendered `00000010` |
| LibTests.PadScenario | src/lib.rs:166-179 | padding an empty writer renders `........`; after `false`, `true` it renders `00000010`, and padding again leaves `00000010` |

## Left out

- The `Debug` trait impls (src/writer.rs:116-123, src/reader.rs:107-115): they only format `to_string` and the lengths.
- The `From<Vec<u8>>` and `From<&[u8]>` impls (src/reader.rs:117-127): they only call `from_vec` and `from_slice`.
- The inner workings of the `bitvec` crate are not modelled. Only their effect on a sequence of bits is: `push`, `set`, `extend_from_bitslice`, `load`, `to_bitvec`, `force_align`, `into_vec`.
- BitWriter.Writer.IntoVec: promises only the byte count and the bits below the length. The unused high bits of a last partial byte are whatever `bitvec` leaves there. The model happens to return them as zeros, but the contract does not promise it.
- The reads assume a little-endian target, where bitvec's `load` is `load_le`. On a big-endian target, `load` is `load_be`, which assembles a read that spans several bytes in the other order, so the round trips do not hold there.
- `usize` is fixed at 64 bits, the width the crate's `usize` test assumes.
- Machine overflow of `pos + bits` and `bytes_len * 8` is not modelled. Positions are unbounded naturals, and each read requires that enough bits remain.
- `String::with_capacity` sizing (src/lib.rs:12) is only an allocation hint. The README `include_str!` (src/lib.rs:1) is documentation.
- Ownership is not modelled. `into_reader` and `into_vec` consume the writer in Rust; here the writer stays usable afterwards. `to_string` clones the writer first, which the model makes unnecessary.
- Lib.Debug: takes the reader's bit sequence instead of the reader, so that `Lib` does not depend on `BitReader`. `debug` reads nothing but the bits.
- Panics on out-of-range reads and writes are preconditions (`requires`), not error values. The source returns no error on these paths.

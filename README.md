# h264bitstream bit cursor, in Dafny

This project models the bit-cursor engine `bs.h` of h264bitstream. The
cursor `bs_t` is a non-owning view over a caller-owned byte buffer. It has
a `start`, a current byte `p`, an `end`, and `bits_left`, the bits still
unread in byte `p`. Every H.264 syntax parser of the library reads and
writes through it.

The model has these parts:

- `binary.dfy` (module `Binary`): powers of two, the bit of a number at a
  given weight, replacing one bit, and fixed-width bit strings. The C
  shifts and masks are read on unbounded naturals.
- `stream.dfy` (module `Stream`): the buffer seen as a string of bits.
  - `BitAt` is the bit a single-bit read returns at an absolute bit index.
  - `Field` is what an n-bit read assembles.
  - `WriteBit` and `WriteField` are the buffer after a single-bit write
    and after an n-bit write.
  - `BigEndian` is the value of a run of bytes.
  - Bits at or past `end` read as 0, and writes there are dropped.
- `expgolomb.dfy` (module `ExpGolomb`): the ue(v) and se(v) codes of
  section 9.1 of ITU-T H.264, as `bs.h` encodes and decodes them.
  - `UeCode` is the code word the encoder emits, including its 256-entry
    length table and the uint32_t wrap of `v++`.
  - `UeDecode` and `SeDecode` are what the decoders return, including the
    zero-counting loop's stopping rules.
- `cursor.dfy` (module `Cursor`): `class Bs` is the cursor itself.
  - Pointers are integer offsets into an `array<Byte>`, so an overrun
    cursor (`p > end`) can still be represented.
  - Each operation is a method or function proved against the `Stream`
    and `ExpGolomb` definitions at the absolute bit index
    `8 * p + 8 - bits_left`.
  - The loops of `h264_bs_read_u`, `h264_bs_write_u`, `bs_skip_u`,
    `h264_bs_read_ue` and `bs_next_bytes` are `while` loops with
    invariants.
- `naltags.dfy` (module `NalTags`): the Annex B start-code tests of
  section B.1 of ITU-T H.264. Each test is related to 24- and 32-bit
  lookahead values.
- `scenarios.dfy` (module `Scenarios`): clients that drive real cursors.
  They cover write-then-read round trips, skipping past the end, peeking,
  lookahead and the `read_u8` fast path.

The C undefined behaviour is modelled by its mathematical meaning. This
covers shifts by 32 or more in `h264_bs_write_u`, the `1 << i` overflow
from i = 31 and the int32_t overflow in `h264_bs_read_ue`, and the int
overflow of `-v*2` and `v*2 - 1` in `h264_bs_write_se` from |v| = 2^30.
The lemmas are stated for the ranges where that meaning is the intended
one. The int32_t arithmetic of `h264_bs_read_se` is modelled as written
as well, because it returns the wrong sign for large code numbers; see
"## Findings".

## Model

| member | source | states |
|---|---|---|
| Cursor.Bs.Init | bs.h:90-97 | a cursor over the first `size` bytes: `start = p = 0`, `end = size`, `bits_left = 8`, bit index 0 |
| Cursor.Bs.Clone | bs.h:111-118 | the clone starts at the source's `p`, shares its `end` and `bits_left`, and so sits at the same bit index |
| Cursor.Bs.ByteAligned | bs.h:120-123 | true exactly when the bit index is a multiple of 8 |
| Cursor.Bs.Eof | bs.h:125 | true exactly when the next bit lies in a byte at or past `end` |
| Cursor.Bs.Overrun | bs.h:127 | true exactly when the bit index is a whole byte or more past `end`; implies `eof` |
| Cursor.Bs.Pos | bs.h:129 | the byte offset from `start`, never more than `end - start`; equals `p - start` unless overrun, and equals `end - start` when overrun |
| Cursor.Bs.BytesLeft | bs.h:131 | positive exactly when not at `eof`, negative exactly when overrun |
| Cursor.Bs.PeekU1 | bs.h:155-164 | the bit at the cursor (0 at `eof`), as a function that changes nothing |
| Cursor.Bs.ReadU1 | bs.h:133-147 | returns the bit at the old bit index, 0 at `eof`; advances the bit index by exactly 1 and keeps `bits_left` in 1..8 |
| Cursor.Bs.SkipU1 | bs.h:149-153 | advances the bit index by exactly 1 |
| Cursor.Bs.WriteU1 | bs.h:231-245 | the buffer becomes `WriteBit` of the old one at the old bit index; it is unchanged at `eof`; the bit index advances by 1 |
| Cursor.Bs.SkipU | bs.h:178-185 | advances the bit index by n, or by 0 for negative n |
| Cursor.Bs.ReadU | bs.h:167-176 | returns the n-bit field at the old bit index, first bit most significant, and advances by n |
| Cursor.Bs.ReadF | bs.h:187 | the same as `ReadU` |
| Cursor.Bs.ReadU8 | bs.h:189-200 | both the fast path and the slow path return the 8-bit field and move on by one byte with `bits_left` kept |
| Cursor.Bs.WriteU | bs.h:247-254 | the buffer becomes `WriteField` of the old one: the n low bits of v, most significant first |
| Cursor.Bs.WriteF | bs.h:256 | the same as `WriteU` |
| Cursor.Bs.WriteU8 | bs.h:258-269 | both paths leave the buffer `WriteField(…, 8, v)` and move on by one byte |
| Cursor.Bs.ReadUe | bs.h:202-214 | returns the value `UeDecode` gives at the old bit index and stops where it stops |
| Cursor.Bs.ReadSe | bs.h:216-228 | returns the value `SeDecode` gives at the old bit index and stops where it stops |
| Cursor.Bs.WriteUe | bs.h:271-326 | writes the code word `UeCode(v)` and advances by its width |
| Cursor.Bs.WriteSe | bs.h:328-338 | writes the code word of `SeCode(v)` and advances by its width |
| Cursor.Bs.ReadBytes | bs.h:340-349 | copies exactly `clamp(len, 0, end - p)` bytes from `p` into dst and returns that count; `p` moves by `max(len, 0)`; `bits_left` is unchanged; asking for more than remains makes the cursor overrun |
| Cursor.Bs.WriteBytes | bs.h:351-360 | stores exactly `clamp(len, 0, end - p)` bytes of src at `p`; every other byte is unchanged; the moves are as for `ReadBytes` |
| Cursor.Bs.SkipBytes | bs.h:362-370 | returns `clamp(len, 0, end - p)`, moves `p` by `max(len, 0)`, keeps `bits_left`, and overruns when asked for too much |
| Cursor.Bs.NextBits | bs.h:372-377 | returns the n-bit field at the bit index without modifying the cursor |
| Cursor.Bs.NextBytes | bs.h:379-389 | returns the big-endian value of the n bytes from `p`, or 0 when n is outside 1..8 or they run past `end`; always below 2^64; nothing is modified |
| Cursor.Transfer | bs.h:342-344 | the byte count of a transfer is `min(max(len, 0), max(left, 0))`: it lies within both bounds and equals one of them |
| Binary.SetBit | bs.h:240-241 | clearing bit k never raises the byte and setting it never lowers it; `BitOfSetBit` proves that only bit k changes |
| Stream.BitAt | bs.h:137-142 | the bit a single-bit read returns at an absolute index is 0 or 1; it is bit `7 - q % 8` of byte `q / 8`, or 0 at or past `end` |
| Stream.Field | bs.h:167-176 | the value `h264_bs_read_u` assembles from n bits at q, first bit most significant; `FieldBit` proves bit j of it is the bit read at `q + n - 1 - j` |
| Stream.WriteBit | bs.h:231-245 | a single-bit write keeps the length, leaves the buffer unchanged at or past `end`, and changes no byte but byte `q / 8` |
| Stream.WriteField | bs.h:247-254 | an n-bit write keeps the buffer's length; `WriteFieldAt` states which bits it sets |
| Stream.BigEndian | bs.h:387 | the value `bs_next_bytes` shifts together from a run of bytes, first byte most significant; `BigEndianBound` and `AlignedBytesField` are its partners |
| Stream.WrittenBits | bs.h:250-253 | when an n-bit write lies before `end`, the bits it leaves are `ToBits(v, n)`, the n-bit rendering of v, in order |
| Stream.WriteBitAt | bs.h:240-241 | a single-bit write sets the bit at its index, if that index lies before `end`, and changes no other bit |
| Stream.WriteFieldAt | bs.h:250-253 | after an n-bit write, the bits that lie before `end` hold v's bits, most significant first, and every other bit is unchanged |
| Stream.WriteFieldBeyondEnd | bs.h:235 | writes never change a byte at or past `end` |
| Stream.FieldRoundTrip | bs.h:167-176 | reading n bits back where an n-bit write of v put them gives `v mod 2^n`, when all n bits lie before `end` |
| Stream.WrittenFieldSuffix | bs.h:247-254 | the last n - s bits of an n-bit write read back as `v mod 2^(n - s)` |
| Stream.FieldConcat | bs.h:171-174 | an (a + b)-bit read is an a-bit read followed by a b-bit read, with the first part as the high part |
| Stream.FieldBound | bs.h:167-176 | an n-bit field is below 2^n |
| Stream.AlignedByteField | bs.h:192-196 | on a byte boundary before `end`, the 8-bit field is the byte itself |
| Stream.AlignedByteWrite | bs.h:261-265 | on a byte boundary before `end`, an 8-bit write stores `v & 0xFF` into that byte and nothing else |
| Stream.AlignedBytesField | bs.h:387 | on a byte boundary, 8n bits before `end` read as the big-endian value of those n bytes |
| Stream.BigEndianBound | bs.h:387 | n bytes form a number below 2^(8n) |
| ExpGolomb.UeLen | bs.h:307-322 | the length `h264_bs_write_ue` looks up from the top non-zero byte lies in 1..32 and agrees with `len_table` below 256 |
| ExpGolomb.ZeroRun | bs.h:207-210 | the zero-counting loop counts at most 32 zeros and consumes exactly one bit more than it counts |
| ExpGolomb.LenTable | bs.h:273-295 | each table entry is 1 for 0 and 1, and otherwise the bit length of its index |
| ExpGolomb.UeLenBits | bs.h:307-322 | the length looked up from the top non-zero byte is the bit length of `v + 1` |
| ExpGolomb.UeCode | bs.h:299-325 | the code word has an odd width from 1 to 63 and value `v + 1` with the leading one at weight `width / 2`; for v = 0xFFFFFFFF `v++` wraps and the word is the single bit 0 |
| ExpGolomb.UeDecode | bs.h:202-214 | the decoder consumes an odd number 2m + 1 of bits and returns a value whose `value + 1` has bit length m + 1 |
| ExpGolomb.SeMap | bs.h:219-226 | maps odd code numbers k to positive values with `k = 2v - 1`, and even ones to non-positive values with `k = -2v` |
| ExpGolomb.SeCode | bs.h:330-337 | the code number `h264_bs_write_se` produces; `SeMap` takes it back to v |
| ExpGolomb.SeCodeOfMap | bs.h:216-228 | `SeCode` undoes `SeMap`, so the two are inverse bijections |
| ExpGolomb.SeMapInt32 | bs.h:216-228 | `h264_bs_read_se` with its int32_t arithmetic: equal to `SeMap` below code number 2^31 - 1, and `SeMap` moved by 2^31 to the opposite sign from there on |
| ExpGolomb.SeInt32RoundTrip | bs.h:328-338 | with that arithmetic, `read_se` after `write_se(v)` returns v for `-2^30 < v < 2^30`, and `v + 2^31` or `v - 2^31` beyond |
| ExpGolomb.SeInt32SignFlip | bs.h:218-226 | se -2^30 reads back as 2^30 and se 2^30 as -2^30 |
| ExpGolomb.SeDecode | bs.h:216-228 | stops where `UeDecode` stops; `SeCode` of its value is the ue(v) value read |
| ExpGolomb.ZeroRunZeros | bs.h:207-210 | every bit the zero-counting loop consumed except the last was 0 |
| ExpGolomb.ZeroRunToEnd | bs.h:207-210 | over zero bits running up to `end`, the loop counts all but the last, which it consumes when it reaches `eof` |
| ExpGolomb.ZeroByteDecode | bs.h:207-212 | from the start of a zero last byte before `end`, seven zeros are counted, the eighth reaches `eof` and is consumed but not counted, and seven bits past `end` read as 0: the value is 127 after 15 bits |
| ExpGolomb.CodeDecode | bs.h:202-214 | over 2L - 1 bits of a value w with bit length L, the decoder returns w - 1 and stops right after them |
| ExpGolomb.UeRoundTrip | bs.h:202-214 | decoding what `h264_bs_write_ue(v)` wrote returns v and ends after the code word, for v < 0xFFFFFFFF with the word before `end` |
| ExpGolomb.SeRoundTrip | bs.h:328-338 | decoding what `h264_bs_write_se(v)` wrote returns v and ends after the code word, for every code number below 0xFFFFFFFF, with the code number mapped on unbounded integers |
| ExpGolomb.CodeExamples | bs.h:299-325 | ue 0, 1, 4 are `1`, `010`, `00101`; se 0, 1, -1 have code numbers 0, 1, 2 and se -1 is `011` |
| NalTags.IsNalStartingTag | bs.h:393-399 | a true result implies the buffer starts with two zero bytes |
| NalTags.IsNalEndingTag | bs.h:403-408 | a true result implies the buffer starts with two zero bytes |
| NalTags.StartingTagValue | bs.h:391-399 | true exactly when the first 3 bytes are worth 1 or the first 4 bytes are worth 1 |
| NalTags.EndingTagValue | bs.h:401-408 | true exactly when the first 3 bytes are worth at most 1 |
| NalTags.StartingTagBits | bs.h:391-399 | at an aligned position, true exactly when the 24-bit or the 32-bit field there is 1 |
| NalTags.EndingTagBits | bs.h:401-408 | at an aligned position, true exactly when the 24-bit field there is at most 1 |
| NalTags.TagExamples | bs.h:393-408 | `00 00 00 01` and `00 00 01 x` start a NAL unit and `00 01 00 01` does not; `00 00 00` and `00 00 01` end one and `00 00 02` does not |
| Scenarios.FixedWidthRoundTrip | bs.h:167-176 | a cursor placed at the same offset reads back `v mod 2^n` after `h264_bs_write_u(n, v)` |
| Scenarios.UeWriteRead | bs.h:202-214 | `h264_bs_read_ue` on a fresh cursor returns what `h264_bs_write_ue` wrote |
| Scenarios.SeWriteRead | bs.h:216-228 | `h264_bs_read_se` on a fresh cursor returns what `h264_bs_write_se` wrote, in the unbounded reading of the code number |
| Scenarios.SkipPastEnd | bs.h:362-370 | skipping past the end counts only the bytes there were, overruns, and `pos` stops at `end` |
| Scenarios.PeekThenRead | bs.h:155-164 | the peeked bit is the bit the next read returns |
| Scenarios.NextBitsThenRead | bs.h:372-377 | `next_bits(n)` equals the following `read_u(n)` |
| Scenarios.ReadU8LikeReadU | bs.h:189-200 | the `read_u8` fast path and `read_u(8)` on a clone return the same value and end at the same bit index |

## Left out

- `h264_bs_new` and `h264_bs_free` (bs.h:99-109) only allocate and free the cursor; `Init` covers what they set.
- `bs_print_state` (bs.h:410) only prints to stderr.
- h264_avcc.c is not part of this model. It is glue around NAL-unit parsers that are not shown, plus allocation and printing.
- Cursor.Bs.ReadUe: returns an unbounded natural. The C code accumulates in an int32_t. From 31 counted zeros on, `1 << i` overflows int, which C leaves undefined, and at 32 zeros the field read may not fit int32_t either. The mathematical value is what those lines intend.
- Cursor.Bs.ReadSe: maps that natural with `SeMap`, the corrected decoder of the finding below. It does not reproduce the int32_t arithmetic of bs.h:218-226, which returns the wrong sign from code number 2^31 - 1 on; `ExpGolomb.SeMapInt32` models that arithmetic.
- Cursor.Bs.ReadU: requires n <= 32, since for wider fields the uint32_t shifts are undefined.
- Cursor.Bs.ReadF: requires n <= 32, as `ReadU` does, since it is `h264_bs_read_u`.
- Cursor.Bs.NextBits: requires n <= 32, as `ReadU` does, since it reads with `h264_bs_read_u`.
- Cursor.Bs.WriteU: reads `v >> (n - i - 1)` mathematically, so widths over 32 emit leading zeros. `h264_bs_write_ue` relies on this for words of 33 to 63 bits, where C shifts are undefined.
- Cursor.Bs.WriteSe: writes the mathematical code number. In C, `-v*2` and `v*2 - 1` overflow int for every |v| >= 2^30, which C leaves undefined. On a two's-complement target the wrapped product, converted to the uint32_t parameter of `h264_bs_write_ue`, is still that code number, except at v = -2^31, where it wraps to 0. The model requires v to be other than -2^31.
- Scenarios.SeWriteRead: excludes v = -2^31 for the same reason. It holds for the model's unbounded `ReadSe`; the int32_t decoder of bs.h returns v only for |v| < 2^30 (see Findings).
- ExpGolomb.SeRoundTrip: holds for the unbounded mapping of the code number. With the int32_t decoder it holds only for |v| < 2^30, as `ExpGolomb.SeInt32RoundTrip` states.
- ExpGolomb.UeRoundTrip: excludes v = 0xFFFFFFFF, whose `v++` wraps to 0. `UeCode` states the wrapped word, the single bit 0.
- Cursor.Bs.ReadBytes and Cursor.Bs.WriteBytes: require the other array to be distinct from the cursor's buffer. `memcpy` has undefined behaviour on overlap, and the model does not describe aliasing.
- The `len_table` array is written as value ranges in `LenTable`. `LenTable` states that each entry is the bit length of its index.
- `|` in `h264_bs_read_u` is modelled as `+`, because the bits it combines are disjoint.
- The tag tests return `bool` instead of `int` 0/1. They require the bytes they inspect to exist, following the short-circuit order of the C conditions.
- Pointers are integer offsets. Moving `p` past `end` is representable, but memory outside the buffer is never accessed, because every access is guarded by `eof` or by the transfer clamp.

## Findings

| source | as written | input that shows it | evidently intended | confidence | as-written member | corrected member |
|---|---|---|---|---|---|---|
| bs.h:218-226 | `h264_bs_read_se` stores the uint32_t code number in an int32_t and computes `(r+1)/2` or `-(r/2)` there; code numbers of 2^31 - 1 and above wrap, and the result comes back moved by 2^31 with the opposite sign. Such code numbers have 31 leading zeros, so `h264_bs_read_ue` delivers them only through the undefined `1 << 31` and `r +=` overflow at bs.h:212, assumed here to wrap | a stream holding the ue(v) code word of code number 2^31 (31 zeros, a one, then 30 zeros and a one), which is se -2^30, reads back as 2^30; the code word of code number 2^31 - 1 (31 zeros, a one, then 31 zeros), which is se 2^30, reads back as -2^30 | `read_se` returns v for every v whose se(v) code word it reads, as `SeMap` on unbounded integers does | medium, not executed; shows only on a target that wraps on every signed overflow | ExpGolomb.SeMapInt32 | ExpGolomb.SeMap |

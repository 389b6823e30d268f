// The bit cursor `bs_t` of bs.h: a view over a caller-owned byte buffer with
// a start, a current byte p, an end and the number of bits still unread in
// byte p. Pointers are integer offsets into `buf`, so that a cursor moved past
// `end` (an overrun) stays representable. Every operation is proved against
// the bit-index view of the buffer in module Stream: the absolute bit index
// 8 * p + (8 - bitsLeft) names the next bit.
module Cursor {
  import opened Binary
  import opened Stream
  import opened ExpGolomb

  /** int32_t */
  type I32 = x: int | -0x8000_0000 <= x < 0x8000_0000

  /** How many passes `for (i = 0; i < n; i++)` makes. */
  function Count(n: int): (c: nat)
    ensures c >= n && (c == n || c == 0)
  {
    if n < 0 then 0 else n
  }

  /** The number of bytes a byte transfer of `len` moves when `left` bytes
      remain before `end`: len clamped into [0, left]. */
  function Transfer(len: int, left: int): (c: nat)
    ensures c <= Count(len) && c <= Count(left)
    ensures c == Count(len) || c == Count(left)
  {
    if len <= 0 || left <= 0 then 0 else if len <= left then len else left
  }

  class Bs {
    /** The caller's buffer; `start`, `p` and `end` are offsets into it. */
    const buf: array<Byte>
    var start: int
    var p: int
    var end: int
    var bitsLeft: int

    ghost predicate Valid()
      reads this
    {
      0 <= start <= p && 0 <= end <= buf.Length && 1 <= bitsLeft <= 8
    }

    /** The absolute index of the next bit to read or write. */
    function BitIndex(): nat
      reads this
      requires Valid()
    {
      8 * p + 8 - bitsLeft
    }

    /** `h264_bs_init`: a cursor over the first `size` bytes of `buf`. */
    constructor Init(buf: array<Byte>, size: nat)
      requires size <= buf.Length
      ensures Valid() && this.buf == buf
      ensures start == 0 && p == 0 && end == size && bitsLeft == 8
      ensures BitIndex() == 0
    {
      this.buf := buf;
      start := 0;
      p := 0;
      end := size;
      bitsLeft := 8;
    }

    /** `h264_bs_clone`: a second cursor over the same buffer, starting at the
        source's current byte and sharing its end and bit offset. */
    constructor Clone(src: Bs)
      requires src.Valid()
      ensures Valid() && buf == src.buf
      ensures start == src.p && p == src.p && end == src.end && bitsLeft == src.bitsLeft
      ensures BitIndex() == src.BitIndex()
    {
      buf := src.buf;
      start := src.p;
      p := src.p;
      end := src.end;
      bitsLeft := src.bitsLeft;
    }

    // -------------------------------------------------------------------
    // Queries

    /** `h264_bs_byte_aligned`: the next bit starts a byte. */
    function ByteAligned(): (r: bool)
      reads this
      requires Valid()
      ensures r <==> BitIndex() % 8 == 0
    {
      bitsLeft == 8
    }

    /** `h264_bs_eof`: the next bit lies at or past `end`, so reads give 0
        and writes are dropped. */
    function Eof(): (r: bool)
      reads this
      ensures Valid() ==> (r <==> BitIndex() / 8 >= end)
    {
      p >= end
    }

    /** `h264_bs_overrun`: the cursor has moved a whole byte or more past
        `end`. */
    function Overrun(): (r: bool)
      reads this
      ensures r ==> Eof()
      ensures Valid() ==> (r <==> BitIndex() >= 8 * end + 8)
    {
      p > end
    }

    /** `h264_bs_pos`: the byte offset from `start`, clamped to
        `end - start` after an overrun. */
    function Pos(): (r: int)
      reads this
      ensures r <= end - start
      ensures !Overrun() ==> r == p - start
      ensures Overrun() ==> r == end - start
      ensures Valid() && start <= end ==> 0 <= r
    {
      if p > end then end - start else p - start
    }

    /** `bs_bytes_left`: bytes before `end`, negative after an overrun. */
    function BytesLeft(): (r: int)
      reads this
      ensures r > 0 <==> !Eof()
      ensures r < 0 <==> Overrun()
    {
      end - p
    }

    /** `h264_bs_peek_u1`: the bit the next single-bit read returns, without
        moving. */
    function PeekU1(): (r: nat)
      reads this, buf
      requires Valid()
      ensures r == BitAt(buf[..], end, BitIndex())
    {
      if !Eof() then Bit(buf[p], bitsLeft - 1) else 0
    }

    // -------------------------------------------------------------------
    // Single bits

    /** `h264_bs_read_u1`: the bit at the cursor (0 at `eof`); one bit on. */
    method ReadU1() returns (r: U32)
      requires Valid()
      modifies this
      ensures Valid() && start == old(start) && end == old(end)
      ensures BitIndex() == old(BitIndex()) + 1
      ensures r == BitAt(buf[..], end, old(BitIndex()))
      ensures old(Eof()) ==> r == 0
    {
      r := 0;
      bitsLeft := bitsLeft - 1;
      if !Eof() {
        r := Bit(buf[p], bitsLeft);
      }
      if bitsLeft == 0 {
        p := p + 1;
        bitsLeft := 8;
      }
    }

    /** `bs_skip_u1`: one bit on, nothing read. */
    method SkipU1()
      requires Valid()
      modifies this
      ensures Valid() && start == old(start) && end == old(end)
      ensures BitIndex() == old(BitIndex()) + 1
    {
      bitsLeft := bitsLeft - 1;
      if bitsLeft == 0 {
        p := p + 1;
        bitsLeft := 8;
      }
    }

    /** `h264_bs_write_u1`: stores v & 1 at the cursor unless at `eof`; one
        bit on. */
    method WriteU1(v: U32)
      requires Valid()
      modifies this, buf
      ensures Valid() && start == old(start) && end == old(end)
      ensures BitIndex() == old(BitIndex()) + 1
      ensures buf[..] == WriteBit(old(buf[..]), end, old(BitIndex()), v)
      ensures old(Eof()) ==> buf[..] == old(buf[..])
    {
      bitsLeft := bitsLeft - 1;
      if !Eof() {
        Pow2Bytes();
        SetBitBelow(buf[p], bitsLeft, v, 8);
        buf[p] := SetBit(buf[p], bitsLeft, v);
      }
      if bitsLeft == 0 {
        p := p + 1;
        bitsLeft := 8;
      }
    }

    // -------------------------------------------------------------------
    // Fixed-width fields

    /** `bs_skip_u`: n bits on. */
    method SkipU(n: int)
      requires Valid()
      modifies this
      ensures Valid() && start == old(start) && end == old(end)
      ensures BitIndex() == old(BitIndex()) + Count(n)
    {
      ghost var q0 := BitIndex();
      var i := 0;
      while i < n
        invariant 0 <= i <= Count(n)
        invariant Valid() && start == old(start) && end == old(end)
        invariant BitIndex() == q0 + i
      {
        SkipU1();
        i := i + 1;
      }
    }

    /** `h264_bs_read_u`: the next n bits, first bit most significant. */
    method ReadU(n: int) returns (r: U32)
      requires Valid() && n <= 32
      modifies this
      ensures Valid() && start == old(start) && end == old(end)
      ensures BitIndex() == old(BitIndex()) + Count(n)
      ensures r == Field(buf[..], end, old(BitIndex()), Count(n))
    {
      ghost var q0, mem, m := BitIndex(), buf[..], Count(n);
      var acc := 0;
      var i := 0;
      while i < n
        invariant 0 <= i <= m
        invariant Valid() && start == old(start) && end == old(end) && buf[..] == mem
        invariant BitIndex() == q0 + i
        invariant acc == Placed(mem, end, q0, i, m)
      {
        var b := ReadU1();
        acc := acc + b * Pow2(n - i - 1);
        i := i + 1;
      }
      PlacedField(mem, end, q0, m, m);
      FieldU32(mem, end, q0, m);
      r := acc;
    }

    /** `h264_bs_read_f`: a fixed-pattern field, read as `h264_bs_read_u`. */
    method ReadF(n: int) returns (r: U32)
      requires Valid() && n <= 32
      modifies this
      ensures Valid() && start == old(start) && end == old(end)
      ensures BitIndex() == old(BitIndex()) + Count(n)
      ensures r == Field(buf[..], end, old(BitIndex()), Count(n))
    {
      r := ReadU(n);
    }

    /** `h264_bs_read_u8`: eight bits; on a byte boundary before `end` the
        byte is taken whole, with the same result and end state. */
    method ReadU8() returns (r: U32)
      requires Valid()
      modifies this
      ensures Valid() && start == old(start) && end == old(end)
      ensures p == old(p) + 1 && bitsLeft == old(bitsLeft)
      ensures r == Field(buf[..], end, old(BitIndex()), 8)
    {
      if bitsLeft == 8 && !Eof() {
        AlignedByteField(buf[..], end, p);
        r := buf[p];
        p := p + 1;
        return;
      }
      r := ReadU(8);
    }

    /** `h264_bs_write_u`: the n low bits of v, most significant first. The
        shift `v >> (n - i - 1)` is read mathematically, so for n > 32 the
        leading bits are zeros. */
    method WriteU(n: int, v: U32)
      requires Valid()
      modifies this, buf
      ensures Valid() && start == old(start) && end == old(end)
      ensures BitIndex() == old(BitIndex()) + Count(n)
      ensures buf[..] == WriteField(old(buf[..]), end, old(BitIndex()), Count(n), v)
    {
      ghost var q0, mem0, m := BitIndex(), buf[..], Count(n);
      var i := 0;
      while i < n
        invariant 0 <= i <= m
        invariant Valid() && start == old(start) && end == old(end)
        invariant BitIndex() == q0 + i
        invariant buf[..] == WriteField(mem0, end, q0, i, Shr(v, m - i))
      {
        var k := n - i - 1;
        WriteStep(mem0, end, q0, i, m, v, k);
        WriteU1(Bit(v, k));
        assert m - (i + 1) == k;
        i := i + 1;
      }
    }

    /** `h264_bs_write_f`: a fixed-pattern field, written as `h264_bs_write_u`. */
    method WriteF(n: int, v: U32)
      requires Valid()
      modifies this, buf
      ensures Valid() && start == old(start) && end == old(end)
      ensures BitIndex() == old(BitIndex()) + Count(n)
      ensures buf[..] == WriteField(old(buf[..]), end, old(BitIndex()), Count(n), v)
    {
      WriteU(n, v);
    }

    /** `h264_bs_write_u8`: eight bits; on a byte boundary before `end` the
        byte is stored whole (truncated to uint8_t), with the same result. */
    method WriteU8(v: U32)
      requires Valid()
      modifies this, buf
      ensures Valid() && start == old(start) && end == old(end)
      ensures p == old(p) + 1 && bitsLeft == old(bitsLeft)
      ensures buf[..] == WriteField(old(buf[..]), end, old(BitIndex()), 8, v)
    {
      if bitsLeft == 8 && !Eof() {
        AlignedByteWrite(buf[..], end, p, v);
        buf[p] := v % 256;
        p := p + 1;
        return;
      }
      WriteU(8, v);
    }

    // -------------------------------------------------------------------
    // Exp-Golomb codes

    /** `h264_bs_read_ue`: counts leading zeros (at most 32, stopping at
        `eof`), then reads that many bits and adds 2^zeros - 1. The result
        is the unbounded value; in C `1 << i` overflows int from 31 counted
        zeros on. */
    method ReadUe() returns (r: nat)
      requires Valid()
      modifies this
      ensures Valid() && start == old(start) && end == old(end)
      ensures Ue(r, BitIndex()) == UeDecode(buf[..], end, old(BitIndex()))
    {
      ghost var q0, mem := BitIndex(), buf[..];
      var i := 0;
      while true
        invariant 0 <= i <= 32
        invariant Valid() && start == old(start) && end == old(end) && buf[..] == mem
        invariant ZeroRun(mem, end, BitIndex(), i) == ZeroRun(mem, end, q0, 0)
        decreases 32 - i
      {
        ghost var q := BitIndex();
        var bit := ReadU1();
        ZeroRunStep(mem, end, q, i, q + 1);
        if !(bit == 0 && i < 32 && !Eof()) {
          break;
        }
        i := i + 1;
      }
      ghost var qs := BitIndex();
      assert ZeroRun(mem, end, q0, 0) == Run(i, qs);
      var suffix := ReadU(i);
      r := suffix + Pow2(i) - 1;
      assert Count(i) == i;
      UeDecodeRun(mem, end, q0, i, qs, suffix, r, BitIndex());
    }

    /** `h264_bs_read_se`: a ue(v) code number k, mapped to (k + 1) / 2 when
        odd and to -(k / 2) when even, on unbounded integers. The C code
        does this in an int32_t and returns the wrong sign from k = 2^31 - 1
        on (SeMapInt32 in module ExpGolomb). */
    method ReadSe() returns (r: int)
      requires Valid()
      modifies this
      ensures Valid() && start == old(start) && end == old(end)
      ensures Se(r, BitIndex()) == SeDecode(buf[..], end, old(BitIndex()))
    {
      var k := ReadUe();
      if k % 2 == 1 {
        r := (k + 1) / 2;
      } else {
        r := -((k / 2) as int);
      }
    }

    /** `h264_bs_write_ue`: the code word UeCode(v). */
    method WriteUe(v: U32)
      requires Valid()
      modifies this, buf
      ensures Valid() && start == old(start) && end == old(end)
      ensures BitIndex() == old(BitIndex()) + UeCode(v).width
      ensures buf[..] == WriteField(old(buf[..]), end, old(BitIndex()), UeCode(v).width, UeCode(v).value)
    {
      ghost var q0, mem0 := BitIndex(), buf[..];
      if v == 0 {
        assert UeCode(v) == Code(1, 1);
        WriteU1(1);
        assert WriteField(mem0, end, q0, 1, 1) == WriteBit(WriteField(mem0, end, q0, 0, 0), end, q0, 1);
      } else {
        var w := (v + 1) % 0x1_0000_0000;
        var len := UeLen(w);
        UeCodeWord(v, w, len);
        var n := 2 * len - 1;
        assert Count(n) == n;
        ghost var c := UeCode(v);
        assert c.width == n && c.value == w;
        WriteU(n, w);
      }
    }

    /** `h264_bs_write_se`: the ue(v) code word of -2v for v <= 0 and of
        2v - 1 for v > 0, as a mathematical code number. In C the products
        overflow int from |v| >= 2^30; wrapped into the uint32_t parameter
        they still give this code number, except for the most negative
        int32_t, where `-v * 2` wraps to 0. That value is excluded. */
    method WriteSe(v: I32)
      requires Valid() && v != -0x8000_0000
      modifies this, buf
      ensures Valid() && start == old(start) && end == old(end)
      ensures BitIndex() == old(BitIndex()) + UeCode(SeCode(v)).width
      ensures buf[..] == WriteField(old(buf[..]), end, old(BitIndex()),
                                    UeCode(SeCode(v)).width, UeCode(SeCode(v)).value)
    {
      if v <= 0 {
        WriteUe(-v * 2);
      } else {
        WriteUe(v * 2 - 1);
      }
    }

    // -------------------------------------------------------------------
    // Whole bytes

    /** `h264_bs_read_bytes`: copies the bytes from p that lie before `end`,
        at most len of them, into dst; moves p on by len (or by 0 for a
        negative len) whatever was copied; leaves bitsLeft alone. */
    method ReadBytes(dst: array<Byte>, len: int) returns (actual: int)
      requires Valid() && dst != buf && Transfer(len, end - p) <= dst.Length
      modifies this, dst
      ensures Valid() && start == old(start) && end == old(end)
      ensures actual == Transfer(len, old(BytesLeft()))
      ensures p == old(p) + Count(len) && bitsLeft == old(bitsLeft)
      ensures forall i :: 0 <= i < dst.Length ==>
                dst[i] == if i < actual then buf[old(p) + i] else old(dst[i])
      ensures len > old(BytesLeft()) ==> Overrun()
    {
      actual := len;
      if end - p < actual {
        actual := end - p;
      }
      if actual < 0 {
        actual := 0;
      }
      forall i | 0 <= i < actual {
        dst[i] := buf[p + i];
      }
      p := p + Count(len);
    }

    /** `h264_bs_write_bytes`: copies the first bytes of src into the buffer
        from p, as many as lie before `end` and at most len; moves p on by len
        (or by 0 for a negative len); leaves bitsLeft alone. */
    method WriteBytes(src: array<Byte>, len: int) returns (actual: int)
      requires Valid() && src != buf && Transfer(len, end - p) <= src.Length
      modifies this, buf
      ensures Valid() && start == old(start) && end == old(end)
      ensures actual == Transfer(len, old(BytesLeft()))
      ensures p == old(p) + Count(len) && bitsLeft == old(bitsLeft)
      ensures forall i :: 0 <= i < buf.Length ==>
                buf[i] == if old(p) <= i < old(p) + actual then src[i - old(p)] else old(buf[i])
      ensures len > old(BytesLeft()) ==> Overrun()
    {
      actual := len;
      if end - p < actual {
        actual := end - p;
      }
      if actual < 0 {
        actual := 0;
      }
      forall i | p <= i < p + actual {
        buf[i] := src[i - p];
      }
      p := p + Count(len);
    }

    /** `h264_bs_skip_bytes`: as `h264_bs_read_bytes` without the copy. */
    method SkipBytes(len: int) returns (actual: int)
      requires Valid()
      modifies this
      ensures Valid() && start == old(start) && end == old(end)
      ensures actual == Transfer(len, old(BytesLeft()))
      ensures p == old(p) + Count(len) && bitsLeft == old(bitsLeft)
      ensures len > old(BytesLeft()) ==> Overrun()
    {
      actual := len;
      if end - p < actual {
        actual := end - p;
      }
      if actual < 0 {
        actual := 0;
      }
      p := p + Count(len);
    }

    // -------------------------------------------------------------------
    // Lookahead

    /** `h264_bs_next_bits`: the next n bits, read through a clone, so this
        cursor does not move. */
    method NextBits(n: int) returns (r: U32)
      requires Valid() && n <= 32
      ensures r == Field(buf[..], end, BitIndex(), Count(n))
    {
      var c := new Bs.Clone(this);
      r := c.ReadU(n);
    }

    /** `bs_next_bytes`: the big-endian value of the n bytes from p, or 0
        when n is outside 1..8 or the bytes run past `end`; no move. */
    method NextBytes(n: int) returns (val: nat)
      requires Valid()
      ensures val == if 1 <= n <= 8 && p + n <= end then BigEndian(buf[p..p + n]) else 0
      ensures val < 0x1_0000_0000_0000_0000
    {
      if n > 8 || n < 1 {
        return 0;
      }
      if p + n > end {
        return 0;
      }
      val := 0;
      var i := 0;
      while i < n
        invariant 0 <= i <= n
        invariant val == BigEndian(buf[p..p + i])
      {
        BigEndianStep(buf[..], p, i, p + i, i + 1);
        val := val * 256 + buf[p + i];
        i := i + 1;
      }
      BigEndianBelow64(buf[p..p + n]);
    }
  }
}

// Clients of the cursor: the round trips and lookahead guarantees that the
// parsers built on bs.h rely on, stated as methods over real cursors.
module Scenarios {
  import opened Binary
  import opened Stream
  import opened ExpGolomb
  import opened Cursor

  /** An n-bit write read back by a second cursor placed at the same bit
      offset over the same bytes gives v mod 2^n. */
  method FixedWidthRoundTrip(buf: array<Byte>, size: nat, skip: nat, n: int, v: U32) returns (r: U32)
    requires size <= buf.Length && n <= 32 && skip + Count(n) <= 8 * size
    modifies buf
    ensures r == v % Pow2(Count(n))
  {
    var w := new Bs.Init(buf, size);
    w.SkipU(skip);
    ghost var mem, q := buf[..], w.BitIndex();
    w.WriteU(n, v);
    var rd := new Bs.Init(buf, size);
    rd.SkipU(skip);
    FieldRoundTrip(mem, size, q, Count(n), v);
    r := rd.ReadU(n);
  }

  /** `h264_bs_read_ue` on a fresh cursor returns what `h264_bs_write_ue`
      wrote, when the code word fits and v + 1 does not wrap. */
  method UeWriteRead(buf: array<Byte>, size: nat, v: U32) returns (r: nat)
    requires size <= buf.Length && v < 0xFFFF_FFFF && UeCode(v).width <= 8 * size
    modifies buf
    ensures r == v
  {
    var w := new Bs.Init(buf, size);
    ghost var mem := buf[..];
    w.WriteUe(v);
    var rd := new Bs.Init(buf, size);
    r := rd.ReadUe();
    UeRoundTrip(mem, size, 0, v);
  }

  /** `h264_bs_read_se` on a fresh cursor returns what `h264_bs_write_se`
      wrote, for every int32_t but the most negative, in the unbounded
      reading of ReadSe. The int32_t decoder of bs.h returns v only for
      |v| < 2^30 (ExpGolomb.SeInt32RoundTrip). */
  method SeWriteRead(buf: array<Byte>, size: nat, v: I32) returns (r: int)
    requires size <= buf.Length && v != -0x8000_0000 && UeCode(SeCode(v)).width <= 8 * size
    modifies buf
    ensures r == v
  {
    var w := new Bs.Init(buf, size);
    ghost var mem := buf[..];
    w.WriteSe(v);
    var rd := new Bs.Init(buf, size);
    r := rd.ReadSe();
    SeRoundTrip(mem, size, 0, v);
  }

  /** Skipping more bytes than the buffer holds counts only the bytes there
      were, leaves the cursor overrun, and `h264_bs_pos` stops at the end. */
  method SkipPastEnd(buf: array<Byte>, size: nat, len: int) returns (skipped: int, overrun: bool, pos: int)
    requires size <= buf.Length && len > size
    ensures skipped == size && overrun && pos == size
  {
    var c := new Bs.Init(buf, size);
    skipped := c.SkipBytes(len);
    overrun := c.Overrun();
    pos := c.Pos();
  }

  /** `h264_bs_peek_u1` returns the bit the following `h264_bs_read_u1`
      reads. */
  method PeekThenRead(c: Bs) returns (peeked: nat, read: U32)
    requires c.Valid()
    modifies c
    ensures peeked == read
  {
    peeked := c.PeekU1();
    read := c.ReadU1();
  }

  /** `h264_bs_next_bits(n)` returns what the following `h264_bs_read_u(n)`
      reads. */
  method NextBitsThenRead(c: Bs, n: int) returns (ahead: U32, read: U32)
    requires c.Valid() && n <= 32
    modifies c
    ensures ahead == read
  {
    ahead := c.NextBits(n);
    read := c.ReadU(n);
  }

  /** The `h264_bs_read_u8` fast path and `h264_bs_read_u(b, 8)` on a clone
      return the same value and end at the same bit index. */
  method ReadU8LikeReadU(c: Bs) returns (fast: U32, slow: U32, qFast: nat, qSlow: nat)
    requires c.Valid()
    modifies c
    ensures fast == slow && qFast == qSlow
  {
    var d := new Bs.Clone(c);
    fast := c.ReadU8();
    slow := d.ReadU(8);
    qFast, qSlow := c.BitIndex(), d.BitIndex();
  }
}

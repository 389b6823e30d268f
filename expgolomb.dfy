// Exp-Golomb codes ue(v) and se(v) of section 9.1 of ITU-T H.264, as
// `h264_bs_write_ue`, `h264_bs_read_ue`, `h264_bs_write_se` and
// `h264_bs_read_se` produce and consume them: a value v is sent as v + 1 in
// 2 * len - 1 bits, where len is the bit length of v + 1, so that len - 1
// zero bits precede the leading one.
module ExpGolomb {
  import opened Binary
  import opened Stream

  /** The entry `len_table[x]` of the encoder's 256-entry table: 1 for 0 and
      1, and the bit length of x from then on. */
  function LenTable(x: nat): (len: nat)
    requires x < 256
    ensures 1 <= len <= 8
    ensures x == 0 ==> len == 1
    ensures x >= 1 ==> Pow2(len - 1) <= x < Pow2(len)
  {
    if x < 2 then 1
    else if x < 4 then 2
    else if x < 8 then 3
    else if x < 16 then 4
    else if x < 32 then 5
    else if x < 64 then 6
    else if x < 128 then 7
    else 8
  }

  /** Bit length of w from its top non-zero byte: the `len` that
      `h264_bs_write_ue` looks up. */
  function UeLen(w: U32): (len: nat)
    ensures 1 <= len <= 32
    ensures w < 0x100 ==> len == LenTable(w)
  {
    if w >= 0x0100_0000 then 24 + LenTable(w / 0x0100_0000)
    else if w >= 0x0001_0000 then 16 + LenTable(w / 0x0001_0000)
    else if w >= 0x0000_0100 then 8 + LenTable(w / 0x0000_0100)
    else LenTable(w)
  }

  /** The length `h264_bs_write_ue` looks up is the bit length of w. */
  lemma UeLenBits(w: U32)
    ensures w == 0 ==> UeLen(w) == 1
    ensures w >= 1 ==> Pow2(UeLen(w) - 1) <= w < Pow2(UeLen(w))
  {
    if w >= 0x0100_0000 {
      assert Pow2(24) == 0x0100_0000 by { Pow2Bytes(); }
      UeLenBranch(w, 24, 0x0100_0000, w / 0x0100_0000, w % 0x0100_0000);
    } else if w >= 0x0001_0000 {
      assert Pow2(16) == 0x0001_0000 by { Pow2Bytes(); }
      UeLenBranch(w, 16, 0x0001_0000, w / 0x0001_0000, w % 0x0001_0000);
    } else if w >= 0x0000_0100 {
      assert Pow2(8) == 0x0000_0100 by { Pow2Bytes(); }
      UeLenBranch(w, 8, 0x0000_0100, w / 0x0000_0100, w % 0x0000_0100);
    }
  }

  /** One branch of UeLen: the top non-zero byte of w is d, at weight
      P = 2^s, with r below it. */
  lemma UeLenBranch(w: U32, s: nat, P: nat, d: nat, r: nat)
    requires P == Pow2(s) && w == d * P + r && r < P && P <= w < 0x100 * P && d < 0x100
    requires UeLen(w) == s + LenTable(d)
    ensures Pow2(UeLen(w) - 1) <= w < Pow2(UeLen(w))
  {
    TopByte(w, s, P, d, r);
  }

  /** When d, at weight P = 2^s, is the top non-zero byte of w, its table
      entry moved up by s is the bit length of w. */
  lemma TopByte(w: nat, s: nat, P: nat, d: nat, r: nat)
    requires P == Pow2(s) && w == d * P + r && r < P && P <= w < 0x100 * P
    ensures 1 <= d < 0x100
    ensures Pow2(s + LenTable(d) - 1) <= w < Pow2(s + LenTable(d))
  {
    QuotientByte(w, P, d, r);
    LenShift(w, s, P, LenTable(d), d, r);
  }

  /** The quotient d of a w in [P, 0x100 * P) by P is a non-zero byte. */
  lemma QuotientByte(w: int, P: int, d: int, r: int)
    requires P > 0 && w == d * P + r && 0 <= r < P && P <= w < 0x100 * P
    ensures 1 <= d < 0x100
  {
    if d < 1 {
      MulMono(d, 0, P);
      assert false;
    }
    if d >= 0x100 {
      MulMono(0x100, d, P);
      assert false;
    }
  }

  /** Bit length carries over a shift: if w >> s has bit length l, then w
      has bit length l + s. */
  lemma LenShift(w: nat, s: nat, P: nat, l: nat, d: nat, r: nat)
    requires P == Pow2(s) && w == d * P + r && r < P
    requires 1 <= l && Pow2(l - 1) <= d < Pow2(l)
    ensures Pow2(l - 1 + s) <= w < Pow2(l + s)
  {
    Pow2Add(l - 1, s);
    Pow2Add(l, s);
    Bracket(w, d, r, P, Pow2(l - 1), Pow2(l));
  }

  /** A code word: `width` bits holding `value`, most significant first. */
  datatype Code = Code(width: nat, value: nat)

  /** The code word `h264_bs_write_ue(b, v)` emits. For v = 0 it is the single
      bit 1. Otherwise it is v + 1 in 2 * len - 1 bits, where `v++` wraps on
      uint32_t: for v = 0xFFFFFFFF the value is 0 and the width 1. */
  function UeCode(v: U32): (c: Code)
    ensures c.width % 2 == 1 && 1 <= c.width <= 63
    ensures c.value < Pow2((c.width + 1) / 2)
    ensures v < 0xFFFF_FFFF ==> c.value == v + 1 && Pow2(c.width / 2) <= c.value
    ensures v == 0xFFFF_FFFF ==> c == Code(1, 0)
  {
    if v == 0 then
      Code(1, 1)
    else
      var w := (v + 1) % 0x1_0000_0000;
      assert w == if v < 0xFFFF_FFFF then v + 1 else 0;
      var len := UeLen(w);
      UeLenBits(w);
      assert (2 * len - 1 + 1) / 2 == len && (2 * len - 1) / 2 == len - 1;
      Code(2 * len - 1, w)
  }

  /** The zero bits a decoder counted and the bit index it stopped at. */
  datatype Run = Run(zeros: nat, next: nat)

  /** The code word of a non-zero v, with v + 1 and its bit length named. */
  lemma UeCodeWord(v: U32, w: nat, len: nat)
    requires v != 0 && w == (v + 1) % 0x1_0000_0000 && len == UeLen(w)
    ensures UeCode(v) == Code(2 * len - 1, w) && 2 * len - 1 >= 1
  {
  }

  /** A decoded ue(v) value and the bit index after its code word. */
  datatype Ue = Ue(value: nat, next: nat)

  /** A decoded se(v) value and the bit index after its code word. */
  datatype Se = Se(value: int, next: nat)

  /** The number of leading zero bits `h264_bs_read_ue` counts from bit
      index q, and the bit index after its loop. Every pass reads one bit
      and then tests, in order, that the bit was 0, that fewer than 32 zeros
      were counted and that the cursor is not at `eof`; the bit read by the
      failing pass is consumed too. */
  function ZeroRun(mem: seq<Byte>, end: int, q: nat, i: nat): (r: Run)
    requires end <= |mem| && i <= 32
    ensures i <= r.zeros <= 32 && r.next == q + 1 + (r.zeros - i)
    decreases 32 - i
  {
    if BitAt(mem, end, q) == 0 && i < 32 && (q + 1) / 8 < end then
      ZeroRun(mem, end, q + 1, i + 1)
    else
      Run(i, q + 1)
  }

  /** The value `h264_bs_read_ue` returns from bit index q and the bit index
      it leaves: after m counted zeros, the next m bits plus 2^m - 1. */
  function UeDecode(mem: seq<Byte>, end: int, q: nat): (r: Ue)
    requires end <= |mem|
    ensures r.next > q && (r.next - q) % 2 == 1
    ensures var m := (r.next - q) / 2; Pow2(m) <= r.value + 1 < 2 * Pow2(m)
  {
    var z := ZeroRun(mem, end, q, 0);
    FieldBound(mem, end, z.next, z.zeros);
    assert (z.next + z.zeros - q) / 2 == z.zeros;
    Ue(Field(mem, end, z.next, z.zeros) + Pow2(z.zeros) - 1, z.next + z.zeros)
  }

  /** The se(v) value of code number k, as `h264_bs_read_se` maps it: odd k
      to (k + 1) / 2, even k to -(k / 2). */
  function SeMap(k: nat): (v: int)
    ensures v > 0 <==> k % 2 == 1
    ensures v > 0 ==> k == 2 * v - 1
    ensures v <= 0 ==> k == -2 * v
  {
    if k % 2 == 1 then (k + 1) / 2 else -(k / 2)
  }

  /** The code number `h264_bs_write_se` hands to `h264_bs_write_ue`: -2v for
      v <= 0 and 2v - 1 for v > 0. */
  function SeCode(v: int): (k: nat)
    ensures SeMap(k) == v
  {
    if v <= 0 then -v * 2 else v * 2 - 1
  }

  /** The value `h264_bs_read_se` returns from bit index q and the bit index
      it leaves. */
  function SeDecode(mem: seq<Byte>, end: int, q: nat): (r: Se)
    requires end <= |mem|
    ensures r.next == UeDecode(mem, end, q).next
    ensures SeCode(r.value) == UeDecode(mem, end, q).value
  {
    var u := UeDecode(mem, end, q);
    SeCodeOfMap(u.value);
    Se(SeMap(u.value), u.next)
  }

  /** `x / 2` on a C int, which truncates toward zero. */
  function CHalf(x: int): (h: int)
    ensures x >= 0 ==> 0 <= x - 2 * h <= 1
    ensures x < 0 ==> -1 <= x - 2 * h <= 0
  {
    if x >= 0 then x / 2 else -((-x) / 2)
  }

  /** `h264_bs_read_se` as written, on a two's-complement target: the
      uint32_t code number k is stored in the int32_t r, which wraps from
      2^31 on; `r + 1` wraps once more at r = 2^31 - 1; and `/` truncates
      toward zero. Below 2^31 - 1 this is SeMap; from there on the result
      is SeMap's value moved by 2^31, with the opposite sign. */
  function SeMapInt32(k: nat): (v: int)
    requires k < 0x1_0000_0000
    ensures -0x8000_0000 <= v < 0x8000_0000
    ensures k < 0x7FFF_FFFF ==> v == SeMap(k)
    ensures k >= 0x7FFF_FFFF && k % 2 == 1 ==> v == SeMap(k) - 0x8000_0000
    ensures k >= 0x7FFF_FFFF && k % 2 == 0 ==> v == SeMap(k) + 0x8000_0000
  {
    var r := if k < 0x8000_0000 then k else k - 0x1_0000_0000;
    if r % 2 == 1 then
      var r1 := if r + 1 < 0x8000_0000 then r + 1 else r + 1 - 0x1_0000_0000;
      CHalf(r1)
    else
      -CHalf(r)
  }

  // ---------------------------------------------------------------------
  // Properties

  /** SeCode and SeMap are inverse bijections between the integers and the
      code numbers. */
  lemma SeCodeOfMap(k: nat)
    ensures SeCode(SeMap(k)) == k
  {
  }

  /** The value `h264_bs_read_ue` assembles: a run of i zeros ending before
      bit index qs, then the i-bit suffix read from qs, plus 2^i - 1. The
      suffix, the value and the end index are passed in as terms, so that
      callers state them once and the solver does not unfold UeDecode
      around them again. */
  lemma UeDecodeRun(mem: seq<Byte>, end: int, q: nat, i: nat, qs: nat, suffix: nat, v: nat, qe: nat)
    requires end <= |mem| && ZeroRun(mem, end, q, 0) == Run(i, qs)
    requires suffix == Field(mem, end, qs, i) && v == suffix + Pow2(i) - 1 && qe == qs + i
    ensures UeDecode(mem, end, q) == Ue(v, qe)
  {
  }

  /** One pass of the zero-counting loop of `h264_bs_read_ue`, with the
      next bit index q + 1 passed in as a term, so that callers name it once
      instead of the solver matching `q + 1` in several places. */
  lemma ZeroRunStep(mem: seq<Byte>, end: int, q: nat, i: nat, q1: nat)
    requires end <= |mem| && i <= 32 && q1 == q + 1
    ensures ZeroRun(mem, end, q, i) ==
            if BitAt(mem, end, q) == 0 && i < 32 && q1 / 8 < end then ZeroRun(mem, end, q1, i + 1)
            else Run(i, q1)
  {
  }

  /** Every bit the zero run consumed, except the last, was a zero. */
  lemma {:induction false} ZeroRunZeros(mem: seq<Byte>, end: int, q: nat, i: nat, j: nat)
    requires end <= |mem| && i <= 32 && q <= j < ZeroRun(mem, end, q, i).next - 1
    ensures BitAt(mem, end, j) == 0
    decreases 32 - i
  {
    if j > q {
      ZeroRunZeros(mem, end, q + 1, i + 1, j);
    }
  }

  /** Over L - 1 zero bits and a one, all before `end`, the zero run from
      q + i (i < L) counts up to L - 1 zeros and stops just past the one. */
  lemma {:induction false} ZeroRunOverPrefix(mem: seq<Byte>, end: int, q: nat, L: nat, i: nat, qi: nat)
    requires end <= |mem| && 1 <= L <= 32 && i < L && qi == q + i && q + L <= 8 * end
    requires forall j :: q <= j < q + L - 1 ==> BitAt(mem, end, j) == 0
    requires BitAt(mem, end, q + L - 1) == 1
    ensures ZeroRun(mem, end, qi, i) == Run(L - 1, q + L)
    decreases L - i
  {
    if i < L - 1 {
      assert BitAt(mem, end, qi) == 0;
      ZeroRunOverPrefix(mem, end, q, L, i + 1, qi + 1);
    }
  }

  /** What UeDecode makes of L - 1 zeros, a one, and L - 1 bits below it. */
  lemma UeDecodeCode(mem: seq<Byte>, end: int, q: nat, L: nat, w: nat)
    requires end <= |mem| && 1 <= L <= 32 && Pow2(L - 1) <= w
    requires ZeroRun(mem, end, q, 0) == Run(L - 1, q + L)
    requires Field(mem, end, q + L, L - 1) == w - Pow2(L - 1)
    ensures UeDecode(mem, end, q) == Ue(w - 1, q + 2 * L - 1)
  {
  }

  /** Over a buffer whose 2L - 1 bits from q are those of a value w with bit
      length L, the zero run stops right after the leading one. */
  lemma CodePrefix(mem: seq<Byte>, end: int, q: nat, L: nat, w: nat)
    requires end <= |mem| && 1 <= L <= 32 && Pow2(L - 1) <= w < Pow2(L)
    requires q + 2 * L - 1 <= 8 * end
    requires forall j :: q <= j < q + 2 * L - 1 ==> BitAt(mem, end, j) == Bit(w, q + 2 * L - 2 - j)
    ensures ZeroRun(mem, end, q, 0) == Run(L - 1, q + L)
  {
    forall j | q <= j < q + L - 1
      ensures BitAt(mem, end, j) == 0
    {
      BitAbove(w, L, q + 2 * L - 2 - j);
    }
    BitLeading(w, L - 1);
    ZeroRunOverPrefix(mem, end, q, L, 0, q);
  }

  /** ... and the L - 1 bits after the leading one read as w - 2^(L-1). */
  lemma CodeSuffix(mem: seq<Byte>, end: int, q: nat, L: nat, w: nat)
    requires end <= |mem| && 1 <= L <= 32 && Pow2(L - 1) <= w < Pow2(L)
    requires forall j :: q <= j < q + 2 * L - 1 ==> BitAt(mem, end, j) == Bit(w, q + 2 * L - 2 - j)
    ensures Field(mem, end, q + L, L - 1) == w - Pow2(L - 1)
  {
    forall j | q + L <= j < q + L + (L - 1)
      ensures BitAt(mem, end, j) == Bit(w % Pow2(L - 1), q + L + (L - 1) - 1 - j)
    {
      BitLow(w, L - 1, q + 2 * L - 2 - j);
    }
    BitLeading(w, L - 1);
    FieldFromBits(mem, end, q + L, L - 1, w % Pow2(L - 1));
  }

  /** Over a buffer whose 2L - 1 bits from q, all before `end`, are those of
      a value w with bit length L, the decoder returns w - 1 and stops right
      after them. */
  lemma CodeDecode(mem: seq<Byte>, end: int, q: nat, L: nat, w: nat)
    requires end <= |mem| && 1 <= L <= 32 && Pow2(L - 1) <= w < Pow2(L)
    requires q + 2 * L - 1 <= 8 * end
    requires forall j :: q <= j < q + 2 * L - 1 ==> BitAt(mem, end, j) == Bit(w, q + 2 * L - 2 - j)
    ensures UeDecode(mem, end, q) == Ue(w - 1, q + 2 * L - 1)
  {
    CodePrefix(mem, end, q, L, w);
    CodeSuffix(mem, end, q, L, w);
    UeDecodeCode(mem, end, q, L, w);
  }

  /** A value w with bit length L, written in 2L - 1 bits at q before `end`,
      decodes as w - 1 and the decoder stops right after it. */
  lemma CodeRoundTrip(mem: seq<Byte>, end: int, q: nat, L: nat, W: nat, w: nat)
    requires end <= |mem| && 1 <= L <= 32 && W == 2 * L - 1 && Pow2(L - 1) <= w < Pow2(L)
    requires q + W <= 8 * end
    ensures UeDecode(WriteField(mem, end, q, W, w), end, q) == Ue(w - 1, q + W)
  {
    var m := WriteField(mem, end, q, W, w);
    forall j | q <= j < q + W
      ensures BitAt(m, end, j) == Bit(w, q + 2 * L - 2 - j)
    {
      WriteFieldAt(mem, end, q, W, w, j);
    }
    CodeDecode(m, end, q, L, w);
  }

  /** `h264_bs_read_ue` after `h264_bs_write_ue(v)` at the same bit index
      returns v and ends after the code word, whenever the whole code word
      lies before `end` and v + 1 does not wrap. */
  lemma UeRoundTrip(mem: seq<Byte>, end: int, q: nat, v: U32)
    requires end <= |mem| && v < 0xFFFF_FFFF && q + UeCode(v).width <= 8 * end
    ensures UeDecode(WriteField(mem, end, q, UeCode(v).width, UeCode(v).value), end, q)
            == Ue(v, q + UeCode(v).width)
  {
    WordRoundTrip(mem, end, q, UeCode(v), v);
  }

  /** The round trip for any code word of the shape UeCode promises. */
  lemma WordRoundTrip(mem: seq<Byte>, end: int, q: nat, c: Code, v: nat)
    requires end <= |mem| && c.width % 2 == 1 && 1 <= c.width <= 63
    requires c.value == v + 1 && Pow2(c.width / 2) <= c.value < Pow2((c.width + 1) / 2)
    requires q + c.width <= 8 * end
    ensures UeDecode(WriteField(mem, end, q, c.width, c.value), end, q) == Ue(v, q + c.width)
  {
    var L := (c.width + 1) / 2;
    assert c.width == 2 * L - 1 && c.width / 2 == L - 1;
    CodeRoundTrip(mem, end, q, L, c.width, c.value);
  }

  /** `h264_bs_read_se` after `h264_bs_write_se(v)` returns v, for every v
      whose code number fits below 0xFFFFFFFF, with the code number mapped
      on unbounded integers. SeInt32RoundTrip gives what the int32_t
      decoder returns instead. */
  lemma SeRoundTrip(mem: seq<Byte>, end: int, q: nat, v: int)
    requires end <= |mem| && SeCode(v) < 0xFFFF_FFFF
    requires q + UeCode(SeCode(v)).width <= 8 * end
    ensures SeDecode(WriteField(mem, end, q, UeCode(SeCode(v)).width, UeCode(SeCode(v)).value), end, q)
            == Se(v, q + UeCode(SeCode(v)).width)
  {
    UeRoundTrip(mem, end, q, SeCode(v));
  }

  /** What `h264_bs_read_se` as written returns after `h264_bs_write_se(v)`:
      v itself for |v| < 2^30, and from there on v moved by 2^31 to the
      opposite sign, because code numbers of 2^31 - 1 and above overflow the
      int32_t arithmetic of the decoder. */
  lemma SeInt32RoundTrip(v: int)
    requires -0x8000_0000 < v < 0x8000_0000
    ensures SeCode(v) < 0x1_0000_0000
    ensures -0x4000_0000 < v < 0x4000_0000 ==> SeMapInt32(SeCode(v)) == v
    ensures v <= -0x4000_0000 ==> SeMapInt32(SeCode(v)) == v + 0x8000_0000
    ensures v >= 0x4000_0000 ==> SeMapInt32(SeCode(v)) == v - 0x8000_0000
  {
  }

  /** The two smallest magnitudes that come back with the wrong sign:
      se -2^30 has code number 2^31 and reads back as 2^30, and se 2^30 has
      code number 2^31 - 1 and reads back as -2^30. */
  lemma SeInt32SignFlip()
    ensures SeCode(-0x4000_0000) == 0x8000_0000 && SeMapInt32(0x8000_0000) == 0x4000_0000
    ensures SeCode(0x4000_0000) == 0x7FFF_FFFF && SeMapInt32(0x7FFF_FFFF) == -0x4000_0000
  {
  }

  /** Widths and values of the first code words, and of the wrapped one. */
  lemma UeCodeValues()
    ensures UeCode(0) == Code(1, 1) && UeCode(1) == Code(3, 2) && UeCode(2) == Code(3, 3)
    ensures UeCode(4) == Code(5, 5) && UeCode(0xFFFF_FFFF) == Code(1, 0)
  {
    assert UeLen(2) == 2 && UeLen(3) == 2 && UeLen(5) == 3;
  }

  /** The bit strings of the first code words, written out. */
  lemma ToBitsValues()
    ensures ToBits(1, 1) == [1] && ToBits(2, 3) == [0, 1, 0] && ToBits(3, 3) == [0, 1, 1]
    ensures ToBits(5, 5) == [0, 0, 1, 0, 1]
  {
    assert ToBits(0, 1) == [0];
    assert ToBits(1, 2) == [0, 1];
    assert ToBits(2, 3) == [0, 1, 0];
    assert ToBits(3, 3) == [0, 1, 1];
    assert ToBits(0, 2) == [0, 0];
    assert ToBits(1, 3) == [0, 0, 1];
    assert ToBits(2, 4) == [0, 0, 1, 0];
  }

  /** The code words of section 9.1 of ITU-T H.264 for the first values:
      ue 0, 1, 4 are 1, 010, 00101; se 0, 1, -1 are 1, 010, 011. */
  lemma CodeExamples()
    ensures ToBits(UeCode(0).value, UeCode(0).width) == [1]
    ensures ToBits(UeCode(1).value, UeCode(1).width) == [0, 1, 0]
    ensures ToBits(UeCode(4).value, UeCode(4).width) == [0, 0, 1, 0, 1]
    ensures SeCode(0) == 0 && SeCode(1) == 1 && SeCode(-1) == 2
    ensures ToBits(UeCode(SeCode(-1)).value, UeCode(SeCode(-1)).width) == [0, 1, 1]
  {
    UeCodeValues();
    ToBitsValues();
  }

  /** Over zero bits from qi up to the last bit before `end`, the zero run
      counts every one of them but the last, which it consumes when it hits
      `eof`. */
  lemma {:induction false} ZeroRunToEnd(mem: seq<Byte>, end: int, qi: nat, i: nat)
    requires end <= |mem| && qi < 8 * end && i + (8 * end - 1 - qi) <= 32
    requires forall j :: qi <= j < 8 * end ==> BitAt(mem, end, j) == 0
    ensures ZeroRun(mem, end, qi, i) == Run(i + (8 * end - 1 - qi), 8 * end)
    decreases 8 * end - qi
  {
    ZeroRunStep(mem, end, qi, i, qi + 1);
    assert (qi + 1) / 8 < end <==> qi + 1 < 8 * end;
    if qi + 1 < 8 * end {
      ZeroRunToEnd(mem, end, qi + 1, i + 1);
    }
  }

  /** From the start of a zero last byte before `end`, the decoder counts
      seven zeros, stops at `eof` with the eighth consumed but not counted,
      then reads seven bits past `end` as zeros: the value 2^7 - 1, with 15
      bits consumed. */
  lemma ZeroByteDecode(mem: seq<Byte>, end: int)
    requires 1 <= end <= |mem| && mem[end - 1] == 0
    ensures UeDecode(mem, end, 8 * end - 8) == Ue(127, 8 * end + 7)
  {
    var Q := 8 * end - 8;
    forall i | Q <= i < Q + 8
      ensures BitAt(mem, end, i) == 0
    {
      assert i / 8 == end - 1;
      BitZero(7 - i % 8);
    }
    ZeroRunToEnd(mem, end, Q, 0);
    forall i | Q + 8 <= i < Q + 15
      ensures BitAt(mem, end, i) == Bit(0, Q + 14 - i)
    {
      BitZero(Q + 14 - i);
    }
    FieldFromBits(mem, end, Q + 8, 7, 0);
    assert Pow2(7) == 128;
    UeDecodeRun(mem, end, Q, 7, Q + 8, 0, 127, Q + 15);
  }
}

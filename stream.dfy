// The caller-owned byte buffer seen as a string of bits. A cursor position is
// the absolute bit index q: byte q / 8, and inside it bit 7 - q % 8, so that
// bits are taken most significant first. Reads at or past the byte `end`
// see 0 and writes there are dropped, exactly as `h264_bs_read_u1` and
// `h264_bs_write_u1` skip the buffer access when `h264_bs_eof` holds.
module Stream {
  import opened Binary

  /** uint8_t */
  type Byte = x: int | 0 <= x < 256

  /** uint32_t */
  type U32 = x: int | 0 <= x < 0x1_0000_0000

  /** The bit a single-bit read at bit index q returns. */
  function BitAt(mem: seq<Byte>, end: int, q: nat): (b: nat)
    requires end <= |mem|
    ensures b < 2
  {
    if q / 8 < end then Bit(mem[q / 8], 7 - q % 8) else 0
  }

  /** The value of the n bits starting at bit index q, first bit most
      significant: what `h264_bs_read_u(b, n)` assembles. */
  function Field(mem: seq<Byte>, end: int, q: nat, n: nat): nat
    requires end <= |mem|
  {
    if n == 0 then 0 else 2 * Field(mem, end, q, n - 1) + BitAt(mem, end, q + n - 1)
  }

  /** The partial result of `h264_bs_read_u` for an m-bit field after i
      passes: bits q .. q + i - 1 shifted into the top i of m places. */
  function Placed(mem: seq<Byte>, end: int, q: nat, i: nat, m: nat): nat
    requires end <= |mem| && i <= m
  {
    if i == 0 then 0 else Placed(mem, end, q, i - 1, m) + BitAt(mem, end, q + i - 1) * Pow2(m - i)
  }

  /** The buffer after a single-bit write of b & 1 at bit index q. */
  function WriteBit(mem: seq<Byte>, end: int, q: nat, b: nat): (r: seq<Byte>)
    requires end <= |mem|
    ensures |r| == |mem|
    ensures q / 8 >= end ==> r == mem
    ensures forall i :: 0 <= i < |mem| && i != q / 8 ==> r[i] == mem[i]
  {
    if q / 8 < end then
      var x := mem[q / 8];
      assert Pow2(8) == 256;
      SetBitBelow(x, 7 - q % 8, b, 8);
      mem[q / 8 := SetBit(x, 7 - q % 8, b)]
    else
      mem
  }

  /** The buffer after the n-bit write of v at bit index q, most significant
      bit first: what `h264_bs_write_u(b, n, v)` leaves. */
  function WriteField(mem: seq<Byte>, end: int, q: nat, n: nat, v: nat): (r: seq<Byte>)
    requires end <= |mem|
    ensures |r| == |mem|
  {
    if n == 0 then mem else WriteBit(WriteField(mem, end, q, n - 1, v / 2), end, q + n - 1, v % 2)
  }

  /** The big-endian number formed by a run of bytes. */
  function BigEndian(s: seq<Byte>): nat
  {
    if |s| == 0 then 0 else 256 * BigEndian(s[..|s| - 1]) + s[|s| - 1]
  }

  // ---------------------------------------------------------------------
  // Reading bits

  /** Placing bits one at a time from the top assembles the field, shifted
      left by the places still to fill. */
  lemma {:induction false} PlacedField(mem: seq<Byte>, end: int, q: nat, i: nat, m: nat)
    requires end <= |mem| && i <= m
    ensures Placed(mem, end, q, i, m) == Field(mem, end, q, i) * Pow2(m - i)
  {
    if i > 0 {
      PlacedField(mem, end, q, i - 1, m);
      ShiftAcc(Placed(mem, end, q, i - 1, m), Field(mem, end, q, i - 1),
               BitAt(mem, end, q + i - 1), Pow2(m - i), Pow2(m - (i - 1)));
    }
  }

  /** An n-bit field is below 2^n. */
  lemma {:induction false} FieldBound(mem: seq<Byte>, end: int, q: nat, n: nat)
    requires end <= |mem|
    ensures Field(mem, end, q, n) < Pow2(n)
  {
    if n > 0 {
      FieldBound(mem, end, q, n - 1);
    }
  }

  /** A field of at most 32 bits fits a uint32_t. */
  lemma FieldU32(mem: seq<Byte>, end: int, q: nat, n: nat)
    requires end <= |mem| && n <= 32
    ensures Field(mem, end, q, n) < 0x1_0000_0000
  {
    FieldBound(mem, end, q, n);
    Pow2Monotone(n, 32);
    Pow2Bytes();
  }

  /** Bit j of a field is the bit read at the matching index. */
  lemma {:induction false} FieldBit(mem: seq<Byte>, end: int, q: nat, n: nat, j: nat)
    requires end <= |mem| && j < n
    ensures Bit(Field(mem, end, q, n), j) == BitAt(mem, end, q + n - 1 - j)
  {
    var F, x := Field(mem, end, q, n - 1), BitAt(mem, end, q + n - 1);
    ShiftOut(Field(mem, end, q, n), F, x);
    if j > 0 {
      FieldBit(mem, end, q, n - 1, j - 1);
      assert q + (n - 1) - 1 - (j - 1) == q + n - 1 - j;
    }
  }

  /** Dropping the low bit x of 2F + x gives back F. */
  lemma ShiftOut(y: nat, F: nat, x: nat)
    requires y == 2 * F + x && x < 2
    ensures y / 2 == F && y % 2 == x
  {
  }

  /** A field equals v when every bit read matches the big-endian bits of v. */
  lemma FieldFromBits(mem: seq<Byte>, end: int, q: nat, n: nat, v: nat)
    requires end <= |mem| && v < Pow2(n)
    requires forall i :: q <= i < q + n ==> BitAt(mem, end, i) == Bit(v, q + n - 1 - i)
    ensures Field(mem, end, q, n) == v
  {
    forall j | 0 <= j < n
      ensures Bit(Field(mem, end, q, n), j) == Bit(v, j)
    {
      FieldBit(mem, end, q, n, j);
      var i := q + n - 1 - j;
      assert BitAt(mem, end, i) == Bit(v, q + n - 1 - i);
    }
    FieldBound(mem, end, q, n);
    BitsEqual(Field(mem, end, q, n), v, n);
  }

  /** Reading a + b bits is reading a bits, then b more: the first part is the
      high part of the result. */
  lemma {:induction false} FieldConcat(mem: seq<Byte>, end: int, q: nat, a: nat, b: nat)
    requires end <= |mem|
    ensures Field(mem, end, q, a + b) == Field(mem, end, q, a) * Pow2(b) + Field(mem, end, q + a, b)
  {
    if b > 0 {
      FieldConcat(mem, end, q, a, b - 1);
      ShiftIn(Field(mem, end, q, a + b), Field(mem, end, q, a + b - 1), Field(mem, end, q, a),
              Pow2(b - 1), Pow2(b), Field(mem, end, q + a, b), Field(mem, end, q + a, b - 1),
              BitAt(mem, end, q + a + b - 1));
    }
  }

  /** The arithmetic step of FieldConcat: shifting one more bit x into both
      the whole field and its low part. The fields and powers are passed in
      as plain integers, so that the step is proved as linear arithmetic
      without unfolding Field or Pow2. */
  lemma ShiftIn(whole': int, whole: int, hi: int, P: int, P': int, lo': int, lo: int, x: int)
    requires whole == hi * P + lo && whole' == 2 * whole + x
    requires lo' == 2 * lo + x && P' == 2 * P
    ensures whole' == hi * P' + lo'
  {
  }

  /** On a byte boundary before `end`, the 8-bit field is the byte itself. */
  lemma AlignedByteField(mem: seq<Byte>, end: int, k: nat)
    requires end <= |mem| && k < end
    ensures Field(mem, end, 8 * k, 8) == mem[k]
  {
    assert Pow2(8) == 256;
    forall i | 8 * k <= i < 8 * k + 8
      ensures BitAt(mem, end, i) == Bit(mem[k], 8 * k + 8 - 1 - i)
    {
      assert i / 8 == k && i % 8 == i - 8 * k;
    }
    FieldFromBits(mem, end, 8 * k, 8, mem[k]);
  }

  /** n bytes make a number below 2^(8n). */
  lemma {:induction false} BigEndianBound(s: seq<Byte>)
    ensures BigEndian(s) < Pow2(8 * |s|)
  {
    if |s| > 0 {
      var n := |s|;
      BigEndianBound(s[..n - 1]);
      Pow2Add(8 * (n - 1), 8);
      Pow2Bytes();
      assert 8 * (n - 1) + 8 == 8 * n;
    }
  }

  /** Taking one more byte multiplies the big-endian value by 256 and adds
      it. k + i and i + 1 are passed in as ki and i1, so that a caller's own
      terms for them match the contract without arithmetic rewriting. */
  lemma BigEndianStep(mem: seq<Byte>, k: nat, i: nat, ki: nat, i1: nat)
    requires ki == k + i && i1 == i + 1 && ki < |mem|
    ensures BigEndian(mem[k..k + i1]) == 256 * BigEndian(mem[k..k + i]) + mem[ki]
  {
    assert mem[k..k + i1][..i] == mem[k..k + i];
  }

  /** At most eight bytes fit in 64 bits. */
  lemma BigEndianBelow64(s: seq<Byte>)
    requires |s| <= 8
    ensures BigEndian(s) < 0x1_0000_0000_0000_0000
  {
    BigEndianBound(s);
    Pow2Monotone(8 * |s|, 64);
    Pow2Add(32, 32);
    Pow2Bytes();
  }

  /** Reading a + 8 bits is reading a bits, then one more byte's worth. The
      sums are passed in as qa and a8, so that a caller's own terms for them
      match the contract without arithmetic rewriting. */
  lemma FieldConcatByte(mem: seq<Byte>, end: int, q: nat, a: nat, qa: nat, a8: nat)
    requires end <= |mem| && qa == q + a && a8 == a + 8
    ensures Field(mem, end, q, a8) == 256 * Field(mem, end, q, a) + Field(mem, end, qa, 8)
  {
    FieldConcat(mem, end, q, a, 8);
    assert Pow2(8) == 256;
    MulRotate(Field(mem, end, q, a), 1, 256);
  }

  /** Reading a + 8 bits, where the last 8 are the whole byte `last`, is
      reading a bits and then that byte. */
  lemma FieldLastByte(mem: seq<Byte>, end: int, q: nat, a: nat, last: nat, qa: nat, a8: nat)
    requires end <= |mem| && last < end && qa == 8 * last && qa == q + a && a8 == a + 8
    ensures Field(mem, end, q, a8) == 256 * Field(mem, end, q, a) + mem[last]
  {
    FieldConcatByte(mem, end, q, a, qa, a8);
    AlignedByteField(mem, end, last);
  }

  /** On a byte boundary, 8n bits before `end` read as the big-endian value of
      those n bytes. */
  lemma {:induction false} AlignedBytesField(mem: seq<Byte>, end: int, k: nat, n: nat)
    requires end <= |mem| && k + n <= end
    ensures Field(mem, end, 8 * k, 8 * n) == BigEndian(mem[k..k + n])
  {
    if n > 0 {
      var n1 := n - 1;
      AlignedBytesField(mem, end, k, n1);
      FieldLastByte(mem, end, 8 * k, 8 * n1, k + n1, 8 * (k + n1), 8 * n);
      BigEndianStep(mem, k, n1, k + n1, n);
    }
  }

  // ---------------------------------------------------------------------
  // Writing bits

  /** One more pass of `h264_bs_write_u` for an m-bit field, with the shift
      amount k as a term: the next bit written is bit k of v. */
  lemma WriteStep(mem: seq<Byte>, end: int, q: nat, i: nat, m: nat, v: nat, k: nat)
    requires end <= |mem| && k + i + 1 == m
    ensures WriteField(mem, end, q, i + 1, Shr(v, k))
         == WriteBit(WriteField(mem, end, q, i, Shr(v, m - i)), end, q + i, Bit(v, k))
  {
    ShrStep(v, k);
  }

  /** A single-bit write changes the bit at q, when q lies before `end`, and
      no other bit. */
  lemma WriteBitAt(mem: seq<Byte>, end: int, q: nat, b: nat, q': nat)
    requires end <= |mem|
    ensures BitAt(WriteBit(mem, end, q, b), end, q') ==
            if q' == q && q / 8 < end then b % 2 else BitAt(mem, end, q')
  {
    if q / 8 < end && q' / 8 == q / 8 {
      BitOfSetBit(mem[q / 8], 7 - q % 8, b, 7 - q' % 8);
    }
  }

  /** After an n-bit write of v at q, the bits q .. q+n-1 that lie before
      `end` hold the big-endian bits of v, and every other bit is unchanged. */
  lemma {:induction false} WriteFieldAt(mem: seq<Byte>, end: int, q: nat, n: nat, v: nat, q': nat)
    requires end <= |mem|
    ensures BitAt(WriteField(mem, end, q, n, v), end, q') ==
            if q <= q' < q + n && q' / 8 < end then Bit(v, q + n - 1 - q') else BitAt(mem, end, q')
  {
    if n > 0 {
      var n1, h, last := n - 1, v / 2, q + n - 1;
      var w, w' := WriteField(mem, end, q, n1, h), WriteField(mem, end, q, n, v);
      assert w' == WriteBit(w, end, last, v % 2);
      WriteFieldAt(mem, end, q, n1, h, q');
      WriteBitAt(w, end, last, v % 2, q');
      if q' == last {
        assert BitAt(w', end, q') == if q' / 8 < end then v % 2 else BitAt(w, end, q');
      } else if q <= q' < last {
        assert BitAt(w', end, q') == BitAt(w, end, q');
        assert Bit(v, last - q') == Bit(h, last - 1 - q');
      } else {
        assert BitAt(w', end, q') == BitAt(w, end, q');
      }
    }
  }

  /** When the whole write lies before `end`, the bits it leaves spell the
      n-bit rendering of v, first bit first. */
  lemma WrittenBits(mem: seq<Byte>, end: int, q: nat, n: nat, v: nat, j: nat)
    requires end <= |mem| && q + n <= 8 * end && j < n
    ensures BitAt(WriteField(mem, end, q, n, v), end, q + j) == ToBits(v, n)[j]
  {
    WriteFieldAt(mem, end, q, n, v, q + j);
    ToBitsAt(v, n, j);
  }

  /** Writes never touch the bytes from `end` on. */
  lemma {:induction false} WriteFieldBeyondEnd(mem: seq<Byte>, end: int, q: nat, n: nat, v: nat, i: int)
    requires end <= |mem| && 0 <= end <= i < |mem|
    ensures WriteField(mem, end, q, n, v)[i] == mem[i]
  {
    if n > 0 {
      WriteFieldBeyondEnd(mem, end, q, n - 1, v / 2, i);
    }
  }

  /** A byte before `end` is determined by its eight bits. */
  lemma ByteFromBits(m1: seq<Byte>, m2: seq<Byte>, end: int, k: nat)
    requires end <= |m1| && end <= |m2| && k < end
    requires forall i :: 8 * k <= i < 8 * k + 8 ==> BitAt(m1, end, i) == BitAt(m2, end, i)
    ensures m1[k] == m2[k]
  {
    assert Pow2(8) == 256;
    forall j | 0 <= j < 8
      ensures Bit(m1[k], j) == Bit(m2[k], j)
    {
      var i := 8 * k + (7 - j);
      assert i / 8 == k && i % 8 == 7 - j;
      assert BitAt(m1, end, i) == BitAt(m2, end, i);
    }
    BitsEqual(m1[k], m2[k], 8);
  }

  /** Round trip at any offset: the last n - s bits of an n-bit write of v,
      read back, give v modulo 2^(n - s), provided the whole write lies before
      `end`. With s = 0 this is "read_u after write_u returns v mod 2^n". */
  lemma WrittenFieldSuffix(mem: seq<Byte>, end: int, q: nat, n: nat, v: nat, s: nat)
    requires end <= |mem| && s <= n && q + n <= 8 * end
    ensures Field(WriteField(mem, end, q, n, v), end, q + s, n - s) == v % Pow2(n - s)
  {
    var w := WriteField(mem, end, q, n, v);
    forall i | q + s <= i < q + s + (n - s)
      ensures BitAt(w, end, i) == Bit(v % Pow2(n - s), q + s + (n - s) - 1 - i)
    {
      WriteFieldAt(mem, end, q, n, v, i);
      BitLow(v, n - s, q + n - 1 - i);
    }
    FieldFromBits(w, end, q + s, n - s, v % Pow2(n - s));
  }

  /** Reading back an n-bit write at the same bit index gives v mod 2^n,
      when all n bits lie before `end`. */
  lemma FieldRoundTrip(mem: seq<Byte>, end: int, q: nat, n: nat, v: nat)
    requires end <= |mem| && q + n <= 8 * end
    ensures Field(WriteField(mem, end, q, n, v), end, q, n) == v % Pow2(n)
  {
    WrittenFieldSuffix(mem, end, q, n, v, 0);
  }

  /** An aligned 8-bit write before `end` stores v & 0xFF into that byte and
      changes nothing else: what the `write_u8` fast path does directly. */
  lemma AlignedByteWrite(mem: seq<Byte>, end: int, k: nat, v: nat)
    requires end <= |mem| && k < end
    ensures WriteField(mem, end, 8 * k, 8, v) == mem[k := v % 256]
  {
    var w, m := WriteField(mem, end, 8 * k, 8, v), mem[k := v % 256];
    assert Pow2(8) == 256;
    forall i | 0 <= i < |mem|
      ensures w[i] == m[i]
    {
      if i >= end {
        WriteFieldBeyondEnd(mem, end, 8 * k, 8, v, i);
      } else {
        forall q | 8 * i <= q < 8 * i + 8
          ensures BitAt(w, end, q) == BitAt(m, end, q)
        {
          assert q / 8 == i;
          WriteFieldAt(mem, end, 8 * k, 8, v, q);
          if i == k {
            BitLow(v, 8, 7 - q % 8);
          }
        }
        ByteFromBits(w, m, end, i);
      }
    }
  }
}

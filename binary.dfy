// Unsigned binary arithmetic behind the bit cursor: powers of two, the bit
// of a number at a given weight, replacing one bit, and rendering a number
// as a fixed-width bit string. The C shifts `x >> k`, `1 << k` and the masks
// `& 0x01`, `&= ~(1 << k)` are modelled on unbounded naturals by `/ 2^k`,
// `* 2^k` and `% 2`.
module Binary {

  /** 2^k. */
  function Pow2(k: nat): (r: nat)
    ensures r > 0
  {
    if k == 0 then 1 else 2 * Pow2(k - 1)
  }

  /** Bit k of x, counted from the least significant bit: `(x >> k) & 0x01`,
      shifting one place at a time. */
  function Bit(x: nat, k: nat): (r: nat)
    ensures r < 2
  {
    if k == 0 then x % 2 else Bit(x / 2, k - 1)
  }

  /** `x >> k`, shifting one place at a time. */
  function Shr(x: nat, k: nat): nat
  {
    if k == 0 then x else Shr(x / 2, k - 1)
  }

  /** x with bit k replaced by the low bit of b. The C code clears the bit with
      `x &= ~(0x01 << k)` and then ors in `(b & 0x01) << k`; here the bits
      below k are peeled off one at a time and put back unchanged. Clearing
      a bit never raises x and setting one never lowers it. */
  function SetBit(x: nat, k: nat, b: nat): (r: nat)
    ensures b % 2 == 0 ==> r <= x
    ensures b % 2 == 1 ==> r >= x
  {
    if k == 0 then x - x % 2 + b % 2 else 2 * SetBit(x / 2, k - 1, b) + x % 2
  }

  /** The n-bit big-endian rendering of v (most significant bit first); bits of
      v at weight n and above are dropped. */
  function ToBits(v: nat, n: nat): (r: seq<nat>)
    ensures |r| == n
  {
    if n == 0 then [] else ToBits(v / 2, n - 1) + [v % 2]
  }

  // ---------------------------------------------------------------------
  // Powers of two

  lemma {:induction false} Pow2Add(a: nat, b: nat)
    ensures Pow2(a + b) == Pow2(a) * Pow2(b)
  {
    if a > 0 {
      Pow2Add(a - 1, b);
      assert Pow2(a + b) == 2 * Pow2(a - 1 + b);
    }
  }

  /** The shifts by whole bytes that the Exp-Golomb encoder uses. */
  lemma Pow2Bytes()
    ensures Pow2(8) == 0x100 && Pow2(16) == 0x1_0000 && Pow2(24) == 0x100_0000
    ensures Pow2(32) == 0x1_0000_0000
  {
    Pow2Add(8, 8);
    Pow2Add(16, 8);
    Pow2Add(24, 8);
  }

  lemma {:induction false} Pow2Monotone(a: nat, b: nat)
    requires a <= b
    ensures Pow2(a) <= Pow2(b)
  {
    if a < b {
      Pow2Monotone(a, b - 1);
    }
  }

  // ---------------------------------------------------------------------
  // Products and Euclidean division

  lemma MulNonneg(a: int, b: int)
    requires a >= 0 && b >= 0
    ensures a * b >= 0
  {
  }

  lemma DivNonneg(x: int, d: int)
    requires x >= 0 && d > 0
    ensures 0 <= x / d && 0 <= x % d < d
  {
  }

  lemma MulRotate(a: int, b: int, c: int)
    ensures a * (b * c) == (a * c) * b
  {
  }

  lemma MulMono(a: int, b: int, d: int)
    requires a <= b && d >= 0
    ensures a * d <= b * d
  {
    MulNonneg(b - a, d);
    assert (b - a) * d == b * d - a * d;
  }

  /** One step of an accumulator that ors bit b in at weight P while it holds
      the field F read so far at weight 2P. */
  lemma ShiftAcc(acc: int, F: int, b: int, P: int, P2: int)
    requires acc == F * P2 && P2 == 2 * P
    ensures acc + b * P == (2 * F + b) * P
  {
  }

  /** d * P <= x < (d + 1) * P with A <= d < B puts x in [A * P, B * P). */
  lemma Bracket(x: int, d: int, r: int, P: int, A: int, B: int)
    requires P > 0 && x == d * P + r && 0 <= r < P && A <= d < B
    ensures A * P <= x < B * P
  {
    MulMono(A, d, P);
    MulMono(d + 1, B, P);
    assert (d + 1) * P == d * P + P;
  }

  /** Quotient and remainder are determined by x == q * d + r with 0 <= r < d. */
  lemma DivModUnique(x: int, d: int, q: int, r: int)
    requires d > 0 && 0 <= r < d && x == q * d + r
    ensures x / d == q && x % d == r
  {
    var q', r' := x / d, x % d;
    assert x == q' * d + r';
    if q' < q {
      assert (q' + 1) * d == q' * d + d;
      MulMono(q' + 1, q, d);
    } else if q' > q {
      assert (q + 1) * d == q * d + d;
      MulMono(q + 1, q', d);
    }
  }

  lemma DivDiv(x: nat, a: nat, b: nat)
    requires a > 0 && b > 0
    ensures x / (a * b) == (x / a) / b
    ensures x % (a * b) % a == x % a
    ensures x % (a * b) / a == (x / a) % b
  {
    DivNonneg(x, a);
    var q1, r1 := x / a, x % a;
    DivNonneg(q1, b);
    var q2, r2 := q1 / b, q1 % b;
    assert x == q1 * a + r1;
    assert q1 == q2 * b + r2;
    MulMono(r2, b - 1, a);
    MulNonneg(r2, a);
    assert (b - 1) * a == a * b - a;
    assert q1 * a == q2 * (a * b) + r2 * a by {
      assert q1 * a == (q2 * b + r2) * a;
    }
    DivModUnique(x, a * b, q2, r2 * a + r1);
    DivModUnique(r2 * a + r1, a, r2, r1);
  }

  // ---------------------------------------------------------------------
  // Bits

  /** Shifting right by k and then by one is shifting by k + 1, and bit k
      is the low bit of the shifted value. */
  lemma {:induction false} ShrStep(x: nat, k: nat)
    ensures Shr(x, k) / 2 == Shr(x, k + 1)
    ensures Shr(x, k) % 2 == Bit(x, k)
  {
    if k > 0 {
      ShrStep(x / 2, k - 1);
    }
  }

  /** Every bit of 0 is 0. */
  lemma {:induction false} BitZero(k: nat)
    ensures Bit(0, k) == 0
  {
    if k > 0 {
      BitZero(k - 1);
    }
  }

  /** A number below 2^m is zero from weight m upwards. */
  lemma {:induction false} BitAbove(x: nat, m: nat, j: nat)
    requires x < Pow2(m) && m <= j
    ensures Bit(x, j) == 0
  {
    if j > 0 {
      BitAbove(x / 2, if m == 0 then 0 else m - 1, j - 1);
    }
  }

  /** The leading one of a number in [2^m, 2^(m+1)) sits at weight m. */
  lemma {:induction false} BitLeading(x: nat, m: nat)
    requires Pow2(m) <= x < Pow2(m + 1)
    ensures Bit(x, m) == 1
    ensures x % Pow2(m) == x - Pow2(m)
  {
    if m > 0 {
      BitLeading(x / 2, m - 1);
    }
    DivModUnique(x, Pow2(m), 1, x - Pow2(m));
  }

  /** Bits below weight m only depend on the low m bits. */
  lemma {:induction false} BitLow(y: nat, m: nat, i: nat)
    requires i < m
    ensures Bit(y, i) == Bit(y % Pow2(m), i)
  {
    DivDiv(y, 2, Pow2(m - 1));
    if i > 0 {
      BitLow(y / 2, m - 1, i - 1);
    }
  }

  /** SetBit changes bit k to b & 1 and keeps every other bit. */
  lemma {:induction false} BitOfSetBit(x: nat, k: nat, b: nat, i: nat)
    ensures Bit(SetBit(x, k, b), i) == if i == k then b % 2 else Bit(x, i)
  {
    var s := SetBit(x, k, b);
    var h, c := if k == 0 then x / 2 else SetBit(x / 2, k - 1, b), if k == 0 then b % 2 else x % 2;
    assert s == 2 * h + c && c < 2;
    assert s / 2 == h && s % 2 == c;
    if i > 0 {
      assert Bit(s, i) == Bit(h, i - 1) && Bit(x, i) == Bit(x / 2, i - 1);
      if k > 0 {
        BitOfSetBit(x / 2, k - 1, b, i - 1);
      }
    }
  }

  /** SetBit keeps a value below 2^n when the bit it sets is below weight n. */
  lemma {:induction false} SetBitBelow(x: nat, k: nat, b: nat, n: nat)
    requires x < Pow2(n) && k < n
    ensures SetBit(x, k, b) < Pow2(n)
  {
    assert Pow2(n) == 2 * Pow2(n - 1);
    assert x / 2 < Pow2(n - 1);
    if k > 0 {
      SetBitBelow(x / 2, k - 1, b, n - 1);
    }
  }

  /** Two numbers below 2^n with the same n low bits are equal. */
  lemma {:induction false} BitsEqual(x: nat, y: nat, n: nat)
    requires x < Pow2(n) && y < Pow2(n)
    requires forall j :: 0 <= j < n ==> Bit(x, j) == Bit(y, j)
    ensures x == y
  {
    if n > 0 {
      forall j | 0 <= j < n - 1
        ensures Bit(x / 2, j) == Bit(y / 2, j)
      {
        assert Bit(x, j + 1) == Bit(y, j + 1);
      }
      assert Bit(x, 0) == Bit(y, 0);
      BitsEqual(x / 2, y / 2, n - 1);
    }
  }

  /** Position j of the n-bit rendering of v holds the bit of weight n-1-j. */
  lemma {:induction false} ToBitsAt(v: nat, n: nat, j: nat)
    requires j < n
    ensures ToBits(v, n)[j] == Bit(v, n - 1 - j)
  {
    if j < n - 1 {
      ToBitsAt(v / 2, n - 1, j);
    }
  }
}

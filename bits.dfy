/** Bits of bytes and of byte windows, numbered from the most significant bit
    of the first byte (bit 0) onwards, as the source's scans visit them. A
    mask test `(x & (1 << p)) != 0` is modelled as `(x / 2^p) % 2 == 1`. */
module Bits {
  import opened TwosComplement

  lemma Pow2Small()
    ensures Pow2(0) == 1 && Pow2(1) == 2 && Pow2(2) == 4 && Pow2(3) == 8
    ensures Pow2(4) == 16 && Pow2(5) == 32 && Pow2(6) == 64 && Pow2(7) == 128
    ensures Pow2(8) == 256
  {
    assert Pow2(8) == 2 * Pow2(7);
  }

  /** Bit `k` of byte `x`, counted from the most significant bit (k == 0):
      the top bit after shifting `x` left by `k` places within the byte. */
  function Bit(x: Byte, k: nat): (b: int)
    requires k < 8
    ensures b == 0 || b == 1
    decreases k
  {
    if k == 0 then x / 128 else Bit((x % 128) * 2, k - 1)
  }

  /** Bit `k` is the mask test of the source: `x / 2^(7-k)` modulo 2. */
  lemma {:induction false} BitMask(x: Byte, k: nat)
    requires k < 8
    ensures Bit(x, k) == (x / Pow2(7 - k)) % 2
    decreases k
  {
    Pow2Small();
    if k > 0 {
      BitMask((x % 128) * 2, k - 1);
      ShiftedDigit(x, 7 - k);
    }
  }

  /** Digit `p` of `128 * q + r` is digit `p` of `r` when `p` divides 64:
      the high part only adds multiples of 2 * p. */
  lemma DigitIgnoresHigh(q: nat, r: nat, p: nat, h: nat)
    requires p >= 1 && p * (2 * h) == 128
    ensures ((128 * q + r) / p) % 2 == (r / p) % 2
    ensures ((r * 2) / (2 * p)) == r / p
  {
    var t := h * q;
    assert 128 * q == (2 * t) * p by {
      assert 128 * q == (p * (2 * h)) * q;
    }
    DivAdd(2 * t, p, r);
    DoubledDivisor(r, p);
  }

  /** Adding a multiple of the divisor adds to the quotient. */
  lemma DivAdd(a: int, p: int, e: int)
    requires p >= 1
    ensures (a * p + e) / p == a + e / p
  {
    var q, r := e / p, e % p;
    assert a * p + e == (a + q) * p + r;
    DivPlus(a + q, p, r);
  }

  /** Doubling dividend and divisor keeps the quotient. */
  lemma DoubledDivisor(r: int, p: int)
    requires p >= 1
    ensures (r * 2) / (2 * p) == r / p
  {
    var d, e := r / p, r % p;
    assert r * 2 == d * (2 * p) + 2 * e by {
      assert d * (2 * p) == 2 * (d * p);
    }
    DivPlus(d, 2 * p, 2 * e);
  }

  /** Division of `a * p + e` by `p` when `0 <= e < p`. */
  lemma DivPlus(a: int, p: int, e: int)
    requires p >= 1 && 0 <= e < p
    ensures (a * p + e) / p == a
  {
    var d, m := (a * p + e) / p, (a * p + e) % p;
    assert (a - d) * p == m - e;
    if a - d >= 1 {
      MulLe(1, a - d, p);
    } else if a - d <= -1 {
      MulLe(a - d, -1, p);
    }
  }

  /** Multiplying by a non-negative factor keeps the order. */
  lemma MulLe(a: int, b: int, c: int)
    requires a <= b && c >= 0
    ensures a * c <= b * c
  {
  }

  /** Shifting a byte left by one place moves its digit `m` to `m + 1`. */
  lemma ShiftedDigit(x: Byte, m: nat)
    requires m < 7
    ensures (((x % 128) * 2) / Pow2(m + 1)) % 2 == (x / Pow2(m)) % 2
  {
    Pow2Small();
    var q, r := x / 128, x % 128;
    assert x == 128 * q + r;
    if m == 0 { DigitIgnoresHigh(q, r, 1, 64); }
    else if m == 1 { DigitIgnoresHigh(q, r, 2, 32); }
    else if m == 2 { DigitIgnoresHigh(q, r, 4, 16); }
    else if m == 3 { DigitIgnoresHigh(q, r, 8, 8); }
    else if m == 4 { DigitIgnoresHigh(q, r, 16, 4); }
    else if m == 5 { DigitIgnoresHigh(q, r, 32, 2); }
    else { DigitIgnoresHigh(q, r, 64, 1); }
  }

  /** Bit `j` of a window, counted from the most significant bit of its
      first byte. */
  function BitAt(w: seq<Byte>, j: nat): (b: int)
    requires j < 8 * |w|
    ensures b == 0 || b == 1
  {
    Bit(w[j / 8], j % 8)
  }

  /** The top bit of a byte is set exactly when the byte is at least 128. */
  lemma TopBit(x: Byte)
    ensures Bit(x, 0) == 1 <==> x >= 128
  {
    Pow2Small();
  }

  /** A byte whose eight bits all equal `v` is 0x00 (v == 0) or 0xFF (v == 1). */
  lemma AllBitsEqual(x: Byte, v: int)
    requires v == 0 || v == 1
    requires forall k :: 0 <= k < 8 ==> Bit(x, k) == v
    ensures x == if v == 1 then 255 else 0
  {
    Pow2Small();
    BitMask(x, 0); BitMask(x, 1); BitMask(x, 2); BitMask(x, 3);
    BitMask(x, 4); BitMask(x, 5); BitMask(x, 6); BitMask(x, 7);
    assert Bit(x, 0) == v && Bit(x, 1) == v && Bit(x, 2) == v && Bit(x, 3) == v;
    assert Bit(x, 4) == v && Bit(x, 5) == v && Bit(x, 6) == v && Bit(x, 7) == v;
    if v == 0 {
      assert x < 128; assert x < 64; assert x < 32; assert x < 16;
      assert x < 8; assert x < 4; assert x < 2;
    } else {
      assert x >= 128; assert x >= 192; assert x >= 224; assert x >= 240;
      assert x >= 248; assert x >= 252; assert x >= 254;
    }
  }

  /** The eight bits of the filler byte all equal the sign bit. */
  lemma FillerBits(neg: bool, k: nat)
    requires k < 8
    ensures Bit(Filler(neg), k) == if neg then 1 else 0
  {
    Pow2Small();
    BitMask(Filler(neg), k);
    assert k == 0 || k == 1 || k == 2 || k == 3 || k == 4 || k == 5 || k == 6 || k == 7;
  }

  /** A byte whose first `j` bits (from the top) are all 0 is below
      2^(8-j); one whose first `j` bits are all 1 is at least 256 - 2^(8-j). */
  lemma {:induction false} LeadingBitsBound(x: Byte, j: nat, v: int)
    requires j <= 8 && (v == 0 || v == 1)
    requires forall i :: 0 <= i < j ==> Bit(x, i) == v
    ensures v == 0 ==> x < Pow2(8 - j)
    ensures v == 1 ==> x >= 256 - Pow2(8 - j)
    decreases j
  {
    Pow2Small();
    if j > 0 {
      var y: Byte := (x % 128) * 2;
      forall i | 0 <= i < j - 1
        ensures Bit(y, i) == v
      {
        assert Bit(x, i + 1) == Bit(y, i);
      }
      LeadingBitsBound(y, j - 1, v);
      assert Pow2(8 - (j - 1)) == 2 * Pow2(8 - j);
      assert Bit(x, 0) == x / 128 == v;
      assert x == 128 * v + x % 128;
    }
  }
}

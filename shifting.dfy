/** The two phases of `operator>>=` and `operator<<=` on a window: a move by
    whole bytes, then a move by the remaining bits that carries bits from
    byte to byte. The bit masks of the source are modelled arithmetically:
    `x & (2^k - 1)` is `x % 2^k`, the top `k` bits `x & ((2^k - 1) << (8 - k))`
    are `x / 2^(8-k) * 2^(8-k)`, and `|` of two disjoint bit ranges is `+`. */
module Shifting {
  import opened TwosComplement
  import opened Bits
  import opened NormalForm

  // ---------------------------------------------------------------------
  // Division facts (Dafny's `/` is floor division for positive divisors).

  /** Dividing by `a` and then by `b` is dividing by `a * b`. */
  lemma DivDiv(v: int, a: int, b: int)
    requires a >= 1 && b >= 1
    ensures (v / a) / b == v / (a * b)
  {
    var q1, r1 := v / a, v % a;
    var q2, r2 := q1 / b, q1 % b;
    RemainderBound(a, b, r1, r2);
    Regroup(v, a, b, q1, r1, q2, r2);
    DivPlus(q2, a * b, r2 * a + r1);
  }

  lemma RemainderBound(a: int, b: int, r1: int, r2: int)
    requires 0 <= r1 < a && 0 <= r2 < b
    ensures 0 <= r2 * a + r1 < a * b
  {
    MulLe(r2, b - 1, a);
    assert (b - 1) * a == a * b - a;
  }

  lemma Regroup(v: int, a: int, b: int, q1: int, r1: int, q2: int, r2: int)
    requires v == q1 * a + r1 && q1 == q2 * b + r2
    ensures v == q2 * (a * b) + (r2 * a + r1)
  {
    assert q1 * a == (q2 * b) * a + r2 * a;
    assert (q2 * b) * a == q2 * (a * b);
  }

  /** 2^k * 2^(8-k) == 256 for a bit count k <= 8. */
  lemma PowSplit(k: nat)
    requires k <= 8
    ensures Pow2(k) * Pow2(8 - k) == 256
  {
    Pow2Add(k, 8 - k);
    Pow2Small();
  }

  /** The low `k` bits of the filler byte: all ones or all zeros. */
  lemma FillerLowBits(neg: bool, k: nat)
    requires k <= 8
    ensures Filler(neg) % Pow2(k) == if neg then Pow2(k) - 1 else 0
  {
    PowSplit(k);
    if neg {
      assert Filler(neg) == 255;
      AllOnesLow(Pow2(k), Pow2(8 - k));
    } else {
      assert Filler(neg) == 0;
      DivPlus(0, Pow2(k), 0);
    }
  }

  lemma AllOnesLow(p: int, q: int)
    requires p >= 1 && q >= 1 && p * q == 256
    ensures 255 % p == p - 1
  {
    assert 255 == (q - 1) * p + (p - 1);
    DivPlus(q - 1, p, p - 1);
  }

  /** `k` copies of the byte `f`. */
  function Fill(k: nat, f: Byte): (r: seq<Byte>)
    ensures |r| == k
  {
    seq(k, _ => f)
  }

  lemma FillIsFiller(neg: bool, k: nat)
    ensures AllFiller(neg, Fill(k, Filler(neg)))
  {
  }

  // ---------------------------------------------------------------------
  // operator>>=

  /** The byte move of `>>=`: every byte moves `fb` places towards the end
      of the window; the places it leaves at the front get the filler. */
  function ShrBytes(w: seq<Byte>, fb: nat, f: Byte): (r: seq<Byte>)
    ensures |r| == |w|
  {
    if fb >= |w| then Fill(|w|, f) else Fill(fb, f) + w[..|w| - fb]
  }

  lemma ShrBytesAt(w: seq<Byte>, fb: nat, f: Byte, k: nat)
    requires k < |w|
    ensures ShrBytes(w, fb, f)[k] == if k < fb then f else w[k - fb]
  {
  }

  /** Moving by whole bytes divides the value by 256^fb, rounding down. */
  lemma ShrBytesValue(neg: bool, w: seq<Byte>, fb: nat)
    ensures Val(neg, ShrBytes(w, fb, Filler(neg))) == Val(neg, w) / Pow256(fb)
  {
    var n, f := |w|, Filler(neg);
    if fb >= n {
      FillIsFiller(neg, n);
      BEAllFiller(neg, Fill(n, f));
      ValSign(neg, w);
      Pow256Monotone(n, fb);
      SmallQuotient(Val(neg, w), Pow256(fb));
    } else {
      var hi, lo := w[..n - fb], w[n - fb..];
      assert w == hi + lo;
      FillIsFiller(neg, fb);
      ValFillPrefix(neg, Fill(fb, f), hi);
      ValSplit(neg, hi, lo);
      DivPlus(Val(neg, hi), Pow256(fb), BE(lo));
    }
  }

  /** A value of magnitude at most `d` divided by `d`: -1 or 0. */
  lemma SmallQuotient(v: int, d: int)
    requires d >= 1 && -d <= v < d
    ensures v / d == if v < 0 then -1 else 0
  {
    if v < 0 {
      DivPlus(-1, d, v + d);
    } else {
      DivPlus(0, d, v);
    }
  }

  /** The value of a window split into a high part and a low part. */
  lemma ValSplit(neg: bool, hi: seq<Byte>, lo: seq<Byte>)
    ensures Val(neg, hi + lo) == Val(neg, hi) * Pow256(|lo|) + BE(lo)
  {
    BEAppend(hi, lo);
    PowConcat(hi, lo);
    SplitArith(neg, Val(neg, hi + lo), Val(neg, hi), BE(hi), BE(lo),
               Pow256(|hi|), Pow256(|lo|), BE(hi + lo), Pow256(|hi + lo|));
  }

  lemma PowConcat(hi: seq<Byte>, lo: seq<Byte>)
    ensures Pow256(|hi + lo|) == Pow256(|hi|) * Pow256(|lo|)
  {
    Pow256Add(|hi|, |lo|);
  }

  lemma SplitArith(neg: bool, v: int, vh: int, bh: int, bl: int, mh: int, ml: int, x: int, m: int)
    requires v == x - (if neg then m else 0)
    requires vh == bh - (if neg then mh else 0)
    requires x == bh * ml + bl
    requires m == mh * ml
    ensures v == vh * ml + bl
  {
    if neg {
      SubMul(bh, mh, ml);
    }
  }

  lemma SubMul(a: int, b: int, d: int)
    ensures a * d - b * d == (a - b) * d
  {
  }

  /** The byte before byte `k` in the bit loop of `>>=`: the filler for the
      first byte. */
  function Prev(w: seq<Byte>, f: Byte, k: nat): Byte
    requires k <= |w|
  {
    if k == 0 then f else w[k - 1]
  }

  /** Byte `k` after the bit loop of `>>=`: its own bits moved down by `lb`
      places, under the low `lb` bits of the byte before it. */
  function ShrByte(w: seq<Byte>, lb: nat, f: Byte, k: nat): Byte
    requires lb < 8 && k < |w|
  {
    ShrByteBound(w[k], Prev(w, f, k), lb);
    w[k] / Pow2(lb) + (Prev(w, f, k) % Pow2(lb)) * Pow2(8 - lb)
  }

  lemma ShrByteBound(x: Byte, y: Byte, lb: nat)
    requires lb < 8
    ensures 0 <= x / Pow2(lb) + (y % Pow2(lb)) * Pow2(8 - lb) < 256
  {
    PowSplit(lb);
    ShrByteArith(x, y % Pow2(lb), Pow2(lb), Pow2(8 - lb));
  }

  /** The high bits of one byte moved down, under the low bits of another,
      still make a byte. */
  lemma ShrByteArith(x: int, yl: int, p: int, q: int)
    requires p >= 1 && q >= 1 && p * q == 256 && 0 <= x < 256 && 0 <= yl < p
    ensures 0 <= x / p + yl * q < 256
  {
    QuotientBelow(x, p, q);
    MulLe(0, yl, q);
    MulLe(yl, p - 1, q);
    assert (p - 1) * q == p * q - q;
  }

  /** A byte divided by `p` is below `256 / p`. */
  lemma QuotientBelow(x: int, p: int, q: int)
    requires p >= 1 && q >= 1 && p * q == 256 && 0 <= x < 256
    ensures 0 <= x / p < q
  {
    var d := x / p;
    assert d * p <= x;
    if d >= q {
      MulLe(q, d, p);
    }
  }

  /** The bytes the bit loop of `>>=` leaves from index `k` on. */
  function ShrFrom(w: seq<Byte>, lb: nat, f: Byte, k: nat): (r: seq<Byte>)
    requires lb < 8 && k <= |w|
    ensures |r| == |w| - k
    decreases |w| - k
  {
    if k == |w| then [] else [ShrByte(w, lb, f, k)] + ShrFrom(w, lb, f, k + 1)
  }

  /** The window after the bit loop of `>>=`, with `f` the filler. */
  function ShrBits(w: seq<Byte>, lb: nat, f: Byte): (r: seq<Byte>)
    requires lb < 8
    ensures |r| == |w|
  {
    ShrFrom(w, lb, f, 0)
  }

  lemma {:induction false} ShrFromAt(w: seq<Byte>, lb: nat, f: Byte, k: nat, j: nat)
    requires lb < 8 && k <= j < |w|
    ensures ShrFrom(w, lb, f, k)[j - k] == ShrByte(w, lb, f, j)
    decreases j - k
  {
    if k < j {
      ShrFromAt(w, lb, f, k + 1, j);
    }
  }

  /** The suffix from `k` on reads as the suffix of the input, with the low
      bits of the byte before it on top, divided by 2^lb. */
  lemma {:induction false} ShrSuffixBE(w: seq<Byte>, lb: nat, f: Byte, k: nat)
    requires lb < 8 && k <= |w|
    ensures BE(ShrFrom(w, lb, f, k))
            == ((Prev(w, f, k) % Pow2(lb)) * Pow256(|w| - k) + BE(w[k..])) / Pow2(lb)
    decreases |w| - k
  {
    var p := Pow2(lb);
    if k == |w| {
      DivPlus(0, p, Prev(w, f, k) % p);
    } else {
      ShrSuffixBE(w, lb, f, k + 1);
      var m := |w| - k - 1;
      var rest := ShrFrom(w, lb, f, k + 1);
      BEPrepend(ShrByte(w, lb, f, k), rest);
      assert w[k..] == [w[k]] + w[k + 1..];
      BEPrepend(w[k], w[k + 1..]);
      assert Prev(w, f, k + 1) == w[k];
      ShrStep(w[k], Prev(w, f, k), lb, Pow256(m), BE(w[k + 1..]));
    }
  }

  lemma ShrStep(x: Byte, y: Byte, lb: nat, mp: nat, b: nat)
    requires lb < 8
    ensures (x / Pow2(lb) + (y % Pow2(lb)) * Pow2(8 - lb)) * mp
            + ((x % Pow2(lb)) * mp + b) / Pow2(lb)
            == ((y % Pow2(lb)) * (256 * mp) + (x * mp + b)) / Pow2(lb)
  {
    PowSplit(lb);
    ShrStepArith(x, y, Pow2(lb), Pow2(8 - lb), mp, b);
  }

  lemma ShrStepArith(x: int, y: int, p: int, q: int, mp: int, b: int)
    requires p >= 1 && q >= 1 && p * q == 256 && x >= 0 && y >= 0
    ensures (x / p + (y % p) * q) * mp + ((x % p) * mp + b) / p
            == ((y % p) * (256 * mp) + (x * mp + b)) / p
  {
    var hi, lo, yl := x / p, x % p, y % p;
    var a := hi * mp + yl * q * mp;
    assert x * mp == hi * mp * p + lo * mp by {
      assert x == hi * p + lo;
      Distribute(hi * p, lo, mp);
    }
    assert yl * (256 * mp) == yl * q * mp * p;
    assert yl * (256 * mp) + (x * mp + b) == a * p + (lo * mp + b) by {
      Distribute(hi * mp, yl * q * mp, p);
    }
    DivAdd(a, p, lo * mp + b);
    Distribute(hi, yl * q, mp);
  }

  lemma Distribute(a: int, b: int, c: int)
    ensures (a + b) * c == a * c + b * c
  {
  }

  /** Moving by the remaining bits divides the value by 2^lb, rounding down:
      the filler's low bits are the bits that enter at the top. */
  lemma ShrBitsValue(neg: bool, w: seq<Byte>, lb: nat)
    requires lb < 8
    ensures Val(neg, ShrBits(w, lb, Filler(neg))) == Val(neg, w) / Pow2(lb)
  {
    var f := Filler(neg);
    var moved := ShrBits(w, lb, f);
    ShrSuffixBE(w, lb, f, 0);
    assert w[0..] == w;
    FillerLowBits(neg, lb);
    ShrBitsArith(neg, f % Pow2(lb), Pow2(lb), Pow256(|w|), BE(w), BE(moved));
  }

  lemma ShrBitsArith(neg: bool, fp: int, p: int, m: int, b: int, bm: int)
    requires p >= 1 && fp == (if neg then p - 1 else 0)
    requires bm == (fp * m + b) / p
    ensures bm - (if neg then m else 0) == (b - (if neg then m else 0)) / p
  {
    if neg {
      TopBitsIn(p, m, b);
    } else {
      assert fp * m == 0;
    }
  }

  /** All-ones low bits entering at the top of a negative window. */
  lemma TopBitsIn(p: int, m: int, b: int)
    requires p >= 1
    ensures ((p - 1) * m + b) / p - m == (b - m) / p
  {
    assert (p - 1) * m + b == m * p + (b - m);
    DivAdd(m, p, b - m);
  }

  /** The whole of `>>=` before `normalize`: division by 2^shift, rounding
      down. */
  lemma ShiftRightValue(neg: bool, w: seq<Byte>, shift: nat)
    ensures Val(neg, ShrBits(ShrBytes(w, shift / 8, Filler(neg)), shift % 8, Filler(neg)))
            == Val(neg, w) / Pow2(shift)
  {
    var fb, lb := shift / 8, shift % 8;
    var v, moved := Val(neg, w), ShrBytes(w, fb, Filler(neg));
    ShrBytesValue(neg, w, fb);
    ShrBitsValue(neg, moved, lb);
    ShiftSplit(shift);
    DivDiv(v, Pow256(fb), Pow2(lb));
  }

  /** The whole of `>>=` before `normalize` keeps the zero rule, and a
      negative window that did not read as zero still does not: the
      quotient of a negative value lies between the value and zero. */
  lemma ShiftRightFacts(neg: bool, w: seq<Byte>, shift: nat)
    requires |w| >= 1 && ZeroRule(neg, w)
    ensures var r := ShrBits(ShrBytes(w, shift / 8, Filler(neg)), shift % 8, Filler(neg));
      Val(neg, r) == Val(neg, w) / Pow2(shift) && ZeroRule(neg, r)
      && (Unpadded(w) ==> (neg ==> BE(r) != 0))
  {
    var r := ShrBits(ShrBytes(w, shift / 8, Filler(neg)), shift % 8, Filler(neg));
    ShiftRightValue(neg, w, shift);
    ValSign(neg, w);
    if neg {
      NegativeQuotient(Val(neg, w), Pow2(shift));
      assert BE(w) != 0 ==> BE(r) != 0;
      if |w| == 1 {
        NegativeReadsNonZero(neg, w);
        ZeroRuleOfReading(neg, r);
      }
    }
  }

  /** Dividing a negative value by a positive one, rounding down, gives a
      value between it and zero. */
  lemma NegativeQuotient(v: int, d: int)
    requires v < 0 && d >= 1
    ensures v <= v / d < 0
  {
    var q, r := v / d, v % d;
    assert v == q * d + r;
    if q >= 0 {
      MulLe(0, q, d);
    }
    if q < v {
      MulLe(q, v - 1, d);
      MulSubOne(v, d);
      MulLe(v, 0, d - 1);
      MulSubOne(d, v);
    }
  }

  /** 2^shift is 256^(shift / 8) * 2^(shift % 8). */
  lemma ShiftSplit(shift: nat)
    ensures Pow2(shift) == Pow256(shift / 8) * Pow2(shift % 8)
  {
    Pow256IsPow2(shift / 8);
    Pow2Add(8 * (shift / 8), shift % 8);
  }

  /** The byte loop of `>>=` on the window `a[start..]`, from the last byte
      to the first. */
  method ShiftBytesRight(a: array<Byte>, start: int, fb: nat, f: Byte)
    requires 0 <= start <= a.Length
    modifies a
    ensures a[start..] == ShrBytes(old(a[start..]), fb, f)
    ensures a[..start] == old(a[..start])
  {
    ghost var w := a[start..];
    var i := a.Length - 1;
    while i >= start
      invariant start - 1 <= i < a.Length
      invariant forall k :: 0 <= k <= i ==> a[k] == old(a[k])
      invariant forall k :: i < k < a.Length ==> a[k] == if k - start < fb then f else old(a[k - fb])
    {
      if i - fb < start {
        a[i] := f;
      } else {
        a[i] := a[i - fb];
      }
      i := i - 1;
    }
    forall k | start <= k < a.Length
      ensures a[k] == ShrBytes(w, fb, f)[k - start]
    {
      ShrBytesAt(w, fb, f, k - start);
    }
  }

  /** The mask loop of both shifts: `left_bits` ones in the low bits. */
  method RemainderMask(leftBits: nat) returns (mask: Byte)
    requires leftBits < 8
    ensures mask == Pow2(leftBits) - 1
  {
    mask := 0;
    var i := 0;
    Pow2Small();
    while i < leftBits
      invariant 0 <= i <= leftBits
      invariant mask == Pow2(i) - 1
    {
      mask := mask * 2 + 1;
      i := i + 1;
    }
  }

  /** The bit loop of `>>=` on the window `a[start..]`, from the first byte
      to the last: each byte keeps its high bits moved down and takes the
      low bits of the byte before it (of the filler `f` for the first). */
  method ShiftBitsRight(a: array<Byte>, start: int, leftBits: nat, f: Byte)
    requires 0 <= start <= a.Length && leftBits < 8
    modifies a
    ensures a[start..] == ShrBits(old(a[start..]), leftBits, f)
    ensures a[..start] == old(a[..start])
  {
    ghost var w := a[start..];
    CarryBitsRight(a, start, leftBits, f, w);
    forall k | start <= k < a.Length
      ensures a[k] == ShrBits(w, leftBits, f)[k - start]
    {
      ShrFromAt(w, leftBits, f, 0, k - start);
    }
  }

  /** The loop of `ShiftBitsRight`, byte by byte. */
  method CarryBitsRight(a: array<Byte>, start: int, leftBits: nat, f: Byte, ghost w: seq<Byte>)
    requires 0 <= start <= a.Length && leftBits < 8 && w == a[start..]
    modifies a
    ensures forall k :: 0 <= k < start ==> a[k] == old(a[k])
    ensures forall k :: start <= k < a.Length ==> a[k] == ShrByte(w, leftBits, f, k - start)
  {
    var mask := RemainderMask(leftBits);
    var low: nat, high: nat := mask as int + 1, Pow2(8 - leftBits);
    var remainder := f % low;
    var i := start;
    while i < a.Length
      invariant start <= i <= a.Length
      invariant forall k :: 0 <= k < start || i <= k < a.Length ==> a[k] == old(a[k])
      invariant forall k :: start <= k < i ==> a[k] == ShrByte(w, leftBits, f, k - start)
      invariant remainder == Prev(w, f, i - start) % low
    {
      var nextRemainder := a[i] % low;
      PowSplit(leftBits);
      ShrByteArith(a[i], remainder, low, high);
      a[i] := a[i] / low + remainder * high;
      remainder := nextRemainder;
      i := i + 1;
    }
  }
}

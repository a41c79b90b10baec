/** `operator<<=` on a window: how far the window grows (decided by the
    first significant bit), the move by whole bytes towards the front with
    zero bytes entering at the back, and the move by the remaining bits that
    carries the top bits of each byte into the byte before it. */
module LeftShifting {
  import opened TwosComplement
  import opened Bits
  import opened NormalForm
  import opened Shifting
  import opened Addition

  // ---------------------------------------------------------------------
  // The byte loop

  /** The window after the byte loop of `<<=`: every byte moves `fb` places
      towards the front and zero bytes enter at the back. */
  function ShlBytes(w: seq<Byte>, fb: nat): (r: seq<Byte>)
    ensures |r| == |w|
  {
    if fb >= |w| then Fill(|w|, 0) else w[fb..] + Fill(fb, 0)
  }

  lemma ShlBytesAt(w: seq<Byte>, fb: nat, k: nat)
    requires k < |w|
    ensures ShlBytes(w, fb)[k] == if k + fb < |w| then w[k + fb] else 0
  {
  }

  /** Moving by whole bytes multiplies the reading by 256^fb, less the
      bytes pushed out at the front: a multiple `h` of 256^|w|. */
  lemma ShlBytesBE(w: seq<Byte>, fb: nat) returns (h: int)
    ensures BE(ShlBytes(w, fb)) == BE(w) * Pow256(fb) - h * Pow256(|w|)
  {
    var n := |w|;
    FillIsFiller(false, if fb >= n then n else fb);
    if fb >= n {
      BEAllFiller(false, Fill(n, 0));
      Pow256Add(fb - n, n);
      h := BE(w) * Pow256(fb - n);
      MulAssoc(BE(w), Pow256(fb - n), Pow256(n));
    } else {
      var hi, lo := w[..fb], w[fb..];
      assert w == hi + lo;
      BEAppend(hi, lo);
      BEAppend(lo, Fill(fb, 0));
      BEAllFiller(false, Fill(fb, 0));
      PowConcat(lo, Fill(fb, 0));
      h := BE(hi);
      ShlSplitArith(BE(w), BE(hi), BE(lo), Pow256(n - fb), Pow256(fb), Pow256(n));
    }
  }

  lemma MulAssoc(a: int, b: int, c: int)
    ensures a * (b * c) == (a * b) * c
  {
  }

  lemma ShlSplitArith(bw: int, bh: int, bl: int, a: int, b: int, m: int)
    requires bw == bh * a + bl && m == a * b
    ensures bw * b == bl * b + bh * m
  {
    Distribute(bh * a, bl, b);
    MulAssoc(bh, a, b);
  }

  /** The byte loop of `<<=` on the window `a[start..]`, from the first byte
      to the last: each byte is read before it is overwritten. */
  method ShiftBytesLeft(a: array<Byte>, start: int, fb: nat)
    requires 0 <= start <= a.Length
    modifies a
    ensures a[start..] == ShlBytes(old(a[start..]), fb)
    ensures a[..start] == old(a[..start])
  {
    ghost var w := a[start..];
    var i := start;
    while i < a.Length
      invariant start <= i <= a.Length
      invariant forall k :: 0 <= k < start || i <= k < a.Length ==> a[k] == old(a[k])
      invariant forall k :: start <= k < i ==> a[k] == if k + fb < a.Length then old(a[k + fb]) else 0
    {
      if i + fb >= a.Length {
        a[i] := MIN_BYTE;
      } else {
        a[i] := a[i + fb];
      }
      i := i + 1;
    }
    forall k | start <= k < a.Length
      ensures a[k] == ShlBytes(w, fb)[k - start]
    {
      ShlBytesAt(w, fb, k - start);
    }
  }

  // ---------------------------------------------------------------------
  // The bit loop

  /** What byte `k` hands to the byte before it: its top `lb` bits, moved
      to the bottom (nothing past the last byte). */
  function CarryOut(u: seq<Byte>, lb: nat, k: nat): (c: nat)
    requires lb < 8 && k <= |u|
    ensures c < Pow2(lb)
  {
    if k == |u| then 0
    else
      PowSplit(lb);
      ShlByteArith(u[k], 0, Pow2(lb), Pow2(8 - lb));
      u[k] / Pow2(8 - lb)
  }

  /** Byte `k` after the bit loop: its low bits moved up (the high ones fall
      off the byte), under the carry from the byte after it. */
  function ShlByte(u: seq<Byte>, lb: nat, k: nat): Byte
    requires lb < 8 && k < |u|
  {
    PowSplit(lb);
    ShlByteArith(u[k], CarryOut(u, lb, k + 1), Pow2(lb), Pow2(8 - lb));
    (u[k] * Pow2(lb)) % 256 + CarryOut(u, lb, k + 1)
  }

  /** A byte shifted up by `p` = 2^lb, cut to eight bits, keeps its low
      bits; what falls off is its top bits; and a carry below `p` fits
      under it. */
  lemma ShlByteArith(x: int, c: int, p: int, q: int)
    requires p >= 1 && q >= 1 && p * q == 256 && 0 <= x < 256 && 0 <= c < p
    ensures (x * p) % 256 == (x % q) * p
    ensures (x * p) / 256 == x / q
    ensures x / q < p
    ensures 0 <= (x * p) % 256 + c < 256
  {
    var hi, lo := x / q, x % q;
    MulLe(lo, q - 1, p);
    assert (q - 1) * p == 256 - p;
    assert x * p == hi * 256 + lo * p by {
      assert x == hi * q + lo;
      Distribute(hi * q, lo, p);
      MulAssoc(hi, q, p);
    }
    DivPlus(hi, 256, lo * p);
    if hi >= p {
      MulLe(p, hi, q);
    }
  }

  /** The bytes the bit loop of `<<=` leaves from index `k` on. */
  function ShlFrom(u: seq<Byte>, lb: nat, k: nat): (r: seq<Byte>)
    requires lb < 8 && k <= |u|
    ensures |r| == |u| - k
    decreases |u| - k
  {
    if k == |u| then [] else [ShlByte(u, lb, k)] + ShlFrom(u, lb, k + 1)
  }

  /** The window after the bit loop of `<<=`. */
  function ShlBits(u: seq<Byte>, lb: nat): (r: seq<Byte>)
    requires lb < 8
    ensures |r| == |u|
  {
    ShlFrom(u, lb, 0)
  }

  lemma {:induction false} ShlFromAt(u: seq<Byte>, lb: nat, k: nat, j: nat)
    requires lb < 8 && k <= j < |u|
    ensures ShlFrom(u, lb, k)[j - k] == ShlByte(u, lb, j)
    decreases j - k
  {
    if k < j {
      ShlFromAt(u, lb, k + 1, j);
    }
  }

  /** The suffix from `k` on, with the carry out of byte `k` on top, reads
      as the suffix of the input times 2^lb. */
  lemma {:induction false} ShlSuffixBE(u: seq<Byte>, lb: nat, k: nat)
    requires lb < 8 && k <= |u|
    ensures BE(ShlFrom(u, lb, k)) + CarryOut(u, lb, k) * Pow256(|u| - k)
            == BE(u[k..]) * Pow2(lb)
    decreases |u| - k
  {
    if k < |u| {
      ShlSuffixBE(u, lb, k + 1);
      var rest := ShlFrom(u, lb, k + 1);
      BEPrepend(ShlByte(u, lb, k), rest);
      assert u[k..] == [u[k]] + u[k + 1..];
      BEPrepend(u[k], u[k + 1..]);
      PowSplit(lb);
      ShlByteArith(u[k], CarryOut(u, lb, k + 1), Pow2(lb), Pow2(8 - lb));
      ShlStepArith(u[k], Pow2(lb), Pow2(8 - lb), Pow256(|u| - k - 1),
                   CarryOut(u, lb, k + 1), BE(u[k + 1..]), BE(rest));
    }
  }

  lemma ShlStepArith(x: int, p: int, q: int, mp: int, t: int, b: int, r: int)
    requires p >= 1 && q >= 1 && p * q == 256 && 0 <= x < 256
    requires (x * p) % 256 == (x % q) * p
    requires r + t * mp == b * p
    ensures ((x * p) % 256 + t) * mp + r + (x / q) * (256 * mp) == (x * mp + b) * p
  {
    var hi, lo := x / q, x % q;
    assert x == hi * q + lo;
    calc {
      (x * mp + b) * p;
      x * mp * p + b * p;
      { Distribute(hi * q, lo, mp * p); MulAssoc(hi, q, mp * p); }
      hi * (q * (mp * p)) + lo * (mp * p) + b * p;
      { assert q * (mp * p) == 256 * mp; }
      hi * (256 * mp) + lo * p * mp + r + t * mp;
      { Distribute(lo * p, t, mp); }
      (lo * p + t) * mp + r + hi * (256 * mp);
    }
  }

  /** The bit loop multiplies the reading by 2^lb, less what leaves the
      first byte, worth 256^|u| per unit. */
  lemma ShlBitsBE(u: seq<Byte>, lb: nat)
    requires lb < 8
    ensures BE(ShlBits(u, lb)) + CarryOut(u, lb, 0) * Pow256(|u|) == BE(u) * Pow2(lb)
  {
    ShlSuffixBE(u, lb, 0);
    assert u[0..] == u;
  }

  /** The bit loop of `<<=` on the window `a[start..]`, from the last byte
      to the first: each byte moves its bits up by `leftBits` and takes the
      top bits of the byte after it, kept in `remainder` as the source keeps
      them (still in place, `x & mask` with the mask on the top bits). */
  method ShiftBitsLeft(a: array<Byte>, start: int, leftBits: nat)
    requires 0 <= start <= a.Length && leftBits < 8
    modifies a
    ensures a[start..] == ShlBits(old(a[start..]), leftBits)
    ensures a[..start] == old(a[..start])
  {
    ghost var w := a[start..];
    CarryBitsLeft(a, start, leftBits, w);
    forall k | start <= k < a.Length
      ensures a[k] == ShlBits(w, leftBits)[k - start]
    {
      ShlFromAt(w, leftBits, 0, k - start);
    }
  }

  /** The loop of `ShiftBitsLeft`, byte by byte from the last. */
  method CarryBitsLeft(a: array<Byte>, start: int, leftBits: nat, ghost w: seq<Byte>)
    requires 0 <= start <= a.Length && leftBits < 8 && w == a[start..]
    modifies a
    ensures forall k :: 0 <= k < start ==> a[k] == old(a[k])
    ensures forall k :: start <= k < a.Length ==> a[k] == ShlByte(w, leftBits, k - start)
  {
    var mask := RemainderMask(leftBits);
    var low: nat, high: nat := mask as int + 1, Pow2(8 - leftBits);
    PowSplit(leftBits);
    var remainder := 0;
    var i := a.Length - 1;
    while i >= start
      invariant start - 1 <= i < a.Length
      invariant forall k :: 0 <= k <= i ==> a[k] == old(a[k])
      invariant forall k :: i < k < a.Length ==> a[k] == ShlByte(w, leftBits, k - start)
      invariant remainder == CarryOut(w, leftBits, i - start + 1) * high
    {
      ShlLoopStep(w, leftBits, i - start, low, high, remainder);
      var nextRemainder := a[i] / high * high;
      a[i] := (a[i] * low) % 256 + remainder / high;
      remainder := nextRemainder;
      i := i - 1;
    }
  }

  /** One step of the bit loop of `<<=` at byte `j`, with the top bits of
      byte `j + 1` kept in place in `remainder`. */
  lemma ShlLoopStep(w: seq<Byte>, lb: nat, j: nat, p: nat, q: nat, remainder: int)
    requires lb < 8 && j < |w| && p == Pow2(lb) && q == Pow2(8 - lb)
    requires remainder == CarryOut(w, lb, j + 1) * q
    ensures 0 <= (w[j] * p) % 256 + remainder / q < 256
    ensures (w[j] * p) % 256 + remainder / q == ShlByte(w, lb, j)
    ensures w[j] / q * q == CarryOut(w, lb, j) * q
  {
    PowSplit(lb);
    DivPlus(CarryOut(w, lb, j + 1), q, 0);
    ShlByteArith(w[j], CarryOut(w, lb, j + 1), p, q);
  }

  // ---------------------------------------------------------------------
  // The value of the whole shift

  /** Both loops together multiply the reading by 2^shift, less a multiple
      `h` of 256^|w| (what is pushed out at the front). */
  lemma ShiftLeftBE(w: seq<Byte>, shift: nat) returns (h: int)
    ensures BE(ShlBits(ShlBytes(w, shift / 8), shift % 8)) == BE(w) * Pow2(shift) - h * Pow256(|w|)
  {
    var fb, lb := shift / 8, shift % 8;
    var u := ShlBytes(w, fb);
    var h1 := ShlBytesBE(w, fb);
    ShlBitsBE(u, lb);
    ShiftSplit(shift);
    var t := CarryOut(u, lb, 0);
    h := h1 * Pow2(lb) + t;
    ShlCombineArith(BE(ShlBits(u, lb)), BE(u), BE(w), h1, t, Pow256(fb), Pow2(lb), Pow256(|w|), Pow2(shift));
  }

  lemma ShlCombineArith(r: int, bu: int, bw: int, h1: int, t: int, a: int, p: int, m: int, e: int)
    requires bu == bw * a - h1 * m
    requires r + t * m == bu * p
    requires e == a * p
    ensures r == bw * e - (h1 * p + t) * m
  {
    calc {
      r;
      bu * p - t * m;
      { SubMul(bw * a, h1 * m, p); }
      (bw * a) * p - (h1 * m) * p - t * m;
      { MulAssoc(bw, a, p); MulAssoc(h1, m, p); MulAssoc(h1, p, m); }
      bw * e - (h1 * p) * m - t * m;
      { Distribute(h1 * p, t, m); }
      bw * e - (h1 * p + t) * m;
    }
  }

  /** When the product fits the window, the shift is exact: the value of
      the shifted window under the same sign is the value times 2^shift. */
  lemma ShiftLeftValue(neg: bool, w: seq<Byte>, shift: nat)
    requires -(Pow256(|w|) as int) <= Val(neg, w) * Pow2(shift) < Pow256(|w|)
    ensures Val(neg, ShlBits(ShlBytes(w, shift / 8), shift % 8)) == Val(neg, w) * Pow2(shift)
  {
    var r := ShlBits(ShlBytes(w, shift / 8), shift % 8);
    var h := ShiftLeftBE(w, shift);
    ValSign(neg, r);
    ValSign(neg, w);
    ShlValueArith(neg, Val(neg, r), BE(r), Val(neg, w), BE(w), h, Pow2(shift), Pow256(|w|));
  }

  lemma ShlValueArith(neg: bool, vr: int, br: int, vw: int, bw: int, h: int, e: int, m: int)
    requires e >= 1 && m >= 1
    requires vr == br - (if neg then m else 0) && vw == bw - (if neg then m else 0)
    requires br == bw * e - h * m
    requires vr < 0 <==> neg
    requires vw < 0 <==> neg
    requires -m <= vr < m && -m <= vw * e < m
    ensures vr == vw * e
  {
    var k := (if neg then e - 1 else 0) - h;
    assert vr - vw * e == k * m by {
      if neg {
        SubMul(bw, m, e);
        MulSubOne(e, m);
        Distribute(e - 1, -h, m);
      } else {
        Distribute(0, -h, m);
      }
    }
    if neg {
      MulLe(vw, -1, e);
    } else {
      MulLe(0, vw, e);
    }
    if k >= 1 {
      MulLe(1, k, m);
    } else if k <= -1 {
      MulLe(k, -1, m);
    }
  }

  // ---------------------------------------------------------------------
  // How far `<<=` grows the window

  /** The bits before the first significant bit bound the value: with `p`
      leading sign bits, -2^(8|w|-p) <= value < 2^(8|w|-p). */
  lemma FirstBitBound(neg: bool, w: seq<Byte>)
    requires |w| >= 1
    ensures var e := 8 * |w| - FirstBitFrom(w, SignificantBit(neg), 0);
      -(Pow2(e) as int) <= Val(neg, w) < Pow2(e)
  {
    var n := |w|;
    var p := FirstBitFrom(w, SignificantBit(neg), 0);
    FirstBitFromSpec(w, SignificantBit(neg), 0);
    LeadingFiller(neg, w, p);
    if p == 8 * n {
      assert w[..p / 8] == w;
      AllFillerValue(neg, w);
      assert Pow2(8 * n - p) == 1;
    } else {
      FirstByteBound(neg, w, p);
    }
  }

  /** The bound when the first significant bit `p` lies in byte p / 8. */
  lemma FirstByteBound(neg: bool, w: seq<Byte>, p: nat)
    requires p < 8 * |w| && AllFiller(neg, w[..p / 8])
    requires forall i :: 0 <= i < p ==> BitAt(w, i) != SignificantBit(neg)
    ensures -(Pow2(8 * |w| - p) as int) <= Val(neg, w) < Pow2(8 * |w| - p)
  {
    var c, j := p / 8, p % 8;
    var m := |w| - c - 1;
    FirstByteBits(neg, w, p);
    LeadingBitsBound(w[c], j, if neg then 1 else 0);
    FirstByteValue(neg, w, c);
    ExponentSplit(8 * |w| - p, j, m);
    FirstByteArith(neg, w[c], BE(w[c + 1..]), Pow2(8 - j), Pow256(m), Val(neg, w));
  }

  /** A window of filler bytes only is 0 or -1. */
  lemma AllFillerValue(neg: bool, w: seq<Byte>)
    requires AllFiller(neg, w)
    ensures Val(neg, w) == if neg then -1 else 0
  {
    BEAllFiller(neg, w);
  }

  /** The bits of the byte holding bit `p` that come before `p` are sign
      bits. */
  lemma FirstByteBits(neg: bool, w: seq<Byte>, p: nat)
    requires p < 8 * |w|
    requires forall i :: 0 <= i < p ==> BitAt(w, i) != SignificantBit(neg)
    ensures forall i :: 0 <= i < p % 8 ==> Bit(w[p / 8], i) == if neg then 1 else 0
  {
    var c := p / 8;
    forall i | 0 <= i < p % 8
      ensures Bit(w[c], i) == if neg then 1 else 0
    {
      assert (8 * c + i) / 8 == c && (8 * c + i) % 8 == i;
      assert BitAt(w, 8 * c + i) == Bit(w[c], i);
    }
  }

  /** After leading filler bytes, the value is byte `c` and the bytes after
      it, read under the sign. */
  lemma FirstByteValue(neg: bool, w: seq<Byte>, c: nat)
    requires c < |w| && AllFiller(neg, w[..c])
    ensures Val(neg, w) == w[c] * Pow256(|w| - c - 1) + BE(w[c + 1..])
            - (if neg then 256 * Pow256(|w| - c - 1) else 0)
  {
    var x, rest := w[c], w[c + 1..];
    ValFillPrefixAt(neg, w, c);
    assert w[c..] == [x] + rest;
    BEPrepend(x, rest);
    assert |rest| == |w| - c - 1 && |[x] + rest| == |rest| + 1;
    assert Pow256(|rest| + 1) == 256 * Pow256(|rest|);
    SignedRead(neg, Val(neg, [x] + rest), BE([x] + rest), x * Pow256(|rest|) + BE(rest),
               Pow256(|rest| + 1), 256 * Pow256(|rest|));
  }

  lemma SignedRead(neg: bool, v: int, b: int, b2: int, m: int, m2: int)
    requires v == b - (if neg then m else 0) && b == b2 && m == m2
    ensures v == b2 - (if neg then m2 else 0)
  {
  }

  lemma ExponentSplit(e: nat, j: nat, m: nat)
    requires j < 8 && e == (8 - j) + 8 * m
    ensures Pow2(e) == Pow2(8 - j) * Pow256(m)
  {
    Pow256IsPow2(m);
    Pow2Add(8 - j, 8 * m);
  }

  lemma FirstByteArith(neg: bool, x: int, b: int, q: int, m: int, v: int)
    requires 0 <= b < m && q >= 1 && 0 <= x
    requires v == x * m + b - (if neg then 256 * m else 0)
    requires !neg ==> x < q
    requires neg ==> x >= 256 - q && x < 256
    ensures -(q * m) <= v < q * m
  {
    if neg {
      MulLe(256 - q, x, m);
      MulLe(x, 255, m);
      SubMul(256, q, m);
    } else {
      MulLe(x + 1, q, m);
      Distribute(x, 1, m);
      MulLe(0, x, m);
    }
  }

  /** How many bytes `<<=` adds at the front, given the first significant
      bit `fsb`: none while the new greatest bit stays in the window,
      otherwise enough whole bytes for the bits that would leave it. */
  function Growth(fsb: int, shift: nat): (g: nat)
    ensures fsb - shift >= 0 ==> g == 0
    ensures fsb - shift < 0 ==> 8 * g >= shift - fsb
  {
    var newGreatestBit := fsb - shift;
    if newGreatestBit < 0 then (-newGreatestBit - 1) / 8 + 1 else 0
  }

  /** The grown window has room for every bit the shift moves: the
      exponent of the bound from the first significant bit, plus the
      shift, stays within the grown window, and strictly for a negative
      value (whose sign bit needs one more place). */
  lemma GrowthFits(neg: bool, w: seq<Byte>, shift: nat)
    requires |w| >= 1
    ensures var p := FirstBitFrom(w, SignificantBit(neg), 0);
      var n := |w| + Growth(FirstSigBit(neg, w), shift);
      8 * |w| - p + shift <= 8 * n && (neg ==> 8 * |w| - p + shift < 8 * n)
  {
  }

  /** The value after the window grows, times 2^shift, fits the grown
      window; a negative one is more than -256^n, so it never reads as the
      zero bytes. */
  lemma ShiftLeftFits(neg: bool, w: seq<Byte>, shift: nat, n: nat)
    requires |w| >= 1 && n == |w| + Growth(FirstSigBit(neg, w), shift)
    ensures -(Pow256(n) as int) <= Val(neg, w) * Pow2(shift) < Pow256(n)
    ensures neg ==> -(Pow256(n) as int) < Val(neg, w) * Pow2(shift)
  {
    var e := 8 * |w| - FirstBitFrom(w, SignificantBit(neg), 0);
    FirstBitBound(neg, w);
    GrowthFits(neg, w, shift);
    GrowthRoom(e, shift, n, neg);
    FitsArith(neg, Val(neg, w), Pow2(e), Pow2(shift), Pow256(n));
  }

  /** 2^e * 2^shift is at most 256^n when e + shift <= 8n, and less than
      half of it when e + shift < 8n. */
  lemma GrowthRoom(e: nat, shift: nat, n: nat, strict: bool)
    requires e + shift <= 8 * n && (strict ==> e + shift < 8 * n)
    ensures Pow2(e) * Pow2(shift) <= Pow256(n)
    ensures strict ==> 2 * (Pow2(e) * Pow2(shift)) <= Pow256(n)
  {
    Pow2Add(e, shift);
    Pow256IsPow2(n);
    Pow2Monotone(e + shift, 8 * n);
    if strict {
      Pow2Monotone(e + shift + 1, 8 * n);
    }
  }

  lemma FitsArith(neg: bool, v: int, a: int, s: int, m: int)
    requires -a <= v < a && s >= 1 && a * s <= m
    requires neg ==> 2 * (a * s) <= m
    ensures -m <= v * s < m
    ensures neg ==> -m < v * s
  {
    MulLe(v, a - 1, s);
    MulLe(-a, v, s);
    MulSubOne(a, s);
  }

  /** The whole of `<<=` before `normalize`, from the window `w` before it
      grows: the shifted grown window `r` holds the value times 2^shift
      exactly, and a negative `r` never reads as zero, so it keeps the zero
      rule. */
  lemma ShiftLeftFacts(neg: bool, w: seq<Byte>, shift: nat, grown: seq<Byte>)
    requires |w| >= 1
    requires grown == Extend(w, Filler(neg), |w| + Growth(FirstSigBit(neg, w), shift))
    ensures var r := ShlBits(ShlBytes(grown, shift / 8), shift % 8);
      Val(neg, r) == Val(neg, w) * Pow2(shift) && ZeroRule(neg, r) && (neg ==> BE(r) != 0)
  {
    var r := ShlBits(ShlBytes(grown, shift / 8), shift % 8);
    ShiftLeftFits(neg, w, shift, |grown|);
    ExtendValue(neg, w, |grown|);
    ShiftLeftValue(neg, grown, shift);
    ZeroRuleOfReading(neg, r);
  }

  lemma {:induction false} Pow2Monotone(a: nat, b: nat)
    requires a <= b
    ensures Pow2(a) <= Pow2(b)
    decreases b - a
  {
    if a < b {
      Pow2Monotone(a + 1, b);
    }
  }
}

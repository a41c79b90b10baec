/** `compare`: the three-way comparison of two values. Its scan visits the
    bytes of both windows from the first to the last and, in each byte, the
    bits from the most significant down; the first differing bit decides,
    and the result is that bit's mask in one operand minus its mask in the
    other. The source decides by the window lengths before it scans, and
    it reverses the result of the scan for negative operands; both are
    modelled as written in CompareAsWritten, beside the corrected
    CompareWindows that the rest of the model uses. */
module Comparison {
  import opened TwosComplement
  import opened Bits
  import opened NormalForm
  import opened Addition

  /** The sign of an integer, as -1, 0 or 1. */
  function Sign(z: int): (s: int)
    ensures s == -1 || s == 0 || s == 1
  {
    if z < 0 then -1 else if z > 0 then 1 else 0
  }

  // ---------------------------------------------------------------------
  // The inner loop: one byte, bit by bit

  /** The scan of the bits `k..7` of two bytes: at the first bit where they
      differ, the difference of the two masked bits. */
  function CompareBits(x: Byte, y: Byte, k: nat): int
    requires k <= 8
    decreases 8 - k
  {
    if k == 8 then 0
    else if Bit(x, k) != Bit(y, k) then (Bit(x, k) - Bit(y, k)) * Pow2(7 - k)
    else CompareBits(x, y, k + 1)
  }

  /** Bytes that agree on their first `j` bits differ by less than
      2^(8-j): eight equal bits make equal bytes. */
  lemma {:induction false} SameLeadingBits(x: Byte, y: Byte, j: nat)
    requires j <= 8
    requires forall i :: 0 <= i < j ==> Bit(x, i) == Bit(y, i)
    ensures -(Pow2(8 - j) as int) < x - y < Pow2(8 - j)
    decreases j
  {
    Pow2Small();
    if j > 0 {
      var x1: Byte, y1: Byte := (x % 128) * 2, (y % 128) * 2;
      forall i | 0 <= i < j - 1
        ensures Bit(x1, i) == Bit(y1, i)
      {
        assert Bit(x, i + 1) == Bit(x1, i) && Bit(y, i + 1) == Bit(y1, i);
      }
      SameLeadingBits(x1, y1, j - 1);
      assert Pow2(8 - (j - 1)) == 2 * Pow2(8 - j);
      assert Bit(x, 0) == x / 128 && Bit(y, 0) == y / 128;
      assert x == 128 * (x / 128) + x % 128 && y == 128 * (y / 128) + y % 128;
    }
  }

  /** The first bit where two bytes differ orders them: the byte with the
      0 there is the smaller. */
  lemma {:induction false} FirstDifferentBit(x: Byte, y: Byte, k: nat)
    requires k < 8
    requires forall i :: 0 <= i < k ==> Bit(x, i) == Bit(y, i)
    requires Bit(x, k) != Bit(y, k)
    ensures x < y <==> Bit(x, k) < Bit(y, k)
    decreases k
  {
    if k > 0 {
      var x1: Byte, y1: Byte := (x % 128) * 2, (y % 128) * 2;
      forall i | 0 <= i < k - 1
        ensures Bit(x1, i) == Bit(y1, i)
      {
        assert Bit(x, i + 1) == Bit(x1, i) && Bit(y, i + 1) == Bit(y1, i);
      }
      assert Bit(x, k) == Bit(x1, k - 1) && Bit(y, k) == Bit(y1, k - 1);
      FirstDifferentBit(x1, y1, k - 1);
      assert Bit(x, 0) == x / 128 && Bit(y, 0) == y / 128;
      assert x == 128 * (x / 128) + x % 128 && y == 128 * (y / 128) + y % 128;
    }
  }

  /** The bit scan of one byte has the sign of the difference of the two
      bytes, once the bits before `k` agree. */
  lemma {:induction false} CompareBitsSign(x: Byte, y: Byte, k: nat)
    requires k <= 8
    requires forall i :: 0 <= i < k ==> Bit(x, i) == Bit(y, i)
    ensures Sign(CompareBits(x, y, k)) == Sign(x - y)
    decreases 8 - k
  {
    if k == 8 {
      SameLeadingBits(x, y, 8);
      Pow2Small();
    } else if Bit(x, k) != Bit(y, k) {
      FirstDifferentBit(x, y, k);
    } else {
      CompareBitsSign(x, y, k + 1);
    }
  }

  // ---------------------------------------------------------------------
  // The outer loop: the windows, byte by byte

  /** The scan of bytes `i..` of two windows of the same length: the first
      byte whose bit scan is not zero gives the result. */
  function CompareBytes(wa: seq<Byte>, wb: seq<Byte>, i: nat): int
    requires |wa| == |wb| && i <= |wa|
    decreases |wa| - i
  {
    if i == |wa| then 0
    else
      var d := CompareBits(wa[i], wb[i], 0);
      if d != 0 then d else CompareBytes(wa, wb, i + 1)
  }

  /** The scan of two windows of the same length has the sign of the
      difference of their unsigned readings. */
  lemma {:induction false} CompareBytesSign(wa: seq<Byte>, wb: seq<Byte>, i: nat)
    requires |wa| == |wb| && i <= |wa|
    ensures Sign(CompareBytes(wa, wb, i)) == Sign(BE(wa[i..]) - BE(wb[i..]))
    decreases |wa| - i
  {
    if i < |wa| {
      CompareBitsSign(wa[i], wb[i], 0);
      var p := Pow256(|wa| - i - 1);
      SplitFirst(wa, i, p);
      SplitFirst(wb, i, p);
      if wa[i] == wb[i] {
        CompareBytesSign(wa, wb, i + 1);
      } else {
        LeadingByteDecides(wa[i], wb[i], BE(wa[i + 1..]), BE(wb[i + 1..]), p);
      }
    }
  }

  lemma LeadingByteDecides(x: int, y: int, r: int, s: int, p: int)
    requires x != y && 0 <= r < p && 0 <= s < p
    ensures Sign(x * p + r - (y * p + s)) == Sign(x - y)
  {
    if x < y {
      MulLe(x + 1, y, p);
    } else {
      MulLe(y + 1, x, p);
    }
  }

  // ---------------------------------------------------------------------
  // compare

  /** `compare` as the source writes it: operands of different signs are
      ordered by sign; operands of the same sign by window length first
      (the longer negative is taken as the smaller); equally long windows
      by the bit scan, whose result is reversed for negative operands. */
  function CompareAsWritten(negA: bool, wa: seq<Byte>, negB: bool, wb: seq<Byte>): (r: int)
    ensures negA != negB ==> Sign(r) == Sign(Val(negA, wa) - Val(negB, wb))
    ensures negA == negB && |wa| != |wb| ==> r != 0 && (r > 0 <==> (|wa| > |wb|) != negA)
    ensures negA == negB && |wa| == |wb| ==>
      Sign(r) == (if negA then -1 else 1) * Sign(BE(wa) - BE(wb))
  {
    ValSign(negA, wa);
    ValSign(negB, wb);
    if negA == negB then
      if |wa| != |wb| then
        if negA then |wb| - |wa| else |wa| - |wb|
      else
        CompareBytesSign(wa, wb, 0);
        assert wa[0..] == wa && wb[0..] == wb;
        if negA then -CompareBytes(wa, wb, 0)
        else CompareBytes(wa, wb, 0)
    else if negA then -1 else 1
  }

  /** `compare` corrected: operands of the same sign are first widened to
      the same length with their filler byte, which keeps their values,
      and the bit scan then decides for either sign, unreversed. */
  function CompareWindows(negA: bool, wa: seq<Byte>, negB: bool, wb: seq<Byte>): int
  {
    if negA == negB then
      var n := if |wa| < |wb| then |wb| else |wa|;
      CompareBytes(Extend(wa, Filler(negA), n), Extend(wb, Filler(negB), n), 0)
    else if negA then -1 else 1
  }

  /** The corrected `compare` has the sign of the difference of the two
      values, for every pair of windows. */
  lemma CompareWindowsSign(negA: bool, wa: seq<Byte>, negB: bool, wb: seq<Byte>)
    ensures Sign(CompareWindows(negA, wa, negB, wb)) == Sign(Val(negA, wa) - Val(negB, wb))
  {
    if negA == negB {
      SameSignWindows(negA, wa, wb);
    } else {
      ValSign(negA, wa);
      ValSign(negB, wb);
    }
  }

  /** Operands of the same sign: the widened windows share the subtracted
      power of 256, so the scan of their bytes decides. */
  lemma SameSignWindows(neg: bool, wa: seq<Byte>, wb: seq<Byte>)
    ensures Sign(CompareWindows(neg, wa, neg, wb)) == Sign(Val(neg, wa) - Val(neg, wb))
  {
    var n := if |wa| < |wb| then |wb| else |wa|;
    var xa, xb := Extend(wa, Filler(neg), n), Extend(wb, Filler(neg), n);
    ExtendValue(neg, wa, n);
    ExtendValue(neg, wb, n);
    CompareBytesSign(xa, xb, 0);
    assert xa[0..] == xa && xb[0..] == xb;
    assert CompareWindows(neg, wa, neg, wb) == CompareBytes(xa, xb, 0);
    assert Val(neg, xa) - Val(neg, xb) == BE(xa) - BE(xb);
  }

  /** As written, `compare` is right for operands of different signs, and
      for non-negative operands in normal form (no leading zero byte). */
  lemma CompareAsWrittenNonNegative(negA: bool, wa: seq<Byte>, negB: bool, wb: seq<Byte>)
    requires negA != negB || (!negA && CanonicalNonNeg(wa) && CanonicalNonNeg(wb))
    ensures Sign(CompareAsWritten(negA, wa, negB, wb)) == Sign(Val(negA, wa) - Val(negB, wb))
  {
    ValSign(negA, wa);
    ValSign(negB, wb);
    if negA == negB {
      if |wa| == |wb| {
        CompareBytesSign(wa, wb, 0);
        assert wa[0..] == wa && wb[0..] == wb;
      } else if |wa| < |wb| {
        LongerIsLarger(wa, wb);
      } else {
        LongerIsLarger(wb, wa);
      }
    }
  }

  /** A non-negative window in normal form reads as more than any shorter
      window. */
  lemma LongerIsLarger(short: seq<Byte>, long: seq<Byte>)
    requires 1 <= |short| < |long| && CanonicalNonNeg(long)
    ensures BE(short) < BE(long)
  {
    TopByte(long);
    Pow256Monotone(|short|, |long| - 1);
  }

  /** As written, `compare` reverses the order of two negative operands of
      the same length: its sign is the opposite of the sign of their
      difference. */
  lemma CompareAsWrittenReversed(wa: seq<Byte>, wb: seq<Byte>)
    requires |wa| == |wb|
    ensures Sign(CompareAsWritten(true, wa, true, wb)) == -Sign(Val(true, wa) - Val(true, wb))
  {
    CompareBytesSign(wa, wb, 0);
    assert wa[0..] == wa && wb[0..] == wb;
  }

  /** -1 is [FF] and -2 is [FE]: as written, `compare(-1, -2)` is
      negative although -1 > -2. */
  lemma CompareMinusOneMinusTwo()
    ensures Val(true, [255]) == -1 && Val(true, [254]) == -2
    ensures CompareAsWritten(true, [255], true, [254]) < 0
    ensures CompareWindows(true, [255], true, [254]) > 0
  {
    BESingle(255);
    BESingle(254);
    CompareAsWrittenReversed([255], [254]);
    CompareWindowsSign(true, [255], true, [254]);
  }

  /** -200 parsed from "-200" is the window [38] (the parser never
      normalizes), and -200 from a `long` is [FF, 38]: the same value, but
      as written `compare` orders them by length and finds them unequal. */
  lemma CompareMinusTwoHundred()
    ensures Val(true, [0x38]) == -200 && Val(true, [0xFF, 0x38]) == -200
    ensures CompareAsWritten(true, [0x38], true, [0xFF, 0x38]) != 0
    ensures CompareWindows(true, [0x38], true, [0xFF, 0x38]) == 0
  {
    BESingle(0x38);
    BEPrepend(0xFF, [0x38]);
    assert [0xFF, 0x38] == [0xFF as Byte] + [0x38];
    CompareWindowsSign(true, [0x38], true, [0xFF, 0x38]);
  }
}

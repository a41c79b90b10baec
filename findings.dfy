/** Operations as the source writes them, where they depart from what the
    source evidently intends, each beside an input that shows the
    difference. The class in BigIntegers implements the intended
    behaviour; `compare` as written is Comparison.CompareAsWritten. */
module Findings {
  import opened TwosComplement
  import opened Bits
  import opened NormalForm
  import opened Negation
  import opened Addition
  import opened Shifting
  import opened LeftShifting
  import opened Comparison
  import BigIntegers

  /** `static_cast<int>` of an `unsigned int`: counts above INT_MAX wrap
      around to negative ones. */
  function IntCast(u: nat): (i: int)
    requires u < BigIntegers.UINT_RANGE
    ensures -(BigIntegers.INT_MAX as int) - 1 <= i <= BigIntegers.INT_MAX
    ensures i == u || i == u - BigIntegers.UINT_RANGE
  {
    if u <= BigIntegers.INT_MAX then u else u - BigIntegers.UINT_RANGE
  }

  // ---------------------------------------------------------------------
  // Widening over stale slack

  /** The window `+=` and `<<=` widen to `n` bytes, as written: `_size`
      grows over the slack bytes as they are, and `allocate_more` writes
      the filler byte only in front of the bytes it copies. */
  function WidenAsWritten(neg: bool, slack: seq<Byte>, w: seq<Byte>, n: int): (r: seq<Byte>)
    requires |w| <= n
    ensures |r| == n
  {
    var extra := n - |w|;
    if extra <= |slack| then slack[|slack| - extra..] + w
    else Fill(extra - |slack|, Filler(neg)) + slack + w
  }

  /** Widening as written is the sign extension the rest of the model uses
      exactly when the slack it grows over holds the filler byte. */
  lemma WidenAsWrittenTidy(neg: bool, slack: seq<Byte>, w: seq<Byte>, n: int)
    requires |w| <= n <= |w| + |slack|
    ensures AllFiller(neg, slack[|slack| - (n - |w|)..]) <==>
      WidenAsWritten(neg, slack, w, n) == Extend(w, Filler(neg), n)
  {
    var k := n - |w|;
    var front := slack[|slack| - k..];
    var r := WidenAsWritten(neg, slack, w, n);
    if AllFiller(neg, front) {
      forall i | 0 <= i < n
        ensures r[i] == Extend(w, Filler(neg), n)[i]
      {
        ExtendAt(w, Filler(neg), n, i);
      }
    }
    if r == Extend(w, Filler(neg), n) {
      forall i | 0 <= i < k
        ensures front[i] == Filler(neg)
      {
        ExtendAt(w, Filler(neg), n, i);
        assert r[i] == front[i];
      }
    }
  }

  /** -64 + -64 + ... : the sum [FF, 80] of two windows [C0] (each -64) is
      normalized by dropping its first byte, which stays behind as slack;
      negating the window [80] gives 128 over the slack [FF]. Widening that
      to two bytes for `+= 256` reads [FF, 80], which is 65408, so the sum
      comes out as 65664 instead of 384. */
  lemma StaleSlackSum()
    ensures Val(true, [0xC0]) == -64
    ensures var s := AddResult(true, true, [0xC0], [0xC0]);
      s == (true, [0xFF, 0x80]) && Val(s.0, s.1) == -128
    ensures TruncDiv8(FirstSigBit(true, [0xFF, 0x80])) == 1
    ensures NegateWindow([0x80]) == [0x80] && Val(false, [0x80]) == 128
    ensures WidenAsWritten(false, [0xFF], [0x80], 2) == [0xFF, 0x80]
    ensures Val(false, [0xFF, 0x80]) + 256 == 65664
    ensures Val(false, Extend([0x80], Filler(false), 2)) + 256 == 384
  {
    BESingle(0xC0);
    BESingle(0x80);
    var s := AddResult(true, true, [0xC0], [0xC0]);
    AddResultValue(true, true, [0xC0], [0xC0]);
    SumLength([0xC0], [0xC0]);
    TwoBytes(0xFF, 0x80);
    BEInjective(s.1, [0xFF, 0x80]);
    var c := NormalizeEffect(true, [0xFF, 0x80]);
    assert !CanonicalNeg([0xFF, 0x80]);
    assert [0xFF, 0x80][c..] == [0x80];
    NegateValue(true, [0x80]);
    BESingle(NegateWindow([0x80])[0]);
    assert NegateWindow([0x80]) == [NegateWindow([0x80])[0]];
    ExtendValue(false, [0x80], 2);
  }

  /** Two equally long negative windows sum to one byte more. */
  lemma SumLength(x: seq<Byte>, y: seq<Byte>)
    requires |x| == |y|
    ensures |AddResult(true, true, x, y).1| == |x| + 1
  {
  }

  lemma TwoBytes(x: Byte, y: Byte)
    ensures BE([x, y]) == 256 * x + y
  {
    assert [x, y][..1] == [x];
    BESingle(x);
  }

  // ---------------------------------------------------------------------
  // <<= as written

  /** The growth `<<=` computes, with the shift count cast to `int`. */
  function GrowthAsWritten(fsb: int, shift: nat): (g: nat)
    requires shift < BigIntegers.UINT_RANGE
    ensures shift <= BigIntegers.INT_MAX ==> g == Growth(fsb, shift)
  {
    var newGreatestBit := fsb - IntCast(shift);
    if newGreatestBit < 0 then (-newGreatestBit - 1) / 8 + 1 else 0
  }

  /** `<<=` as written: the growth over the slack as it is, the byte and
      bit moves by the unsigned count, and no `normalize` at the end. */
  function ShiftLeftAsWritten(neg: bool, slack: seq<Byte>, w: seq<Byte>, shift: nat): (r: seq<Byte>)
    requires |w| >= 1 && shift < BigIntegers.UINT_RANGE
    ensures |r| == |w| + GrowthAsWritten(FirstSigBit(neg, w), shift)
  {
    ShiftGrown(WidenAsWritten(neg, slack, w, |w| + GrowthAsWritten(FirstSigBit(neg, w), shift)), shift)
  }

  /** The two loops of `<<=` on the grown window: whole bytes, then bits. */
  function ShiftGrown(grown: seq<Byte>, shift: nat): (r: seq<Byte>)
    ensures |r| == |grown|
  {
    ShlBits(ShlBytes(grown, shift / 8), shift % 8)
  }

  /** With filler in the slack and a count within `int`, `<<=` as written
      multiplies the value by 2^shift; what it misses is only the normal
      form. */
  lemma ShiftLeftAsWrittenValue(neg: bool, slack: seq<Byte>, w: seq<Byte>, shift: nat)
    requires |w| >= 1 && shift <= BigIntegers.INT_MAX && AllFiller(neg, slack)
    ensures Val(neg, ShiftLeftAsWritten(neg, slack, w, shift)) == Val(neg, w) * Pow2(shift)
  {
    var g := GrowthAsWritten(FirstSigBit(neg, w), shift);
    var grown := WidenAsWritten(neg, slack, w, |w| + g);
    WidenOverFiller(neg, slack, w, |w| + g);
    ShiftGrownValue(neg, w, shift, grown);
    ShiftLeftAsWrittenSteps(neg, slack, w, shift, g, grown);
  }

  lemma ShiftLeftAsWrittenSteps(neg: bool, slack: seq<Byte>, w: seq<Byte>, shift: nat, g: int, grown: seq<Byte>)
    requires |w| >= 1 && shift < BigIntegers.UINT_RANGE
    requires g == GrowthAsWritten(FirstSigBit(neg, w), shift)
    requires grown == WidenAsWritten(neg, slack, w, |w| + g)
    ensures ShiftLeftAsWritten(neg, slack, w, shift) == ShiftGrown(grown, shift)
  {
  }

  lemma ShiftGrownValue(neg: bool, w: seq<Byte>, shift: nat, grown: seq<Byte>)
    requires |w| >= 1 && shift <= BigIntegers.INT_MAX
    requires grown == Extend(w, Filler(neg), |w| + GrowthAsWritten(FirstSigBit(neg, w), shift))
    ensures Val(neg, ShiftGrown(grown, shift)) == Val(neg, w) * Pow2(shift)
  {
    ShiftLeftFacts(neg, w, shift, grown);
  }

  /** Over slack that holds the filler byte, widening as written is sign
      extension. */
  lemma WidenOverFiller(neg: bool, slack: seq<Byte>, w: seq<Byte>, n: int)
    requires |w| <= n && AllFiller(neg, slack)
    ensures WidenAsWritten(neg, slack, w, n) == Extend(w, Filler(neg), n)
  {
    var grown := WidenAsWritten(neg, slack, w, n);
    if n - |w| <= |slack| {
      WidenAsWrittenTidy(neg, slack, w, n);
    } else {
      forall i | 0 <= i < n
        ensures grown[i] == Extend(w, Filler(neg), n)[i]
      {
        ExtendAt(w, Filler(neg), n, i);
      }
    }
  }

  /** The first significant bit of a one-byte window is a bit of it. */
  lemma OneByteFirstBit(neg: bool, x: Byte)
    ensures -1 <= FirstSigBit(neg, [x]) <= 7
  {
  }

  /** ZERO << 200: the window [00] grows by 25 bytes over zero slack and
      is never normalized, so the result is 26 zero bytes; as written,
      `compare` then finds it different from ZERO. */
  lemma ZeroShiftedLeft()
    ensures var r := ShiftLeftAsWritten(false, Fill(7, 0), [0], 200);
      |r| == 26 && Val(false, r) == 0 && !Unpadded(r)
      && CompareAsWritten(false, r, false, [0]) != 0
  {
    var fsb := FirstSigBit(false, [0]);
    OneByteFirstBit(false, 0);
    assert GrowthAsWritten(fsb, 200) == 25;
    var grown := WidenAsWritten(false, Fill(7, 0), [0], 26);
    assert grown == Fill(18, 0) + Fill(7, 0) + [0];
    var u := ShlBytes(grown, 25);
    assert AllFiller(false, u) by {
      forall i | 0 <= i < 26
        ensures u[i] == 0
      {
        ShlBytesAt(grown, 25, i);
      }
    }
    BEAllFiller(false, u);
    ShlBitsBE(u, 0);
    MulLe(0, CarryOut(u, 0, 0), Pow256(26));
  }

  /** power(2, 0): `m - 1` is 4294967295, which `<<=` casts to -1, so the
      window [02] does not grow; the unsigned count then moves its byte out
      (536870911 whole bytes) and the result is 0, not 2^0 == 1. */
  lemma PowerShortcutAsWritten()
    ensures IntCast(BigIntegers.UINT_RANGE - 1) == -1
    ensures var r := ShiftLeftAsWritten(false, [], [2], BigIntegers.UINT_RANGE - 1);
      r == [0] && Val(false, r) == 0 && BigIntegers.IntPow(2, 0) == 1
  {
    var shift := BigIntegers.UINT_RANGE - 1;
    NoGrowth(shift);
    ShiftLeftAsWrittenSteps(false, [], [2], shift, 0, [2]);
    ShiftedOut(shift);
    BESingle(0);
  }

  /** With the count cast to -1, the window [02] does not grow. */
  lemma NoGrowth(shift: nat)
    requires shift == BigIntegers.UINT_RANGE - 1
    ensures GrowthAsWritten(FirstSigBit(false, [2]), shift) == 0
    ensures WidenAsWritten(false, [], [2], 1) == [2]
  {
    OneByteFirstBit(false, 2);
  }

  /** The unsigned count 4294967295 moves the one byte of [02] out of the
      window. */
  lemma ShiftedOut(shift: nat)
    requires shift == BigIntegers.UINT_RANGE - 1
    ensures ShiftGrown([2], shift) == [0]
  {
    var fb, lb := 536870911, 7;
    assert shift / 8 == fb && shift % 8 == lb;
    var u := ShlBytes([2], fb);
    assert u == [0];
    var r := ShlBits(u, lb);
    ShlBitsBE(u, lb);
    BESingle(0);
    MulLe(0, CarryOut(u, lb, 0), Pow256(1));
    BESingle(r[0]);
    assert r == [r[0]];
  }

}

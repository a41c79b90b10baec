/** The normalization scan: where the first significant bit of a window lies,
    how many leading bytes `normalize` drops, and what the remaining window
    looks like. */
module NormalForm {
  import opened TwosComplement
  import opened Bits

  /** Minimal form of a non-negative window: no leading zero byte, except the
      single byte of zero. */
  predicate CanonicalNonNeg(w: seq<Byte>)
  {
    |w| >= 1 && (|w| == 1 || w[0] != 0)
  }

  /** Minimal two's-complement form of a negative window: the top bit of the
      first byte is set, and the first byte is not a redundant 0xFF. */
  predicate CanonicalNeg(w: seq<Byte>)
  {
    |w| >= 1 && w[0] >= 128 && (|w| == 1 || w[0] != 255 || w[1] < 128)
  }

  predicate Canonical(neg: bool, w: seq<Byte>)
  {
    if neg then CanonicalNeg(w) else CanonicalNonNeg(w)
  }

  /** The index of the first bit at or after `j` that equals `t`, or 8*|w|
      when there is none. */
  function FirstBitFrom(w: seq<Byte>, t: int, j: nat): (p: nat)
    requires j <= 8 * |w|
    ensures j <= p <= 8 * |w|
    decreases 8 * |w| - j
  {
    if j == 8 * |w| then j
    else if BitAt(w, j) == t then j
    else FirstBitFrom(w, t, j + 1)
  }

  /** FirstBitFrom finds the first bit equal to `t`: none before it, and it
      equals `t` unless it is the end. */
  lemma {:induction false} FirstBitFromSpec(w: seq<Byte>, t: int, j: nat)
    requires j <= 8 * |w|
    ensures forall i :: j <= i < FirstBitFrom(w, t, j) ==> BitAt(w, i) != t
    ensures FirstBitFrom(w, t, j) < 8 * |w| ==> BitAt(w, FirstBitFrom(w, t, j)) == t
    decreases 8 * |w| - j
  {
    if j < 8 * |w| && BitAt(w, j) != t {
      FirstBitFromSpec(w, t, j + 1);
    }
  }

  /** The bit value that marks the end of the sign extension: the first 1 of
      a non-negative window, the first 0 of a negative one. */
  function SignificantBit(neg: bool): int
  {
    if neg then 0 else 1
  }

  /** What the source's `first_significant_bit` returns: the position of the
      first significant bit, one less for a negative window (so that the
      sign bit before it is kept), or 8*|w| - 1 when every bit is sign. */
  function FirstSigBit(neg: bool, w: seq<Byte>): int
  {
    var p := FirstBitFrom(w, SignificantBit(neg), 0);
    if p == 8 * |w| then 8 * |w| - 1
    else p - (if neg then 1 else 0)
  }

  /** Integer division by 8 truncating toward zero, as C++ divides ints. */
  function TruncDiv8(x: int): (q: int)
    ensures x >= 0 ==> q == x / 8
    ensures -8 < x < 0 ==> q == 0
  {
    if x >= 0 then x / 8 else -((-x) / 8)
  }

  /** Every bit before `j` is a sign bit, so every whole byte before bit `j`
      is the filler byte. */
  lemma LeadingFiller(neg: bool, w: seq<Byte>, j: nat)
    requires j <= 8 * |w|
    requires forall i :: 0 <= i < j ==> BitAt(w, i) != SignificantBit(neg)
    ensures AllFiller(neg, w[..j / 8])
  {
    forall m | 0 <= m < j / 8
      ensures w[m] == Filler(neg)
    {
      forall k | 0 <= k < 8
        ensures Bit(w[m], k) == (if neg then 1 else 0)
      {
        var i := 8 * m + k;
        assert i / 8 == m && i % 8 == k;
        assert BitAt(w, i) == Bit(w[m], k);
      }
      AllBitsEqual(w[m], if neg then 1 else 0);
    }
  }

  /** The number of leading bytes `normalize` removes, and what is left. */
  lemma {:induction false} NormalizeCut(neg: bool, w: seq<Byte>)
    requires |w| >= 1
    requires !(neg && |w| == 1 && w[0] == 0)
    ensures 0 <= TruncDiv8(FirstSigBit(neg, w)) < |w|
    ensures AllFiller(neg, w[..TruncDiv8(FirstSigBit(neg, w))])
    ensures !neg ==> CanonicalNonNeg(w[TruncDiv8(FirstSigBit(neg, w))..])
    ensures neg && w[0] >= 128 ==> CanonicalNeg(w[TruncDiv8(FirstSigBit(neg, w))..])
    ensures neg && w[0] < 128 ==> TruncDiv8(FirstSigBit(neg, w)) == 0
    ensures neg && TruncDiv8(FirstSigBit(neg, w)) == |w| - 1 ==> w[|w| - 1] != 0
  {
    var n := |w|;
    var t := SignificantBit(neg);
    var p := FirstBitFrom(w, t, 0);
    FirstBitFromSpec(w, t, 0);
    var c := TruncDiv8(FirstSigBit(neg, w));
    assert BitAt(w, 0) == Bit(w[0], 0);
    TopBit(w[0]);
    if p == 8 * n {
      assert c == n - 1;
      LeadingFiller(neg, w, p);
      assert w[..c] == w[..p / 8][..c];
      assert w[n - 1] == w[..p / 8][n - 1];
      assert w[c..] == [w[n - 1]];
    } else if !neg {
      assert c == p / 8;
      LeadingFiller(neg, w, p);
      assert BitAt(w, p) == Bit(w[c], p % 8) == 1;
      if w[c] == 0 {
        FillerBits(false, p % 8);
      }
    } else if p == 0 {
      assert c == 0;
      assert w[c..] == w;
    } else {
      assert c == (p - 1) / 8;
      LeadingFiller(neg, w, p);
      assert c <= p / 8;
      assert w[..c] == w[..p / 8][..c];
      assert (8 * c) / 8 == c && (8 * c) % 8 == 0;
      assert BitAt(w, 8 * c) == Bit(w[c], 0) == 1;
      TopBit(w[c]);
      if w[c] == 255 && c + 1 < n {
        assert p == 8 * c + 8 by {
          if p < 8 * c + 8 {
            assert p / 8 == c && p % 8 == p - 8 * c;
            FillerBits(true, p - 8 * c);
          }
        }
        assert p / 8 == c + 1 && p % 8 == 0;
        assert BitAt(w, p) == Bit(w[c + 1], 0) == 0;
        TopBit(w[c + 1]);
      }
      assert w[c..][0] == w[c];
    }
  }

  /** Everything `normalize` does to a window `w`: it keeps the last
      |w| - c bytes, with c as computed here. */
  lemma NormalizeEffect(neg: bool, w: seq<Byte>) returns (c: nat)
    requires |w| >= 1
    requires !(neg && |w| == 1 && w[0] == 0)
    ensures c == TruncDiv8(FirstSigBit(neg, w)) && c < |w|
    ensures Val(neg, w[c..]) == Val(neg, w)
    ensures !neg ==> CanonicalNonNeg(w[c..])
    ensures neg && w[0] >= 128 ==> CanonicalNeg(w[c..])
    ensures neg && w[0] < 128 ==> c == 0
    ensures neg && c == |w| - 1 ==> w[c] != 0
    ensures !neg || BE(w) != 0 ==> |w| - c == 1 || BE(w[c..]) != 0
  {
    NormalizeCut(neg, w);
    c := TruncDiv8(FirstSigBit(neg, w));
    ValFillPrefix(neg, w[..c], w[c..]);
    assert w[..c] + w[c..] == w;
    if |w| - c > 1 && (!neg || w[0] >= 128) {
      TopByte(w[c..]);
    }
  }

  /** The single byte zero is never negative: zero has no sign. */
  predicate ZeroRule(neg: bool, w: seq<Byte>)
  {
    !(neg && |w| == 1 && w[0] == 0)
  }

  /** A window that reads as zero is the single byte zero: no zero is padded
      with extra zero bytes, and no negative window reads as zero (it would
      stand for -256^n, which `negate` cannot negate). */
  predicate Unpadded(w: seq<Byte>)
  {
    |w| == 1 || BE(w) != 0
  }

  /** A negative window that keeps the zero rule and is not padded never
      reads as zero: its value is above -256^|w|. */
  lemma NegativeReadsNonZero(neg: bool, w: seq<Byte>)
    requires |w| >= 1 && ZeroRule(neg, w) && Unpadded(w)
    ensures neg ==> BE(w) != 0
  {
    if |w| == 1 {
      assert w == [w[0]];
      BESingle(w[0]);
    }
  }

  /** A window whose negative reading is not zero keeps the zero rule. */
  lemma ZeroRuleOfReading(neg: bool, w: seq<Byte>)
    requires neg ==> BE(w) != 0
    ensures ZeroRule(neg, w)
  {
    if |w| == 1 {
      assert w == [w[0]];
      BESingle(w[0]);
    }
  }

  /** Zero has one window among those that keep the zero rule and are not
      padded: the single byte zero, non-negative. */
  lemma ZeroWindow(neg: bool, w: seq<Byte>)
    requires |w| >= 1 && ZeroRule(neg, w) && Unpadded(w)
    ensures Val(neg, w) == 0 <==> |w| == 1 && w[0] == 0
  {
    NegativeReadsNonZero(neg, w);
    ValSign(neg, w);
    if |w| == 1 {
      assert w == [w[0]];
      BESingle(w[0]);
    }
  }
}

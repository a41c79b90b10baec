/** Byte-wise addition with carry, as `operator+=` performs it from the last
    byte of the window towards the first, and the sign rule that follows
    the loop. */
module Addition {
  import opened TwosComplement

  /** `y` widened on the left to `n` bytes with the byte `f`. */
  function Extend(y: seq<Byte>, f: Byte, n: int): (r: seq<Byte>)
    requires |y| <= n
    ensures |r| == n
  {
    seq(n - |y|, _ => f) + y
  }

  lemma ExtendAt(y: seq<Byte>, f: Byte, n: int, k: int)
    requires |y| <= n && 0 <= k < n
    ensures Extend(y, f, n)[k] == if k < n - |y| then f else y[k - (n - |y|)]
  {
  }

  lemma ExtendNone(y: seq<Byte>, f: Byte)
    ensures Extend(y, f, |y|) == y
  {
    assert Extend(y, f, |y|) == [] + y;
  }

  /** Widening a window by its filler byte keeps its value. */
  lemma ExtendValue(neg: bool, y: seq<Byte>, n: int)
    requires |y| <= n
    ensures Val(neg, Extend(y, Filler(neg), n)) == Val(neg, y)
  {
    var e := Extend(y, Filler(neg), n);
    assert e == e[..n - |y|] + y;
    ValFillPrefix(neg, e[..n - |y|], y);
  }

  /** The carry that reaches byte `k` from the bytes after it. */
  function CarryInto(x: seq<Byte>, y: seq<Byte>, k: nat): (c: int)
    requires |x| == |y| && k <= |x|
    ensures 0 <= c <= 1
    decreases |x| - k
  {
    if k == |x| then 0 else (x[k] + y[k] + CarryInto(x, y, k + 1)) / 256
  }

  /** Byte `k` of the sum: the two bytes and the incoming carry, modulo 256. */
  function SumByte(x: seq<Byte>, y: seq<Byte>, k: nat): Byte
    requires |x| == |y| && k < |x|
  {
    (x[k] + y[k] + CarryInto(x, y, k + 1)) % 256
  }

  /** The bytes the addition loop leaves in the window from index `k` on. */
  function SumFrom(x: seq<Byte>, y: seq<Byte>, k: nat): (r: seq<Byte>)
    requires |x| == |y| && k <= |x|
    ensures |r| == |x| - k
    decreases |x| - k
  {
    if k == |x| then [] else [SumByte(x, y, k)] + SumFrom(x, y, k + 1)
  }

  /** The bytes the addition loop leaves in the window. */
  function SumWindow(x: seq<Byte>, y: seq<Byte>): (r: seq<Byte>)
    requires |x| == |y|
    ensures |r| == |x|
  {
    SumFrom(x, y, 0)
  }

  lemma {:induction false} SumFromAt(x: seq<Byte>, y: seq<Byte>, k: nat, j: nat)
    requires |x| == |y| && k <= j < |x|
    ensures SumFrom(x, y, k)[j - k] == SumByte(x, y, j)
    decreases j - k
  {
    if k < j {
      SumFromAt(x, y, k + 1, j);
    }
  }

  /** Byte `k` of the sum and the carry out of it, from the carry into it. */
  lemma SumAt(x: seq<Byte>, y: seq<Byte>, k: nat)
    requires |x| == |y| && k < |x|
    ensures SumWindow(x, y)[k] == (x[k] + y[k] + CarryInto(x, y, k + 1)) % 256
    ensures CarryInto(x, y, k) == (x[k] + y[k] + CarryInto(x, y, k + 1)) / 256
  {
    SumFromAt(x, y, 0, k);
  }

  /** The loop adds the two readings exactly: the bytes it leaves and the
      final carry, worth 256^n, make up the sum. */
  lemma SumWindowBE(x: seq<Byte>, y: seq<Byte>)
    requires |x| == |y|
    ensures CarryInto(x, y, 0) == 0 ==> BE(SumWindow(x, y)) == BE(x) + BE(y)
    ensures CarryInto(x, y, 0) == 1 ==> BE(SumWindow(x, y)) + Pow256(|x|) == BE(x) + BE(y)
  {
    SumSuffixBE(x, y, 0);
    OneTimes(CarryInto(x, y, 0), Pow256(|x|));
    assert x[0..] == x && y[0..] == y;
  }

  lemma {:induction false} SumSuffixBE(x: seq<Byte>, y: seq<Byte>, k: nat)
    requires |x| == |y| && k <= |x|
    ensures BE(SumFrom(x, y, k)) + CarryInto(x, y, k) * Pow256(|x| - k)
            == BE(x[k..]) + BE(y[k..])
    decreases |x| - k
  {
    if k < |x| {
      var r := SumFrom(x, y, k + 1);
      SumSuffixBE(x, y, k + 1);
      var p := Pow256(|x| - k - 1);
      BEPrepend(SumByte(x, y, k), r);
      SplitFirst(x, k, p);
      SplitFirst(y, k, p);
      CarryStep(x[k], y[k], CarryInto(x, y, k + 1), p, BE(r), BE(x[k + 1..]), BE(y[k + 1..]));
    }
  }

  /** The reading of a suffix is its first byte, worth 256^(n-k-1), plus the
      reading of the rest. */
  lemma SplitFirst(s: seq<Byte>, k: nat, p: nat)
    requires k < |s| && p == Pow256(|s| - k - 1)
    ensures BE(s[k..]) == s[k] * p + BE(s[k + 1..])
    ensures Pow256(|s| - k) == 256 * p
  {
    assert s[k..] == [s[k]] + s[k + 1..];
    BEPrepend(s[k], s[k + 1..]);
  }

  /** One step of the carry: the byte sum with the incoming carry is its low
      byte plus 256 times the outgoing carry. */
  lemma CarryStep(xk: int, yk: int, c: int, p: int, r1: int, x1: int, y1: int)
    requires xk >= 0 && yk >= 0 && c >= 0
    requires r1 + c * p == x1 + y1
    ensures ((xk + yk + c) % 256) * p + r1 + ((xk + yk + c) / 256) * (256 * p)
            == (xk * p + x1) + (yk * p + y1)
  {
    var t := xk + yk + c;
    var lo, hi := t % 256, t / 256;
    assert t == hi * 256 + lo;
    assert hi * (256 * p) == (hi * 256) * p;
    assert (hi * 256 + lo) * p == (hi * 256) * p + lo * p;
    assert t * p == xk * p + yk * p + c * p;
  }

  /** The sign rule after the loop. Equal signs: a carry out of a
      non-negative sum becomes a new 0x01 byte, a negative sum always gets a
      new front byte, 0xFF after a carry and 0xFE without one. Opposite
      signs: the sum is negative exactly when there was no carry. */
  function AddResult(negA: bool, negB: bool, x: seq<Byte>, y: seq<Byte>): (bool, seq<Byte>)
    requires |x| == |y|
  {
    var r, c := SumWindow(x, y), CarryInto(x, y, 0);
    if negA == negB then
      if negA then (true, [if c > 0 then MAX_BYTE else MAX_BYTE - 1] + r)
      else if c > 0 then (false, [MIN_BYTE + 1] + r)
      else (false, r)
    else (c == 0, r)
  }

  /** The sign rule makes the addition exact: the value of the result is the
      sum of the values of the two equally long windows. */
  lemma AddResultValue(negA: bool, negB: bool, x: seq<Byte>, y: seq<Byte>)
    requires |x| == |y|
    ensures Val(AddResult(negA, negB, x, y).0, AddResult(negA, negB, x, y).1)
            == Val(negA, x) + Val(negB, y)
  {
    var r, c := SumWindow(x, y), CarryInto(x, y, 0);
    var p := Pow256(|x|);
    SumWindowBE(x, y);
    if negA == negB && (negA || c > 0) {
      var top: Byte := if !negA then 1 else if c > 0 then 255 else 254;
      BEPrepend(top, r);
      assert Pow256(|r| + 1) == 256 * p;
    }
  }

  /** A negative result of an addition never reads as zero when neither
      operand is a negative window that reads as zero. */
  lemma AddResultNotZero(negA: bool, negB: bool, x: seq<Byte>, y: seq<Byte>)
    requires |x| == |y|
    requires negA ==> BE(x) != 0
    requires negB ==> BE(y) != 0
    ensures AddResult(negA, negB, x, y).0 ==> BE(AddResult(negA, negB, x, y).1) != 0
  {
    var r, c := SumWindow(x, y), CarryInto(x, y, 0);
    if negA == negB {
      if negA {
        var top: Byte := if c > 0 then MAX_BYTE else MAX_BYTE - 1;
        assert AddResult(negA, negB, x, y).1 == [top] + r;
        BEPrepend(top, r);
        PositiveProduct(top, Pow256(|r|));
        assert BE([top] + r) != 0;
      }
    } else if c == 0 {
      SumWindowBE(x, y);
      assert BE(r) == BE(x) + BE(y);
      assert AddResult(negA, negB, x, y).1 == r;
    }
  }

  /** The carry, 0 or 1, times a weight: keeps the solver from multiplying by an unknown carry. */
  lemma OneTimes(c: int, p: int)
    requires c == 0 || c == 1
    ensures c * p == if c == 0 then 0 else p
  {
  }

  /** A product of positive numbers is positive, stated apart from the window facts. */
  lemma PositiveProduct(a: int, b: int)
    requires a >= 1 && b >= 1
    ensures a * b >= 1
  {
  }

  /** The loop of `operator+=`: adds the window `b[bstart..]`, widened by the
      byte `bfill`, into the window `a[start..]`, from the last byte to the
      first, and returns the final carry. `a` and `b` may be the same array
      holding the same window: each byte is read before it is written. */
  method AddInto(a: array<Byte>, start: int, b: array<Byte>, bstart: int, bfill: Byte)
    returns (carry: int)
    requires 0 <= start <= a.Length && 0 <= bstart <= b.Length
    requires b.Length - bstart <= a.Length - start
    requires a == b ==> start == bstart
    modifies a
    ensures a[..start] == old(a[..start])
    ensures a[start..] == SumWindow(old(a[start..]), Extend(old(b[bstart..]), bfill, a.Length - start))
    ensures carry == CarryInto(old(a[start..]), Extend(old(b[bstart..]), bfill, a.Length - start), 0)
  {
    ghost var x := a[start..];
    ghost var e := Extend(b[bstart..], bfill, a.Length - start);
    carry := CarryLoop(a, start, b, bstart, bfill, x, e);
    assert a[start..] == SumWindow(x, e);
  }

  /** The loop of `AddInto`, from the last byte to `start`. */
  method CarryLoop(a: array<Byte>, start: int, b: array<Byte>, bstart: int, bfill: Byte,
                   ghost x: seq<Byte>, ghost e: seq<Byte>)
    returns (carry: int)
    requires 0 <= start <= a.Length && 0 <= bstart <= b.Length
    requires b.Length - bstart <= a.Length - start
    requires a == b ==> start == bstart
    requires x == a[start..] && e == Extend(b[bstart..], bfill, a.Length - start)
    modifies a
    ensures forall k :: 0 <= k < start ==> a[k] == old(a[k])
    ensures forall k :: start <= k < a.Length ==> a[k] == SumWindow(x, e)[k - start]
    ensures carry == CarryInto(x, e, 0)
  {
    ghost var y := b[bstart..];
    ghost var s := SumWindow(x, e);
    var shift := a.Length - b.Length;
    var remainder := 0;
    var i := a.Length - 1;
    while i >= start
      invariant start - 1 <= i < a.Length
      invariant forall k :: 0 <= k <= i ==> a[k] == old(a[k])
      invariant forall k :: i < k < a.Length ==> a[k] == s[k - start]
      invariant remainder == CarryInto(x, e, i - start + 1)
    {
      SumAt(x, e, i - start);
      ExtendAt(y, bfill, a.Length - start, i - start);
      var other: Byte;
      if i - shift >= bstart {
        other := b[i - shift];
      } else {
        other := bfill;
      }
      assert other == e[i - start];
      remainder := a[i] + other + remainder;
      a[i] := remainder % 256;
      remainder := remainder / 256;
      assert CarryInto(x, e, (i - 1) - start + 1) == CarryInto(x, e, i - start);
      i := i - 1;
    }
    carry := remainder;
  }
}

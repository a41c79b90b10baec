/** Two's-complement negation of a byte window, as `negate` computes it from
    the last byte towards the first. */
module Negation {
  import opened TwosComplement

  /** The bytes `negate` leaves in a window. Read from the last byte: zero
      bytes stay zero while the borrow lasts, the first non-zero byte x
      becomes 256 - x, and every byte in front of it is complemented. */
  function NegateWindow(w: seq<Byte>): (r: seq<Byte>)
    ensures |r| == |w|
  {
    if |w| == 0 then []
    else [NegatedByte(w[0], ZeroFrom(w, 1))] + NegateWindow(w[1..])
  }

  /** Every byte of `w` from index `k` on is zero. */
  predicate ZeroFrom(w: seq<Byte>, k: nat)
    decreases |w| - k
  {
    k >= |w| || (w[k] == 0 && ZeroFrom(w, k + 1))
  }

  /** The bytes from `k` on are zero exactly when they read as zero. */
  lemma {:induction false} ZeroFromBE(w: seq<Byte>, k: nat)
    requires k <= |w|
    ensures ZeroFrom(w, k) <==> BE(w[k..]) == 0
    decreases |w| - k
  {
    if k < |w| {
      ZeroFromBE(w, k + 1);
      assert w[k..] == [w[k]] + w[k + 1..];
      ZeroPrefix(w[k], w[k + 1..]);
    }
  }

  /** Dropping the first byte shifts the indices by one. */
  lemma {:induction false} ZeroFromTail(w: seq<Byte>, k: nat)
    requires 1 <= k <= |w|
    ensures ZeroFrom(w[1..], k - 1) <==> ZeroFrom(w, k)
    decreases |w| - k
  {
    if k < |w| {
      ZeroFromTail(w, k + 1);
    }
  }

  /** One byte of the negation: `256 - x` (modulo 256) while every later
      byte is zero, the complement `255 - x` once a later byte was not. */
  function NegatedByte(x: Byte, borrow: bool): (y: Byte)
    ensures borrow ==> (y == 0 <==> x == 0)
  {
    if borrow then (256 - x) % 256 else 255 - x
  }

  /** A window reads as zero exactly when its first byte and the rest do. */
  lemma ZeroPrefix(x: Byte, rest: seq<Byte>)
    ensures BE([x] + rest) == 0 <==> x == 0 && BE(rest) == 0
  {
    BEPrepend(x, rest);
    if x != 0 {
      assert x * Pow256(|rest|) >= Pow256(|rest|);
    }
  }

  /** Byte `k` of the negated window depends on byte `k` and on whether
      every byte after it is zero. */
  lemma {:induction false} NegateAt(w: seq<Byte>, k: nat)
    requires k < |w|
    ensures NegateWindow(w)[k] == NegatedByte(w[k], ZeroFrom(w, k + 1))
  {
    if k > 0 {
      NegateAt(w[1..], k - 1);
      ZeroFromTail(w, k + 1);
    }
  }

  /** The negated window reads as 256^n minus the window, modulo 256^n. */
  lemma {:induction false} NegateWindowBE(w: seq<Byte>)
    ensures BE(NegateWindow(w)) == if BE(w) == 0 then 0 else Pow256(|w|) - BE(w)
  {
    if |w| > 0 {
      var x, rest := w[0], w[1..];
      var zero := BE(rest) == 0;
      NegateWindowBE(rest);
      ZeroFromBE(w, 1);
      ZeroPrefix(x, rest);
      assert w == [x] + rest;
      BEPrepend(x, rest);
      BEPrepend(NegatedByte(x, zero), NegateWindow(rest));
      NegatedByteArith(x, zero, Pow256(|rest|), BE(rest), BE(NegateWindow(rest)));
    }
  }

  /** The arithmetic of one step of NegateWindowBE: `br` reads the rest of
      the window and `bn` its negation, `p` is 256^|rest|. */
  lemma NegatedByteArith(x: Byte, zero: bool, p: int, br: int, bn: int)
    requires zero <==> br == 0
    requires zero ==> bn == 0
    requires !zero ==> bn == p - br
    ensures NegatedByte(x, zero) * p + bn == if zero && x == 0 then 0 else 256 * p - (x * p + br)
  {
    if zero && x != 0 {
      SubProduct(256, x, p);
    } else if !zero {
      SubProduct(255, x, p);
    }
  }

  lemma SubProduct(a: int, x: int, p: int)
    ensures (a - x) * p == a * p - x * p
  {
  }

  /** Negating a window that does not read as zero and flipping the sign
      negates the value; a window that reads as zero is left as it is, so
      flipping its sign turns 0 into -256^n and -256^n into 0. */
  lemma NegateValue(neg: bool, w: seq<Byte>)
    ensures BE(w) != 0 ==> Val(!neg, NegateWindow(w)) == -Val(neg, w)
    ensures BE(w) == 0 ==> NegateWindow(w) == w
    ensures BE(w) == 0 && !neg ==> Val(!neg, NegateWindow(w)) == -(Pow256(|w|) as int)
  {
    NegateWindowBE(w);
    if BE(w) == 0 {
      BEInjective(NegateWindow(w), w);
    }
  }

  /** What `negate` relies on when it does not return early: a one-byte
      window other than zero negates to a non-zero byte, and the value is
      negated unless the window is a zero of several bytes. */
  lemma NegateNonZero(neg: bool, w: seq<Byte>)
    requires |w| >= 1 && !(|w| == 1 && w[0] == 0)
    ensures |NegateWindow(w)| == |w|
    ensures |w| == 1 ==> NegateWindow(w)[0] != 0
    ensures |w| == 1 || BE(w) != 0 ==> Val(!neg, NegateWindow(w)) == -Val(neg, w)
  {
    NegateValue(neg, w);
    if |w| == 1 {
      NegateAt(w, 0);
      assert w == [w[0]];
      BESingle(w[0]);
    }
  }

  /** Negating twice gives the window back. */
  lemma NegateTwice(w: seq<Byte>)
    ensures NegateWindow(NegateWindow(w)) == w
  {
    NegateWindowBE(w);
    NegateWindowBE(NegateWindow(w));
    BEInjective(NegateWindow(NegateWindow(w)), w);
  }

  /** The byte loops of `negate`, one for each sign; both leave the
      negated window. */
  method NegateBytes(a: array<Byte>, start: int, neg: bool)
    requires 0 <= start <= a.Length
    modifies a
    ensures a[start..] == NegateWindow(old(a[start..]))
    ensures a[..start] == old(a[..start])
  {
    if neg {
      NegateNegative(a, start);
    } else {
      NegateNonNegative(a, start);
    }
  }

  /** The loop of `negate` for a negative number: subtract the borrow
      (modulo 256), then complement, from the last byte of `a` back to
      `start`. */
  method NegateNegative(a: array<Byte>, start: int)
    requires 0 <= start <= a.Length
    modifies a
    ensures a[start..] == NegateWindow(old(a[start..]))
    ensures a[..start] == old(a[..start])
  {
    ghost var w := a[start..];
    ghost var nw := NegateWindow(w);
    var remainder: int := -1;
    var i := a.Length - 1;
    while i >= start
      invariant start - 1 <= i < a.Length
      invariant forall k :: 0 <= k <= i ==> a[k] == old(a[k])
      invariant forall k :: i < k < a.Length ==> a[k] == nw[k - start]
      invariant remainder == (if ZeroFrom(w, i + 1 - start) then -1 else 0)
    {
      NegateAt(w, i - start);
      var b := (a[i] as int + remainder) % 256;
      BorrowThenComplement(a[i], remainder == -1);
      if remainder == -1 && b != MAX_BYTE {
        remainder := 0;
      }
      a[i] := MAX_BYTE - b;
      i := i - 1;
    }
    assert a[start..] == nw;
  }

  /** The loop of `negate` for a non-negative number: complement, then
      add the carry (modulo 256), from the last byte of `a` back to
      `start`. */
  method NegateNonNegative(a: array<Byte>, start: int)
    requires 0 <= start <= a.Length
    modifies a
    ensures a[start..] == NegateWindow(old(a[start..]))
    ensures a[..start] == old(a[..start])
  {
    ghost var w := a[start..];
    ghost var nw := NegateWindow(w);
    var remainder: int := 1;
    var i := a.Length - 1;
    while i >= start
      invariant start - 1 <= i < a.Length
      invariant forall k :: 0 <= k <= i ==> a[k] == old(a[k])
      invariant forall k :: i < k < a.Length ==> a[k] == nw[k - start]
      invariant remainder == (if ZeroFrom(w, i + 1 - start) then 1 else 0)
    {
      NegateAt(w, i - start);
      var b := (MAX_BYTE - a[i] + remainder) % 256;
      ComplementThenCarry(a[i], remainder == 1);
      if remainder == 1 && b != MIN_BYTE {
        remainder := 0;
      }
      a[i] := b;
      i := i - 1;
    }
    assert a[start..] == nw;
  }

  /** A byte of the negative branch of `negate`: subtract the borrow
      (modulo 256), then complement. */
  lemma BorrowThenComplement(x: Byte, borrow: bool)
    ensures 255 - (x + (if borrow then -1 else 0)) % 256 == NegatedByte(x, borrow)
    ensures borrow ==> ((x - 1) % 256 == 255 <==> x == 0)
  {
  }

  /** A byte of the non-negative branch of `negate`: complement, then add
      the carry (modulo 256). */
  lemma ComplementThenCarry(x: Byte, carry: bool)
    ensures (255 - x + (if carry then 1 else 0)) % 256 == NegatedByte(x, carry)
    ensures carry ==> ((255 - x + 1) % 256 == 0 <==> x == 0)
  {
  }
}

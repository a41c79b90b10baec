/** Byte-level arithmetic shared by every part of the model: the big-endian
    reading of a byte window, the signed value of a window under an explicit
    sign flag, and the sign-extension filler byte. */
module TwosComplement {

  /** An unsigned 8-bit byte (`unsigned char` in the source). */
  type Byte = x: int | 0 <= x < 256

  const MIN_BYTE: Byte := 0
  const MAX_BYTE: Byte := 255
  const BITS_IN_BYTE: nat := 8
  const BYTE: nat := 256

  function Pow2(n: nat): (r: nat)
    ensures r >= 1
  {
    if n == 0 then 1 else 2 * Pow2(n - 1)
  }

  function Pow256(n: nat): (r: nat)
    ensures r >= 1
  {
    if n == 0 then 1 else 256 * Pow256(n - 1)
  }

  lemma {:induction false} Pow256Add(m: nat, n: nat)
    ensures Pow256(m + n) == Pow256(m) * Pow256(n)
  {
    if n > 0 {
      Pow256Add(m, n - 1);
      assert Pow256(m + n) == 256 * Pow256(m + n - 1);
    }
  }

  lemma {:induction false} Pow2Add(m: nat, n: nat)
    ensures Pow2(m + n) == Pow2(m) * Pow2(n)
  {
    if n > 0 {
      Pow2Add(m, n - 1);
      assert Pow2(m + n) == 2 * Pow2(m + n - 1);
    }
  }

  /** 256^n is 2^(8n). */
  lemma {:induction false} Pow256IsPow2(n: nat)
    ensures Pow256(n) == Pow2(8 * n)
  {
    if n > 0 {
      Pow256IsPow2(n - 1);
      Pow2Add(8 * (n - 1), 8);
      assert Pow2(8) == 256;
    }
  }

  lemma {:induction false} Pow256Monotone(m: nat, n: nat)
    requires m <= n
    ensures Pow256(m) <= Pow256(n)
  {
    if m < n {
      Pow256Monotone(m, n - 1);
    }
  }

  /** The bytes of `s` read as one unsigned big-endian number. */
  function BE(s: seq<Byte>): (r: nat)
    ensures r < Pow256(|s|)
  {
    if |s| == 0 then 0 else BE(s[..|s| - 1]) * 256 + s[|s| - 1]
  }

  /** The byte that extends a window to the left without changing its value:
      0xFF for a negative number, 0x00 otherwise. */
  function Filler(neg: bool): (f: Byte)
    ensures f == MAX_BYTE <==> neg
    ensures f == MIN_BYTE <==> !neg
  {
    if neg then MAX_BYTE else MIN_BYTE
  }

  /** The signed value of a window under an explicit sign flag: the window is
      the low |w| bytes of an infinite two's-complement expansion whose higher
      bytes all equal Filler(neg). */
  function Val(neg: bool, w: seq<Byte>): int
  {
    BE(w) - (if neg then Pow256(|w|) else 0)
  }

  /** The sign flag is the sign of the value, whatever the window holds. */
  lemma ValSign(neg: bool, w: seq<Byte>)
    ensures Val(neg, w) < 0 <==> neg
    ensures -(Pow256(|w|) as int) <= Val(neg, w) < Pow256(|w|)
  {
  }

  /** Every byte of `f` is the filler byte of the sign `neg`. */
  predicate AllFiller(neg: bool, f: seq<Byte>)
  {
    forall i :: 0 <= i < |f| ==> f[i] == Filler(neg)
  }

  lemma {:induction false} BEAppend(a: seq<Byte>, b: seq<Byte>)
    ensures BE(a + b) == BE(a) * Pow256(|b|) + BE(b)
    decreases |b|
  {
    if |b| == 0 {
      assert a + b == a;
    } else {
      var b' := b[..|b| - 1];
      var last := b[|b| - 1];
      assert (a + b)[..|a + b| - 1] == a + b';
      BEAppend(a, b');
      var x, p := BE(a), Pow256(|b'|);
      assert BE(a + b) == BE(a + b') * 256 + last;
      assert BE(a + b') == x * p + BE(b');
      assert BE(b) == BE(b') * 256 + last;
      assert Pow256(|b|) == 256 * p;
      MulAssoc256(x, p);
    }
  }

  lemma MulAssoc256(x: int, p: int)
    ensures (x * p) * 256 == x * (256 * p)
  {
  }

  /** A window made only of filler bytes reads as 0 or as 256^k - 1. */
  lemma {:induction false} BEAllFiller(neg: bool, f: seq<Byte>)
    requires AllFiller(neg, f)
    ensures BE(f) == if neg then Pow256(|f|) - 1 else 0
  {
    if |f| > 0 {
      BEAllFiller(neg, f[..|f| - 1]);
    }
  }

  /** Prepending filler bytes leaves the value unchanged. */
  lemma ValFillPrefix(neg: bool, f: seq<Byte>, w: seq<Byte>)
    requires AllFiller(neg, f)
    ensures Val(neg, f + w) == Val(neg, w)
  {
    BEAppend(f, w);
    BEAllFiller(neg, f);
    Pow256Add(|f|, |w|);
    if neg {
      MulSubOne(Pow256(|f|), Pow256(|w|));
    }
  }

  /** The same, for a window whose first `c` bytes are filler. */
  lemma ValFillPrefixAt(neg: bool, w: seq<Byte>, c: nat)
    requires c <= |w| && AllFiller(neg, w[..c])
    ensures Val(neg, w) == Val(neg, w[c..])
  {
    assert w == w[..c] + w[c..];
    ValFillPrefix(neg, w[..c], w[c..]);
  }

  lemma MulSubOne(x: int, y: int)
    ensures (x - 1) * y == x * y - y
  {
  }

  /** Two windows of the same length with the same reading are equal. */
  lemma {:induction false} BEInjective(a: seq<Byte>, b: seq<Byte>)
    requires |a| == |b| && BE(a) == BE(b)
    ensures a == b
  {
    if |a| > 0 {
      var n := |a| - 1;
      assert BE(a) % 256 == a[n] && BE(b) % 256 == b[n];
      assert BE(a[..n]) == BE(a) / 256 && BE(b[..n]) == BE(b) / 256;
      BEInjective(a[..n], b[..n]);
      assert a == a[..n] + [a[n]] && b == b[..n] + [b[n]];
    }
  }

  lemma BEPrepend(x: Byte, s: seq<Byte>)
    ensures BE([x] + s) == x * Pow256(|s|) + BE(s)
  {
    BEAppend([x], s);
    BESingle(x);
  }

  lemma BESingle(x: Byte)
    ensures BE([x]) == x
  {
    assert [x][..0] == [];
  }

  /** The first byte of a window is at least 128 exactly when the window
      reads at least 128 * 256^(n-1); it is 0 exactly when the window reads
      less than 256^(n-1). */
  lemma TopByte(w: seq<Byte>)
    requires |w| >= 1
    ensures w[0] >= 128 <==> BE(w) >= 128 * Pow256(|w| - 1)
    ensures w[0] == 0 <==> BE(w) < Pow256(|w| - 1)
  {
    var rest := w[1..];
    assert w == [w[0]] + rest;
    BEPrepend(w[0], rest);
    TopByteArith(w[0], Pow256(|rest|), BE(rest));
  }

  lemma TopByteArith(x: Byte, p: int, r: int)
    requires 0 <= r < p
    ensures x >= 128 <==> x * p + r >= 128 * p
    ensures x == 0 <==> x * p + r < p
  {
    if x >= 128 {
      assert x * p >= 128 * p;
    } else {
      assert x * p <= 127 * p;
    }
    if x != 0 {
      assert x * p >= p;
    }
  }

  /** 256^8, the number of values of a 64-bit `long`. */
  const LONG_RANGE: nat := 0x1_0000_0000_0000_0000

  lemma Pow256Eight()
    ensures Pow256(8) == LONG_RANGE
    ensures Pow256(7) == LONG_RANGE / 256
  {
    assert Pow256(1) == 256;
    assert Pow256(2) == 0x1_0000;
    assert Pow256(3) == 0x100_0000;
    assert Pow256(4) == 0x1_0000_0000;
    assert Pow256(5) == 0x100_0000_0000;
    assert Pow256(6) == 0x1_0000_0000_0000;
    assert Pow256(7) == 0x100_0000_0000_0000;
  }
}

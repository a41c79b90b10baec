/** The arbitrary-precision signed integer of BigInteger.h / BigInteger.cpp:
    a sign flag and a growable byte buffer whose last `size` bytes hold the
    value, big-endian; the leading `capacity - size` bytes are slack kept for
    growth. */
module BigIntegers {
  import opened TwosComplement
  import opened Bits
  import opened NormalForm
  import opened Negation
  import opened Addition
  import opened Shifting
  import opened LeftShifting
  import opened Comparison
  import opened Decimal

  const BYTES_IN_LONG: nat := 8

  /** The range of the source's `unsigned int` and `int` shift counts. */
  const UINT_RANGE: nat := 0x1_0000_0000
  const INT_MAX: nat := 0x7FFF_FFFF

  class BigInteger {
    var neg: bool
    var size: int
    var capacity: int
    var bytes: array<Byte>

    /** The buffer holds `capacity` bytes and the window at least one. */
    ghost predicate Formed()
      reads this
    {
      1 <= size <= capacity == bytes.Length
    }

    /** Formed, and the single byte zero is never negative (zero has no
        sign). */
    ghost predicate Valid()
      reads this, bytes
    {
      Formed() && ZeroRule(neg, Window())
    }

    /** The significant bytes: `begin()` is `capacity - size`, `end()` is
        `capacity`. */
    function Window(): (w: seq<Byte>)
      reads this, bytes
      requires Formed()
      ensures |w| == size
    {
      bytes[capacity - size..]
    }

    /** The slack in front of the window. */
    function Slack(): (s: seq<Byte>)
      reads this, bytes
      requires Formed()
      ensures |s| == capacity - size
    {
      bytes[..capacity - size]
    }

    /** Valid, and the window is not a zero padded with extra bytes: the
        states every public operation leaves behind. */
    ghost predicate Sound()
      reads this, bytes
    {
      Valid() && Unpadded(Window())
    }

    /** The integer this object stands for. */
    ghost function Value(): int
      reads this, bytes
      requires Formed()
    {
      Val(neg, Window())
    }

    /** The filler byte: widening the window by it keeps the value. */
    function FillerByte(): (f: Byte)
      reads this, bytes
      requires Formed()
      ensures Val(neg, [f] + Window()) == Value()
    {
      ValFillPrefix(neg, [Filler(neg)], Window());
      Filler(neg)
    }

    function IsNeg(): (r: bool)
      reads this, bytes
      requires Formed()
      ensures r <==> Value() < 0
    {
      ValSign(neg, Window());
      neg
    }

    function Size(): (r: int)
      reads this, bytes
      requires Formed()
      ensures r == |Window()| && r >= 1
    {
      size
    }

    function Capacity(): (r: int)
      reads this, bytes
      requires Formed()
      ensures r == bytes.Length && r >= Size()
    {
      capacity
    }

    /** A deep copy: a fresh buffer with the same bytes. */
    constructor Copy(a: BigInteger)
      requires a.Valid()
      ensures Valid() && fresh(bytes)
      ensures neg == a.neg && size == a.size && capacity == a.capacity
      ensures bytes[..] == a.bytes[..]
      ensures Window() == a.Window() && Slack() == a.Slack()
      ensures Value() == a.Value() && (a.Sound() ==> Sound())
    {
      var copied := CopyOf(a.bytes);
      neg, size, capacity, bytes := a.neg, a.size, a.capacity, copied;
    }

    /** The copying loop of the copy constructor and of copy assignment. */
    static method CopyOf(src: array<Byte>) returns (dst: array<Byte>)
      ensures fresh(dst) && dst[..] == src[..]
    {
      dst := new Byte[src.Length];
      var i := 0;
      while i < src.Length
        invariant 0 <= i <= src.Length
        invariant dst[..i] == src[..i]
      {
        dst[i] := src[i];
        i := i + 1;
      }
    }

    /** The string constructor: an empty string throws "Empty string
        parameter"; a leading '-' is read as '0' and makes the result
        negative; any other character that is not a digit throws "Illegal
        string parameter". Otherwise the bits of the number fill the fewest
        bytes that hold them, and a negative number is negated. */
    static method Parse(number: string) returns (r: BigInteger?, thrown: BigIntegerException?)
      ensures |number| == 0 ==>
        r == null && thrown != null && thrown.GetErrorMessage() == EMPTY_STRING_PARAMETER
      ensures |number| > 0 && !Readable(number) ==>
        r == null && thrown != null && thrown.GetErrorMessage() == ILLEGAL_STRING_PARAMETER
      ensures Readable(number) ==> thrown == null && r != null && fresh(r) && fresh(r.bytes)
      ensures Readable(number) ==> r != null && r.Sound() && r.Value() == ParsedValue(number)
    {
      r := null;
      if |number| == 0 {
        thrown := new BigIntegerException(EMPTY_STRING_PARAMETER);
        return;
      }
      var digits, negative := CopyUnsigned(number);
      var legal := ScanDigits(digits);
      if !legal {
        thrown := new BigIntegerException(ILLEGAL_STRING_PARAMETER);
        return;
      }
      r := FromDigits(digits, negative);
      thrown := null;
    }

    /** The string constructor past its checks: the bits of the digits,
        packed into bytes, negated when `negative`. */
    static method FromDigits(digits: array<char>, negative: bool) returns (r: BigInteger)
      requires digits.Length >= 1 && AllDigits(digits[..])
      modifies digits
      ensures fresh(r) && fresh(r.bytes) && r.Sound()
      ensures r.Value() == if negative then -DecimalValue(old(digits[..])) else DecimalValue(old(digits[..]))
    {
      var bits := CollectBits(digits);
      var buffer := PackBits(bits);
      r := new BigInteger.FromMagnitude(buffer);
      if negative {
        r.Negate();
      }
    }

    /** The fields the string constructor sets before it negates: the
        whole buffer is the window, and the sign is clear. */
    constructor FromMagnitude(buffer: array<Byte>)
      requires buffer.Length >= 1 && Unpadded(buffer[..])
      ensures Sound() && !neg && bytes == buffer && size == capacity == buffer.Length
      ensures Value() == BE(buffer[..])
    {
      neg, size, capacity, bytes := false, buffer.Length, buffer.Length, buffer;
      new;
      assert Window() == buffer[..];
    }

    /** `to_string`: the decimal text of the value, with a '-' in front of
        a negative value. */
    method ToString() returns (s: string)
      requires Sound()
      ensures s == DecimalString(Value())
    {
      var ans := MagnitudeDigits(this);
      ValSign(neg, Window());
      DigitsCanonical(if Value() < 0 then -Value() else Value());
      if neg && ans != "0" {
        ans := "-" + ans;
      }
      s := ans;
    }

    /** The digits `to_string` writes before the sign: those of the
        absolute value. */
    static method MagnitudeDigits(a: BigInteger) returns (ans: string)
      requires a.Sound()
      ensures ans == Digits(if a.Value() < 0 then -a.Value() else a.Value())
    {
      var curr := Magnitude(a);
      ans := DecimalDigits(curr.bytes, curr.capacity - curr.size);
    }

    /** The copy `to_string` works on: negated when the value is negative,
        so that its window reads the absolute value unsigned. */
    static method Magnitude(a: BigInteger) returns (curr: BigInteger)
      requires a.Sound()
      ensures fresh(curr) && fresh(curr.bytes) && curr.Formed() && !curr.neg
      ensures curr.Value() == BE(curr.Window())
      ensures curr.Value() == if a.Value() < 0 then -a.Value() else a.Value()
    {
      curr := new BigInteger.Copy(a);
      ValSign(a.neg, a.Window());
      if curr.neg {
        curr.NegateSound(a.Value());
      }
    }

    /** `negate` on a state in normal form: the value's negation. */
    method NegateSound(ghost v: int)
      requires Sound() && Value() == v
      modifies this, bytes
      ensures bytes == old(bytes) && Sound() && Value() == -v
      ensures v != 0 ==> neg == !old(neg)
    {
      Negate();
    }

    /** Conversion from a 64-bit `long`: its two's-complement bytes in an
        8-byte buffer, then normalized. */
    constructor FromLong(number: int)
      requires -(LONG_RANGE / 2) <= number < LONG_RANGE / 2
      ensures Sound() && fresh(bytes)
      ensures Value() == number
      ensures Canonical(neg, Window())
    {
      var u := number % LONG_RANGE;
      var buffer := LongBytes(u);
      neg := u >= LONG_RANGE / 2;
      size, capacity := BYTES_IN_LONG, BYTES_IN_LONG;
      bytes := buffer;
      new;
      assert Window() == buffer[..];
      LongWindow(number, Window());
      Normalize();
    }

    /** The loop of the `long` constructor: the eight bytes of `u`, last byte
        first, each the low byte of what is left. */
    static method LongBytes(u: nat) returns (a: array<Byte>)
      requires u < LONG_RANGE
      ensures fresh(a) && a.Length == BYTES_IN_LONG
      ensures BE(a[..]) == u
    {
      a := new Byte[BYTES_IN_LONG];
      var n := u;
      var i := BYTES_IN_LONG - 1;
      Pow256Eight();
      while i >= 0
        invariant -1 <= i < BYTES_IN_LONG && 0 <= n
        invariant n * Pow256(BYTES_IN_LONG - 1 - i) + BE(a[i + 1..]) == u
        invariant n < Pow256(i + 1)
      {
        ghost var tail := a[i + 1..];
        LongStep(u, n, i, tail);
        a[i] := n % 256;
        assert a[i..] == [n % 256] + tail;
        n := n / 256;
        i := i - 1;
      }
      assert a[..] == a[0..];
    }

    /** The widening of `operator<<=` and `operator+=`: doubles the buffer
        until the (already enlarged) window fits; the last `m` bytes of the
        buffer stay at its end. */
    method GrowToFit(ghost m: int)
      requires Allocated() && 0 <= m <= capacity
      modifies this
      ensures Formed() && size == old(size) && neg == old(neg)
      ensures fresh(bytes) || bytes == old(bytes)
      ensures m <= capacity && bytes[capacity - m..] == old(bytes[capacity - m..])
    {
      ghost var t := bytes[capacity - m..];
      while size > capacity
        invariant Allocated() && size == old(size) && neg == old(neg)
        invariant fresh(bytes) || bytes == old(bytes)
        invariant m <= capacity && bytes[capacity - m..] == t
        decreases size - capacity
      {
        ghost var ob := bytes[..];
        ghost var oc := capacity;
        AllocateMore();
        SuffixOfSuffix(bytes[..], oc, ob, capacity - m, oc - m);
      }
    }

    /** Widens the window to `n` bytes and writes the filler byte into every
        byte the window gains, so that the value stays. */
    method Widen(n: int)
      requires Valid() && size < n
      modifies this, bytes
      ensures Valid() && neg == old(neg) && size == n
      ensures fresh(bytes) || bytes == old(bytes)
      ensures Window() == Extend(old(Window()), Filler(neg), n)
      ensures Value() == old(Value())
    {
      ghost var w := Window();
      ExtendValue(neg, w, n);
      WidenWindow(n, w);
    }

    /** The bytes of `Widen`: the window grows to `n` bytes, filled in
        front with the filler byte. */
    method WidenWindow(n: int, ghost w: seq<Byte>)
      requires Formed() && size < n && w == Window()
      modifies this, bytes
      ensures Formed() && neg == old(neg) && size == n
      ensures fresh(bytes) || bytes == old(bytes)
      ensures Window() == Extend(w, Filler(neg), n)
    {
      var oldSize := size;
      size := n;
      GrowToFit(oldSize);
      FillFront(bytes, capacity - size, capacity - oldSize, Filler(neg), n, w);
    }

    /** Writes `f` into `a[from..to]` and keeps every other byte; `n` is the
        length of the widened window. */
    static method FillFront(a: array<Byte>, from: int, to: int, f: Byte, ghost n: int, ghost src: seq<Byte>)
      requires 0 <= from <= to <= a.Length && n == a.Length - from && a[to..] == src
      modifies a
      ensures a[from..] == Extend(src, f, n)
      ensures a[..from] == old(a[..from])
    {
      var i := from;
      while i < to
        invariant from <= i <= to
        invariant forall k :: 0 <= k < from || i <= k < a.Length ==> a[k] == old(a[k])
        invariant forall k :: from <= k < i ==> a[k] == f
      {
        a[i] := f;
        i := i + 1;
      }
      ghost var e := Extend(src, f, n);
      forall k | from <= k < a.Length
        ensures a[k] == e[k - from]
      {
        ExtendAt(src, f, n, k - from);
      }
      assert a[from..] == e;
    }

    /** `operator+=`: widens this window to the length of `b`'s, adds `b`'s
        window, widened by its filler, byte by byte with carry, fixes the
        sign and the front byte by the sign rule, and normalizes. `b` may be
        this very object. */
    method AddAssign(b: BigInteger)
      requires Valid() && b.Valid()
      requires b != this ==> b.bytes != bytes
      modifies this, bytes
      ensures Valid() && (fresh(bytes) || bytes == old(bytes))
      ensures Value() == old(Value()) + old(b.Value())
      ensures old(Sound()) && old(b.Sound()) ==> Sound()
    {
      ghost var sound := Sound() && b.Sound();
      ghost var x0 := Window();
      if size < b.size {
        Widen(b.size);
      } else {
        ExtendNone(x0, Filler(neg));
      }
      AddWider(b, x0, sound);
    }

    /** `operator+=` once this window is at least as long as `b`'s: `x0` is
        the window before it was widened by its filler. */
    method AddWider(b: BigInteger, ghost x0: seq<Byte>, ghost sound: bool)
      requires Valid() && b.Valid() && b.size <= size
      requires b != this ==> b.bytes != bytes
      requires 1 <= |x0| <= size && (size == |x0| || size == b.size)
      requires ZeroRule(neg, x0) && Window() == Extend(x0, Filler(neg), size)
      requires sound ==> Unpadded(x0) && Unpadded(b.Window())
      modifies this, bytes
      ensures Valid() && (fresh(bytes) || bytes == old(bytes))
      ensures Value() == Val(old(neg), x0) + old(b.Value())
      ensures sound ==> Sound()
    {
      ghost var negA, negB, x, y := neg, b.neg, Window(), b.Window();
      ghost var e := Extend(y, Filler(negB), size);
      ghost var rneg, rw := AddResult(negA, negB, x, e).0, AddResult(negA, negB, x, e).1;
      AddWindowsFacts(negA, negB, x0, y, size, sound, rneg, rw);
      AddSigned(b, rneg, rw);
      Normalize();
    }

    /** The loop of `operator+=` and the sign rule after it: the new sign and
        window are the ones `AddResult` describes. */
    method AddSigned(b: BigInteger, ghost rneg: bool, ghost rw: seq<Byte>)
      requires Valid() && b.Valid() && b.size <= size
      requires b != this ==> b.bytes != bytes
      requires rneg == AddResult(neg, b.neg, Window(), Extend(b.Window(), Filler(b.neg), size)).0
      requires rw == AddResult(neg, b.neg, Window(), Extend(b.Window(), Filler(b.neg), size)).1
      modifies this, bytes
      ensures Formed() && (fresh(bytes) || bytes == old(bytes))
      ensures neg == rneg && Window() == rw
    {
      ghost var x, e := Window(), Extend(b.Window(), Filler(b.neg), size);
      var carry := AddWindow(b);
      ApplySignRule(b.neg, carry, x, e, rneg, rw);
    }

    /** The loop of `operator+=` on this object's window. */
    method AddWindow(b: BigInteger) returns (carry: int)
      requires Valid() && b.Valid() && b.size <= size
      requires b != this ==> b.bytes != bytes
      modifies bytes
      ensures Formed()
      ensures Window() == SumWindow(old(Window()), Extend(old(b.Window()), Filler(b.neg), size))
      ensures carry == CarryInto(old(Window()), Extend(old(b.Window()), Filler(b.neg), size), 0)
    {
      carry := AddInto(bytes, capacity - size, b.bytes, b.capacity - b.size, b.FillerByte());
    }

    /** The sign rule that follows the loop of `operator+=`, given the two
        windows `x` and `e` that were added. */
    method ApplySignRule(bneg: bool, carry: int, ghost x: seq<Byte>, ghost e: seq<Byte>,
                         ghost rneg: bool, ghost rw: seq<Byte>)
      requires Formed() && |x| == |e| == size
      requires Window() == SumWindow(x, e) && carry == CarryInto(x, e, 0)
      requires rneg == AddResult(neg, bneg, x, e).0 && rw == AddResult(neg, bneg, x, e).1
      modifies this, bytes
      ensures Formed() && (fresh(bytes) || bytes == old(bytes))
      ensures neg == rneg && Window() == rw
    {
      if neg == bneg {
        if neg {
          if carry > 0 {
            PushFront(MAX_BYTE);
          } else {
            PushFront(MAX_BYTE - 1);
          }
        } else if carry > 0 {
          PushFront(MIN_BYTE + 1);
        }
      } else {
        neg := carry == 0;
      }
    }

    /** The buffer exists and the window is not empty; the window may
        momentarily run past the front of the buffer, as it does in
        `push_front` and in the widening loops just before `allocate_more`. */
    ghost predicate Allocated()
      reads this
    {
      1 <= size && 1 <= capacity == bytes.Length
    }

    /** Doubles the buffer; the new front half is filled with the filler byte
        and the old buffer moves to the back half. */
    method AllocateMore()
      requires Allocated()
      modifies this
      ensures Allocated() && fresh(bytes)
      ensures capacity == 2 * old(capacity) && size == old(size) && neg == old(neg)
      ensures AllFiller(neg, bytes[..old(capacity)])
      ensures bytes[old(capacity)..] == old(bytes[..])
    {
      var newAlloc := GrownBuffer(bytes, Filler(neg));
      bytes := newAlloc;
      capacity := 2 * capacity;
    }

    /** The two loops of `allocate_more`: a buffer twice as long whose front
        half is `f` and whose back half is a copy of `src`. */
    static method GrownBuffer(src: array<Byte>, f: Byte) returns (a: array<Byte>)
      ensures fresh(a) && a.Length == 2 * src.Length
      ensures forall k :: 0 <= k < src.Length ==> a[k] == f
      ensures a[src.Length..] == src[..]
    {
      var cap := src.Length;
      a := new Byte[2 * cap];
      var i := 0;
      while i < cap
        invariant 0 <= i <= cap
        invariant forall k :: 0 <= k < i ==> a[k] == f
      {
        a[i] := f;
        i := i + 1;
      }
      while i < 2 * cap
        invariant cap <= i <= 2 * cap
        invariant forall k :: 0 <= k < cap ==> a[k] == f
        invariant forall k :: cap <= k < i ==> a[k] == src[k - cap]
      {
        a[i] := src[i - cap];
        i := i + 1;
      }
      assert a[cap..] == src[..];
    }

    /** Widens the window by one byte, growing the buffer when it is full,
        and writes `b` into the new front byte. */
    method PushFront(b: Byte)
      requires Formed()
      modifies this, bytes
      ensures Valid() && neg == old(neg) && size == old(size) + 1
      ensures fresh(bytes) || bytes == old(bytes)
      ensures Window() == [b] + old(Window())
    {
      ghost var w := Window();
      size := size + 1;
      if size > capacity {
        GrowFull(w);
      }
      WriteFront(b, w);
    }

    /** The window has just outgrown a full buffer: `allocate_more` moves
        the whole old buffer, which was the old window, to the back. */
    method GrowFull(ghost w: seq<Byte>)
      requires Allocated() && size == capacity + 1 && bytes[..] == w
      modifies this
      ensures Allocated() && size <= capacity && fresh(bytes)
      ensures size == old(size) && neg == old(neg)
      ensures bytes[capacity - size + 1..] == w
    {
      AllocateMore();
    }

    /** `*begin() = byte` after the window has grown by one in front. */
    method WriteFront(b: Byte, ghost w: seq<Byte>)
      requires 2 <= size <= capacity == bytes.Length && bytes[capacity - size + 1..] == w
      modifies bytes
      ensures Formed() && Window() == [b] + w
    {
      bytes[capacity - size] := b;
      assert bytes[capacity - size..] == [b] + w;
    }

    /** `first_significant_bit`: the position of the first bit of the window
        that differs from the sign, one less for a negative number, or the
        last position when every bit repeats the sign. */
    method FirstSignificantBit() returns (r: int)
      requires Valid()
      ensures r == FirstSigBit(neg, Window())
    {
      r := ScanSignificantBit(bytes, capacity - size, neg);
    }

    /** The scan of `first_significant_bit`, byte by byte and bit by bit
        from `start` to the end of the buffer. */
    static method ScanSignificantBit(a: array<Byte>, start: int, neg: bool) returns (r: int)
      requires 0 <= start < a.Length
      ensures r == FirstSigBit(neg, a[start..])
    {
      ghost var w := a[start..];
      var target := SignificantBit(neg);
      var i := start;
      while i < a.Length
        invariant start <= i <= a.Length
        invariant FirstBitFrom(w, target, 0) == FirstBitFrom(w, target, 8 * (i - start))
      {
        var k := ScanByte(a[i], target, w, i - start);
        if k < 8 {
          return 8 * (i - start) + k - (if neg then 1 else 0);
        }
        i := i + 1;
      }
      return 8 * (a.Length - start) - 1;
    }

    /** The inner loop of `first_significant_bit`: the bits of byte `x`,
        which is byte `index` of the window `w`, from the most significant
        down; `k` is the first equal to `target`, or 8 when none is. */
    static method ScanByte(x: Byte, target: int, ghost w: seq<Byte>, ghost index: nat) returns (k: int)
      requires index < |w| && w[index] == x
      ensures 0 <= k <= 8
      ensures k < 8 ==> FirstBitFrom(w, target, 8 * index) == 8 * index + k
      ensures k == 8 ==> FirstBitFrom(w, target, 8 * index) == FirstBitFrom(w, target, 8 * index + 8)
    {
      k := 0;
      while k < 8
        invariant 0 <= k <= 8
        invariant FirstBitFrom(w, target, 8 * index) == FirstBitFrom(w, target, 8 * index + k)
      {
        var j := 8 * index + k;
        assert j / 8 == index && j % 8 == k;
        assert BitAt(w, j) == Bit(x, k);
        if Bit(x, k) == target {
          return;
        }
        k := k + 1;
      }
    }

    /** Drops the leading bytes that only repeat the sign: the buffer and the
        value stay, the window shrinks to a suffix of itself in normal form
        (a negative window whose top bit is clear is left as it is). */
    method Normalize()
      requires Valid()
      modifies this
      ensures Valid() && bytes == old(bytes) && capacity == old(capacity) && neg == old(neg)
      ensures 1 <= size <= old(size)
      ensures Window() == old(Window())[old(size) - size..]
      ensures Value() == old(Value())
      ensures !neg ==> CanonicalNonNeg(Window())
      ensures neg && old(Window())[0] >= 128 ==> CanonicalNeg(Window())
      ensures neg && old(Window())[0] < 128 ==> size == old(size)
      ensures old(!neg || BE(Window()) != 0) ==> Unpadded(Window())
    {
      ghost var w := Window();
      var fsb := FirstSignificantBit();
      var firstByte := TruncDiv8(fsb);
      ghost var c := NormalizeEffect(neg, w);
      DropFront(firstByte, w);
      if size == 1 && bytes[capacity - 1] == 0 {
        neg := false;
      }
    }

    /** `_size -= first_byte`: the window loses its first `c` bytes. */
    method DropFront(c: int, ghost w: seq<Byte>)
      requires Formed() && w == Window() && 0 <= c < size
      modifies this
      ensures Formed() && bytes == old(bytes) && capacity == old(capacity) && neg == old(neg)
      ensures size == old(size) - c && Window() == w[c..]
    {
      size := size - c;
    }

    /** `negate`: the single zero byte is returned unchanged; any other
        window is negated in place and the sign flips. The slack is not
        touched. */
    method Negate()
      requires Valid()
      modifies this, bytes
      ensures Valid() && bytes == old(bytes) && size == old(size) && capacity == old(capacity)
      ensures Slack() == old(Slack())
      ensures old(size == 1 && bytes[capacity - 1] == 0) ==> neg == old(neg) && Window() == old(Window())
      ensures !old(size == 1 && bytes[capacity - 1] == 0) ==>
        neg == !old(neg) && Window() == NegateWindow(old(Window()))
      ensures old(size) == 1 || BE(old(Window())) != 0 ==> Value() == -old(Value())
      ensures old(Sound()) ==> Sound()
    {
      if size == 1 && bytes[capacity - 1] == 0 {
        return;
      }
      ghost var w := Window();
      NegateKeepsForm(neg, w);
      NegateWindowInPlace(w);
    }

    /** The bytes of `negate`: the window is negated in place and the sign
        flag flipped; the slack is left as it is. */
    method NegateWindowInPlace(ghost w: seq<Byte>)
      requires Formed() && w == Window()
      modifies this, bytes
      ensures Formed() && bytes == old(bytes) && size == old(size) && capacity == old(capacity)
      ensures Slack() == old(Slack())
      ensures neg == !old(neg) && Window() == NegateWindow(w)
    {
      NegateBytes(bytes, capacity - size, neg);
      neg := !neg;
    }

    /** `operator>>=`: an arithmetic shift, division by 2^shift rounding
        towards minus infinity, by whole bytes and then by the remaining
        bits, filling with the filler byte; then `normalize`. */
    method ShiftRight(shift: int)
      requires Valid() && 0 <= shift < UINT_RANGE
      modifies this, bytes
      ensures Valid() && bytes == old(bytes)
      ensures Value() == old(Value()) / Pow2(shift)
      ensures old(Sound()) ==> Sound()
    {
      ghost var w := Window();
      ShiftRightFacts(neg, w, shift);
      ShiftWindowRight(shift);
      Normalize();
    }

    /** The two loops of `operator>>=` on this window. */
    method ShiftWindowRight(shift: nat)
      requires Valid()
      modifies bytes
      ensures Formed()
      ensures Window() == ShrBits(ShrBytes(old(Window()), shift / 8, Filler(neg)), shift % 8, Filler(neg))
    {
      var f := FillerByte();
      ShiftBytesRight(bytes, capacity - size, shift / 8, f);
      ShiftBitsRight(bytes, capacity - size, shift % 8, f);
    }

    /** `operator<<=`: multiplication by 2^shift. The window first grows by
        enough bytes for the bits that would leave it, counted from the
        first significant bit, with the filler byte in the new bytes; then
        the bytes and bits move towards the front, and the result is
        normalized. The growth uses the unsigned count itself (as written,
        it is cast to `int` first; see Findings.GrowthAsWritten). */
    method ShiftLeft(shift: int)
      requires Valid() && 0 <= shift < UINT_RANGE
      modifies this, bytes
      ensures Sound() && (fresh(bytes) || bytes == old(bytes))
      ensures Value() == old(Value()) * Pow2(shift)
    {
      ghost var w := Window();
      GrowForShift(shift);
      ShiftLeftFacts(neg, w, shift, Window());
      ShiftWindowLeft(shift);
      Normalize();
    }

    /** The growth at the start of `operator<<=`: by the bytes that the
        bits moving past the first byte need, filled with the filler. */
    method GrowForShift(shift: nat)
      requires Valid()
      modifies this, bytes
      ensures Valid() && neg == old(neg) && (fresh(bytes) || bytes == old(bytes))
      ensures Window() == Extend(old(Window()), Filler(neg), old(size) + Growth(old(FirstSigBit(neg, Window())), shift))
    {
      ghost var w := Window();
      var fsb := FirstSignificantBit();
      var newGreatestBit := fsb - shift;
      if newGreatestBit < 0 {
        Widen(size + (-newGreatestBit - 1) / BITS_IN_BYTE + 1);
      } else {
        ExtendNone(w, Filler(neg));
      }
    }

    /** The two loops of `operator<<=` on this window. */
    method ShiftWindowLeft(shift: nat)
      requires Formed()
      modifies bytes
      ensures Formed()
      ensures Window() == ShlBits(ShlBytes(old(Window()), shift / 8), shift % 8)
    {
      ShiftBytesLeft(bytes, capacity - size, shift / 8);
      ShiftBitsLeft(bytes, capacity - size, shift % 8);
    }

    /** `compare`, corrected (see Comparison.CompareWindows): the sign of
        the result is the sign of `a - b`. */
    static function Compare(a: BigInteger, b: BigInteger): (r: int)
      reads a, a.bytes, b, b.bytes
      requires a.Formed() && b.Formed()
      ensures Sign(r) == Sign(a.Value() - b.Value())
    {
      CompareWindowsSign(a.neg, a.Window(), b.neg, b.Window());
      CompareWindows(a.neg, a.Window(), b.neg, b.Window())
    }

    /** `operator-=`: the argument is taken by value, negated and added. */
    method SubAssign(b: BigInteger)
      requires Valid() && b.Sound()
      requires b != this ==> b.bytes != bytes
      modifies this, bytes
      ensures Valid() && (fresh(bytes) || bytes == old(bytes))
      ensures Value() == old(Value()) - old(b.Value())
      ensures old(Sound()) ==> Sound()
    {
      var c := Negated(b);
      AddAssign(c);
    }

    /** `operator*=`: a product with itself multiplies by a copy. */
    method MulAssign(b: BigInteger)
      requires Sound() && b.Sound()
      requires b != this ==> b.bytes != bytes
      modifies this, bytes
      ensures Sound() && (fresh(bytes) || bytes == old(bytes))
      ensures Value() == old(Value()) * old(b.Value())
    {
      ghost var x, y := Value(), b.Value();
      if b == this {
        var c := new BigInteger.Copy(b);
        MulBy(c, x, y);
      } else {
        MulBy(b, x, y);
      }
    }

    /** `operator*=` by another object: a negative factor is negated, the
        product taken and negated back. */
    method MulBy(b: BigInteger, ghost x: int, ghost y: int)
      requires Sound() && b.Sound() && b != this && b.bytes != bytes
      requires Value() == x && b.Value() == y
      modifies this, bytes
      ensures Sound() && (fresh(bytes) || bytes == old(bytes))
      ensures Value() == x * y
    {
      if b.neg {
        var c := Negated(b);
        MulNonNegative(c);
        ghost var p := Value();
        assert p == x * -y;
        Negate();
        assert Value() == -p;
        MulNeg(x, y);
      } else {
        MulNonNegative(b);
      }
    }

    /** `operator*=` by a non-negative factor: this object is made
        non-negative, copied into `shiftedX` and cleared by subtracting it
        from itself; the copy, doubled at every bit of `b`, is added at
        every set bit; the sign is restored at the end. */
    method MulNonNegative(b: BigInteger)
      requires Sound() && b.Sound() && !b.neg && b != this && b.bytes != bytes
      modifies this, bytes
      ensures Sound() && (fresh(bytes) || bytes == old(bytes))
      ensures Value() == old(Value()) * b.Value()
    {
      ghost var x, y := Value(), b.Value();
      var negative := false;
      if neg {
        negative := true;
        Negate();
      }
      ghost var m := Value();
      assert m == if negative then -x else x;
      MulMagnitude(b);
      assert Value() == m * y;
      if negative {
        ghost var p := Value();
        Negate();
        assert Value() == -p;
        MulNeg(x, y);
      }
      assert b.Value() == y;
    }

    /** The middle of `operator*=`: `shiftedX` copies this object, which is
        then cleared by subtracting itself, and the product is summed. */
    method MulMagnitude(b: BigInteger)
      requires Sound() && b.Sound() && !b.neg && b != this && b.bytes != bytes
      modifies this, bytes
      ensures Sound() && (fresh(bytes) || bytes == old(bytes))
      ensures Value() == old(Value()) * b.Value()
    {
      ghost var x := Value();
      var wb := b.Window();
      assert b.Value() == BE(wb);
      var shiftedX := ClearToCopy();
      AddProduct(shiftedX, wb);
      assert b.Window() == wb;
    }

    /** The start of `operator*=`: `shiftedX` takes a copy of this object,
        which is then set to zero by subtracting itself. */
    method ClearToCopy() returns (shiftedX: BigInteger)
      requires Sound()
      modifies this, bytes
      ensures Sound() && (fresh(bytes) || bytes == old(bytes)) && Value() == 0
      ensures fresh(shiftedX) && fresh(shiftedX.bytes) && shiftedX.Sound()
      ensures shiftedX.Value() == old(Value()) && shiftedX.bytes != bytes
    {
      shiftedX := new BigInteger.Copy(this);
      SubAssign(this);
    }

    /** The outer loop of `operator*=`: the bytes of the factor's window
        `wb` from the last to the first, eight bits each; this object gains
        `shiftedX * BE(wb)`. */
    method AddProduct(shiftedX: BigInteger, wb: seq<Byte>)
      requires Sound() && shiftedX.Sound()
      requires this != shiftedX && bytes != shiftedX.bytes
      modifies this, bytes, shiftedX, shiftedX.bytes
      ensures Sound() && (fresh(bytes) || bytes == old(bytes))
      ensures Value() == old(Value()) + old(shiftedX.Value()) * BE(wb)
    {
      ghost var v0, s0 := Value(), shiftedX.Value();
      ghost var read, weight := 0, 1;
      var i := |wb| - 1;
      assert wb[|wb|..] == [];
      while i >= 0
        invariant -1 <= i < |wb|
        invariant Sound() && shiftedX.Sound() && bytes != shiftedX.bytes
        invariant fresh(bytes) || bytes == old(bytes)
        invariant fresh(shiftedX.bytes) || shiftedX.bytes == old(shiftedX.bytes)
        invariant read == BE(wb[i + 1..]) && weight == Pow256(|wb| - 1 - i)
        invariant Value() == v0 + s0 * read
        invariant shiftedX.Value() == s0 * weight
      {
        AddProductStep(shiftedX, wb, i, v0, s0, read, weight);
        read, weight := BE(wb[i..]), Pow256(|wb| - i);
        i := i - 1;
      }
      assert wb[0..] == wb;
    }

    /** One turn of the outer loop of `operator*=`: byte `i` of the factor,
        read from the last, adds its multiple of `shiftedX`, which moves up
        one byte. */
    method AddProductStep(shiftedX: BigInteger, wb: seq<Byte>, i: nat,
                          ghost v0: int, ghost s0: int, ghost read: int, ghost weight: int)
      requires i < |wb| && read == BE(wb[i + 1..]) && weight == Pow256(|wb| - 1 - i)
      requires Sound() && shiftedX.Sound()
      requires this != shiftedX && bytes != shiftedX.bytes
      requires Value() == v0 + s0 * read && shiftedX.Value() == s0 * weight
      modifies this, bytes, shiftedX, shiftedX.bytes
      ensures Sound() && shiftedX.Sound() && bytes != shiftedX.bytes
      ensures fresh(bytes) || bytes == old(bytes)
      ensures fresh(shiftedX.bytes) || shiftedX.bytes == old(shiftedX.bytes)
      ensures Value() == v0 + s0 * BE(wb[i..])
      ensures shiftedX.Value() == s0 * Pow256(|wb| - i)
    {
      var x := wb[i];
      SplitFirst(wb, i, weight);
      ghost var before, sx := Value(), shiftedX.Value();
      AddShiftedBits(shiftedX, x);
      assert Value() == before + sx * x && shiftedX.Value() == sx * 256;
      MulByteStep(s0, x, weight, read);
    }

    /** The inner loop of `operator*=`: the bits of one byte `x` of the
        factor from the least significant up; `shiftedX` is added at every
        set bit and doubled at every bit. */
    method AddShiftedBits(shiftedX: BigInteger, x: Byte)
      requires Sound() && shiftedX.Sound()
      requires shiftedX != this && shiftedX.bytes != bytes
      modifies this, bytes, shiftedX, shiftedX.bytes
      ensures Sound() && shiftedX.Sound() && shiftedX.bytes != bytes
      ensures fresh(bytes) || bytes == old(bytes)
      ensures fresh(shiftedX.bytes) || shiftedX.bytes == old(shiftedX.bytes)
      ensures Value() == old(Value()) + old(shiftedX.Value()) * x
      ensures shiftedX.Value() == old(shiftedX.Value()) * 256
    {
      ghost var v0, s0 := Value(), shiftedX.Value();
      ghost var low, weight := 0, 1;
      var k := 0;
      while k < BITS_IN_BYTE
        invariant 0 <= k <= 8
        invariant Sound() && shiftedX.Sound() && shiftedX.bytes != bytes
        invariant fresh(bytes) || bytes == old(bytes)
        invariant fresh(shiftedX.bytes) || shiftedX.bytes == old(shiftedX.bytes)
        invariant low == x % Pow2(k) && weight == Pow2(k)
        invariant Value() == v0 + s0 * low && shiftedX.Value() == s0 * weight
      {
        low, weight := AddBit(shiftedX, x, k, v0, s0, low, weight);
        k := k + 1;
      }
      WholeByte(x, low, weight);
    }

    /** After eight bits the low bits of `x` are all of `x`. */
    static lemma WholeByte(x: Byte, low: int, weight: int)
      requires low == x % Pow2(8) && weight == Pow2(8)
      ensures low == x && weight == 256
    {
      Pow2Small();
    }

    /** One bit of the inner loop of `operator*=`: `shiftedX` is added when
        bit `k` of `x` (its mask `1 << k`) is set, and doubled; the sum
        then holds the low `k + 1` bits of `x` times the first `shiftedX`. */
    method AddBit(shiftedX: BigInteger, x: Byte, k: nat, ghost v0: int, ghost s0: int,
                  ghost low: int, ghost weight: int)
      returns (ghost low': int, ghost weight': int)
      requires Sound() && shiftedX.Sound()
      requires shiftedX != this && shiftedX.bytes != bytes
      requires low == x % Pow2(k) && weight == Pow2(k)
      requires Value() == v0 + s0 * low && shiftedX.Value() == s0 * weight
      modifies this, bytes, shiftedX, shiftedX.bytes
      ensures Sound() && shiftedX.Sound() && shiftedX.bytes != bytes
      ensures fresh(bytes) || bytes == old(bytes)
      ensures fresh(shiftedX.bytes) || shiftedX.bytes == old(shiftedX.bytes)
      ensures low' == x % Pow2(k + 1) && weight' == Pow2(k + 1)
      ensures Value() == v0 + s0 * low' && shiftedX.Value() == s0 * weight'
    {
      low', weight' := x % Pow2(k + 1), Pow2(k + 1);
      var mask := Pow2(k);
      MulBitStep(x, mask, s0);
      ghost var v, sx := Value(), shiftedX.Value();
      if (x / mask) % 2 == 1 {
        AddAssign(shiftedX);
        assert Value() == v + sx;
      }
      assert shiftedX.Value() == sx && Value() == v0 + s0 * (x % Pow2(k + 1));
      shiftedX.ShiftLeft(1);
    }

    /** Copy assignment: nothing happens for self-assignment; otherwise the
        fields are copied and the buffer is a fresh copy of the other's. */
    method Assign(a: BigInteger)
      requires a.Valid()
      modifies this
      ensures Valid() && neg == a.neg && size == a.size && capacity == a.capacity
      ensures a == this ==> bytes == old(bytes)
      ensures a == this ==> neg == old(neg) && size == old(size) && capacity == old(capacity)
      ensures a != this ==> fresh(bytes)
      ensures bytes[..] == a.bytes[..] && Value() == a.Value()
    {
      if a == this {
        return;
      }
      var copied := CopyOf(a.bytes);
      neg, size, capacity, bytes := a.neg, a.size, a.capacity, copied;
      assert Window() == a.Window();
    }

    /** `operator/=`: division by itself divides by a copy. A divisor that
        is the single zero byte raises "Division by zero" and changes
        nothing. A positive divisor gives the quotient rounded towards minus
        infinity; a negative divisor `b` gives `-(this / -b)`. */
    method DivAssign(b: BigInteger) returns (thrown: BigIntegerException?)
      requires Sound() && b.Sound()
      requires b != this ==> b.bytes != bytes
      modifies this, bytes
      ensures Sound() && (fresh(bytes) || bytes == old(bytes))
      ensures old(b.Value()) == 0 ==> thrown != null && thrown.GetErrorMessage() == DIVISION_BY_ZERO
      ensures old(b.Value()) == 0 ==> Value() == old(Value()) && bytes == old(bytes)
      ensures old(b.Value()) == 0 ==> neg == old(neg) && size == old(size) && capacity == old(capacity)
      ensures old(b.Value()) == 0 ==> bytes[..] == old(bytes[..])
      ensures old(b.Value()) != 0 ==> thrown == null
      ensures old(b.Value()) > 0 ==> Value() == old(Value()) / old(b.Value())
      ensures old(b.Value()) < 0 ==> Value() == -(old(Value()) / -old(b.Value()))
    {
      if b == this {
        thrown := DivByCopy(Value());
      } else {
        thrown := DivBy(b, Value(), b.Value());
      }
    }

    /** `operator/=` with itself as the divisor: the divisor is copied
        first, and a non-zero value divided by itself gives one. */
    method DivByCopy(ghost x: int) returns (thrown: BigIntegerException?)
      requires Sound() && Value() == x
      modifies this, bytes
      ensures Sound() && (fresh(bytes) || bytes == old(bytes))
      ensures x == 0 ==> thrown != null && thrown.GetErrorMessage() == DIVISION_BY_ZERO
      ensures x == 0 ==> Value() == x && bytes == old(bytes)
      ensures x == 0 ==> neg == old(neg) && size == old(size) && capacity == old(capacity)
      ensures x == 0 ==> bytes[..] == old(bytes[..])
      ensures x != 0 ==> thrown == null
      ensures x > 0 ==> Value() == x / x
      ensures x < 0 ==> Value() == -(x / -x)
    {
      var c := new BigInteger.Copy(this);
      thrown := DivBy(c, x, x);
    }

    /** `operator/=` by another object, of value `y`, from the value `x`. */
    method DivBy(b: BigInteger, ghost x: int, ghost y: int) returns (thrown: BigIntegerException?)
      requires Sound() && b.Sound() && b != this && b.bytes != bytes
      requires Value() == x && b.Value() == y
      modifies this, bytes
      ensures Sound() && (fresh(bytes) || bytes == old(bytes))
      ensures y == 0 ==> thrown != null && thrown.GetErrorMessage() == DIVISION_BY_ZERO
      ensures y == 0 ==> Value() == x && bytes == old(bytes)
      ensures y == 0 ==> neg == old(neg) && size == old(size) && capacity == old(capacity)
      ensures y == 0 ==> bytes[..] == old(bytes[..])
      ensures y != 0 ==> thrown == null
      ensures y > 0 ==> Value() == x / y
      ensures y < 0 ==> Value() == -(x / -y)
    {
      ZeroWindow(b.neg, b.Window());
      if b.size == 1 && b.bytes[b.capacity - 1] == 0 {
        thrown := new BigIntegerException(DIVISION_BY_ZERO);
        return;
      }
      thrown := null;
      DivByNonZero(b, x, y);
    }

    /** `operator/=` past the zero test: a negative divisor is negated and
        the quotient negated back. */
    method DivByNonZero(b: BigInteger, ghost x: int, ghost y: int)
      requires Sound() && b.Sound() && b != this && b.bytes != bytes
      requires Value() == x && b.Value() == y != 0
      modifies this, bytes
      ensures Sound() && (fresh(bytes) || bytes == old(bytes))
      ensures y > 0 ==> Value() == x / y
      ensures y < 0 ==> Value() == -(x / -y)
    {
      ValSign(b.neg, b.Window());
      if b.neg {
        var c := Negated(b);
        assert c.Value() == -y && Value() == x;
        DivByPositive(c, x, -y);
        Negate();
      } else {
        DivByPositive(b, x, y);
      }
    }

    /** `operator/=` by a positive divisor. A negative dividend is negated,
        divided, and the quotient raised by one when it falls short, before
        it is negated back: rounding towards minus infinity. */
    method DivByPositive(b: BigInteger, ghost x: int, ghost y: int)
      requires Sound() && b.Sound() && b != this && b.bytes != bytes
      requires Value() == x && b.Value() == y > 0
      modifies this, bytes
      ensures Sound() && (fresh(bytes) || bytes == old(bytes))
      ensures Value() == x / y
    {
      if neg {
        DivNegativeByPositive(b, x, y);
      } else {
        var ans := DividePositive(this, b);
        Assign(ans);
      }
    }

    /** The negative dividend of `operator/=`: its magnitude `m = -x` is
        divided, the quotient raised by one when its product with `b`
        falls short of `m`, and negated back, which is `x / y` rounded
        towards minus infinity. */
    method DivNegativeByPositive(b: BigInteger, ghost x: int, ghost y: int)
      requires Sound() && b.Sound() && b != this && b.bytes != bytes
      requires Value() == x < 0 && b.Value() == y > 0
      modifies this, bytes
      ensures Sound() && (fresh(bytes) || bytes == old(bytes))
      ensures Value() == x / y
    {
      Negate();
      var ans := RaisedQuotient(this, b, -x, y);
      Assign(ans);
      Negate();
    }

    /** `divide_positive(a, b)`, raised by one when its product with `b`
        is less than `a`: the quotient of `a` by `b` rounded up, whose
        negation is `-a / b`. */
    static method RaisedQuotient(a: BigInteger, b: BigInteger, ghost m: int, ghost y: int) returns (ans: BigInteger)
      requires a.Sound() && b.Sound() && a.Value() == m > 0 && b.Value() == y > 0
      ensures fresh(ans) && fresh(ans.bytes) && ans.Sound()
      ensures -ans.Value() == (-m) / y
    {
      ans := DividePositive(a, b);
      RaiseIfShort(ans, a, b, m, y);
    }

    /** The correction of `operator/=` for a negative dividend: `ans` is
        raised by one when `ans * b < a`. */
    static method RaiseIfShort(ans: BigInteger, a: BigInteger, b: BigInteger, ghost m: int, ghost y: int)
      requires a.Sound() && b.Sound() && ans.Sound() && a.Value() == m > 0 && b.Value() == y > 0
      requires ans != a && ans != b && ans.bytes != a.bytes && ans.bytes != b.bytes
      requires ans.Value() == m / y
      modifies ans, ans.bytes
      ensures ans.Sound() && (fresh(ans.bytes) || ans.bytes == old(ans.bytes))
      ensures -ans.Value() == (-m) / y
    {
      ghost var q0 := ans.Value();
      NegatedFloor(m, y, q0);
      var product := Times(ans, b);
      if Less(product, a) {
        Increment(ans);
      }
    }

    /** `divide_positive`: the quotient of `a >= 0` by `b > 0`, by
        recursion on `b` doubled until it passes `a`. */
    static method DividePositive(a: BigInteger, b: BigInteger) returns (q: BigInteger)
      requires a.Sound() && b.Sound() && a.Value() >= 0 && b.Value() > 0
      ensures fresh(q) && fresh(q.bytes) && q.Sound()
      ensures q.Value() == a.Value() / b.Value()
    {
      q := DivideFrom(a, b, a.Value(), b.Value());
    }

    /** The recursion of `divide_positive`, on the values `x` and `y` of
        its operands. */
    static method DivideFrom(a: BigInteger, b: BigInteger, ghost x: int, ghost y: int) returns (q: BigInteger)
      requires a.Sound() && b.Sound() && a.Value() == x >= 0 && b.Value() == y > 0
      ensures fresh(q) && fresh(q.bytes) && q.Sound()
      ensures q.Value() == x / y
      decreases x - y
    {
      if Compare(a, b) < 0 {
        q := new BigInteger.FromLong(0);
        SmallQuotient(x, y);
        return;
      }
      Pow2Small();
      var doubled := ShiftedLeft(b, 1);
      q := DivideFrom(a, doubled, x, y * 2);
      DoubleQuotient(a, b, q, x, y);
    }

    /** The end of `divide_positive`: the quotient by `2b` is doubled and
        raised by one when `a` minus its product with `b` is not below
        `b`. */
    static method DoubleQuotient(a: BigInteger, b: BigInteger, q: BigInteger, ghost x: int, ghost y: int)
      requires a.Sound() && b.Sound() && q.Sound() && a.Value() == x >= 0 && b.Value() == y > 0
      requires q != a && q != b && q.bytes != a.bytes && q.bytes != b.bytes
      requires q.Value() == x / (y * 2)
      modifies q, q.bytes
      ensures q.Sound() && (fresh(q.bytes) || q.bytes == old(q.bytes))
      ensures q.Value() == x / y
    {
      ghost var q0 := q.Value();
      Pow2Small();
      q.ShiftLeft(1);
      RaiseByRemainder(a, b, q, x, y, q0);
    }

    /** The test of `divide_positive`: with `q` doubled, one more when
        `a - q * b` is still at least `b`. */
    static method RaiseByRemainder(a: BigInteger, b: BigInteger, q: BigInteger, ghost x: int, ghost y: int, ghost q0: int)
      requires a.Sound() && b.Sound() && q.Sound() && a.Value() == x >= 0 && b.Value() == y > 0
      requires q != a && q != b && q.bytes != a.bytes && q.bytes != b.bytes
      requires q0 == x / (y * 2) && q.Value() == q0 * 2
      modifies q, q.bytes
      ensures q.Sound() && (fresh(q.bytes) || q.bytes == old(q.bytes))
      ensures q.Value() == x / y
    {
      ghost var q1 := q.Value();
      var remainder := RemainderAfter(a, b, q);
      DivideStep(x, y, q0, q1, q1 * y);
      if Compare(remainder, b) < 0 {
        return;
      }
      Increment(q);
    }

    /** `a - q * b`, the remainder that `divide_positive` tests. */
    static method RemainderAfter(a: BigInteger, b: BigInteger, q: BigInteger) returns (r: BigInteger)
      requires a.Sound() && b.Sound() && q.Sound()
      ensures fresh(r) && r.Sound()
      ensures r.Value() == a.Value() - q.Value() * b.Value()
    {
      var product := Times(q, b);
      r := Minus(a, product);
    }

  }



  /** Negating a window that is not the single zero byte keeps the zero
      rule for the flipped flag, keeps a window without padding free of
      it, and negates its value. */
  lemma NegateKeepsForm(neg: bool, w: seq<Byte>)
    requires |w| >= 1 && !(|w| == 1 && w[0] == 0)
    ensures |NegateWindow(w)| == |w| && ZeroRule(!neg, NegateWindow(w))
    ensures Unpadded(w) ==> Unpadded(NegateWindow(w))
    ensures Unpadded(w) ==> Val(!neg, NegateWindow(w)) == -Val(neg, w)
  {
    NegateNonZero(neg, w);
    NegateWindowBE(w);
  }

  /** The sign rules `*=` relies on for a negative operand, on plain integers. */
  lemma MulNeg(x: int, y: int)
    ensures -(x * -y) == x * y && -((-x) * y) == x * y
  {
  }

  /** One bit of the multiplier: the low `k + 1` bits of `x` are its low
      `k` bits and bit `k`, the mask test of `operator*=`. */
  lemma MulBitStep(x: nat, p: nat, s0: int)
    requires p >= 1
    ensures x % (2 * p) == x % p + ((x / p) % 2) * p
    ensures s0 * (x % (2 * p)) == s0 * (x % p) + (if (x / p) % 2 == 1 then s0 * p else 0)
    ensures (s0 * p) * 2 == s0 * (2 * p)
  {
    var q, r := x / p, x % p;
    var h, t := q / 2, q % 2;
    assert x == h * (2 * p) + (t * p + r) by {
      assert x == q * p + r;
      assert q * p == (2 * h + t) * p == h * (2 * p) + t * p;
    }
    DivPlus(h, 2 * p, t * p + r);
    assert x % (2 * p) == t * p + r;
  }

  /** One byte of the multiplier: `shiftedX` at weight `p` times byte `x`
      joins the product of the bytes after it. */
  lemma MulByteStep(s0: int, x: int, p: int, rest: int)
    ensures s0 * rest + (s0 * p) * x == s0 * (x * p + rest)
    ensures (s0 * p) * 256 == s0 * (256 * p)
  {
  }

  /** `BigInteger::BigIntegerException`: an error that carries the message
      it was constructed with. */
  class BigIntegerException {
    const errorMessage: string

    constructor(error: string)
      ensures errorMessage == error
    {
      errorMessage := error;
    }

    function GetErrorMessage(): (r: string)
      ensures r == errorMessage
    {
      errorMessage
    }
  }

  const EMPTY_STRING_PARAMETER: string := "Empty string parameter"
  const ILLEGAL_STRING_PARAMETER: string := "Illegal string parameter"
  const DIVISION_BY_ZERO: string := "Division by zero"

  // -----------------------------------------------------------------------
  // The free operators, each on a copy of its first operand

  /** `operator<<`: a copy shifted left. */
  method ShiftedLeft(a: BigInteger, shift: int) returns (r: BigInteger)
    requires a.Valid() && 0 <= shift < UINT_RANGE
    ensures fresh(r) && fresh(r.bytes) && r.Sound()
    ensures r.Value() == a.Value() * Pow2(shift)
  {
    r := new BigInteger.Copy(a);
    r.ShiftLeft(shift);
  }

  /** `operator>>`: a copy shifted right. */
  method ShiftedRight(a: BigInteger, shift: int) returns (r: BigInteger)
    requires a.Valid() && 0 <= shift < UINT_RANGE
    ensures fresh(r) && fresh(r.bytes) && r.Valid()
    ensures r.Value() == a.Value() / Pow2(shift)
    ensures a.Sound() ==> r.Sound()
  {
    r := new BigInteger.Copy(a);
    r.ShiftRight(shift);
  }

  /** Binary `operator+`. */
  method Plus(a: BigInteger, b: BigInteger) returns (r: BigInteger)
    requires a.Valid() && b.Valid()
    ensures fresh(r) && fresh(r.bytes) && r.Valid()
    ensures r.Value() == a.Value() + b.Value()
    ensures a.Sound() && b.Sound() ==> r.Sound()
  {
    r := PlusOf(a, b, a.Value(), b.Value(), a.Sound() && b.Sound());
  }

  /** `operator+` on the values `x` and `y` of its operands.
      Its contract speaks of the ghost values only, so the caller needs no
      reasoning about the objects it leaves alone. */
  method PlusOf(a: BigInteger, b: BigInteger, ghost x: int, ghost y: int, ghost sound: bool)
    returns (r: BigInteger)
    requires a.Valid() && b.Valid() && a.Value() == x && b.Value() == y
    requires sound == (a.Sound() && b.Sound())
    ensures fresh(r) && fresh(r.bytes) && r.Valid()
    ensures r.Value() == x + y && (sound ==> r.Sound())
  {
    r := new BigInteger.Copy(a);
    r.AddAssign(b);
  }

  /** Binary `operator-`. */
  method Minus(a: BigInteger, b: BigInteger) returns (r: BigInteger)
    requires a.Valid() && b.Sound()
    ensures fresh(r) && fresh(r.bytes) && r.Valid()
    ensures r.Value() == a.Value() - b.Value()
    ensures a.Sound() ==> r.Sound()
  {
    r := MinusOf(a, b, a.Value(), b.Value(), a.Sound());
  }

  /** `operator-` on the values `x` and `y` of its operands.
      Its contract speaks of the ghost values only, so the caller needs no
      reasoning about the objects it leaves alone. */
  method MinusOf(a: BigInteger, b: BigInteger, ghost x: int, ghost y: int, ghost sound: bool)
    returns (r: BigInteger)
    requires a.Valid() && b.Sound() && a.Value() == x && b.Value() == y && sound == a.Sound()
    ensures fresh(r) && fresh(r.bytes) && r.Valid()
    ensures r.Value() == x - y && (sound ==> r.Sound())
  {
    r := new BigInteger.Copy(a);
    r.SubAssign(b);
  }

  /** Binary `operator*`. */
  method Times(a: BigInteger, b: BigInteger) returns (r: BigInteger)
    requires a.Sound() && b.Sound()
    ensures fresh(r) && fresh(r.bytes) && r.Sound()
    ensures r.Value() == a.Value() * b.Value()
  {
    r := TimesOf(a, b, a.Value(), b.Value());
  }

  /** `operator*` on the values `x` and `y` of its operands.
      Its contract speaks of the ghost values only, so the caller needs no
      reasoning about the objects it leaves alone. */
  method TimesOf(a: BigInteger, b: BigInteger, ghost x: int, ghost y: int) returns (r: BigInteger)
    requires a.Sound() && b.Sound() && a.Value() == x && b.Value() == y
    ensures fresh(r) && fresh(r.bytes) && r.Sound()
    ensures r.Value() == x * y
  {
    r := new BigInteger.Copy(a);
    r.MulBy(b, x, y);
  }

  /** Binary `operator/`: the quotient, or the division-by-zero error. */
  method Quotient(a: BigInteger, b: BigInteger) returns (r: BigInteger, thrown: BigIntegerException?)
    requires a.Sound() && b.Sound()
    ensures fresh(r) && fresh(r.bytes) && r.Sound()
    ensures b.Value() == 0 <==> thrown != null
    ensures thrown != null ==> thrown.GetErrorMessage() == DIVISION_BY_ZERO
    ensures b.Value() > 0 ==> r.Value() == a.Value() / b.Value()
    ensures b.Value() < 0 ==> r.Value() == -(a.Value() / -b.Value())
  {
    r, thrown := QuotientOf(a, b, a.Value(), b.Value());
  }

  /** `operator/` on the values `x` and `y` of its operands.
      Its contract speaks of the ghost values only, so the caller needs no
      reasoning about the objects it leaves alone. */
  method QuotientOf(a: BigInteger, b: BigInteger, ghost x: int, ghost y: int)
    returns (r: BigInteger, thrown: BigIntegerException?)
    requires a.Sound() && b.Sound() && a.Value() == x && b.Value() == y
    ensures fresh(r) && fresh(r.bytes) && r.Sound()
    ensures y == 0 <==> thrown != null
    ensures thrown != null ==> thrown.GetErrorMessage() == DIVISION_BY_ZERO
    ensures y > 0 ==> r.Value() == x / y
    ensures y < 0 ==> r.Value() == -(x / -y)
  {
    r := new BigInteger.Copy(a);
    thrown := r.DivBy(b, x, y);
  }

  /** Prefix `operator++`: adds one. */
  method Increment(a: BigInteger)
    requires a.Valid()
    modifies a, a.bytes
    ensures a.Valid() && (fresh(a.bytes) || a.bytes == old(a.bytes))
    ensures a.Value() == old(a.Value()) + 1
    ensures old(a.Sound()) ==> a.Sound()
  {
    var one := new BigInteger.FromLong(1);
    a.AddAssign(one);
  }

  /** Postfix `operator++`: adds one and returns a copy of the old value. */
  method PostIncrement(a: BigInteger) returns (copy: BigInteger)
    requires a.Valid()
    modifies a, a.bytes
    ensures fresh(copy) && copy.Valid() && copy.Value() == old(a.Value())
    ensures a.Valid() && a.Value() == old(a.Value()) + 1
    ensures fresh(copy.bytes) && (fresh(a.bytes) || a.bytes == old(a.bytes))
    ensures old(a.Sound()) ==> a.Sound() && copy.Sound()
  {
    copy := new BigInteger.Copy(a);
    Increment(a);
  }

  /** Prefix `operator--`: subtracts one. */
  method Decrement(a: BigInteger)
    requires a.Valid()
    modifies a, a.bytes
    ensures a.Valid() && (fresh(a.bytes) || a.bytes == old(a.bytes))
    ensures a.Value() == old(a.Value()) - 1
    ensures old(a.Sound()) ==> a.Sound()
  {
    var one := new BigInteger.FromLong(1);
    a.SubAssign(one);
  }

  /** Postfix `operator--`: subtracts one and returns a copy of the old
      value. */
  method PostDecrement(a: BigInteger) returns (copy: BigInteger)
    requires a.Valid()
    modifies a, a.bytes
    ensures fresh(copy) && copy.Valid() && copy.Value() == old(a.Value())
    ensures a.Valid() && a.Value() == old(a.Value()) - 1
    ensures fresh(copy.bytes) && (fresh(a.bytes) || a.bytes == old(a.bytes))
    ensures old(a.Sound()) ==> a.Sound() && copy.Sound()
  {
    copy := new BigInteger.Copy(a);
    Decrement(a);
  }

  /** Unary `operator-`: a copy of the argument, negated. */
  method Negated(a: BigInteger) returns (r: BigInteger)
    requires a.Sound()
    ensures fresh(r) && fresh(r.bytes) && r.Sound()
    ensures r.Value() == -a.Value()
  {
    r := NegatedOf(a, a.Value());
  }

  /** Unary `operator-` on the value `x` of its operand.
      Its contract speaks of the ghost values only, so the caller needs no
      reasoning about the objects it leaves alone. */
  method NegatedOf(a: BigInteger, ghost x: int) returns (r: BigInteger)
    requires a.Sound() && a.Value() == x
    ensures fresh(r) && fresh(r.bytes) && r.Sound()
    ensures r.Value() == -x
  {
    r := new BigInteger.Copy(a);
    r.Negate();
  }

  /** `operator==` through the corrected `compare`. */
  function Equal(a: BigInteger, b: BigInteger): (r: bool)
    reads a, a.bytes, b, b.bytes
    requires a.Formed() && b.Formed()
    ensures r <==> a.Value() == b.Value()
  {
    BigInteger.Compare(a, b) == 0
  }

  /** `operator!=`. */
  function NotEqual(a: BigInteger, b: BigInteger): (r: bool)
    reads a, a.bytes, b, b.bytes
    requires a.Formed() && b.Formed()
    ensures r <==> a.Value() != b.Value()
  {
    BigInteger.Compare(a, b) != 0
  }

  /** `operator<=`. */
  function LessOrEqual(a: BigInteger, b: BigInteger): (r: bool)
    reads a, a.bytes, b, b.bytes
    requires a.Formed() && b.Formed()
    ensures r <==> a.Value() <= b.Value()
  {
    BigInteger.Compare(a, b) <= 0
  }

  /** `operator>=`. */
  function GreaterOrEqual(a: BigInteger, b: BigInteger): (r: bool)
    reads a, a.bytes, b, b.bytes
    requires a.Formed() && b.Formed()
    ensures r <==> a.Value() >= b.Value()
  {
    BigInteger.Compare(a, b) >= 0
  }

  /** `operator<`. */
  function Less(a: BigInteger, b: BigInteger): (r: bool)
    reads a, a.bytes, b, b.bytes
    requires a.Formed() && b.Formed()
    ensures r <==> a.Value() < b.Value()
  {
    BigInteger.Compare(a, b) < 0
  }

  /** `operator>`. */
  function Greater(a: BigInteger, b: BigInteger): (r: bool)
    reads a, a.bytes, b, b.bytes
    requires a.Formed() && b.Formed()
    ensures r <==> a.Value() > b.Value()
  {
    BigInteger.Compare(a, b) > 0
  }

  // -----------------------------------------------------------------------
  // power

  /** `x` to the power `n`. */
  function IntPow(x: int, n: nat): int {
    if n == 0 then 1 else x * IntPow(x, n - 1)
  }

  /** Squaring the base halves an even exponent. */
  lemma {:induction false} IntPowSquare(x: int, k: nat)
    ensures IntPow(x * x, k) == IntPow(x, 2 * k)
  {
    if k > 0 {
      IntPowSquare(x, k - 1);
      assert IntPow(x, 2 * k) == x * (x * IntPow(x, 2 * k - 2));
      assert x * (x * IntPow(x, 2 * k - 2)) == (x * x) * IntPow(x, 2 * k - 2);
    }
  }

  /** The powers of two are the shifts of one. */
  lemma {:induction false} IntPowTwo(m: nat)
    ensures IntPow(2, m) == Pow2(m)
  {
    if m > 0 {
      IntPowTwo(m - 1);
    }
  }

  /** `power`, with the shortcut for the base 2 taken only for an exponent
      of at least 1 (as written, `m - 1` wraps around for `m == 0`; see
      PowerShortcutAsWritten): `a << (m - 1)`; any other base by binary
      exponentiation. */
  method Power(a: BigInteger, m: int) returns (r: BigInteger)
    requires a.Sound() && 0 <= m < UINT_RANGE
    ensures fresh(r) && fresh(r.bytes) && r.Sound()
    ensures r.Value() == IntPow(a.Value(), m)
  {
    var two, _ := BigInteger.Parse("2");
    TwoText();
    if 1 <= m && Equal(a, two) {
      r := ShiftedLeft(a, m - 1);
      IntPowTwo(m);
      return;
    }
    r := PowerLoop(a, m);
  }

  /** "2" is read as 2. */
  lemma TwoText()
    ensures Readable("2") && ParsedValue("2") == 2
  {
    assert Unsigned("2") == "2";
    assert "2"[..0] == "";
  }

  /** The loop of `power`: while `n > 0`, an odd `n` multiplies the answer
      by the multiplier and an even `n` squares the multiplier and halves
      `n`; `ans * multiplier^n` stays `a^m`. */
  method PowerLoop(a: BigInteger, m: int) returns (ans: BigInteger)
    requires a.Sound() && 0 <= m
    ensures fresh(ans) && fresh(ans.bytes) && ans.Sound()
    ensures ans.Value() == IntPow(a.Value(), m)
  {
    ghost var target := IntPow(a.Value(), m);
    var n := m;
    var multiplier := new BigInteger.Copy(a);
    ans := new BigInteger.FromLong(1);
    while n > 0
      invariant 0 <= n
      invariant fresh(multiplier) && fresh(multiplier.bytes) && fresh(ans) && fresh(ans.bytes)
      invariant multiplier != ans && multiplier.bytes != ans.bytes
      invariant multiplier.Sound() && ans.Sound()
      invariant ans.Value() * IntPow(multiplier.Value(), n) == target
    {
      n := PowerStep(ans, multiplier, n, target);
    }
  }

  /** One turn of `power`'s loop. */
  method PowerStep(ans: BigInteger, multiplier: BigInteger, n: int, ghost target: int) returns (n': int)
    requires n > 0 && multiplier != ans && multiplier.bytes != ans.bytes
    requires multiplier.Sound() && ans.Sound()
    requires ans.Value() * IntPow(multiplier.Value(), n) == target
    modifies ans, ans.bytes, multiplier, multiplier.bytes
    ensures 0 <= n' < n && multiplier.Sound() && ans.Sound()
    ensures multiplier != ans && multiplier.bytes != ans.bytes
    ensures fresh(ans.bytes) || ans.bytes == old(ans.bytes)
    ensures fresh(multiplier.bytes) || multiplier.bytes == old(multiplier.bytes)
    ensures ans.Value() * IntPow(multiplier.Value(), n') == target
  {
    if n % 2 == 1 {
      MultiplyAnswer(ans, multiplier, n, target);
      n' := n - 1;
    } else {
      SquareMultiplier(ans, multiplier, n, target);
      n' := n / 2;
    }
  }

  /** An odd exponent: `ans *= multiplier` takes one factor out. */
  method MultiplyAnswer(ans: BigInteger, multiplier: BigInteger, n: int, ghost target: int)
    requires n > 0 && multiplier != ans && multiplier.bytes != ans.bytes
    requires multiplier.Sound() && ans.Sound()
    requires ans.Value() * IntPow(multiplier.Value(), n) == target
    modifies ans, ans.bytes
    ensures ans.Sound() && multiplier.bytes != ans.bytes
    ensures fresh(ans.bytes) || ans.bytes == old(ans.bytes)
    ensures ans.Value() * IntPow(multiplier.Value(), n - 1) == target
  {
    ghost var x, y := ans.Value(), multiplier.Value();
    ans.MulAssign(multiplier);
    PowerArith(x, y, IntPow(y, n - 1), target);
  }

  /** Regrouping `ans * multiplier^n`, on plain integers so the solver sees it apart from the heap. */
  lemma PowerArith(x: int, y: int, p: int, target: int)
    requires x * (y * p) == target
    ensures (x * y) * p == target
  {
  }

  /** An even exponent: `multiplier *= multiplier` halves it. */
  method SquareMultiplier(ans: BigInteger, multiplier: BigInteger, n: int, ghost target: int)
    requires n > 0 && n % 2 == 0 && multiplier != ans && multiplier.bytes != ans.bytes
    requires multiplier.Sound() && ans.Sound()
    requires ans.Value() * IntPow(multiplier.Value(), n) == target
    modifies multiplier, multiplier.bytes
    ensures multiplier.Sound() && multiplier.bytes != ans.bytes
    ensures fresh(multiplier.bytes) || multiplier.bytes == old(multiplier.bytes)
    ensures ans.Value() * IntPow(multiplier.Value(), n / 2) == target
  {
    ghost var y := multiplier.Value();
    multiplier.MulAssign(multiplier);
    IntPowSquare(y, n / 2);
  }

  // -----------------------------------------------------------------------
  // Arithmetic facts of the division

  /** One level of `divide_positive`: with `q0` the quotient by `2b`, the
      quotient by `b` is `2 * q0`, or one more when the remainder of `a`
      after `2 * q0` copies of `b` is at least `b`. */
  lemma DivideStep(a: int, b: int, q0: int, q1: int, p: int)
    requires a >= 0 && b > 0 && q0 == a / (b * 2) && q1 == q0 * 2 && p == q1 * b
    ensures 0 <= a - p < 2 * b
    ensures a - p < b ==> q1 == a / b
    ensures a - p >= b ==> q1 + 1 == a / b
  {
    var r := a - p;
    assert a == q0 * (b * 2) + a % (b * 2);
    assert p == q0 * (b * 2);
    if r < b {
      DivPlus(q1, b, r);
      assert a == q1 * b + r;
    } else {
      DivPlus(q1 + 1, b, r - b);
      assert a == (q1 + 1) * b + (r - b);
    }
  }

  /** The fix-up of `operator/=` for a negative dividend `-m`: the quotient
      of `m` rounded up, negated, is `-m` divided by `b` rounded down. */
  lemma NegatedFloor(m: int, b: int, q: int)
    requires m > 0 && b > 0 && q == m / b
    ensures q * b < m ==> -(q + 1) == (-m) / b
    ensures !(q * b < m) ==> -q == (-m) / b
  {
    var r := m % b;
    assert m == q * b + r;
    if r == 0 {
      assert -m == (-q) * b;
      DivPlus(-q, b, 0);
    } else {
      assert -m == (-(q + 1)) * b + (b - r);
      DivPlus(-(q + 1), b, b - r);
    }
  }


  /** The eight bytes of a `long`, read under the sign of their top bit,
      give the `long` back; a negative one starts with a byte >= 128. */
  lemma LongWindow(number: int, w: seq<Byte>)
    requires -(LONG_RANGE / 2) <= number < LONG_RANGE / 2
    requires |w| == BYTES_IN_LONG && BE(w) == number % LONG_RANGE
    ensures BE(w) >= LONG_RANGE / 2 <==> number < 0
    ensures Val(BE(w) >= LONG_RANGE / 2, w) == number
    ensures number < 0 ==> w[0] >= 128
  {
    Pow256Eight();
    TopByte(w);
  }

  /** One step of the `long` loop: the low byte of `n` moves into the
      written suffix. */
  lemma LongStep(u: int, n: nat, i: int, tail: seq<Byte>)
    requires 0 <= i < BYTES_IN_LONG && |tail| == BYTES_IN_LONG - 1 - i
    requires n * Pow256(BYTES_IN_LONG - 1 - i) + BE(tail) == u && n < Pow256(i + 1)
    ensures (n / 256) * Pow256(BYTES_IN_LONG - i) + BE([n % 256] + tail) == u
    ensures n / 256 < Pow256(i)
  {
    LowByteStep(n, Pow256(|tail|), tail);
    assert Pow256(i + 1) == 256 * Pow256(i);
  }

  lemma LowByteStep(n: nat, p: nat, s: seq<Byte>)
    requires p == Pow256(|s|)
    ensures (n / 256) * Pow256(|s| + 1) + BE([n % 256] + s) == n * p + BE(s)
  {
    var q, r := n / 256, n % 256;
    BEPrepend(r, s);
    assert Pow256(|s| + 1) == 256 * p;
    ByteSplitProduct(n, q, r, p);
  }

  /** Splitting `n * p` at one byte, on plain integers so the solver sees it apart from the heap. */
  lemma ByteSplitProduct(n: int, q: int, r: int, p: int)
    requires n == 256 * q + r
    ensures n * p == q * (256 * p) + r * p
  {
  }

  /** Once `a[c..] == b`, the suffix of `a` from `c + j` on is the suffix of
      `b` from `j` on. */
  lemma SuffixOfSuffix(a: seq<Byte>, c: int, b: seq<Byte>, i: int, j: int)
    requires 0 <= c <= |a| && a[c..] == b && 0 <= j <= |b| && i == c + j
    ensures a[i..] == b[j..]
  {
    assert a[i..] == a[c..][j..];
  }

  /** What `operator+=` needs of the window sum: the sign rule keeps the
      value exact, the result keeps the zero rule, and sound operands give a
      sound result. */
  lemma AddWindowsFacts(negA: bool, negB: bool, x0: seq<Byte>, y: seq<Byte>, n: int, sound: bool,
                        rneg: bool, rw: seq<Byte>)
    requires 1 <= |x0| <= n && 1 <= |y| <= n && (n == |x0| || n == |y|)
    requires ZeroRule(negA, x0) && ZeroRule(negB, y)
    requires sound ==> Unpadded(x0) && Unpadded(y)
    requires var x, e := Extend(x0, Filler(negA), n), Extend(y, Filler(negB), n);
      rneg == AddResult(negA, negB, x, e).0 && rw == AddResult(negA, negB, x, e).1
    ensures Val(rneg, rw) == Val(negA, x0) + Val(negB, y)
    ensures ZeroRule(rneg, rw)
    ensures sound && rneg ==> BE(rw) != 0
  {
    var x, e := Extend(x0, Filler(negA), n), Extend(y, Filler(negB), n);
    AddResultValue(negA, negB, x, e);
    ExtendValue(negA, x0, n);
    ExtendValue(negB, y, n);
    if n == 1 {
      ExtendNone(x0, Filler(negA));
      ExtendNone(y, Filler(negB));
      assert x0 == [x0[0]] && y == [y[0]];
      BESingle(x0[0]);
      BESingle(y[0]);
      AddResultNotZero(negA, negB, x, e);
    } else if sound {
      NotZeroWidened(negA, x0, n);
      NotZeroWidened(negB, y, n);
      AddResultNotZero(negA, negB, x, e);
    }
  }

  /** A negative window widened to at least two bytes does not read as zero
      when it was unpadded. */
  lemma NotZeroWidened(neg: bool, w: seq<Byte>, n: int)
    requires 1 <= |w| <= n && n >= 2 && Unpadded(w)
    ensures neg ==> BE(Extend(w, Filler(neg), n)) != 0
  {
    if neg {
      if |w| < n {
        ExtendAt(w, Filler(neg), n, 0);
        TopByte(Extend(w, Filler(neg), n));
      } else {
        ExtendNone(w, Filler(neg));
      }
    }
  }
}

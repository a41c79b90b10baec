/** Decimal text: the digit strings the string constructor reads and
    `to_string` writes, the values they denote, and the in-place loops both
    directions are computed with (halving a digit string, dividing a byte
    window by ten, collecting and packing bits). */
module Decimal {
  import opened TwosComplement
  import opened Bits

  predicate IsDigit(c: char) {
    '0' <= c <= '9'
  }

  predicate AllDigits(s: string) {
    forall i :: 0 <= i < |s| ==> IsDigit(s[i])
  }

  function DigitValue(c: char): int {
    c as int - '0' as int
  }

  function DigitChar(d: int): (c: char)
    requires 0 <= d < 10
    ensures IsDigit(c) && DigitValue(c) == d
  {
    ('0' as int + d) as char
  }

  /** `is_odd`: whether a digit character denotes an odd digit. */
  predicate IsOdd(c: char) {
    DigitValue(c) % 2 == 1
  }

  /** The number a digit string denotes, most significant digit first. */
  function DecimalValue(s: string): (v: int)
    requires AllDigits(s)
    ensures v >= 0
  {
    if s == [] then 0 else 10 * DecimalValue(s[..|s| - 1]) + DigitValue(s[|s| - 1])
  }

  // ---------------------------------------------------------------------
  // The text `to_string` writes

  /** The decimal digits of `n`, without leading zeros. */
  function Digits(n: nat): (s: string)
    ensures |s| >= 1 && AllDigits(s)
  {
    if n < 10 then [DigitChar(n)] else Digits(n / 10) + [DigitChar(n % 10)]
  }

  /** The text of an integer: a minus sign before the digits of a negative
      value, nothing before the digits of any other. */
  function DecimalString(v: int): string {
    if v < 0 then "-" + Digits(-v) else Digits(v)
  }

  /** A digit string in the form `Digits` writes: "0" or no leading zero. */
  predicate CanonicalDigits(s: string) {
    |s| >= 1 && AllDigits(s) && (s[0] == '0' ==> |s| == 1)
  }

  lemma LastDigit(s: string)
    requires |s| >= 1 && AllDigits(s)
    ensures DecimalValue(s) % 10 == DigitValue(s[|s| - 1])
    ensures DecimalValue(s) / 10 == DecimalValue(s[..|s| - 1])
  {
  }

  /** The digits of `n` denote `n`. */
  lemma {:induction false} DigitsValue(n: nat)
    ensures DecimalValue(Digits(n)) == n
  {
    if n >= 10 {
      DigitsValue(n / 10);
      var s := Digits(n);
      assert s[..|s| - 1] == Digits(n / 10);
    }
  }

  /** The digits of `n` are canonical, and read "0" exactly for zero. */
  lemma {:induction false} DigitsCanonical(n: nat)
    ensures CanonicalDigits(Digits(n))
    ensures Digits(n) == "0" <==> n == 0
  {
    if n >= 10 {
      DigitsCanonical(n / 10);
      assert Digits(n)[0] == Digits(n / 10)[0];
    }
  }

  /** Every canonical digit string is the one `Digits` writes for its
      value: the decimal text of a number is unique. */
  lemma {:induction false} CanonicalIsDigits(s: string)
    requires CanonicalDigits(s)
    ensures Digits(DecimalValue(s)) == s
    decreases |s|
  {
    var n := DecimalValue(s);
    if |s| == 1 {
      assert s[..0] == [] && DecimalValue(s[..0]) == 0;
      assert n == DigitValue(s[0]);
      assert s == [DigitChar(n)];
    } else {
      var front := s[..|s| - 1];
      assert front[0] == s[0];
      LeadingDigit(front);
      CanonicalIsDigits(front);
      LastDigit(s);
      assert s == front + [DigitChar(n % 10)];
    }
  }

  /** A digit string that starts with a non-zero digit is not zero. */
  lemma {:induction false} LeadingDigit(s: string)
    requires CanonicalDigits(s) && s[0] != '0'
    ensures DecimalValue(s) >= 1
    decreases |s|
  {
    if |s| > 1 {
      var front := s[..|s| - 1];
      assert front[0] == s[0];
      LeadingDigit(front);
    }
  }

  // ---------------------------------------------------------------------
  // The text the string constructor reads

  /** The string the constructor scans: a leading '-' replaced by '0'. */
  function Unsigned(number: string): (u: string)
    requires |number| >= 1
    ensures |u| == |number|
  {
    if number[0] == '-' then "0" + number[1..] else number
  }

  /** The strings the constructor accepts: not empty, and only digits
      after a possible leading '-'. */
  predicate Readable(number: string) {
    |number| >= 1 && AllDigits(Unsigned(number))
  }

  /** The value the constructor builds from an accepted string. */
  function ParsedValue(number: string): int
    requires Readable(number)
  {
    if number[0] == '-' then -DecimalValue(Unsigned(number)) else DecimalValue(Unsigned(number))
  }

  /** The constructor's copy of its argument, with a leading '-' replaced
      by '0'; `negative` records the sign. */
  method CopyUnsigned(number: string) returns (digits: array<char>, negative: bool)
    requires |number| >= 1
    ensures fresh(digits) && digits[..] == Unsigned(number)
    ensures negative <==> number[0] == '-'
  {
    digits := new char[|number|](i => if 0 <= i < |number| then number[i] else '0');
    assert digits[..] == number;
    negative := false;
    if digits[0] == '-' {
      digits[0] := '0';
      negative := true;
      assert digits[..] == "0" + number[1..];
    }
  }

  /** The constructor's check that every character is a digit. */
  method ScanDigits(a: array<char>) returns (legal: bool)
    ensures legal <==> AllDigits(a[..])
  {
    var i := 0;
    while i < a.Length
      invariant 0 <= i <= a.Length
      invariant AllDigits(a[..i])
    {
      if a[i] < '0' || a[i] > '9' {
        assert !IsDigit(a[..][i]);
        return false;
      }
      i := i + 1;
    }
    assert a[..i] == a[..];
    return true;
  }

  /** A leading zero does not change what a digit string denotes. */
  lemma {:induction false} LeadingZero(s: string)
    requires AllDigits(s)
    ensures AllDigits("0" + s) && DecimalValue("0" + s) == DecimalValue(s)
    decreases |s|
  {
    if s != [] {
      var front := s[..|s| - 1];
      LeadingZero(front);
      assert ("0" + s)[..|s|] == "0" + front;
    }
  }

  /** Reading back what `to_string` writes gives the value written. */
  lemma DecimalRoundTrip(v: int)
    ensures Readable(DecimalString(v)) && ParsedValue(DecimalString(v)) == v
  {
    var n := if v < 0 then -v else v;
    DigitsValue(n);
    DigitsCanonical(n);
    if v < 0 {
      var t := DecimalString(v);
      assert t[0] == '-' && t[1..] == Digits(n);
      LeadingZero(Digits(n));
    }
  }

  /** Writing what the constructor reads from canonical text gives that
      text back: a canonical digit string, possibly after a '-', that is
      not "-0". */
  lemma TextRoundTrip(t: string)
    requires (|t| >= 2 && t[0] == '-' && CanonicalDigits(t[1..]) && t != "-0")
      || CanonicalDigits(t)
    ensures Readable(t) && DecimalString(ParsedValue(t)) == t
  {
    if t[0] == '-' {
      var s := t[1..];
      assert t == "-" + s;
      assert s != "0" && (|s| == 1 ==> s == [s[0]]);
      LeadingZero(s);
      assert Unsigned(t) == "0" + s;
      LeadingDigit(s);
      CanonicalIsDigits(s);
      assert t == "-" + s;
    } else {
      CanonicalIsDigits(t);
    }
  }

  /** A lone "-" and "-0" are read as zero. */
  lemma MinusAlone()
    ensures Readable("-") && ParsedValue("-") == 0
    ensures Readable("-0") && ParsedValue("-0") == 0
  {
    assert Unsigned("-") == "0";
    assert Unsigned("-0") == "00";
    assert "00"[..1] == "0";
  }

  // ---------------------------------------------------------------------
  // divide_string_number_by_two

  /** Halves the digit string in place, digit by digit from the most
      significant, carrying 5 into the next digit after an odd one; the
      result says whether the quotient is not zero. */
  method HalveDigits(a: array<char>) returns (nonZero: bool)
    requires AllDigits(a[..])
    modifies a
    ensures AllDigits(a[..])
    ensures DecimalValue(old(a[..])) == 2 * DecimalValue(a[..])
      + (if a.Length > 0 && IsOdd(old(a[a.Length - 1])) then 1 else 0)
    ensures nonZero <==> DecimalValue(a[..]) != 0
  {
    var remainder := 0;
    var isZero := true;
    var i := 0;
    while i < a.Length
      invariant 0 <= i <= a.Length
      invariant a[i..] == old(a[i..])
      invariant AllDigits(a[..i])
      invariant remainder == (if i > 0 && IsOdd(old(a[i - 1])) then 5 else 0)
      invariant DecimalValue(old(a[..i])) == 2 * DecimalValue(a[..i]) + remainder / 5
      invariant isZero <==> DecimalValue(a[..i]) == 0
    {
      ghost var before := a[..];
      var currDigit := a[i];
      assert currDigit == old(a[i]) by { assert a[i..][0] == old(a[i..])[0]; }
      a[i] := DigitChar(DigitValue(currDigit) / 2 + remainder);
      if a[i] != '0' {
        isZero := false;
      }
      remainder := (if IsOdd(currDigit) then 1 else 0) * 5;
      HalveStep(old(a[..]), before, a[..], i);
      i := i + 1;
    }
    assert a[..i] == a[..] && old(a[..i]) == old(a[..]);
    nonZero := !isZero;
  }

  /** One digit of the halving: the prefix relation grows by the digit. */
  lemma HalveStep(orig: string, before: string, after: string, i: nat)
    requires i < |orig| == |before| == |after|
    requires AllDigits(before[..i]) && IsDigit(orig[i])
    requires after == before[i := after[i]] && IsDigit(after[i])
    requires before[i] == orig[i]
    requires AllDigits(orig[..i])
    requires var r := if i > 0 && IsOdd(orig[i - 1]) then 5 else 0;
      DecimalValue(orig[..i]) == 2 * DecimalValue(before[..i]) + r / 5
      && DigitValue(after[i]) == DigitValue(orig[i]) / 2 + r
    ensures AllDigits(after[..i + 1]) && AllDigits(orig[..i + 1])
    ensures DecimalValue(orig[..i + 1])
      == 2 * DecimalValue(after[..i + 1]) + (if IsOdd(orig[i]) then 1 else 0)
    ensures DecimalValue(after[..i + 1]) == 0 <==> DecimalValue(before[..i]) == 0 && after[i] == '0'
  {
    assert after[..i + 1][..i] == before[..i];
    assert orig[..i + 1][..i] == orig[..i];
  }

  // ---------------------------------------------------------------------
  // The string constructor's bits

  /** A sequence of bits, most significant first, read as a number. */
  function Binary(bits: seq<bool>): (v: nat)
    ensures v < Pow2(|bits|)
  {
    if bits == [] then 0 else (if bits[0] then Pow2(|bits| - 1) else 0) + Binary(bits[1..])
  }

  lemma {:induction false} BinaryConcat(s: seq<bool>, t: seq<bool>)
    ensures Binary(s + t) == Binary(s) * Pow2(|t|) + Binary(t)
    decreases |s|
  {
    if s != [] {
      var p := Pow2(|t|);
      var h := if s[0] then Pow2(|s| - 1) else 0;
      assert (s + t)[0] == s[0] && (s + t)[1..] == s[1..] + t;
      BinaryConcat(s[1..], t);
      Pow2Add(|s| - 1, |t|);
      ConcatArith(Binary(s + t), h, Binary(s[1..]), p, Binary(t));
    } else {
      assert s + t == t;
    }
  }

  lemma ConcatArith(st: int, h: int, rest: int, p: int, t: int)
    requires st == h * p + rest * p + t
    ensures st == (h + rest) * p + t
  {
  }

  /** The do-while loop of the constructor: push the parity of the last
      digit, halve, and go on while the quotient is not zero. The stack is
      a sequence whose first element is its top. */
  method CollectBits(a: array<char>) returns (bits: seq<bool>)
    requires a.Length >= 1 && AllDigits(a[..])
    modifies a
    ensures |bits| >= 1 && Binary(bits) == DecimalValue(old(a[..]))
    ensures DecimalValue(old(a[..])) == 0 ==> |bits| == 1
  {
    ghost var n := DecimalValue(a[..]);
    bits := [IsOdd(a[a.Length - 1])];
    var nonZero := HalveDigits(a);
    while nonZero
      invariant AllDigits(a[..]) && |bits| >= 1
      invariant n == DecimalValue(a[..]) * Pow2(|bits|) + Binary(bits)
      invariant nonZero <==> DecimalValue(a[..]) != 0
      invariant n == 0 ==> |bits| == 1
      decreases DecimalValue(a[..])
    {
      ghost var q := DecimalValue(a[..]);
      var bit := IsOdd(a[a.Length - 1]);
      nonZero := HalveDigits(a);
      PushBit(n, q, DecimalValue(a[..]), bit, bits);
      bits := [bit] + bits;
    }
  }

  /** The arithmetic of one push: halving the quotient moves its low bit
      onto the stack. */
  lemma PushBit(n: int, q: nat, h: nat, bit: bool, bits: seq<bool>)
    requires q != 0 && q == 2 * h + (if bit then 1 else 0)
    requires n == q * Pow2(|bits|) + Binary(bits)
    ensures n == h * Pow2(|bits| + 1) + Binary([bit] + bits)
    ensures h < q && n != 0
  {
    var p := Pow2(|bits|);
    assert ([bit] + bits)[1..] == bits;
    assert Pow2(|bits| + 1) == 2 * p;
    var b := if bit then 1 else 0;
    PushArith(n, q, h, b, p, Binary(bits));
  }

  lemma PushArith(n: int, q: int, h: int, b: int, p: int, rest: int)
    requires q == 2 * h + b && q >= 1 && p >= 1 && rest >= 0
    requires n == q * p + rest
    ensures n == h * (2 * p) + b * p + rest && n != 0
  {
    MulLe(1, q, p);
  }

  /** The inner loop of the constructor: `length` bits popped off the
      stack and shifted into one byte from the right. */
  method PopByte(stack: seq<bool>, length: nat) returns (b: Byte, rest: seq<bool>)
    requires 1 <= length <= 8 && length <= |stack|
    ensures b == Binary(stack[..length]) && rest == stack[length..]
  {
    b := 0;
    rest := stack;
    var k := 0;
    while k < length
      invariant 0 <= k <= length
      invariant rest == stack[k..]
      invariant b == Binary(stack[..k]) && b < Pow2(k)
    {
      Pow2Small();
      Pow2Add(k, 1);
      BinaryConcat(stack[..k], [rest[0]]);
      assert stack[..k + 1] == stack[..k] + [rest[0]];
      b := (b * 2) % 256 + (if rest[0] then 1 else 0);
      rest := rest[1..];
      k := k + 1;
    }
  }

  /** The constructor's byte loop: the first byte takes the `(n-1) % 8 + 1`
      top bits and every later byte the next eight, so the buffer holds the
      bits' value in `(n-1) / 8 + 1` bytes. */
  method PackBits(bits: seq<bool>) returns (buffer: array<Byte>)
    requires |bits| >= 1
    ensures fresh(buffer) && buffer.Length == (|bits| - 1) / 8 + 1
    ensures BE(buffer[..]) == Binary(bits)
  {
    var capacity := (|bits| - 1) / 8 + 1;
    buffer := new Byte[capacity];
    var currByteLength := (|bits| - 1) % 8 + 1;
    var stack := bits;
    var i := 0;
    while i < capacity
      invariant 0 <= i <= capacity
      invariant currByteLength == if i == 0 then (|bits| - 1) % 8 + 1 else 8
      invariant |stack| == currByteLength + 8 * (capacity - i - 1)
      invariant stack == bits[|bits| - |stack|..]
      invariant BE(buffer[..i]) == Binary(bits[..|bits| - |stack|])
    {
      ghost var taken := |bits| - |stack|;
      var currByte, rest := PopByte(stack, currByteLength);
      buffer[i] := currByte;
      PackStep(bits, taken, currByteLength, buffer[..i], currByte);
      assert buffer[..i + 1] == buffer[..i] + [currByte];
      stack := rest;
      currByteLength := 8;
      i := i + 1;
    }
    assert bits[..|bits|] == bits && buffer[..i] == buffer[..];
  }

  /** One byte of the packing: appending a byte to the buffer appends its
      bits to the prefix read. */
  lemma PackStep(bits: seq<bool>, taken: nat, length: nat, done: seq<Byte>, b: Byte)
    requires 1 <= length <= 8 && taken + length <= |bits|
    requires length == 8 || taken == 0
    requires BE(done) == Binary(bits[..taken])
    requires b == Binary(bits[taken..][..length])
    ensures BE(done + [b]) == Binary(bits[..taken + length])
  {
    BEAppend(done, [b]);
    BESingle(b);
    assert bits[..taken + length] == bits[..taken] + bits[taken..][..length];
    BinaryConcat(bits[..taken], bits[taken..][..length]);
    Pow2Small();
    if taken == 0 {
      assert bits[..taken] == [];
    }
  }

  // ---------------------------------------------------------------------
  // to_string's division

  /** One pass of `to_string`'s loop: the bytes from `start` on, read as an
      unsigned number, divided by ten in place, from the first byte to the
      last, with the remainder carried into the next byte; the results are
      the remainder and whether the quotient is zero. */
  method DivideBy10(a: array<Byte>, start: nat) returns (isZero: bool, remainder: int)
    requires start <= a.Length
    modifies a
    ensures a[..start] == old(a[..start])
    ensures 0 <= remainder < 10
    ensures BE(old(a[start..])) == 10 * BE(a[start..]) + remainder
    ensures isZero <==> BE(a[start..]) == 0
  {
    ghost var orig := a[..];
    isZero := true;
    remainder := 0;
    var i := start;
    while i < a.Length
      invariant start <= i <= a.Length && |orig| == a.Length
      invariant a[..start] == orig[..start]
      invariant forall k :: i <= k < a.Length ==> a[k] == orig[k]
      invariant 0 <= remainder < 10
      invariant BE(orig[start..i]) == 10 * BE(a[start..i]) + remainder
      invariant isZero <==> BE(a[start..i]) == 0
    {
      ghost var before := a[..];
      var x := a[i];
      remainder := remainder * 256 + x;
      a[i] := remainder / 10;
      if a[i] > 0 {
        isZero := false;
      }
      TenthStep(orig, before, a[..], start, i, remainder);
      remainder := remainder % 10;
      i := i + 1;
    }
    assert a[start..i] == a[start..] && orig[start..i] == orig[start..];
  }

  /** The do-while loop of `to_string`: divide by ten until the quotient
      is zero, writing each remainder's digit in front of the text; the
      text is the decimal digits of the bytes' unsigned reading. */
  method DecimalDigits(a: array<Byte>, start: nat) returns (ans: string)
    requires start <= a.Length
    modifies a
    ensures ans == Digits(BE(old(a[start..])))
  {
    ghost var n := BE(a[start..]);
    ans := "";
    var isZero := false;
    while !isZero
      invariant !isZero ==> Digits(n) == Digits(BE(a[start..])) + ans
      invariant isZero ==> Digits(n) == ans
      decreases if isZero then 0 else 1 + BE(a[start..])
    {
      ghost var m := BE(a[start..]);
      ghost var text := ans;
      var remainder;
      isZero, remainder := DivideBy10(a, start);
      ans := [DigitChar(remainder)] + ans;
      DigitsStep(m, BE(a[start..]), remainder, text);
    }
  }

  /** The last digit of `10 q + r` is `r`, and `q` writes the digits in
      front of it unless it is zero. */
  lemma DigitsStep(m: nat, q: nat, r: int, text: string)
    requires 0 <= r < 10 && m == 10 * q + r
    ensures q == 0 ==> Digits(m) + text == [DigitChar(r)] + text
    ensures q != 0 ==> Digits(m) + text == Digits(q) + ([DigitChar(r)] + text) && q < m
  {
    if q != 0 {
      assert m / 10 == q && m % 10 == r;
      assert Digits(m) == Digits(q) + [DigitChar(r)];
    }
  }

  /** One byte of the division by ten. */
  lemma TenthStep(orig: seq<Byte>, before: seq<Byte>, after: seq<Byte>, start: nat, i: nat, carry: int)
    requires start <= i < |orig| == |before| == |after|
    requires after == before[i := after[i]]
    requires 0 <= carry < 2560 && after[i] == carry / 10
    requires BE(orig[start..i]) * 256 + orig[i] == 10 * BE(before[start..i]) * 256 + carry
    ensures BE(orig[start..i + 1]) == 10 * BE(after[start..i + 1]) + carry % 10
    ensures BE(after[start..i + 1]) == 0 <==> BE(before[start..i]) == 0 && after[i] == 0
  {
    assert orig[start..i + 1][..i - start] == orig[start..i];
    assert after[start..i + 1][..i - start] == before[start..i];
  }
}

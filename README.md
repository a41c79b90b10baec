# BigInteger in Dafny

A model of the `BigInteger` class of a small C++ arbitrary-precision
integer library (`BigInteger.h`, `BigInteger.cpp`), with proofs about it.

The class keeps an integer in a heap buffer of bytes `_bytes` of length
`_capacity`. The number sits in the last `_size` bytes, the *window*,
most significant byte first. The window is read as a two's-complement
number whose sign is the flag `_neg`: a negative number is the unsigned
reading of the window minus 256^size. The bytes before the window are
*slack* that the class can grow into. Growing the window in front writes
the *filler* byte (`FF` for a negative number, `00` otherwise), which
keeps the value. `normalize` drops leading filler bytes again.

In the model:

- `TwosComplement.Val(neg, w)` is the value a sign flag and a window
  denote. `BigIntegers.BigInteger.Value()` is that value for an object.
- `Valid()` states the shape: `1 <= size <= capacity == bytes.Length`,
  and the single zero byte is never negative.
- `Sound()` adds that a window of several bytes is never all zero. Every
  operation of the class keeps `Sound()`.
- Each operation of the class is a method proved against the value it
  must produce: `+=` adds, `<<=` multiplies by a power of two, `/=`
  rounds as the source does, and so on.
- The byte loops are methods on arrays, each proved equal to a function
  on sequences (`SumWindow`, `ShrBytes`, `ShlBits`, `NegateWindow`, ...).
  Lemmas then prove what those functions do to the value.
- The decimal text in and out (the string constructor and `to_string`)
  lives in module `Decimal`. It includes the round trips between text
  and value.
- Where the source departs from what it evidently means, the class
  implements the intended behaviour. The behaviour as written is modelled
  beside it, in `Comparison.CompareAsWritten` and in module `Findings`,
  with an input that shows the difference. See "## Findings".

Modules, from the bottom up:

- `TwosComplement`: byte sequences and their readings.
- `Bits`: bits of a byte.
- `NormalForm`: `first_significant_bit`, `normalize`.
- `Negation`: `negate`.
- `Addition`: `+=`.
- `Shifting`: `>>=`.
- `LeftShifting`: `<<=`.
- `Comparison`: `compare`.
- `Decimal`: text.
- `BigIntegers`: the class, the exception class, the free operators and
  `power`.
- `Findings`: behaviour as written, where it departs.

## Model

| member | source | states |
|---|---|---|
| TwosComplement.ValSign | BigInteger.h:76 | the sign flag is exactly the sign of the value, and a window of n bytes holds a value in [-256^n, 256^n) |
| TwosComplement.BEInjective | BigInteger.h:79 | two windows of the same length with the same reading are the same bytes |
| TwosComplement.BEAllFiller | BigInteger.h:89 | a window made only of the filler byte reads 0 (non-negative) or 256^n - 1 (negative) |
| Bits.BitMask | BigInteger.cpp:282-284 | the bit at position k from the top of a byte is the byte tested against the mask `1 << (7 - k)` |
| NormalForm.FirstBitFromSpec | BigInteger.cpp:161-172 | the scan returns the first bit position holding the sought value, and no earlier bit holds it |
| NormalForm.NormalizeCut | BigInteger.cpp:174-179 | `first_significant_bit() / 8` (division truncating toward zero) leading bytes are all filler and fewer than the window; what is left is in normal form for a non-negative window and for a negative window whose top bit is set, while a negative window whose top bit is clear (such as [38] for "-200") loses no byte and stays as it is |
| NormalForm.NormalizeEffect | BigInteger.cpp:174-179 | dropping those bytes keeps the value; the window left is canonical when it is non-negative or its top bit is set, and a negative window with a clear top bit is kept whole |
| NormalForm.ZeroWindow | BigInteger.cpp:177-178 | in a sound window the value is 0 exactly when the window is the single byte 00 |
| Negation.NegateWindowBE | BigInteger.cpp:202-219 | negating a window leaves its unsigned reading r as 256^n - r, and leaves a reading of 0 at 0 |
| Negation.NegateValue | BigInteger.cpp:197-223 | with the flag flipped, the negated window denotes minus the value, unless the window reads 0 |
| Negation.NegateTwice | BigInteger.cpp:197-223 | negating a window twice gives it back |
| Negation.NegateBytes | BigInteger.cpp:202-219 | the two loops of `negate` turn the window into `NegateWindow` of it and leave the slack alone |
| Negation.NegateNegative | BigInteger.cpp:202-210 | the loop for a negative number (subtract one, then complement) computes `NegateWindow` |
| Negation.NegateNonNegative | BigInteger.cpp:211-219 | the loop for a non-negative number (complement, then add one) computes `NegateWindow` |
| Addition.ExtendValue | BigInteger.cpp:362-365 | padding a window in front with its filler byte keeps its value |
| Addition.AddInto | BigInteger.cpp:358-368 | the carry loop of `+=` leaves the bytewise sum of the window and the filler-extended operand, and returns the carry out |
| Addition.SumWindowBE | BigInteger.cpp:358-368 | the sum window reads as the sum of the readings, less 256^n when the carry out is 1 |
| Addition.AddResultValue | BigInteger.cpp:370-382 | the sign rule after the loop (push FF, FE or 01, or set the flag from the carry) makes the result denote the exact sum |
| Addition.AddResultNotZero | BigInteger.cpp:370-382 | a negative result never has an all-zero window when neither operand had one |
| Shifting.ShiftBytesRight | BigInteger.cpp:291-296 | the byte loop of `>>=` moves the window `full_bytes` bytes to the back, filling with the filler byte |
| Shifting.RemainderMask | BigInteger.cpp:298-300 | the mask loop builds `2^left_bits - 1` |
| Shifting.ShiftBitsRight | BigInteger.cpp:301-308 | the bit loop of `>>=` computes `ShrBits` |
| Shifting.ShrBytesValue | BigInteger.cpp:291-296 | the byte move divides the value by 256^full_bytes, rounding toward minus infinity |
| Shifting.ShrBitsValue | BigInteger.cpp:298-308 | the bit move divides the value by 2^left_bits, rounding toward minus infinity |
| Shifting.ShiftRightValue | BigInteger.cpp:286-313 | both moves together divide the value by 2^shift, rounding toward minus infinity |
| LeftShifting.ShiftBytesLeft | BigInteger.cpp:327-332 | the byte loop of `<<=` moves the window `full_bytes` bytes to the front and fills with 00 |
| LeftShifting.ShiftBitsLeft | BigInteger.cpp:334-345 | the bit loop of `<<=` computes `ShlBits` |
| LeftShifting.ShlBitsBE | BigInteger.cpp:334-345 | the bit move multiplies the reading by 2^left_bits, less the bits carried out of the front byte |
| LeftShifting.ShiftLeftValue | BigInteger.cpp:324-345 | when the product fits the window, both moves multiply the value by 2^shift |
| LeftShifting.Growth | BigInteger.cpp:317-319 | the growth is 0 when the first significant bit leaves room, and otherwise gives at least `shift - fsb` more bits |
| LeftShifting.ShiftLeftFits | BigInteger.cpp:317-322 | after the growth, the value times 2^shift fits the window |
| LeftShifting.ShiftLeftFacts | BigInteger.cpp:315-348 | grow with filler, then shift: the result denotes the value times 2^shift and keeps the zero rule |
| Comparison.CompareBytesSign | BigInteger.cpp:465-478 | the bit-by-bit scan of two equally long windows has the sign of the difference of their readings |
| Comparison.CompareWindowsSign | BigInteger.cpp:457-482 | corrected `compare` (same-sign windows widened with filler, no reversal) has the sign of the difference of the two values |
| Comparison.CompareAsWritten | BigInteger.cpp:457-482 | `compare` as written: operands of opposite signs are ordered by their values; operands of one sign are ordered by window length first (the longer non-negative is larger, the longer negative smaller); equally long windows get the sign of the difference of their unsigned readings, reversed for negative operands |
| Comparison.CompareAsWrittenNonNegative | BigInteger.cpp:457-482 | as written, `compare` is right for operands of different signs and for non-negative operands in normal form |
| Comparison.CompareAsWrittenReversed | BigInteger.cpp:470-472 | as written, two equally long negative windows are ordered opposite to their values |
| Comparison.CompareMinusOneMinusTwo | BigInteger.cpp:470-472 | as written, `compare(-1, -2)` is negative; corrected, it is positive |
| Comparison.CompareMinusTwoHundred | BigInteger.cpp:459-464 | -200 as [38] and as [FF, 38] are equal values that `compare` as written finds unequal; corrected, it finds them equal |
| Comparison.LongerIsLarger | BigInteger.cpp:459-463 | a non-negative window in normal form reads more than any shorter window |
| Decimal.DigitChar | BigInteger.cpp:244 | `'0' + d` is a digit whose value is d |
| Decimal.Digits | BigInteger.cpp:233-246 | the text of a number is a non-empty string of digits |
| Decimal.DigitsValue | BigInteger.cpp:225-251 | the digits written for n read back as n |
| Decimal.DigitsCanonical | BigInteger.cpp:225-251 | the digits written have no leading zero, and they are "0" exactly for 0 |
| Decimal.CanonicalIsDigits | BigInteger.cpp:225-251 | every digit string without a leading zero is the text written for its own value |
| Decimal.LeadingDigit | BigInteger.cpp:39-46 | a canonical digit string that does not start with '0' denotes at least 1 |
| Decimal.LastDigit | BigInteger.cpp:45 | the last digit is the value mod 10, and dropping it divides the value by 10 |
| Decimal.LeadingZero | BigInteger.cpp:33-37 | the '0' written over a leading minus sign does not change the value of the digits |
| Decimal.CopyUnsigned | BigInteger.cpp:33-37 | the buffer holds the string with a leading '-' replaced by '0', and the flag says whether it was there |
| Decimal.ScanDigits | BigInteger.cpp:39-41 | the scan accepts exactly the strings made only of the digits '0' to '9' |
| Decimal.HalveDigits | BigInteger.cpp:181-195 | the old number is twice the new one plus the parity of the old last digit; the result is true exactly when the new number is not zero |
| Decimal.Binary | BigInteger.cpp:43-46 | a stack of n bits, top first, reads as a number below 2^n |
| Decimal.BinaryConcat | BigInteger.cpp:52-62 | reading two stacks of bits one after the other is reading the first shifted by the length of the second, plus the second |
| Decimal.CollectBits | BigInteger.cpp:43-46 | the bits pushed while halving, top of the stack first, read as the number; 0 gives a single bit |
| Decimal.PopByte | BigInteger.cpp:54-59 | popping `length` bits into a byte gives the reading of those bits and leaves the rest of the stack |
| Decimal.PackBits | BigInteger.cpp:48-62 | the buffer has `(bits - 1) / 8 + 1` bytes and reads as the stack of bits |
| Decimal.DivideBy10 | BigInteger.cpp:236-243 | one pass of the `to_string` loop divides the reading by 10, returns the remainder and says whether the quotient is zero |
| Decimal.DecimalDigits | BigInteger.cpp:233-245 | the `to_string` do-while loop writes `Digits` of the reading of the window |
| Decimal.DecimalRoundTrip | BigInteger.cpp:24-66 | the string constructor reads every text that `to_string` writes back as the number written |
| Decimal.TextRoundTrip | BigInteger.cpp:225-251 | every text in the form `to_string` writes ("-" only before a non-zero number, no leading zero) is accepted, and `to_string` of the parsed value gives it back |
| Decimal.MinusAlone | BigInteger.cpp:33-41 | "-" and "-0" are accepted and read as 0 |
| BigIntegers.BigInteger.FillerByte | BigInteger.h:89 | one more filler byte in front of the window keeps the value |
| BigIntegers.BigInteger.IsNeg | BigInteger.h:48 | the flag is true exactly when the value is negative |
| BigIntegers.BigInteger.Size | BigInteger.h:50 | the size is the length of the window, at least 1 |
| BigIntegers.BigInteger.Capacity | BigInteger.h:52 | the capacity is the length of the buffer, at least the size |
| BigIntegers.BigInteger.Parse | BigInteger.cpp:24-66 | an empty string raises "Empty string parameter", a non-digit raises "Illegal string parameter"; otherwise the new number is sound and has the value of the text |
| BigIntegers.BigInteger.FromDigits | BigInteger.cpp:43-65 | bits, bytes, then `negate` for a leading '-': the number is sound and is the digits' value, negated if the sign was there |
| BigIntegers.BigInteger.FromMagnitude | BigInteger.cpp:48-62 | a new non-negative number over the packed buffer, with its unsigned reading as value |
| BigIntegers.BigInteger.FromLong | BigInteger.cpp:68-82 | a number built from a 64-bit `long` is sound, canonical and has its value |
| BigIntegers.BigInteger.LongBytes | BigInteger.cpp:75-79 | the byte loop writes the eight bytes of the `unsigned long`, most significant first |
| BigIntegers.BigInteger.Copy | BigInteger.cpp:84-93 | the copy has its own buffer with the same bytes, size, capacity, sign and value |
| BigIntegers.BigInteger.Assign | BigInteger.cpp:104-120 | self-assignment changes no field and no byte; otherwise a fresh buffer holds the source's bytes, and the value is the source's |
| BigIntegers.BigInteger.ToString | BigInteger.cpp:225-251 | the text is the decimal text of the value: "-" and the digits for a negative number, the digits otherwise |
| BigIntegers.BigInteger.MagnitudeDigits | BigInteger.cpp:227-246 | the digits written are those of the absolute value |
| BigIntegers.BigInteger.Magnitude | BigInteger.cpp:228-231 | the copy, negated when negative, is non-negative and holds the absolute value |
| BigIntegers.BigInteger.AllocateMore | BigInteger.cpp:140-151 | the buffer doubles; the old bytes move to its back half and filler fills the front half |
| BigIntegers.BigInteger.PushFront | BigInteger.cpp:153-158 | the window gains the byte in front, growing the buffer if needed |
| BigIntegers.BigInteger.FirstSignificantBit | BigInteger.cpp:161-172 | the result is `FirstSigBit` of the window: the first bit that differs from the filler, less one for a negative number |
| BigIntegers.BigInteger.Normalize | BigInteger.cpp:174-179 | the value and the buffer are kept and the window becomes a suffix of itself: canonical for a non-negative value or a negative window whose top bit is set, unchanged for a negative window whose top bit is clear |
| BigIntegers.BigInteger.Negate | BigInteger.cpp:197-223 | the single zero byte is left as it is; any other window becomes `NegateWindow` with the flag flipped, and the value becomes its negation |
| BigIntegers.BigInteger.ShiftRight | BigInteger.cpp:286-313 | the value becomes the value divided by 2^shift, rounding toward minus infinity, in place |
| BigIntegers.BigInteger.ShiftLeft | BigInteger.cpp:315-348 | the value becomes the value times 2^shift, and the window stays sound |
| BigIntegers.BigInteger.Widen | BigInteger.cpp:352-356 | growing the window to n bytes sign-extends it and keeps the value |
| BigIntegers.BigInteger.AddAssign | BigInteger.cpp:350-387 | the value becomes the sum of the two values, and soundness is kept |
| BigIntegers.BigInteger.SubAssign | BigInteger.cpp:389-393 | the value becomes the difference of the two values |
| BigIntegers.BigInteger.MulAssign | BigInteger.cpp:395-428 | the value becomes the product of the two values, also when b is this object |
| BigIntegers.BigInteger.AddProduct | BigInteger.cpp:415-422 | the shift-and-add loop adds shiftedX times the reading of b's window |
| BigIntegers.BigInteger.DivAssign | BigInteger.cpp:430-455 | a zero divisor raises "Division by zero" and changes no field and no byte; a positive divisor gives the quotient rounded toward minus infinity, and a negative one gives minus the quotient by its absolute value |
| BigIntegers.BigInteger.DividePositive | BigInteger.cpp:484-493 | the recursive halving division of a non-negative number by a positive one is the exact integer quotient |
| BigIntegers.BigInteger.Compare | BigInteger.cpp:457-482 | the corrected three-way comparison has the sign of the difference of the values |
| BigIntegers.BigIntegerException.constructor | BigInteger.h:116 | the exception keeps the message it is built with |
| BigIntegers.ShiftedLeft | BigInteger.cpp:504-506 | `a << shift`, for every `unsigned int` count, is a new sound number with value a times 2^shift |
| BigIntegers.ShiftedRight | BigInteger.cpp:500-502 | `a >> shift` is a new number with value a divided by 2^shift, rounding toward minus infinity |
| BigIntegers.Plus | BigInteger.cpp:508-510 | `a + b` is a new number with the sum |
| BigIntegers.Minus | BigInteger.cpp:512-514 | `a - b` is a new number with the difference |
| BigIntegers.Times | BigInteger.cpp:516-518 | `a * b` is a new number with the product |
| BigIntegers.Quotient | BigInteger.cpp:520-522 | `a / b` raises exactly when b is 0, and otherwise is a new sound number with its own buffer, rounded as `/=` does |
| BigIntegers.Increment | BigInteger.cpp:524-526 | `++a` adds one in place |
| BigIntegers.PostIncrement | BigInteger.cpp:528-532 | `a++` adds one and returns a copy of the old value with its own buffer; both stay sound when `a` was |
| BigIntegers.Decrement | BigInteger.cpp:534-536 | `--a` subtracts one in place |
| BigIntegers.PostDecrement | BigInteger.cpp:538-542 | `a--` subtracts one and returns a copy of the old value with its own buffer; both stay sound when `a` was |
| BigIntegers.Negated | BigInteger.cpp:544-546 | `-a` is a new number with the opposite value |
| BigIntegers.Equal | BigInteger.cpp:548-550 | `==` holds exactly when the values are equal |
| BigIntegers.NotEqual | BigInteger.cpp:552-554 | `!=` holds exactly when the values differ |
| BigIntegers.LessOrEqual | BigInteger.cpp:556-558 | `<=` holds exactly when a's value is at most b's |
| BigIntegers.GreaterOrEqual | BigInteger.cpp:560-562 | `>=` holds exactly when a's value is at least b's |
| BigIntegers.Less | BigInteger.cpp:564-566 | `<` holds exactly when a's value is below b's |
| BigIntegers.Greater | BigInteger.cpp:568-570 | `>` holds exactly when a's value is above b's |
| BigIntegers.IntPowSquare | BigInteger.cpp:585-587 | squaring the base and halving an even exponent keeps the power |
| BigIntegers.IntPowTwo | BigInteger.cpp:574-575 | 2 to the m is 2^m, which the shortcut for base 2 computes by shifting |
| BigIntegers.Power | BigInteger.cpp:572-592 | `power(a, m)` is a to the m, with the shortcut for base 2 |
| BigIntegers.PowerLoop | BigInteger.cpp:577-591 | the square-and-multiply loop keeps ans * multiplier^n equal to a^m, so it ends with a^m |
| Findings.IntCast | BigInteger.cpp:317 | `static_cast<int>` of an `unsigned int` is the count itself up to INT_MAX and wraps below zero above it |
| Findings.WidenAsWrittenTidy | BigInteger.cpp:352-356 | widening as written is sign extension exactly when the slack it grows over holds the filler byte |
| Findings.StaleSlackSum | BigInteger.cpp:350-387 | (-64) + (-64), negated, plus 256 reads the stale FF slack and comes out as 65664 instead of 384 |
| Findings.GrowthAsWritten | BigInteger.cpp:317-319 | the growth with the cast count equals the intended growth for counts up to INT_MAX |
| Findings.ShiftLeftAsWritten | BigInteger.cpp:315-348 | `<<=` as written keeps the window length plus its growth |
| Findings.ShiftLeftAsWrittenValue | BigInteger.cpp:315-348 | over filler slack and with a count up to INT_MAX, `<<=` as written multiplies the value by 2^shift |
| Findings.ZeroShiftedLeft | BigInteger.cpp:315-348 | `ZERO << 200` is 26 zero bytes, not in normal form, and `compare` as written finds it different from ZERO |
| Findings.PowerShortcutAsWritten | BigInteger.cpp:574-575 | `power(2, 0)` shifts by 4294967295, cast to -1, and gives 0 where 2^0 is 1 |

## Left out

- Printing. `operator<<` on a stream (BigInteger.cpp:495-498) and `to_bits_string` (BigInteger.cpp:253-276) only format output.
- Move semantics. The move constructor and move assignment (BigInteger.cpp:95-102 and 122-134) hand over the buffer. The model takes copies, through `Copy` and `Assign`, so it does not capture that the moved-from object loses its buffer.
- Memory. The destructor and the deletes in `allocate_more` and assignment are not modelled: Dafny's heap is garbage collected.
- Constants. `ZERO` and `ONE` (BigInteger.cpp:15-16) are built fresh with `FromLong` where the source uses them. `BITS_IN_BYTE`, `MIN_BYTE`, `MAX_BYTE` and `BYTE` are literals.
- Exceptions. The string constructor and `/=` throw `BigIntegerException`. The model returns the exception object as an extra result instead of throwing it.
- Integer widths. `_size` and `_capacity` are unbounded `int`s, so overflow of `capacity() * 2` past `INT_MAX` is not modelled. The 64-bit `long` of the constructor is a requirement on the argument.
- BigIntegers.BigInteger.ShiftLeft, BigIntegers.ShiftedLeft: state the intended result for every `unsigned int` count. Above `INT_MAX` the source's `static_cast<int>` of the count (BigInteger.cpp:317) makes the growth wrong; that behaviour is `Findings.IntCast` and `Findings.GrowthAsWritten`, and the Findings row on BigInteger.cpp:574-575 shows one of its effects. They also normalize, which the source does not (Findings row on BigInteger.cpp:315-348).
- BigIntegers.Power: takes the base-2 shortcut only for `m >= 1`, where it is correct. The exponent 0 goes through the loop (Findings row on BigInteger.cpp:574-575).
- BigIntegers.BigInteger.AddProduct: reads b's window as a sequence value. It therefore does not model the pointer walk over b's bytes while the loop updates this object.
- BigIntegers.BigInteger.AddAssign: states the intended result, through widening that writes the filler byte, not the stale slack the source grows over (Findings row on BigInteger.cpp:352-356).
- BigIntegers.BigInteger.SubAssign: states the intended result, through the corrected `+=` (Findings row on BigInteger.cpp:352-356).
- BigIntegers.BigInteger.MulAssign: states the intended result, through the corrected `+=` and the normalizing `<<=` (Findings rows on BigInteger.cpp:352-356 and 315-348); read as written, `BigInteger(-64L) * BigInteger(4L)` gives -130560, where the model gives -256.
- BigIntegers.BigInteger.DivAssign: states the intended result, through the corrected `compare`, `*=` and `+=` (Findings rows on BigInteger.cpp:459-464 and 352-356); read as written, `BigInteger(-200L) / BigInteger(10L)` gives -21, where the model gives -20.
- BigIntegers.Plus: states the intended result, through the corrected `+=` (Findings row on BigInteger.cpp:352-356).
- BigIntegers.Minus: states the intended result, through the corrected `-=` (Findings row on BigInteger.cpp:352-356).
- BigIntegers.Times: states the intended result, through the corrected `*=` (Findings rows on BigInteger.cpp:352-356 and 315-348).
- BigIntegers.Quotient: states the intended result, through the corrected `/=` (Findings rows on BigInteger.cpp:459-464 and 352-356).
- BigIntegers.Increment: states the intended result, through the corrected `+=` (Findings row on BigInteger.cpp:352-356).
- BigIntegers.PostIncrement: states the intended result, through the corrected `+=` (Findings row on BigInteger.cpp:352-356).
- BigIntegers.Decrement: states the intended result, through the corrected `-=` (Findings row on BigInteger.cpp:352-356).
- BigIntegers.PostDecrement: states the intended result, through the corrected `-=` (Findings row on BigInteger.cpp:352-356).
- BigIntegers.Equal: states the intended result, through the corrected `compare` (Findings rows on BigInteger.cpp:459-464 and 470-472); as written, `BigInteger("-200") == BigInteger(-200L)` is false.
- BigIntegers.NotEqual: states the intended result, through the corrected `compare` (Findings rows on BigInteger.cpp:459-464 and 470-472).
- BigIntegers.LessOrEqual: states the intended result, through the corrected `compare` (Findings rows on BigInteger.cpp:459-464 and 470-472).
- BigIntegers.GreaterOrEqual: states the intended result, through the corrected `compare` (Findings rows on BigInteger.cpp:459-464 and 470-472).
- BigIntegers.Less: states the intended result, through the corrected `compare` (Findings rows on BigInteger.cpp:459-464 and 470-472).
- BigIntegers.Greater: states the intended result, through the corrected `compare` (Findings rows on BigInteger.cpp:459-464 and 470-472).
- BigIntegers.BigInteger.Compare: states the corrected comparison, not the source's. The source's comparison is `Comparison.CompareAsWritten`.
- BigIntegers.BigInteger.Parse: the source builds the number in a constructor. The model returns a new object, or `null` together with the exception.
- BigIntegers.BigInteger.SubAssign: requires b to be sound. A multi-byte all-zero window, which only the as-written `<<=` makes, would negate to itself.

## Findings

| source | as written | input that shows it | evidently intended | confidence | as-written member | corrected member |
|---|---|---|---|---|---|---|
| BigInteger.cpp:459-464 | operands of the same sign are ordered by window length before their bytes are compared | -200 from "-200" has the window [38]; -200 from a `long` has [FF, 38]; `compare` returns 1, not 0. Read as written, the same test makes `BigInteger(-200L) / BigInteger(10L)` give -21: negating [FF, 38] leaves the unnormalized [00, C8], which is longer than the product [C8] at BigInteger.cpp:446 | windows of different lengths are first sign-extended to one length | not executed | Comparison.CompareMinusTwoHundred | BigIntegers.BigInteger.Compare |
| BigInteger.cpp:470-472 | for two negative operands the bit scan returns `b_bit - a_bit` | -1 is [FF] and -2 is [FE]; `compare(-1, -2)` is negative | two's-complement windows of one length order the same way as their unsigned readings, so no reversal | not executed | Comparison.CompareAsWrittenReversed | Comparison.CompareWindowsSign |
| BigInteger.cpp:315-348 | `<<=` grows the window but never calls `normalize` | `ZERO << 200` leaves 26 zero bytes, and `== ZERO` is then false | the result is normalized, as `>>=` and `+=` are | not executed | Findings.ZeroShiftedLeft | BigIntegers.BigInteger.ShiftLeft |
| BigInteger.cpp:352-356 | `+=` (and `<<=`) widen `_size` over the slack bytes as they are, and `negate` leaves stale slack behind | `a = BigInteger(-64); a += a; a.negate(); a += 256` reads the stale slack FF and gives 65664 instead of 384. Read as written, the FF slack the long constructor leaves makes `BigInteger(-64L) * BigInteger(4L)` give -130560 | the widened bytes hold the filler byte, so widening keeps the value | not executed | Findings.StaleSlackSum | BigIntegers.BigInteger.Widen |
| BigInteger.cpp:574-575 | `power(2, m)` returns `a << m - 1`, also for m = 0 | `power(BigInteger("2"), 0)` shifts by 4294967295, which is -1 as an `int`; the result is 0, not 1 | 2^0 is 1 | not executed | Findings.PowerShortcutAsWritten | BigIntegers.Power |

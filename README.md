# u32, from_range and mem::replace in Dafny

This project models three parts of the Subspace C++ library. Each part is
stated as its unit tests pin it down.

- **`u32`**, the library's checked 32-bit unsigned integer:
  - the operators, which panic on overflow, division by zero or an
    over-wide shift;
  - the `checked_*`, `overflowing_*`, `wrapping_*` and `saturating_*` forms
    of each arithmetic operation;
  - bit counting, bit reversal and rotation;
  - `pow`, the integer logarithms, and powers of two;
  - `div_ceil` and `next_multiple_of`;
  - byte order conversions;
  - conversions from the other integer types;
  - the compound assignments.
- **`sus::iter::from_range`**: a double-ended, exact-size iterator over a
  C++ range.
- **`sus::mem::replace`**: stores a new value into a location and returns the
  old one, by memcpy or by move-construction and move-assignment.

A `u32` is the subset type `U32` of the integers from `MIN` = 0 to `MAX` =
0xffff_ffff; `BITS` is 32 (module `Num`). A panic is a precondition, and the
comment on each member that can panic names the panic message. A `checked_*` result is an
`Option`, and an `overflowing_*` result is a pair of the wrapped value and
the overflow flag.

Bit-level operations are specified through `Bits(x)`, the 32 bits of `x`
with the least significant first (module `U32Bits`, built on `BitSeq`).
`pow` is a loop of repeated squaring proved against the mathematical power
`Power(b, e)`. The logarithms are proved against the bounds
`b^r <= x < b^(r+1)`.

`from_range` is a class over a sequence, with a front and a back position.
`replace` works on cells and on the tests' move-counting struct.

Modules and files:
- `Wrappers` (`wrappers.dfy`)
- `Num` (`num.dfy`)
- `U32Arith` (`arith.dfy`)
- `U32Shift` (`shift.dfy`)
- `U32Pow` (`pow.dfy`)
- `BitSeq` (`bitseq.dfy`)
- `U32Bits` (`bits.dfy`)
- `U32Log` (`log.dfy`)
- `U32Round` (`round.dfy`)
- `U32Bytes` (`bytes.dfy`)
- `U32Convert` (`convert.dfy`)
- `U32Assign` (`assign.dfy`)
- `FromRange` (`range.dfy`)
- `MemReplace` (`replace.dfy`)

The tests are the only description of behaviour here. Where they leave an
algorithm open, the model follows the Rust standard library, whose integer
API the library mirrors:
- `pow` by repeated squaring;
- the carry/sign rule of `add_signed`;
- `next_power_of_two` via `leading_zeros`;
- `next_multiple_of` via the remainder.

## Model

| member | source | states |
|---|---|---|
| U32Arith.WrappingAdd | sus/num/u32_unittest.cc:769-779 | the sum reduced modulo 2^32: the exact sum if it fits, otherwise the sum minus 2^32 |
| U32Arith.OverflowingAdd | sus/num/u32_unittest.cc:728-742 | the flag is set exactly when the exact sum exceeds MAX; the value is congruent to the sum modulo 2^32 |
| U32Arith.CheckedAdd | sus/num/u32_unittest.cc:717-726 | None exactly when the sum exceeds MAX, otherwise the exact sum; agrees with the overflowing and wrapping forms |
| U32Arith.SaturatingAdd | sus/num/u32_unittest.cc:744-753 | MAX when the sum overflows, otherwise the exact sum |
| U32Arith.Add | sus/num/u32_unittest.cc:673-715 | `a + b` panics unless the sum fits; the result is the exact sum, equal to the checked and overflowing forms |
| U32Arith.WrappingSub | sus/num/u32_unittest.cc:1455-1465 | the difference, plus 2^32 when it is negative |
| U32Arith.OverflowingSub | sus/num/u32_unittest.cc:1415-1429 | the flag is set exactly when b > a; the value is congruent to a - b modulo 2^32 |
| U32Arith.CheckedSub | sus/num/u32_unittest.cc:1403-1413 | None exactly when b > a, otherwise a - b |
| U32Arith.SaturatingSub | sus/num/u32_unittest.cc:1431-1441 | MIN when b > a, otherwise a - b |
| U32Arith.Sub | sus/num/u32_unittest.cc:1368-1401 | `a - b` panics when b > a; result + b == a |
| U32Arith.WrappingMul | sus/num/u32_unittest.cc:1041-1049 | congruent to a * b modulo 2^32, and equal to it when it fits |
| U32Arith.OverflowingMul | sus/num/u32_unittest.cc:1003-1022 | the flag is set exactly when a * b > MAX; the value is the wrapping product |
| U32Arith.CheckedMul | sus/num/u32_unittest.cc:994-1001 | None exactly when a * b > MAX, otherwise the product |
| U32Arith.SaturatingMul | sus/num/u32_unittest.cc:1024-1031 | MAX on overflow, otherwise the product |
| U32Arith.Mul | sus/num/u32_unittest.cc:965-992 | `a * b` panics unless the product fits; the result is the product |
| U32Arith.Div | sus/num/u32_unittest.cc:781-840 | `a / b` panics when b == 0; otherwise b*q <= a < b*(q+1) |
| U32Arith.CheckedDiv | sus/num/u32_unittest.cc:842-853 | None exactly when b == 0, otherwise the floor quotient |
| U32Arith.OverflowingDiv | sus/num/u32_unittest.cc:855-889 | panics on b == 0; never overflows; the value is the quotient |
| U32Arith.SaturatingDiv | sus/num/u32_unittest.cc:891-926 | panics on b == 0; the quotient |
| U32Arith.WrappingDiv | sus/num/u32_unittest.cc:928-963 | panics on b == 0; the quotient |
| U32Arith.Rem | sus/num/u32_unittest.cc:1082-1141 | `a % b` panics when b == 0; r < b and b * (a / b) + r == a |
| U32Arith.CheckedRem | sus/num/u32_unittest.cc:1143-1154 | None exactly when b == 0, otherwise the remainder |
| U32Arith.OverflowingRem | sus/num/u32_unittest.cc:1156-1186 | panics on b == 0; never overflows; the value is the remainder |
| U32Arith.WrappingRem | sus/num/u32_unittest.cc:1188-1223 | panics on b == 0; the remainder |
| U32Arith.DivEuclid | sus/num/u32_unittest.cc:2018-2034 | panics on b == 0; 0 <= a - b*q < b, which for unsigned values is the plain quotient |
| U32Arith.RemEuclid | sus/num/u32_unittest.cc:2081-2097 | panics on b == 0; 0 <= r < b with b * div_euclid + r == a, the plain remainder |
| U32Arith.CheckedDivEuclid | sus/num/u32_unittest.cc:2036-2042 | None exactly when b == 0, otherwise the checked quotient |
| U32Arith.CheckedRemEuclid | sus/num/u32_unittest.cc:2099-2105 | None exactly when b == 0, otherwise the checked remainder |
| U32Arith.OverflowingDivEuclid | sus/num/u32_unittest.cc:2044-2061 | panics on b == 0; the overflowing quotient |
| U32Arith.OverflowingRemEuclid | sus/num/u32_unittest.cc:2107-2124 | panics on b == 0; the overflowing remainder |
| U32Arith.WrappingDivEuclid | sus/num/u32_unittest.cc:2063-2079 | panics on b == 0; the wrapping quotient |
| U32Arith.WrappingRemEuclid | sus/num/u32_unittest.cc:2126-2142 | panics on b == 0; the wrapping remainder |
| U32Arith.OverflowingNeg | sus/num/u32_unittest.cc:1061-1071 | a + result is 0 modulo 2^32; the flag is set exactly for a != 0 |
| U32Arith.WrappingNeg | sus/num/u32_unittest.cc:1073-1080 | a + result is 0 modulo 2^32; for a != 0 the result is 2^32 - a |
| U32Arith.CheckedNeg | sus/num/u32_unittest.cc:1051-1059 | Some exactly for 0, and then Some(0) |
| U32Arith.OverflowingAddSigned | sus/num/u32_unittest.cc:1921-1934 | the flag is set exactly when a + b leaves [MIN, MAX]; the value is congruent to a + b modulo 2^32 |
| U32Arith.CheckedAddSigned | sus/num/u32_unittest.cc:1909-1918 | None exactly when a + b leaves the range, otherwise a + b |
| U32Arith.SaturatingAddSigned | sus/num/u32_unittest.cc:1936-1945 | MAX above the range, MIN below, otherwise a + b |
| U32Arith.WrappingAddSigned | sus/num/u32_unittest.cc:1947-1956 | congruent to a + b modulo 2^32, and equal to the overflowing value |
| U32Arith.AbsDiff | sus/num/u32_unittest.cc:657-671 | the distance: a + r == b or b + r == a, and r is the sum of the two saturating differences |
| U32Arith.WrappingAddSubInverse | sus/num/u32_unittest.cc:769-779 | wrapping subtraction undoes wrapping addition, and the reverse |
| U32Arith.WrappingNegInverse | sus/num/u32_unittest.cc:1073-1080 | a plus its wrapping negation is 0, and negating twice gives back a |
| U32Arith.AddSignedAgrees | sus/num/u32_unittest.cc:1909-1956 | adding a non-negative signed value is checked/wrapping addition; adding a negative one is checked/wrapping subtraction of its magnitude |
| U32Arith.AddBoundaries | sus/num/u32_unittest.cc:717-779 | 1 + 3 is 4; MAX + 1, 1 + MAX and MAX + MAX overflow; MAX + 1, 2 + MAX and MAX + MAX wrap to MIN, MIN + 1 and MAX - 1; saturating gives MAX |
| U32Arith.SubBoundaries | sus/num/u32_unittest.cc:1403-1465 | 5 - 3 is 2; MIN - 1 and MIN - MAX overflow, wrapping to MAX and 1, and MIN - 2 wraps to MAX - 1; saturating gives MIN |
| U32Arith.MulBoundaries | sus/num/u32_unittest.cc:983-1049 | 1 * 3 is 3 and 100 * 21 is 2100 in either order; 123456 * 234567 has no checked product, saturates to MAX and overflows or wraps to its low 32 bits; 1'000'000'000 * 10 overflows to 1410065408; MAX * 2 has no checked product |
| U32Arith.AddSignedBoundaries | sus/num/u32_unittest.cc:1909-1956 | 1 + 3 is 4 and 1 + (-1) is MIN; MIN + (-1) and (MAX - 2) + 3 leave the range, wrap to MAX and MIN and saturate to MIN and MAX |
| U32Arith.AbsDiffExamples | sus/num/u32_unittest.cc:657-671 | the distances of the examples, in both orders |
| U32Shift.Shl | sus/num/u32_unittest.cc:1225-1266 | `a << s` panics for s >= 32; otherwise a * 2^s reduced modulo 2^32 |
| U32Shift.Shr | sus/num/u32_unittest.cc:1301-1334 | `a >> s` panics for s >= 32; otherwise the floor of a / 2^s |
| U32Shift.WrappingShl | sus/num/u32_unittest.cc:1290-1299 | the shift amount is taken modulo 32 |
| U32Shift.WrappingShr | sus/num/u32_unittest.cc:1357-1366 | the shift amount is taken modulo 32 |
| U32Shift.OverflowingShl | sus/num/u32_unittest.cc:1268-1277 | the flag is set exactly for s >= 32; the value is the wrapping shift, and the plain shift when in range |
| U32Shift.OverflowingShr | sus/num/u32_unittest.cc:1345-1355 | the flag is set exactly for s >= 32; the value is the wrapping shift |
| U32Shift.CheckedShl | sus/num/u32_unittest.cc:1279-1288 | None exactly for s >= 32, otherwise a * 2^s modulo 2^32 |
| U32Shift.CheckedShr | sus/num/u32_unittest.cc:1336-1343 | None exactly for s >= 32, otherwise a / 2^s |
| U32Shift.ShrAfterShl | sus/num/u32_unittest.cc:1225-1236 | shifting left then right by s keeps the low 32 - s bits |
| U32Shift.ShlAfterShr | sus/num/u32_unittest.cc:1301-1310 | shifting right then left by s clears the low s bits |
| U32Shift.ShiftExamples | sus/num/u32_unittest.cc:1225-1366 | 5 << 1 = 10, 5 >> 1 = 2; wrapping and overflowing shifts by 32 and 33 act as shifts by 0 and 1; checked shifts by 32, 33 and 64 give None |
| U32Pow.CheckedPow | sus/num/u32_unittest.cc:1605-1623 | loop by repeated squaring: None exactly when b^e > MAX, otherwise b^e |
| U32Pow.OverflowingPow | sus/num/u32_unittest.cc:1595-1603 | loop: the value is b^e modulo 2^32 and the flag says whether b^e > MAX |
| U32Pow.WrappingPow | sus/num/u32_unittest.cc:1625-1633 | loop: b^e modulo 2^32, equal to b^e when it fits |
| U32Pow.Pow | sus/num/u32_unittest.cc:1557-1593 | panics ("attempt to multiply with overflow") unless b^e fits; the result is b^e |
| U32Pow.OverflowingPowers | sus/num/u32_unittest.cc:1569-1593 | 3^31, (MAX/2)^31 and 4^(2^30 - 1) exceed MAX, so `pow` panics on them |
| U32Pow.PowOfMax | sus/num/u32_unittest.cc:1595-1633 | MAX^2 overflows and is 1 modulo 2^32; MAX^1 = MAX, MAX^0 = 1, 2^5 = 32 |
| U32Pow.CheckedPowExamples | sus/num/u32_unittest.cc:1605-1623 | the checked powers of the examples: three None, then Some(1) and Some(32) |
| U32Bits.CountOnes | sus/num/u32_unittest.cc:1467-1475 | the number of set bits of x, at most 32 |
| U32Bits.CountZeros | sus/num/u32_unittest.cc:1477-1485 | the number of clear bits; with count_ones it makes 32 |
| U32Bits.LeadingZeros | sus/num/u32_unittest.cc:1487-1505 | the bits above 31 - r are clear and bit 31 - r is set; x < 2^(32-r); r == 32 exactly for 0 |
| U32Bits.LeadingOnes | sus/num/u32_unittest.cc:1507-1522 | the top r bits are set and the next one is clear |
| U32Bits.TrailingZeros | sus/num/u32_unittest.cc:1524-1535 | the low r bits are clear and bit r is set; x is a multiple of 2^r with an odd quotient |
| U32Bits.TrailingOnes | sus/num/u32_unittest.cc:1537-1555 | the low r bits are set and bit r is clear |
| U32Bits.ReverseBits | sus/num/u32_unittest.cc:1635-1650 | bit i of the result is bit 31 - i of x |
| U32Bits.RotateLeft | sus/num/u32_unittest.cc:1652-1662 | bit i of the result is bit i - (n mod 32) of x, modulo 32 |
| U32Bits.RotateRight | sus/num/u32_unittest.cc:1664-1675 | bit i of the result is bit i + (n mod 32) of x, modulo 32 |
| U32Bits.IsPowerOfTwo | sus/num/u32_unittest.cc:1958-1967 | true exactly when x is 2^k for some k |
| U32Bits.ReverseBitsInvolution | sus/num/u32_unittest.cc:1635-1650 | reversing twice gives back x |
| U32Bits.ReverseBitsPow2 | sus/num/u32_unittest.cc:1635-1650 | 2^k reverses to 2^(31-k); so 1 reverses to 1 << 31 and 2 to 1 << 30 |
| U32Bits.ReverseBitsZero | sus/num/u32_unittest.cc:1636-1637 | 0 reverses to 0 |
| U32Bits.ReverseBitsCountOnes | sus/num/u32_unittest.cc:1635-1650 | reversal keeps the number of set bits |
| U32Bits.ReverseBitsTrailingZeros | sus/num/u32_unittest.cc:1635-1650 | the trailing zeros of the reversal are the leading zeros of x |
| U32Bits.RotateRightAfterLeft | sus/num/u32_unittest.cc:1652-1675 | rotating right by n undoes rotating left by n |
| U32Bits.RotateLeftAfterRight | sus/num/u32_unittest.cc:1652-1675 | rotating left by n undoes rotating right by n |
| U32Bits.RotateFullTurn | sus/num/u32_unittest.cc:1652-1675 | a rotation by a multiple of 32 (such as 32 or 64) changes nothing |
| U32Bits.RotateLeftArithmetic | sus/num/u32_unittest.cc:1652-1662 | for k = n mod 32 > 0, the rotation is (x << k) \| (x >> (32 - k)) written as arithmetic |
| U32Bits.RotateRightArithmetic | sus/num/u32_unittest.cc:1664-1675 | for k = n mod 32 > 0, the rotation is (x >> k) \| (x << (32 - k)) written as arithmetic |
| U32Bits.RotateRightIsLeft | sus/num/u32_unittest.cc:1652-1675 | rotating right by k is rotating left by 32 - k |
| U32Bits.RotateLeftPow2 | sus/num/u32_unittest.cc:1652-1662 | 2^k rotates left to 2^((k + n) mod 32); so 1 by 31 or 63 gives 1 << 31, and 1 by 32 or 64 gives 1 |
| U32Bits.RotateRightPow2 | sus/num/u32_unittest.cc:1664-1675 | 2^k rotates right to 2^((k - n) mod 32); so 1 by 1, 33 or 65 gives 1 << 31 |
| U32Bits.RotateLeftNoWrap | sus/num/u32_unittest.cc:1652-1662 | a left rotation that moves no set bit past bit 31 is multiplication by 2^(n mod 32); so 3 by 2 gives 12 |
| U32Bits.RotateRightNoWrap | sus/num/u32_unittest.cc:1664-1675 | a right rotation that moves no set bit past bit 0 is division by 2^(n mod 32); so 16 by 4 gives 1 |
| U32Bits.LowMaskCountOnes | sus/num/u32_unittest.cc:1467-1485 | 2^k - 1 has k ones and 32 - k zeros; so 7 has 3 and 0 has none |
| U32Bits.LowMaskLeadingZeros | sus/num/u32_unittest.cc:1487-1505 | 2^k - 1 has 32 - k leading zeros; so 0, 1, 3 and MAX have 32, 31, 30 and 0 |
| U32Bits.LowMaskLeadingOnes | sus/num/u32_unittest.cc:1507-1522 | 2^k - 1 has 32 leading ones for k = 32, otherwise none |
| U32Bits.LowMaskTrailingZeros | sus/num/u32_unittest.cc:1524-1535 | 2^k - 1 has 32 trailing zeros for k = 0, otherwise none |
| U32Bits.LowMaskTrailingOnes | sus/num/u32_unittest.cc:1537-1555 | 2^k - 1 has k trailing ones; so 0, 1, 3 and MAX have 0, 1, 2 and 32 |
| U32Log.FloorLog | sus/num/u32_unittest.cc:1750-1757 | the floor logarithm by repeated division: b^r <= x < b^(r+1) |
| U32Log.LogUnique | sus/num/u32_unittest.cc:1750-1757 | only one exponent satisfies those bounds |
| U32Log.Log2 | sus/num/u32_unittest.cc:1686-1706 | panics for 0; otherwise 2^r <= x < 2^(r+1) |
| U32Log.CheckedLog2 | sus/num/u32_unittest.cc:1708-1718 | None exactly for 0, otherwise the base-2 bounds |
| U32Log.Log | sus/num/u32_unittest.cc:1750-1780 | panics for x == 0 or base < 2; otherwise base^r <= x < base^(r+1) |
| U32Log.CheckedLog | sus/num/u32_unittest.cc:1782-1790 | None exactly when x == 0 or base < 2, otherwise those bounds |
| U32Log.Log10 | sus/num/u32_unittest.cc:1720-1738 | panics for 0; otherwise 10^r <= x < 10^(r+1) |
| U32Log.CheckedLog10 | sus/num/u32_unittest.cc:1740-1748 | None exactly for 0, otherwise the base-10 bounds |
| U32Log.Log2IsLog | sus/num/u32_unittest.cc:1686-1757 | `log2` equals `log(2)` |
| U32Log.Log2Examples | sus/num/u32_unittest.cc:1686-1695 | log2 of 2, 55555 and MAX / 2 is 1, 15 and 30 |
| U32Log.Log10Examples | sus/num/u32_unittest.cc:1720-1757 | log10 and log(10) of 2, 55555 and MAX are 0, 4 and 9 |
| U32Log.CheckedLogExamples | sus/num/u32_unittest.cc:1708-1790 | zero arguments and bases 0 and 1 give None; checked_log2(55555) = 15, checked_log10(MAX) = 9 |
| U32Round.OneLessThanNextPowerOfTwo | sus/num/u32_unittest.cc:1970-1978 | one more than the result is the least power of two at least x |
| U32Round.LeastPowerFits | sus/num/u32_unittest.cc:1981-1990 | that power of two fits in u32 exactly when x <= 2^31 |
| U32Round.NextPowerOfTwo | sus/num/u32_unittest.cc:1970-1990 | panics for x > 2^31; otherwise a power of two, at least x, and no larger than any power of two at least x |
| U32Round.CheckedNextPowerOfTwo | sus/num/u32_unittest.cc:1993-2003 | None exactly for x > 2^31, otherwise the least power of two at least x |
| U32Round.WrappingNextPowerOfTwo | sus/num/u32_unittest.cc:2006-2016 | 0 for x > 2^31, otherwise `next_power_of_two` |
| U32Round.NextPowerOfTwoIs | sus/num/u32_unittest.cc:1970-2016 | when 2^(k-1) < x <= 2^k, all three forms give 2^k |
| U32Round.NextPowerOfTwoExamples | sus/num/u32_unittest.cc:1970-2016 | 2, 3, 4 and 1000 go to 2, 4, 4 and 1024 |
| U32Round.NextPowerOfTwoOfMax | sus/num/u32_unittest.cc:1993-2016 | MAX has none: checked gives None and wrapping gives 0 |
| U32Round.IsPowerOfTwoExamples | sus/num/u32_unittest.cc:1958-1967 | 2, 4 and 1024 are powers of two; 3 and 1000 are not |
| U32Round.DivCeil | sus/num/u32_unittest.cc:2171-2205 | panics for b == 0; otherwise b*(r-1) < a <= b*r |
| U32Round.DivCeilExamples | sus/num/u32_unittest.cc:2171-2188 | 7 divided up by 1 to 8 gives 7, 4, 3, 2, 2, 2, 1, 1; 6 divided up by 1 to 7 gives 6, 3, 2, 2, 2, 1, 1 |
| U32Round.LeastMultipleAbove | sus/num/u32_unittest.cc:2207-2219 | a multiple of d in [a, a + d) |
| U32Round.MultipleUnique | sus/num/u32_unittest.cc:2207-2219 | that multiple is the only one in the window |
| U32Round.NextMultipleOf | sus/num/u32_unittest.cc:2207-2242 | panics for d == 0 or when the multiple does not fit; otherwise the multiple of d in [a, a + d) |
| U32Round.CheckedNextMultipleOf | sus/num/u32_unittest.cc:2244-2261 | None exactly when d == 0 or the multiple does not fit, otherwise that multiple |
| U32Round.NextMultipleOfExamples | sus/num/u32_unittest.cc:2207-2261 | 16 and 23 round up to 16 and 24 for 8; divisor 0 and MAX rounded to 2 or 20 give None |
| U32Bytes.ToLeBytes | sus/num/u32_unittest.cc:1875-1884 | four bytes whose little-endian value is x |
| U32Bytes.ToBeBytes | sus/num/u32_unittest.cc:1864-1873 | four bytes whose big-endian value is x |
| U32Bytes.LeValueInjective | sus/num/u32_unittest.cc:1875-1884 | four bytes are determined by their little-endian value |
| U32Bytes.ToLeBytesOfValue | sus/num/u32_unittest.cc:1875-1884 | the bytes of the value of any four bytes are those bytes |
| U32Bytes.BeBytesReversed | sus/num/u32_unittest.cc:1864-1884 | the big-endian bytes are the little-endian ones reversed |
| U32Bytes.SwapBytes | sus/num/u32_unittest.cc:1677-1684 | the little-endian bytes of the result are the big-endian bytes of x |
| U32Bytes.SwapBytesInvolution | sus/num/u32_unittest.cc:1677-1684 | swapping twice gives back x |
| U32Bytes.SwapBytesExamples | sus/num/u32_unittest.cc:1677-1684 | 0x12345678 swaps to 0x78563412, 0 to 0, and 1 << 31 to 0x80 |
| U32Bytes.ToBe | sus/num/u32_unittest.cc:1792-1808 | on a little-endian host its bytes are the big-endian bytes of x; on a big-endian host it is x |
| U32Bytes.FromBe | sus/num/u32_unittest.cc:1810-1826 | the inverse of `to_be` on either host |
| U32Bytes.ToLe | sus/num/u32_unittest.cc:1828-1844 | x on a little-endian host; its big-endian bytes are x's little-endian bytes on a big-endian host |
| U32Bytes.FromLe | sus/num/u32_unittest.cc:1846-1862 | the inverse of `to_le` on either host |
| U32Bytes.ToNeBytes | sus/num/u32_unittest.cc:1886-1906 | the bytes in the host's order |
| U32Bytes.ByteOrderConversions | sus/num/u32_unittest.cc:1792-1906 | on either host `to_be` lays out the big-endian bytes and `to_le` the little-endian ones, and `from_*` undo them |
| U32Bytes.ByteExamples | sus/num/u32_unittest.cc:1864-1906 | the byte layouts of 0x12345678 |
| U32Bytes.ToLeOfMinOnBigEndian | sus/num/u32_unittest.cc:1828-1862 | on a big-endian host `to_le` and `from_le` of MIN give MIN, not 0x80 |
| U32Bytes.ToLeOfTopBitOnBigEndian | sus/num/u32_unittest.cc:1792-1862 | 1 << 31 gives 0x80 through `to_le`/`from_le` on a big-endian host and `to_be`/`from_be` on a little-endian one |
| U32Convert.MinOf | sus/num/u32_unittest.cc:561-566 | zero exactly for the unsigned types |
| U32Convert.MaxOf | sus/num/u32_unittest.cc:561-566 | the largest value of a type, positive for every type |
| U32Convert.TryFrom | sus/num/u32_unittest.cc:476-632 | Ok exactly when the value lies in [MIN, MAX], and then the same value; otherwise an error |
| U32Convert.From | sus/num/u32_unittest.cc:612-614 | defined only for u8, u16 and u32 sources; the same value |
| U32Convert.FromIsInfallible | sus/num/u32_unittest.cc:476-632 | for the widening types `try_from` always succeeds and equals `from`; every other type has a value it refuses |
| U32Convert.TryFromRoundTrip | sus/num/u32_unittest.cc:634-655 | a u32 value converted through any type that holds it comes back unchanged |
| U32Convert.TryFromBoundaries | sus/num/u32_unittest.cc:616-655 | MAX and 0 convert; MAX + 1, -1 and the extremes of i32, i64 and u64 except i32::MAX fail; 2 converts from every type |
| U32Assign.U32Var.constructor | sus/num/u32_unittest.cc:683-697 | a variable holding the given value |
| U32Assign.U32Var.AddAssign | sus/num/u32_unittest.cc:683-697 | `x += y` panics on overflow; x becomes old x + y |
| U32Assign.U32Var.SubAssign | sus/num/u32_unittest.cc:1378-1384 | `x -= y` panics when y > x; x + y becomes old x |
| U32Assign.U32Var.MulAssign | sus/num/u32_unittest.cc:978-981 | `x *= y` panics on overflow; x becomes old x * y |
| U32Assign.U32Var.DivAssign | sus/num/u32_unittest.cc:790-801 | `x /= y` panics for y == 0; x becomes the quotient |
| U32Assign.U32Var.RemAssign | sus/num/u32_unittest.cc:1090-1099 | `x %= y` panics for y == 0; x becomes the remainder |
| U32Assign.U32Var.ShlAssign | sus/num/u32_unittest.cc:1232-1235 | `x <<= s` panics for s >= 32; x becomes the shifted value |
| U32Assign.U32Var.ShrAssign | sus/num/u32_unittest.cc:1307-1310 | `x >>= s` panics for s >= 32; x becomes the shifted value |
| U32Assign.AssignmentExamples | sus/num/u32_unittest.cc:683-1384 | 12345 += 1, 12345 -= 345, 5 *= 20, 2222 /= 2, 5 /= 2, 5 %= 2, 2 <<= 1 and 4 >>= 1 give 12346, 12000, 100, 1111, 2, 1, 4 and 2 |
| FromRange.RangeIter.constructor | sus/iter/compat_ranges_unittest.cc:74-82 | every element of the range remains |
| FromRange.RangeIter.SizeHintNow | sus/iter/compat_ranges_unittest.cc:74-99 | both bounds are the number of remaining elements |
| FromRange.RangeIter.ExactSizeHint | sus/iter/compat_ranges_unittest.cc:74-99 | the number of remaining elements |
| FromRange.RangeIter.Next | sus/iter/compat_ranges_unittest.cc:74-125 | yields the first remaining element (the range's element at the front position) and drops it; None with nothing changed once empty; the back is untouched |
| FromRange.RangeIter.NextBack | sus/iter/compat_ranges_unittest.cc:126-149 | yields the last remaining element and drops it; None with nothing changed once empty; the front is untouched |
| FromRange.Sum | sus/iter/compat_ranges_unittest.cc:150-158 | loop: consumes the iterator and returns the sum of the remaining elements |
| FromRange.Collect | sus/iter/compat_ranges_unittest.cc:36-46 | loop: the remaining elements in order, leaving the iterator empty |
| FromRange.CollectFiltered | sus/iter/compat_ranges_unittest.cc:48-59 | loop: the remaining elements that satisfy the predicate, in order |
| FromRange.FilterAppend | sus/iter/compat_ranges_unittest.cc:48-59 | filtering distributes over concatenation |
| FromRange.ForwardExample | sus/iter/compat_ranges_unittest.cc:74-125 | over {1, 2, 3}: next yields 1, 2, 3, then None, and the size hint counts 3, 2, 1, 0, 0 |
| FromRange.BothEndsExample | sus/iter/compat_ranges_unittest.cc:126-149 | next_back, next, next_back yield 3, 1, 2; then next_back yields None and the hint is 0 |
| FromRange.SumExample | sus/iter/compat_ranges_unittest.cc:150-172 | the sum over {1, 2, 3} is 1 + 2 + 3 |
| FromRange.AdaptorExamples | sus/iter/compat_ranges_unittest.cc:36-59 | the range over 1..6 yields 1 to 6; filtering `> 3` yields 4, 5, 6 |
| MemReplace.Cell.constructor | mem/replace_unittest.cc:26-42 | a location holding the value |
| MemReplace.Replace | mem/replace_unittest.cc:26-42 | the location holds the new value and the old one is returned |
| MemReplace.Counted.constructor | mem/replace_unittest.cc:44-53 | `S(n)`: number n, no assignments yet |
| MemReplace.Counted.Moved | mem/replace_unittest.cc:44-53 | the move constructor copies both fields |
| MemReplace.Counted.MoveAssign | mem/replace_unittest.cc:44-53 | move assignment takes the number and one more than the source's assignment count |
| MemReplace.ReplaceCounted | mem/replace_unittest.cc:44-167 | the old content is returned in a fresh object; dest takes value's number; its count is value's count, plus one on the move path (no memcpy, or constant evaluation) |
| MemReplace.ReplaceIntExample | mem/replace_unittest.cc:26-42 | replace(i = 2, 5) leaves 5 in i and returns 2 |
| MemReplace.ReplaceCountedExample | mem/replace_unittest.cc:44-167 | replace(S(2), S(5)) leaves 5 and returns 2; i is move-assigned once unless memcpy is used outside constant evaluation |

## Left out

- The `u32` literal suffix, construction from and conversion to primitive
  types, enums and pointers, `fmt`, stream output and GTest printing. These
  concern C++ syntax and I/O rather than values.
- The trait and concept checks (`static_assert`s) on `u32`, the iterator and
  the struct. They are compile-time facts about C++ types.
- The bitwise operators `&`, `|`, `^` and `!`. The tests use them only in
  those concept checks (`BitNot` is kept as a helper for `leading_ones`).
- The `unchecked_*` operations. They compute the same values as the
  panicking operators under the same precondition, so `Add`, `Sub` and
  `Mul` stand for them. Outside that precondition their result is
  undefined behaviour of the library. The model therefore drops the check
  at sus/num/u32_unittest.cc:1452 that `unchecked_sub(0, 1)` gives MAX;
  the wrapping forms are the ones that promise that value.
- The text of the panic messages. Each panic is a precondition, and its
  message is named in the member's comment.
- Host byte order. It is a parameter (`Endian`), not a property of a
  machine.
- `isize` and `usize`. They are taken to be 64 bits wide.
- The `reverse_bits` example 0xf8f800, the `log2` and `log` examples beyond
  2, 55555, MAX / 2 and MAX, and the death tests' exact operands. These are
  not restated literally; the general lemmas cover them.
- U32Round.NextPowerOfTwoExamples: states the examples through
  `NextPowerOfTwoIs` rather than one equation per call.
- FromRange.Sum: sums mathematical integers. The `i32` sum of the tests
  would panic on overflow, which the small examples never reach.
- FromRange.RangeIter.Next: the library yields a reference into the range,
  and the model yields the element's value. The tests' address comparisons
  become equalities with `items[front]`, and the difference between a
  by-reference and a by-value (moved) range is not modelled.
- FromRange.Collect and FromRange.CollectFiltered: the adaptor tests
  build a `Vec`, turn it into an iterator and back into a range
  (`into_iter().range()`). Here the iterator is built directly over the
  sequence, so the round trip through `Vec` and its ownership are not
  modelled.
- The `copied()` adaptor of the example. It is the identity on values here.
- MemReplace.ReplaceCounted: which types are relocatable by memcpy, and
  whether evaluation is constant, are boolean parameters. The C++ type
  traits that decide them are not part of this model.
- The `subdoc` sources. They are not part of this model.

## Findings

| source | as written | input that shows it | evidently intended | confidence | as-written member | corrected member |
|---|---|---|---|---|---|---|
| sus/num/u32_unittest.cc:1828-1862 | on a big-endian host, `to_le` and `from_le` of `u32::MIN` are expected to be 0x80 | `u32::MIN` is 0, and reordering the bytes of 0 gives 0, not 0x80 | `(1 << 31).to_le()` and `from_le(1 << 31)` are 0x80, as in the little-endian branches of the `to_be` / `from_be` tests | not executed | U32Bytes.ToLeOfMinOnBigEndian | U32Bytes.ToLeOfTopBitOnBigEndian |

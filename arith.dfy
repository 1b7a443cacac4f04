/** Addition, subtraction, multiplication, division, remainder and negation of
    `u32` under each overflow policy of the library:
    - the operator (`a + b`, ...) panics when the exact result leaves the range;
      this is modelled as a precondition naming the panic's cause;
    - `checked_*` returns `None` instead of panicking;
    - `overflowing_*` returns the result reduced modulo 2^32 and a flag that is
      set exactly when the reduction changed the value;
    - `wrapping_*` returns the reduced result alone;
    - `saturating_*` clamps to `MIN` or `MAX`.
    As in the machine code, the overflowing form is the primitive and the
    checked, wrapping and saturating forms are derived from it. */
module U32Arith {
  import opened Wrappers
  import opened Num

  // ---------------------------------------------------------------- add

  /** `wrapping_add`: the machine sum, which drops the carry out of bit 31. */
  function WrappingAdd(a: U32, b: U32): (r: U32)
    ensures r == if a + b <= MAX then a + b else a + b - MODULUS
  {
    (a + b) % MODULUS
  }

  /** `overflowing_add`: the carry is read off the wrapped sum, which comes out
      smaller than an operand exactly when the exact sum exceeded `MAX`. */
  function OverflowingAdd(a: U32, b: U32): (r: (U32, bool))
    ensures r.1 <==> a + b > MAX
    ensures (a + b - r.0) % MODULUS == 0
  {
    var sum := WrappingAdd(a, b);
    (sum, sum < a)
  }

  /** `checked_add`. */
  function CheckedAdd(a: U32, b: U32): (r: Option<U32>)
    ensures r.None? <==> a + b > MAX
    ensures r.Some? ==> r.value == a + b
    ensures r.Some? <==> !OverflowingAdd(a, b).1
    ensures r.Some? ==> r.value == WrappingAdd(a, b)
  {
    var (sum, overflow) := OverflowingAdd(a, b);
    if overflow then None else Some(sum)
  }

  /** `saturating_add`. */
  function SaturatingAdd(a: U32, b: U32): (r: U32)
    ensures a + b > MAX ==> r == MAX
    ensures a + b <= MAX ==> r == a + b
  {
    CheckedAdd(a, b).GetOr(MAX)
  }

  /** `a + b`; panics "attempt to add with overflow" unless the exact sum fits. */
  function Add(a: U32, b: U32): (r: U32)
    requires a + b <= MAX
    ensures r == a + b
    ensures CheckedAdd(a, b) == Some(r) && OverflowingAdd(a, b) == (r, false)
  {
    CheckedAdd(a, b).value
  }

  // ---------------------------------------------------------------- sub

  /** `wrapping_sub`: the machine difference, which borrows from bit 32. */
  function WrappingSub(a: U32, b: U32): (r: U32)
    ensures r == if b <= a then a - b else a - b + MODULUS
  {
    (a - b) % MODULUS
  }

  /** `overflowing_sub`: the borrow is read off the wrapped difference, which
      comes out larger than the minuend exactly when `b > a`. */
  function OverflowingSub(a: U32, b: U32): (r: (U32, bool))
    ensures r.1 <==> b > a
    ensures (a - b - r.0) % MODULUS == 0
  {
    var diff := WrappingSub(a, b);
    (diff, diff > a)
  }

  /** `checked_sub`. */
  function CheckedSub(a: U32, b: U32): (r: Option<U32>)
    ensures r.None? <==> b > a
    ensures r.Some? ==> r.value == a - b
    ensures r.Some? <==> !OverflowingSub(a, b).1
    ensures r.Some? ==> r.value == WrappingSub(a, b)
  {
    var (diff, overflow) := OverflowingSub(a, b);
    if overflow then None else Some(diff)
  }

  /** `saturating_sub`. */
  function SaturatingSub(a: U32, b: U32): (r: U32)
    ensures b > a ==> r == MIN
    ensures b <= a ==> r == a - b
  {
    CheckedSub(a, b).GetOr(MIN)
  }

  /** `a - b`; panics "attempt to subtract with overflow" when `b > a`. */
  function Sub(a: U32, b: U32): (r: U32)
    requires b <= a
    ensures r + b == a
    ensures CheckedSub(a, b) == Some(r) && OverflowingSub(a, b) == (r, false)
  {
    CheckedSub(a, b).value
  }

  // ---------------------------------------------------------------- mul

  /** `wrapping_mul`: the low 32 bits of the product. */
  function WrappingMul(a: U32, b: U32): (r: U32)
    ensures (a * b - r) % MODULUS == 0
    ensures a * b <= MAX ==> r == a * b
  {
    (a * b) % MODULUS
  }

  /** `overflowing_mul`: the product is formed in 64 bits; the flag says
      whether its high half is nonzero. */
  function OverflowingMul(a: U32, b: U32): (r: (U32, bool))
    ensures r.1 <==> a * b > MAX
    ensures r.0 == WrappingMul(a, b)
  {
    var wide := a * b;
    (WrappingMul(a, b), wide / MODULUS != 0)
  }

  /** `checked_mul`. */
  function CheckedMul(a: U32, b: U32): (r: Option<U32>)
    ensures r.None? <==> a * b > MAX
    ensures r.Some? ==> r.value == a * b
    ensures r.Some? <==> !OverflowingMul(a, b).1
  {
    var (product, overflow) := OverflowingMul(a, b);
    if overflow then None else Some(product)
  }

  /** `saturating_mul`. */
  function SaturatingMul(a: U32, b: U32): (r: U32)
    ensures a * b > MAX ==> r == MAX
    ensures a * b <= MAX ==> r == a * b
  {
    CheckedMul(a, b).GetOr(MAX)
  }

  /** `a * b`; panics "attempt to multiply with overflow" unless the product fits. */
  function Mul(a: U32, b: U32): (r: U32)
    requires a * b <= MAX
    ensures r == a * b
    ensures CheckedMul(a, b) == Some(r) && OverflowingMul(a, b) == (r, false)
  {
    CheckedMul(a, b).value
  }

  // ---------------------------------------------------------------- div

  /** `a / b`; panics "attempt to divide by zero" when `b == 0`. The
      quotient of unsigned operands is the floor quotient. */
  function Div(a: U32, b: U32): (q: U32)
    requires b != 0
    ensures b * q <= a < b * (q + 1)
  {
    Division(a, b);
    a / b
  }

  /** `checked_div`: absent exactly for a zero divisor. */
  function CheckedDiv(a: U32, b: U32): (r: Option<U32>)
    ensures r.None? <==> b == 0
    ensures r.Some? ==> b * r.value <= a < b * (r.value + 1)
  {
    if b == 0 then None else Some(Div(a, b))
  }

  /** `overflowing_div`: division of unsigned values never overflows, but a
      zero divisor still panics ("attempt to divide by zero"). */
  function OverflowingDiv(a: U32, b: U32): (r: (U32, bool))
    requires b != 0
    ensures !r.1 && CheckedDiv(a, b) == Some(r.0)
  {
    (Div(a, b), false)
  }

  /** `saturating_div`: never saturates; a zero divisor still panics
      ("attempt to divide by zero"). */
  function SaturatingDiv(a: U32, b: U32): (r: U32)
    requires b != 0
    ensures CheckedDiv(a, b) == Some(r)
  {
    Div(a, b)
  }

  /** `wrapping_div`: never wraps; a zero divisor still panics
      ("attempt to divide by zero"). For unsigned operands it coincides with `saturating_div`:
      both are the plain quotient. */
  function WrappingDiv(a: U32, b: U32): (r: U32)
    requires b != 0
    ensures CheckedDiv(a, b) == Some(r)
  {
    SaturatingDiv(a, b)
  }

  // ---------------------------------------------------------------- rem

  /** `a % b`; panics "attempt to calculate the remainder with a divisor of
      zero" when `b == 0`. */
  function Rem(a: U32, b: U32): (r: U32)
    requires b != 0
    ensures r < b
    ensures b * Div(a, b) + r == a
  {
    a % b
  }

  /** `checked_rem`: absent exactly for a zero divisor. */
  function CheckedRem(a: U32, b: U32): (r: Option<U32>)
    ensures r.None? <==> b == 0
    ensures r.Some? ==> r.value < b && b * Div(a, b) + r.value == a
  {
    if b == 0 then None else Some(Rem(a, b))
  }

  /** `overflowing_rem`: never overflows; a zero divisor still panics
      ("attempt to calculate the remainder with a divisor of zero"). */
  function OverflowingRem(a: U32, b: U32): (r: (U32, bool))
    requires b != 0
    ensures !r.1 && CheckedRem(a, b) == Some(r.0)
  {
    (Rem(a, b), false)
  }

  /** `wrapping_rem`: never wraps; a zero divisor still panics
      ("attempt to calculate the remainder with a divisor of zero"). */
  function WrappingRem(a: U32, b: U32): (r: U32)
    requires b != 0
    ensures CheckedRem(a, b) == Some(r)
  {
    Rem(a, b)
  }

  // ------------------------------------------------------ euclidean div/rem

  /** `div_euclid`: the quotient q of the Euclidean division a == b * q + r
      with 0 <= r < b. For unsigned operands it is the ordinary quotient.
      Panics ("attempt to divide by zero") when `b == 0`. */
  function DivEuclid(a: U32, b: U32): (q: U32)
    requires b != 0
    ensures 0 <= a - b * q < b
    ensures q == Div(a, b)
  {
    Division(a, b);
    a / b
  }

  /** `rem_euclid`: the remainder r of the Euclidean division, never negative;
      for unsigned operands it is the ordinary remainder. Panics
      ("attempt to calculate the remainder with a divisor of zero") when `b == 0`. */
  function RemEuclid(a: U32, b: U32): (r: U32)
    requires b != 0
    ensures 0 <= r < b && b * DivEuclid(a, b) + r == a
    ensures r == Rem(a, b)
  {
    a % b
  }

  /** `checked_div_euclid`. */
  function CheckedDivEuclid(a: U32, b: U32): (r: Option<U32>)
    ensures r.None? <==> b == 0
    ensures r.Some? ==> r == CheckedDiv(a, b)
  {
    if b == 0 then None else Some(DivEuclid(a, b))
  }

  /** `checked_rem_euclid`. */
  function CheckedRemEuclid(a: U32, b: U32): (r: Option<U32>)
    ensures r.None? <==> b == 0
    ensures r.Some? ==> r == CheckedRem(a, b)
  {
    if b == 0 then None else Some(RemEuclid(a, b))
  }

  /** `overflowing_div_euclid`; panics ("attempt to divide by zero") when `b == 0`. */
  function OverflowingDivEuclid(a: U32, b: U32): (r: (U32, bool))
    requires b != 0
    ensures r == OverflowingDiv(a, b)
  {
    (DivEuclid(a, b), false)
  }

  /** `overflowing_rem_euclid`; panics ("attempt to calculate the remainder with a divisor of zero")
      when `b == 0`. */
  function OverflowingRemEuclid(a: U32, b: U32): (r: (U32, bool))
    requires b != 0
    ensures r == OverflowingRem(a, b)
  {
    (RemEuclid(a, b), false)
  }

  /** `wrapping_div_euclid`; panics ("attempt to divide by zero") when `b == 0`. */
  function WrappingDivEuclid(a: U32, b: U32): (r: U32)
    requires b != 0
    ensures r == WrappingDiv(a, b)
  {
    DivEuclid(a, b)
  }

  /** `wrapping_rem_euclid`; panics ("attempt to calculate the remainder with a divisor of zero")
      when `b == 0`. */
  function WrappingRemEuclid(a: U32, b: U32): (r: U32)
    requires b != 0
    ensures r == WrappingRem(a, b)
  {
    RemEuclid(a, b)
  }

  // ---------------------------------------------------------------- neg

  /** `overflowing_neg`: `!a + 1` in 32 bits, the two's complement negation;
      only zero negates without overflow. (`u32` has no `-a` operator.) */
  function OverflowingNeg(a: U32): (r: (U32, bool))
    ensures (a + r.0) % MODULUS == 0
    ensures r.1 <==> a != 0
  {
    (WrappingAdd(MAX - a, 1), a != 0)
  }

  /** `wrapping_neg`. */
  function WrappingNeg(a: U32): (r: U32)
    ensures (a + r) % MODULUS == 0
    ensures a != 0 ==> r == MODULUS - a
  {
    OverflowingNeg(a).0
  }

  /** `checked_neg`: only zero has an unsigned negation. */
  function CheckedNeg(a: U32): (r: Option<U32>)
    ensures r.Some? <==> a == 0
    ensures r.Some? ==> r.value == 0
  {
    var (neg, overflow) := OverflowingNeg(a);
    if overflow then None else Some(neg)
  }

  // ----------------------------------------------------------- add_signed

  /** `overflowing_add_signed`: adds the signed operand's bit pattern with
      `overflowing_add`; a negative operand always carries unless it takes the
      sum below zero, so the overflow flag is the carry XOR the sign. */
  function OverflowingAddSigned(a: U32, b: I32): (r: (U32, bool))
    ensures r.1 <==> a + b < MIN || a + b > MAX
    ensures (a + b - r.0) % MODULUS == 0
  {
    var (sum, carry) := OverflowingAdd(a, Truncate(b));
    (sum, carry != (b < 0))
  }

  /** `checked_add_signed`. */
  function CheckedAddSigned(a: U32, b: I32): (r: Option<U32>)
    ensures r.None? <==> a + b < MIN || a + b > MAX
    ensures r.Some? ==> r.value == a + b
  {
    var (sum, overflow) := OverflowingAddSigned(a, b);
    if overflow then None else Some(sum)
  }

  /** `saturating_add_signed`: clamps to `MAX` above and `MIN` below. */
  function SaturatingAddSigned(a: U32, b: I32): (r: U32)
    ensures a + b > MAX ==> r == MAX
    ensures a + b < MIN ==> r == MIN
    ensures MIN <= a + b <= MAX ==> r == a + b
  {
    var (sum, carry) := OverflowingAdd(a, Truncate(b));
    if carry == (b < 0) then sum
    else if carry then MAX
    else MIN
  }

  /** `wrapping_add_signed`. */
  function WrappingAddSigned(a: U32, b: I32): (r: U32)
    ensures (a + b - r) % MODULUS == 0
    ensures r == OverflowingAddSigned(a, b).0
  {
    WrappingAdd(a, Truncate(b))
  }

  // ------------------------------------------------------------- abs_diff

  /** `abs_diff`: the distance between two values, which always fits. */
  function AbsDiff(a: U32, b: U32): (r: U32)
    ensures a + r == b || b + r == a
    ensures r == SaturatingSub(a, b) + SaturatingSub(b, a)
  {
    if a < b then b - a else a - b
  }

  // ------------------------------------------------------------- partners

  /** Wrapping addition and subtraction undo each other. */
  lemma WrappingAddSubInverse(a: U32, b: U32)
    ensures WrappingSub(WrappingAdd(a, b), b) == a
    ensures WrappingAdd(WrappingSub(a, b), b) == a
  {
  }

  /** The wrapping negation is the additive inverse modulo 2^32, and negating
      twice restores the value. */
  lemma WrappingNegInverse(a: U32)
    ensures WrappingAdd(a, WrappingNeg(a)) == 0
    ensures WrappingNeg(WrappingNeg(a)) == a
  {
  }

  /** Adding a signed operand is subtracting its magnitude when it is
      negative and adding it otherwise, under every policy. */
  lemma AddSignedAgrees(a: U32, b: I32)
    ensures b >= 0 ==> CheckedAddSigned(a, b) == CheckedAdd(a, b)
    ensures b < 0 ==> CheckedAddSigned(a, b) == CheckedSub(a, -(b as int))
    ensures b >= 0 ==> WrappingAddSigned(a, b) == WrappingAdd(a, b)
    ensures b < 0 ==> WrappingAddSigned(a, b) == WrappingSub(a, -(b as int))
  {
  }

  /** The boundary cases of addition: MAX + 1 and MAX + MAX overflow, and
      wrap to MIN and MAX - 1. */
  lemma AddBoundaries()
    ensures CheckedAdd(1, 3) == Some(4) && CheckedAdd(MAX, 1) == None
    ensures CheckedAdd(1, MAX) == None && CheckedAdd(MAX, MAX) == None
    ensures OverflowingAdd(MAX, 1) == (MIN, true) && OverflowingAdd(2, MAX) == (MIN + 1, true)
    ensures OverflowingAdd(MAX, MAX) == (MAX - 1, true)
    ensures SaturatingAdd(MAX, 1) == MAX && SaturatingAdd(MAX, MAX) == MAX
    ensures WrappingAdd(MAX, 2) == MIN + 1 && WrappingAdd(MAX, MAX) == MAX - 1
  {
  }

  /** The boundary cases of subtraction: MIN - 1 and MIN - MAX overflow,
      wrapping to MAX and 1. */
  lemma SubBoundaries()
    ensures CheckedSub(5, 3) == Some(2) && CheckedSub(MIN, 1) == None
    ensures CheckedSub(MIN, MAX) == None
    ensures OverflowingSub(MIN, 1) == (MAX, true) && OverflowingSub(MIN, MAX) == (1, true)
    ensures SaturatingSub(MIN, 1) == MIN && SaturatingSub(MIN, MAX) == MIN
    ensures WrappingSub(MIN, 2) == MAX - 1 && WrappingSub(MIN, MAX) == 1
  {
  }

  /** The products of the examples: 100 * 21 fits in either order;
      123456 * 234567 and 1'000'000'000 * 10 overflow, the first saturating
      to MAX and both wrapping to their low 32 bits; MAX * 2, the operand of
      the overflow panic, has no checked product. */
  lemma MulBoundaries()
    ensures CheckedMul(1, 3) == Some(3) && SaturatingMul(1, 3) == 3
    ensures CheckedMul(100, 21) == Some(2100) && CheckedMul(21, 100) == Some(2100)
    ensures OverflowingMul(100, 21) == (2100, false) && WrappingMul(21, 100) == 2100
    ensures SaturatingMul(100, 21) == 2100
    ensures CheckedMul(123456, 234567) == None
    ensures OverflowingMul(123456, 234567) == ((123456 * 234567) % MODULUS, true)
    ensures SaturatingMul(123456, 234567) == MAX
    ensures WrappingMul(123456, 234567) == (123456 * 234567) % MODULUS
    ensures OverflowingMul(1_000_000_000, 10) == (1410065408, true)
    ensures CheckedMul(MAX, 2) == None
  {
  }

  /** `add_signed` at the edges: 1 - 1 reaches MIN, MIN - 1 and
      (MAX - 2) + 3 leave the range. */
  lemma AddSignedBoundaries()
    ensures CheckedAddSigned(1, 3) == Some(4) && CheckedAddSigned(1, -1) == Some(MIN)
    ensures CheckedAddSigned(MIN, -1) == None && CheckedAddSigned(MAX - 2, 3) == None
    ensures OverflowingAddSigned(MIN, -1) == (MAX, true)
    ensures OverflowingAddSigned(MAX - 2, 3) == (MIN, true)
    ensures SaturatingAddSigned(MIN, -1) == MIN && SaturatingAddSigned(MAX - 2, 3) == MAX
    ensures WrappingAddSigned(MIN, -1) == MAX && WrappingAddSigned(MAX - 2, 3) == MIN
  {
  }

  /** `abs_diff` of the examples, in both orders. */
  lemma AbsDiffExamples()
    ensures AbsDiff(0, 123456) == 123456 && AbsDiff(123456, 0) == 123456
    ensures AbsDiff(MAX, MIN) == MAX && AbsDiff(MIN, MAX) == MAX
    ensures AbsDiff(9000, 1000) == 8000 && AbsDiff(123456, 123456) == 0
  {
  }
}

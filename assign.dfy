/** The compound assignment operators of `u32` (`+=`, `-=`, `*=`, `/=`,
    `%=`, `<<=`, `>>=`): each replaces the `primitive_value` of a variable
    in place, and panics in the same cases as the operator it applies. */
module U32Assign {
  import opened Num
  import opened U32Arith
  import opened U32Shift

  /** A `u32` variable. */
  class U32Var {
    var primitive_value: U32

    constructor(v: U32)
      ensures primitive_value == v
    {
      primitive_value := v;
    }

    /** `x += rhs`; panics ("attempt to add with overflow") unless the sum
        fits. */
    method AddAssign(rhs: U32)
      requires primitive_value + rhs <= MAX
      modifies this
      ensures primitive_value == old(primitive_value) + rhs
    {
      primitive_value := Add(primitive_value, rhs);
    }

    /** `x -= rhs`; panics ("attempt to subtract with overflow") when rhs is
        larger. */
    method SubAssign(rhs: U32)
      requires rhs <= primitive_value
      modifies this
      ensures primitive_value + rhs == old(primitive_value)
    {
      primitive_value := Sub(primitive_value, rhs);
    }

    /** `x *= rhs`; panics ("attempt to multiply with overflow") unless the
        product fits. */
    method MulAssign(rhs: U32)
      requires primitive_value * rhs <= MAX
      modifies this
      ensures primitive_value == old(primitive_value) * rhs
    {
      primitive_value := Mul(primitive_value, rhs);
    }

    /** `x /= rhs`; panics ("attempt to divide by zero") when rhs is zero. */
    method DivAssign(rhs: U32)
      requires rhs != 0
      modifies this
      ensures rhs * primitive_value <= old(primitive_value) < rhs * (primitive_value + 1)
    {
      primitive_value := Div(primitive_value, rhs);
    }

    /** `x %= rhs`; panics ("attempt to calculate the remainder with a
        divisor of zero") when rhs is zero. */
    method RemAssign(rhs: U32)
      requires rhs != 0
      modifies this
      ensures primitive_value < rhs
      ensures rhs * Div(old(primitive_value), rhs) + primitive_value == old(primitive_value)
    {
      primitive_value := Rem(primitive_value, rhs);
    }

    /** `x <<= rhs`; panics ("attempt to shift left with overflow") when
        rhs >= 32. */
    method ShlAssign(rhs: U32)
      requires rhs < BITS
      modifies this
      ensures primitive_value == (old(primitive_value) * Pow2(rhs)) % MODULUS
    {
      primitive_value := Shl(primitive_value, rhs);
    }

    /** `x >>= rhs`; panics ("attempt to shift right with overflow") when
        rhs >= 32. */
    method ShrAssign(rhs: U32)
      requires rhs < BITS
      modifies this
      ensures Pow2(rhs) * primitive_value <= old(primitive_value) < Pow2(rhs) * (primitive_value + 1)
    {
      primitive_value := Shr(primitive_value, rhs);
    }
  }

  /** The compound assignments applied to the values of the examples:
      12345 += 1, 12345 -= 345, 5 *= 20, 2222 /= 2, 5 /= 2, 5 %= 2,
      2 <<= 1 and 4 >>= 1. */
  method AssignmentExamples() returns (sum: U32, diff: U32, prod: U32, quot: U32,
                                       half: U32, rem: U32, shl: U32, shr: U32)
    ensures sum == 12346 && diff == 12000 && prod == 100 && quot == 1111
    ensures half == 2 && rem == 1 && shl == 4 && shr == 2
  {
    var x := new U32Var(12345);
    x.AddAssign(1);
    sum := x.primitive_value;
    x := new U32Var(12345);
    x.SubAssign(345);
    diff := x.primitive_value;
    x := new U32Var(5);
    x.MulAssign(20);
    prod := x.primitive_value;
    x := new U32Var(2222);
    x.DivAssign(2);
    quot := x.primitive_value;
    x := new U32Var(5);
    x.DivAssign(2);
    half := x.primitive_value;
    x := new U32Var(5);
    x.RemAssign(2);
    rem := x.primitive_value;
    assert Pow2(1) == 2;
    x := new U32Var(2);
    x.ShlAssign(1);
    shl := x.primitive_value;
    x := new U32Var(4);
    x.ShrAssign(1);
    shr := x.primitive_value;
  }
}

/** Exponentiation of `u32` by repeated squaring: the exponent is consumed
    one bit at a time, the accumulator is multiplied by the base for each set
    bit, and the base is squared for each bit that remains. Every one of these
    intermediate multiplications is subject to the overflow policy of the
    operation; the methods below show that an intermediate product overflows
    only when the exact power itself does, whichever step overflows first
    (the final `acc * base`, a squaring `base * base`, or an `acc * base`
    inside the loop). */
module U32Pow {
  import opened Wrappers
  import opened Num
  import opened U32Arith

  /** b to the power e over the unbounded integers. */
  function Power(b: int, e: nat): int
  {
    if e == 0 then 1 else b * Power(b, e - 1)
  }

  lemma {:induction false} PowerAdd(b: int, i: nat, j: nat)
    ensures Power(b, i + j) == Power(b, i) * Power(b, j)
  {
    if i > 0 {
      PowerAdd(b, i - 1, j);
      assert Power(b, i + j) == b * Power(b, i - 1 + j);
    }
  }

  /** Squaring the base halves the exponent. */
  lemma {:induction false} PowerSquare(b: int, k: nat)
    ensures Power(b * b, k) == Power(b, 2 * k)
  {
    if k > 0 {
      PowerSquare(b, k - 1);
      PowerAdd(b, 2, 2 * k - 2);
    }
  }

  lemma {:induction false} PowerPositive(b: int, e: nat)
    requires b >= 1
    ensures Power(b, e) >= 1
  {
    if e > 0 {
      PowerPositive(b, e - 1);
      MulMono(1, b, Power(b, e - 1));
    }
  }

  lemma {:induction false} PowerNonNegative(b: int, e: nat)
    requires b >= 0
    ensures Power(b, e) >= 0
  {
    if e > 0 {
      PowerNonNegative(b, e - 1);
      MulMono(0, b, Power(b, e - 1));
    }
  }

  /** For a positive base, the power grows with the exponent. */
  lemma PowerMonotone(b: int, i: nat, j: nat)
    requires b >= 1 && i <= j
    ensures Power(b, i) <= Power(b, j)
  {
    var p, q := Power(b, i), Power(b, j - i);
    assert Power(b, j) == p * q by {
      PowerAdd(b, i, j - i);
    }
    PowerPositive(b, i);
    PowerPositive(b, j - i);
    MulMono(1, q, p);
  }

  /** `1.pow(e) == 1` for every exponent, `MAX` included. */
  lemma {:induction false} PowerOfOne(e: nat)
    ensures Power(1, e) == 1
  {
    if e > 0 {
      PowerOfOne(e - 1);
    }
  }

  // ------------------------------------------------ congruence modulo 2^32

  ghost predicate Congruent(x: int, y: int)
  {
    (x - y) % MODULUS == 0
  }

  lemma CongruentMul(x: int, y: int, z: int)
    requires Congruent(x, y)
    ensures Congruent(x * z, y * z) && Congruent(z * x, z * y)
  {
    var k := (x - y) / MODULUS;
    assert x - y == MODULUS * k;
    assert x * z - y * z == MODULUS * (k * z);
    DivModUnique(x * z - y * z, MODULUS, k * z, 0);
  }

  lemma CongruentTrans(x: int, y: int, z: int)
    requires Congruent(x, y) && Congruent(y, z)
    ensures Congruent(x, z)
  {
    var k, l := (x - y) / MODULUS, (y - z) / MODULUS;
    assert x - y == MODULUS * k && y - z == MODULUS * l;
    DivModUnique(x - z, MODULUS, k + l, 0);
  }

  lemma CongruentSym(x: int, y: int)
    requires Congruent(x, y)
    ensures Congruent(y, x)
  {
    DivModUnique(y - x, MODULUS, -((x - y) / MODULUS), 0);
  }

  /** The only `u32` congruent to `y` is `y % 2^32`. */
  lemma CongruentReduced(x: int, y: int)
    requires Congruent(x, y) && 0 <= x < MODULUS
    ensures x == y % MODULUS
  {
    CongruentSym(x, y);
    DivModUnique(y, MODULUS, (y - x) / MODULUS, x);
  }

  lemma {:induction false} PowerCongruent(x: int, y: int, k: nat)
    requires Congruent(x, y)
    ensures Congruent(Power(x, k), Power(y, k))
  {
    if k > 0 {
      PowerCongruent(x, y, k - 1);
      CongruentMul(x, y, Power(x, k - 1));
      CongruentMul(Power(x, k - 1), Power(y, k - 1), y);
      CongruentTrans(x * Power(x, k - 1), y * Power(x, k - 1), y * Power(y, k - 1));
    }
  }

  // ----------------------------------------------------------- one step

  /** The loop's step on the exact values: consuming the low bit of `exp`
      and squaring the base keeps `acc * base^exp` unchanged. */
  lemma StepKeepsPower(acc: int, base: int, exp: nat)
    requires exp >= 1
    ensures exp % 2 == 1 ==> acc * Power(base, exp) == (acc * base) * Power(base * base, exp / 2)
    ensures exp % 2 == 0 ==> acc * Power(base, exp) == acc * Power(base * base, exp / 2)
    ensures Power(base * base, exp / 2) == Power(base, exp / 2 * 2)
  {
    PowerSquare(base, exp / 2);
    if exp % 2 == 1 {
      assert Power(base, exp) == base * Power(base, 2 * (exp / 2));
    }
  }

  /** While the exponent is at least one, the exact power is at least the
      accumulator times the base, and, while it is at least two, at least
      the square of the base: so an intermediate product can only exceed
      `MAX` if the power does. */
  lemma FactorsBelowPower(acc: int, base: int, exp: nat)
    requires acc >= 1 && base >= 1 && exp >= 1
    ensures acc * base <= acc * Power(base, exp)
    ensures exp >= 2 ==> base * base <= acc * Power(base, exp)
  {
    PowerMonotone(base, 1, exp);
    MulMono(base, Power(base, exp), acc);
    if exp >= 2 {
      PowerMonotone(base, 2, exp);
      MulMono(1, acc, Power(base, exp));
    }
  }

  // ------------------------------------------------------------ methods

  /** `checked_pow`: `None` exactly when the power exceeds `MAX`. */
  method CheckedPow(b: U32, e: U32) returns (r: Option<U32>)
    ensures r.None? <==> Power(b, e) > MAX
    ensures r.Some? ==> r.value == Power(b, e)
  {
    if e == 0 {
      return Some(1);
    }
    var base: U32, acc: U32, exp: U32 := b, 1, e;
    while exp > 1
      invariant 1 <= exp
      invariant acc * Power(base, exp) == Power(b, e)
      invariant b == 0 ==> base == 0
      invariant b != 0 ==> acc >= 1 && base >= 1
    {
      StepKeepsPower(acc, base, exp);
      if exp % 2 == 1 {
        if b != 0 {
          FactorsBelowPower(acc, base, exp);
        }
        var product := CheckedMul(acc, base);
        if product.None? {
          return None;
        }
        acc := product.value;
      }
      if b != 0 {
        FactorsBelowPower(acc, base, exp / 2 * 2);
      }
      exp := exp / 2;
      var square := CheckedMul(base, base);
      if square.None? {
        return None;
      }
      base := square.value;
    }
    r := CheckedMul(acc, base);
  }

  /** The loop's step on wrapped values: replacing the accumulator and the
      squared base by numbers congruent to them keeps `acc * base^exp`
      congruent. */
  lemma StepKeepsCongruence(acc: int, base: int, exp: nat, acc': int, base': int)
    requires exp >= 1
    requires Congruent(acc', if exp % 2 == 1 then acc * base else acc)
    requires Congruent(base', base * base)
    ensures Congruent(acc' * Power(base', exp / 2), acc * Power(base, exp))
  {
    var exact := if exp % 2 == 1 then acc * base else acc;
    StepKeepsPower(acc, base, exp);
    assert exact * Power(base * base, exp / 2) == acc * Power(base, exp);
    CongruentMul(acc', exact, Power(base', exp / 2));
    PowerCongruent(base', base * base, exp / 2);
    CongruentMul(Power(base', exp / 2), Power(base * base, exp / 2), exact);
    CongruentTrans(acc' * Power(base', exp / 2), exact * Power(base', exp / 2),
                   exact * Power(base * base, exp / 2));
  }

  /** What `overflowing_pow`'s loop keeps: the wrapped `acc * base^exp` is
      congruent to the power; it is the power itself while nothing has
      overflowed; and once something has, the power exceeds `MAX`. */
  ghost predicate OverflowingPowInvariant(b: U32, e: nat, acc: U32, base: U32, exp: nat, overflown: bool)
  {
    && 1 <= exp
    && Congruent(acc * Power(base, exp), Power(b, e))
    && (!overflown ==> acc * Power(base, exp) == Power(b, e))
    && (!overflown && b != 0 ==> acc >= 1 && base >= 1)
    && (b == 0 ==> base == 0)
    && (overflown ==> Power(b, e) > MAX)
  }

  lemma OverflowingPowStep(b: U32, e: nat, acc: U32, base: U32, exp: nat, overflown: bool,
                           acc': U32, base': U32, overflown': bool)
    requires OverflowingPowInvariant(b, e, acc, base, exp, overflown) && exp > 1
    requires acc' == if exp % 2 == 1 then OverflowingMul(acc, base).0 else acc
    requires base' == OverflowingMul(base, base).0
    requires overflown' == (|| overflown
                            || (exp % 2 == 1 && OverflowingMul(acc, base).1)
                            || OverflowingMul(base, base).1)
    ensures OverflowingPowInvariant(b, e, acc', base', exp / 2, overflown')
  {
    StepCongruence(b, e, acc, base, exp, acc', base');
    if !overflown && b != 0 {
      FactorsBelowPower(acc, base, exp);
    }
    if !overflown' {
      StepKeepsPower(acc, base, exp);
      if b != 0 {
        MulMono(1, acc, base);
        MulMono(1, base, base);
      }
    }
  }

  lemma StepCongruence(b: U32, e: nat, acc: U32, base: U32, exp: nat, acc': U32, base': U32)
    requires exp >= 1 && Congruent(acc * Power(base, exp), Power(b, e))
    requires acc' == if exp % 2 == 1 then WrappingMul(acc, base) else acc
    requires base' == WrappingMul(base, base)
    ensures Congruent(acc' * Power(base', exp / 2), Power(b, e))
  {
    if exp % 2 == 1 {
      CongruentSym(acc * base, acc');
    }
    CongruentSym(base * base, base');
    StepKeepsCongruence(acc, base, exp, acc', base');
    CongruentTrans(acc' * Power(base', exp / 2), acc * Power(base, exp), Power(b, e));
  }

  /** After the loop only `exp == 1` is left: the final `acc * base`. */
  lemma OverflowingPowLast(b: U32, e: nat, acc: U32, base: U32, overflown: bool)
    requires OverflowingPowInvariant(b, e, acc, base, 1, overflown)
    ensures OverflowingMul(acc, base).0 == Power(b, e) % MODULUS
    ensures OverflowingMul(acc, base).1 || overflown <==> Power(b, e) > MAX
  {
    var last := WrappingMul(acc, base);
    assert Power(base, 1) == base;
    CongruentSym(acc * base, last);
    CongruentTrans(last, acc * base, Power(b, e));
    CongruentReduced(last, Power(b, e));
  }

  /** `overflowing_pow`: the power reduced modulo 2^32, flagged exactly when
      it exceeds `MAX`. */
  method OverflowingPow(b: U32, e: U32) returns (r: (U32, bool))
    ensures r.1 <==> Power(b, e) > MAX
    ensures r.0 == Power(b, e) % MODULUS
  {
    if e == 0 {
      return (1, false);
    }
    var base: U32, acc: U32, exp: U32 := b, 1, e;
    var overflown := false;
    while exp > 1
      invariant OverflowingPowInvariant(b, e, acc, base, exp, overflown)
    {
      ghost var (acc0, base0, exp0, overflown0) := (acc, base, exp, overflown);
      if exp % 2 == 1 {
        var product := OverflowingMul(acc, base);
        acc := product.0;
        overflown := overflown || product.1;
      }
      exp := exp / 2;
      var square := OverflowingMul(base, base);
      base := square.0;
      overflown := overflown || square.1;
      OverflowingPowStep(b, e, acc0, base0, exp0, overflown0, acc, base, overflown);
    }
    var last := OverflowingMul(acc, base);
    OverflowingPowLast(b, e, acc, base, overflown);
    r := (last.0, last.1 || overflown);
  }

  /** `wrapping_pow`: the power reduced modulo 2^32. */
  method WrappingPow(b: U32, e: U32) returns (r: U32)
    ensures r == Power(b, e) % MODULUS
    ensures Power(b, e) <= MAX ==> r == Power(b, e)
  {
    var o := OverflowingPow(b, e);
    r := o.0;
    PowerNonNegative(b, e);
    if Power(b, e) <= MAX {
      DivModUnique(Power(b, e), MODULUS, 0, Power(b, e));
    }
  }

  /** `pow`: panics ("attempt to multiply with overflow") when the power
      exceeds `MAX`;
      every intermediate `*` is then within range, which is what each call
      of the panicking `Mul` below demands. */
  method Pow(b: U32, e: U32) returns (r: U32)
    requires Power(b, e) <= MAX
    ensures r == Power(b, e)
  {
    if e == 0 {
      return 1;
    }
    var base: U32, acc: U32, exp: U32 := b, 1, e;
    while exp > 1
      invariant 1 <= exp
      invariant acc * Power(base, exp) == Power(b, e)
      invariant b == 0 ==> base == 0
      invariant b != 0 ==> acc >= 1 && base >= 1
    {
      StepKeepsPower(acc, base, exp);
      if exp % 2 == 1 {
        if b != 0 {
          FactorsBelowPower(acc, base, exp);
        }
        acc := Mul(acc, base);
      }
      if b != 0 {
        FactorsBelowPower(acc, base, exp / 2 * 2);
      }
      exp := exp / 2;
      base := Mul(base, base);
    }
    r := Mul(acc, base);
  }

  // ---------------------------------------------------------- examples

  /** The three overflowing cases of the unit tests: `3.pow(31)` overflows
      on the final multiplication, `(MAX / 2).pow(31)` on a squaring and
      `4.pow(2^30 - 1)` on an accumulator step inside the loop. All three
      powers exceed `MAX`, so `checked_pow` is `None` for each. */
  lemma OverflowingPowers()
    ensures Power(3, 31) > MAX
    ensures Power(MAX / 2, 31) > MAX
    ensures Power(4, 0x4000_0000 - 1) > MAX
  {
    PowerAdd(3, 2, 2);
    PowerAdd(3, 4, 4);
    PowerAdd(3, 8, 8);
    PowerAdd(3, 16, 4);
    assert Power(3, 2) == 9;
    assert Power(3, 20) == 3486784401;
    PowerMonotone(3, 20, 31);
    PowerMonotone(MAX / 2, 2, 31);
    assert Power(MAX / 2, 1) == MAX / 2;
    assert Power(MAX / 2, 2) == (MAX / 2) * (MAX / 2);
    PowerAdd(4, 2, 2);
    PowerAdd(4, 4, 4);
    PowerAdd(4, 8, 8);
    assert Power(4, 2) == 16;
    assert Power(4, 16) == MODULUS;
    PowerMonotone(4, 16, 0x4000_0000 - 1);
  }

  /** `MAX.pow(2)` wraps to 1 and is flagged; `MAX.pow(1)` and `x.pow(0)`
      do not overflow. */
  lemma PowOfMax()
    ensures Power(MAX, 2) % MODULUS == 1 && Power(MAX, 2) > MAX
    ensures Power(MAX, 1) == MAX
    ensures Power(MAX, 0) == 1
    ensures Power(2, 5) == 32
  {
    assert Power(MAX, 2) == MAX * MAX;
    assert Power(2, 5) == 2 * Power(2, 4);
  }

  /** The `checked_pow` expectations of the unit tests, derived from the
      method's contract. */
  method CheckedPowExamples() returns (a: Option<U32>, b: Option<U32>, c: Option<U32>, d: Option<U32>, f: Option<U32>)
    ensures a == None && b == None && c == None
    ensures d == Some(1) && f == Some(32)
  {
    OverflowingPowers();
    PowerOfOne(MAX);
    PowOfMax();
    a := CheckedPow(3, 31);
    b := CheckedPow(MAX / 2, 31);
    c := CheckedPow(4, 0x4000_0000 - 1);
    d := CheckedPow(1, MAX);
    f := CheckedPow(2, 5);
  }
}

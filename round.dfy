/** Rounding up of `u32`: to the next power of two, to a ceiling quotient
    and to the next multiple of a divisor. */
module U32Round {
  import opened Wrappers
  import opened Num
  import opened BitSeq
  import opened U32Arith
  import opened U32Shift
  import opened U32Bits

  /** The least power of two at least `x`: one for 0 and 1, otherwise 2^m
      where 2^(m-1) < x. */
  ghost predicate LeastPowerOfTwoAbove(x: nat, p: nat)
  {
    IsPow2(p) && x <= p && forall k: nat :: x <= Pow2(k) ==> p <= Pow2(k)
  }

  /** The helper both forms are built on: `MAX >> (x - 1).leading_zeros()`
      for x >= 2, and 0 below that. It is one less than the least power of
      two at least x. */
  function OneLessThanNextPowerOfTwo(x: U32): (r: U32)
    ensures LeastPowerOfTwoAbove(x, r + 1)
  {
    if x <= 1 then
      Pow2IsPow2(0);
      assert forall k: nat :: 1 <= Pow2(k);
      0
    else
      var z := LeadingZeros(x - 1);
      var m := BITS - z;
      MaxShifted(z);
      LeastPowerAbove(x, m);
      Shr(MAX, z)
  }

  /** `MAX >> z` is 2^(32 - z) - 1. */
  lemma MaxShifted(z: nat)
    requires z < BITS
    ensures Shr(MAX, z) == Pow2(BITS - z) - 1
  {
    var p, q := Pow2(z), Pow2(BITS - z);
    assert MAX == p * (q - 1) + (p - 1) by {
      Pow2Values();
      Pow2Add(z, BITS - z);
      assert p * (q - 1) == p * q - p;
    }
    DivModUnique(MAX, p, q - 1, p - 1);
  }

  /** 2^m is the least power of two at least x when 2^(m-1) < x <= 2^m. */
  lemma LeastPowerAbove(x: nat, m: nat)
    requires m >= 1 && Pow2(m - 1) < x <= Pow2(m)
    ensures LeastPowerOfTwoAbove(x, Pow2(m))
  {
    Pow2IsPow2(m);
    forall k: nat | x <= Pow2(k)
      ensures Pow2(m) <= Pow2(k)
    {
      if k < m {
        Pow2Monotone(k, m - 1);
      } else {
        Pow2Monotone(m, k);
      }
    }
  }

  /** The least power of two at least x is a u32 exactly when x <= 2^31. */
  lemma LeastPowerFits(x: U32, p: nat)
    requires LeastPowerOfTwoAbove(x, p)
    ensures p <= MAX <==> x <= 0x8000_0000
  {
    Pow2Values();
    if x <= 0x8000_0000 {
      assert p <= Pow2(31);
    } else {
      assert p > MAX by {
        if p <= MAX {
          PowerOfTwoBelow(p, 31);
        }
      }
    }
  }

  /** A power of two below 2^(k+1) is at most 2^k. */
  lemma {:induction false} PowerOfTwoBelow(p: nat, k: nat)
    requires IsPow2(p) && p < Pow2(k + 1)
    ensures p <= Pow2(k)
  {
    if p > 1 && k > 0 {
      assert Pow2(k + 1) == 2 * Pow2(k);
      PowerOfTwoBelow(p / 2, k - 1);
    }
  }

  /** `next_power_of_two`: the least power of two at least `x`; panics
      ("attempt to add with overflow") when that is 2^32, which happens
      exactly when x > 2^31. */
  function NextPowerOfTwo(x: U32): (r: U32)
    requires x <= 0x8000_0000
    ensures IsPowerOfTwo(r) && LeastPowerOfTwoAbove(x, r)
  {
    var m := OneLessThanNextPowerOfTwo(x);
    LeastPowerFits(x, m + 1);
    Add(m, 1)
  }

  /** `checked_next_power_of_two`: `None` exactly when the next power of two
      does not fit. */
  function CheckedNextPowerOfTwo(x: U32): (r: Option<U32>)
    ensures r.None? <==> x > 0x8000_0000
    ensures r.Some? ==> IsPowerOfTwo(r.value) && LeastPowerOfTwoAbove(x, r.value)
  {
    var m := OneLessThanNextPowerOfTwo(x);
    LeastPowerFits(x, m + 1);
    CheckedAdd(m, 1)
  }

  /** `wrapping_next_power_of_two`: 0 when the next power of two does not
      fit, the next power of two otherwise. */
  function WrappingNextPowerOfTwo(x: U32): (r: U32)
    ensures x > 0x8000_0000 ==> r == 0
    ensures x <= 0x8000_0000 ==> r == NextPowerOfTwo(x)
  {
    var m := OneLessThanNextPowerOfTwo(x);
    LeastPowerFits(x, m + 1);
    WrappingAdd(m, 1)
  }

  /** A power of two between 2^k / 2 (exclusive) and 2^k is 2^k. */
  lemma {:induction false} PowerOfTwoBetween(p: nat, k: nat)
    requires IsPow2(p) && Pow2(k) < 2 * p && p <= Pow2(k)
    ensures p == Pow2(k)
  {
    if k > 0 && p > 1 {
      PowerOfTwoBetween(p / 2, k - 1);
    }
  }

  /** The next power of two of x is 2^k when 2^(k-1) < x <= 2^k. */
  lemma NextPowerOfTwoIs(x: U32, k: nat)
    requires 1 <= k <= 31 && Pow2(k - 1) < x <= Pow2(k)
    ensures x <= 0x8000_0000 && NextPowerOfTwo(x) == Pow2(k)
    ensures CheckedNextPowerOfTwo(x) == Some(Pow2(k)) && WrappingNextPowerOfTwo(x) == Pow2(k)
  {
    Pow2Values();
    Pow2Monotone(k, 31);
    assert Pow2(k) == 2 * Pow2(k - 1);
    PowerOfTwoBetween(NextPowerOfTwo(x), k);
  }

  /** The next powers of two of 2, 3, 4 and 1000. */
  lemma NextPowerOfTwoExamples()
    ensures NextPowerOfTwo(2) == 2 && NextPowerOfTwo(3) == 4
    ensures NextPowerOfTwo(4) == 4 && NextPowerOfTwo(1000) == 1024
    ensures CheckedNextPowerOfTwo(1000) == Some(1024) && WrappingNextPowerOfTwo(1000) == 1024
  {
    assert Pow2(2) == 4;
    assert Pow2(10) == 1024 by {
      assert Pow2(5) == 32;
    }
    NextPowerOfTwoIs(2, 1);
    NextPowerOfTwoIs(3, 2);
    NextPowerOfTwoIs(4, 2);
    NextPowerOfTwoIs(1000, 10);
  }

  /** At MAX there is no next power of two. */
  lemma NextPowerOfTwoOfMax()
    ensures CheckedNextPowerOfTwo(MAX) == None && WrappingNextPowerOfTwo(MAX) == 0
  {
  }

  lemma PowersOfTwoAmong()
    ensures IsPow2(2) && !IsPow2(3) && IsPow2(4) && !IsPow2(1000) && IsPow2(1024)
  {
    assert IsPow2(1024) by {
      assert IsPow2(64);
    }
  }

  /** `is_power_of_two` on 2, 3, 4, 1000 and 1024. */
  lemma IsPowerOfTwoExamples()
    ensures IsPowerOfTwo(2) && !IsPowerOfTwo(3) && IsPowerOfTwo(4)
    ensures !IsPowerOfTwo(1000) && IsPowerOfTwo(1024)
  {
    PowersOfTwoAmong();
  }

  // ------------------------------------------------------------ div_ceil

  /** `div_ceil`: the quotient rounded up; panics ("attempt to divide by
      zero") when `b == 0`. */
  function DivCeil(a: U32, b: U32): (r: U32)
    requires b != 0
    ensures b * (r - 1) < a <= b * r
  {
    var d, m := Div(a, b), Rem(a, b);
    Division(a, b);
    if m > 0 then
      assert b >= 2;
      MulMono(2, b, d);
      d + 1
    else
      d
  }

  /** `div_ceil` of 7 by 1 to 8, and of 6 by 1 to 7. */
  lemma DivCeilExamples()
    ensures DivCeil(7, 1) == 7 && DivCeil(7, 2) == 4 && DivCeil(7, 3) == 3
    ensures DivCeil(7, 4) == 2 && DivCeil(7, 5) == 2 && DivCeil(7, 6) == 2
    ensures DivCeil(7, 7) == 1 && DivCeil(7, 8) == 1
    ensures DivCeil(6, 1) == 6 && DivCeil(6, 2) == 3 && DivCeil(6, 3) == 2
    ensures DivCeil(6, 4) == 2 && DivCeil(6, 5) == 2 && DivCeil(6, 6) == 1
    ensures DivCeil(6, 7) == 1
  {
  }

  // ------------------------------------------------------ next_multiple_of

  /** The least multiple of d >= 1 that is at least a. */
  function LeastMultipleAbove(a: nat, d: nat): (m: nat)
    requires d >= 1
    ensures m % d == 0 && a <= m < a + d
  {
    Division(a, d);
    if a % d == 0 then
      a
    else
      DivModUnique(a + (d - a % d), d, a / d + 1, 0);
      a + (d - a % d)
  }

  /** `next_multiple_of`: panics ("attempt to calculate the remainder with a
      divisor of zero") when `d == 0`, and ("attempt to add with overflow")
      when the least multiple of d at least `a` exceeds MAX. */
  function NextMultipleOf(a: U32, d: U32): (r: U32)
    requires d != 0 && LeastMultipleAbove(a, d) <= MAX
    ensures r % d == 0 && a <= r < a + d
  {
    var m := Rem(a, d);
    if m == 0 then a else Add(a, Sub(d, m))
  }

  /** `checked_next_multiple_of`: `None` when `d == 0` or when the least
      multiple does not fit. */
  function CheckedNextMultipleOf(a: U32, d: U32): (r: Option<U32>)
    ensures r.None? <==> d == 0 || LeastMultipleAbove(a, d) > MAX
    ensures r.Some? ==> r.value % d == 0 && a <= r.value < a + d
  {
    match CheckedRem(a, d)
    case None => None
    case Some(m) => if m == 0 then Some(a) else CheckedAdd(a, d - m)
  }

  /** A multiple of d in [a, a + d) is the least multiple of d at least a. */
  lemma MultipleUnique(a: nat, d: nat, m: nat)
    requires d >= 1 && m % d == 0 && a <= m < a + d
    ensures m == LeastMultipleAbove(a, d)
  {
    var l := LeastMultipleAbove(a, d);
    Division(m, d);
    Division(l, d);
    SameMultiple(a, d, m / d, l / d);
  }

  /** Two multiples d * q and d * q' in the same window [a, a + d) have the
      same factor. */
  lemma SameMultiple(a: int, d: nat, q: int, q': int)
    requires d >= 1
    requires a <= d * q < a + d && a <= d * q' < a + d
    ensures q == q'
  {
    MultiplesApart(d, q, q');
  }

  /** Distinct multiples of d lie at least d apart. */
  lemma MultiplesApart(d: nat, q: int, q': int)
    requires d >= 1
    ensures q < q' ==> d * q + d <= d * q'
    ensures q' < q ==> d * q' + d <= d * q
  {
    var lo, hi := if q < q' then q else q', if q < q' then q' else q;
    MulMono(0, hi - lo, d);
    assert d * hi == d * lo + d * (hi - lo);
    if lo < hi {
      MulMono(1, hi - lo, d);
    }
  }

  /** The next multiples of 8, 1 and 5 from the examples, and the cases
      that have none. */
  lemma NextMultipleOfExamples()
    ensures NextMultipleOf(0, 1) == 0 && NextMultipleOf(1, 1) == 1
    ensures NextMultipleOf(1, 5) == 5 && NextMultipleOf(5, 1) == 5
    ensures NextMultipleOf(16, 8) == 16 && NextMultipleOf(23, 8) == 24
    ensures CheckedNextMultipleOf(23, 8) == Some(24)
    ensures CheckedNextMultipleOf(1, 0) == None && CheckedNextMultipleOf(23, 0) == None
    ensures CheckedNextMultipleOf(MAX, 2) == None && CheckedNextMultipleOf(MAX, 20) == None
  {
  }
}

/** Integer logarithms of `u32`: `log2`, `log10` and `log(base)` return the
    floor of the logarithm and panic ("argument of integer logarithm must be
    positive") on a zero argument or, for `log`, a base below 2; the
    `checked_*` forms return `None` in those cases. */
module U32Log {
  import opened Wrappers
  import opened Num
  import opened U32Bits
  import opened U32Pow

  /** The floor logarithm of x >= 1 in base b >= 2, by repeated division:
      the exponent r with b^r <= x < b^(r+1). */
  function FloorLog(x: nat, b: nat): (r: nat)
    requires x >= 1 && b >= 2
    ensures Power(b, r) <= x < Power(b, r + 1)
    ensures r < x
    decreases x
  {
    if x < b then
      0
    else
      Division(x, b);
      MulMono(2, b, x / b);
      var r := FloorLog(x / b, b);
      LogStep(x, b, r);
      1 + r
  }

  /** One division step of `FloorLog`: the bounds for x / b give the bounds
      for x, one exponent higher. */
  lemma LogStep(x: nat, b: nat, r: nat)
    requires x >= b >= 2
    requires Power(b, r) <= x / b < Power(b, r + 1)
    ensures Power(b, r + 1) <= x < Power(b, r + 2)
  {
    var q := x / b;
    Division(x, b);
    MulMono(Power(b, r), q, b);
    MulMono(q + 1, Power(b, r + 1), b);
    assert Power(b, r + 1) == b * Power(b, r);
    assert Power(b, r + 2) == b * Power(b, r + 1);
  }

  /** The floor logarithm is the only exponent with those bounds. */
  lemma LogUnique(x: int, b: int, e: nat, f: nat)
    requires b >= 2
    requires Power(b, e) <= x < Power(b, e + 1)
    requires Power(b, f) <= x < Power(b, f + 1)
    ensures e == f
  {
    if e < f {
      PowerMonotone(b, e + 1, f);
    } else if f < e {
      PowerMonotone(b, f + 1, e);
    }
  }

  /** `log2`; panics ("argument of integer logarithm must be positive")
      when `x == 0`. It is the position of the highest set
      bit, 31 minus the leading zeros. */
  function Log2(x: U32): (r: U32)
    requires x > 0
    ensures Pow2(r) <= x < Pow2(r + 1)
  {
    BITS - 1 - LeadingZeros(x)
  }

  /** `checked_log2`. */
  function CheckedLog2(x: U32): (r: Option<U32>)
    ensures r.None? <==> x == 0
    ensures r.Some? ==> Pow2(r.value) <= x < Pow2(r.value + 1)
  {
    if x == 0 then None else Some(Log2(x))
  }

  /** `log(base)`; panics ("argument of integer logarithm must be
      positive") when `x == 0` or `base < 2`. */
  function Log(x: U32, base: U32): (r: U32)
    requires x > 0 && base >= 2
    ensures Power(base, r) <= x < Power(base, r + 1)
  {
    FloorLog(x, base)
  }

  /** `checked_log(base)`. */
  function CheckedLog(x: U32, base: U32): (r: Option<U32>)
    ensures r.None? <==> x == 0 || base < 2
    ensures r.Some? ==> Power(base, r.value) <= x < Power(base, r.value + 1)
  {
    if x == 0 || base < 2 then None else Some(Log(x, base))
  }

  /** `log10`; panics ("argument of integer logarithm must be positive")
      when `x == 0`. */
  function Log10(x: U32): (r: U32)
    requires x > 0
    ensures Power(10, r) <= x < Power(10, r + 1)
  {
    Log(x, 10)
  }

  /** `checked_log10`. */
  function CheckedLog10(x: U32): (r: Option<U32>)
    ensures r.None? <==> x == 0
    ensures r.Some? ==> Power(10, r.value) <= x < Power(10, r.value + 1)
  {
    CheckedLog(x, 10)
  }

  lemma {:induction false} Pow2IsPower(k: nat)
    ensures Pow2(k) == Power(2, k)
  {
    if k > 0 {
      Pow2IsPower(k - 1);
    }
  }

  /** `log2` is `log` in base 2. */
  lemma Log2IsLog(x: U32)
    requires x > 0
    ensures Log2(x) == Log(x, 2)
  {
    Pow2IsPower(Log2(x));
    Pow2IsPower(Log2(x) + 1);
    LogUnique(x, 2, Log2(x), Log(x, 2));
  }

  /** `log2` of 2, 55555 and MAX / 2. */
  lemma Log2Examples()
    ensures Log2(2) == 1 && Log2(55555) == 15 && Log2(MAX / 2) == 30
  {
    Pow2Values();
    assert Pow2(2) == 4;
    assert Pow2(16) == 2 * Pow2(15);
    assert Pow2(31) == 2 * Pow2(30);
    Pow2Unique(2, Log2(2), 1);
    Pow2Unique(55555, Log2(55555), 15);
    Pow2Unique(MAX / 2, Log2(MAX / 2), 30);
  }

  lemma Pow2Unique(x: int, e: nat, f: nat)
    requires Pow2(e) <= x < Pow2(e + 1)
    requires Pow2(f) <= x < Pow2(f + 1)
    ensures e == f
  {
    Pow2IsPower(e);
    Pow2IsPower(e + 1);
    Pow2IsPower(f);
    Pow2IsPower(f + 1);
    LogUnique(x, 2, e, f);
  }

  /** Powers of ten up to 10^10. */
  lemma PowersOfTen()
    ensures Power(10, 0) == 1 && Power(10, 1) == 10
    ensures Power(10, 4) == 10000 && Power(10, 5) == 100000
    ensures Power(10, 9) == 1000000000 && Power(10, 10) == 10000000000
  {
    assert Power(10, 2) == 100;
    assert Power(10, 3) == 1000;
    assert Power(10, 4) == 10000;
    assert Power(10, 5) == 100000;
    assert Power(10, 6) == 1000000;
    assert Power(10, 7) == 10000000;
    assert Power(10, 8) == 100000000;
    assert Power(10, 9) == 1000000000;
  }

  /** `log(10)` and `log10` of 2, 55555 and MAX. */
  lemma Log10Examples()
    ensures Log(2, 10) == 0 && Log(55555, 10) == 4 && Log(MAX, 10) == 9
    ensures Log10(2) == 0 && Log10(55555) == 4 && Log10(MAX) == 9
  {
    PowersOfTen();
    LogUnique(2, 10, Log(2, 10), 0);
    LogUnique(55555, 10, Log(55555, 10), 4);
    LogUnique(MAX, 10, Log(MAX, 10), 9);
  }

  /** A zero argument, or a base below 2, has no logarithm. */
  lemma CheckedLogExamples()
    ensures CheckedLog2(0) == None && CheckedLog10(0) == None && CheckedLog(0, 10) == None
    ensures CheckedLog(2, 0) == None && CheckedLog(2, 1) == None
    ensures CheckedLog2(55555) == Some(15) && CheckedLog10(MAX) == Some(9)
  {
    Log2Examples();
    Log10Examples();
  }
}

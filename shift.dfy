/** Shifts of `u32`. The shift amount is itself a `u32`; an amount of 32 or
    more is an overflow: the operators panic, `checked_*` returns `None`, and
    `overflowing_*` / `wrapping_*` shift by the amount masked to its low five
    bits (`amount % 32`), raising the flag in the overflowing form. */
module U32Shift {
  import opened Wrappers
  import opened Num

  /** `a << s`; panics "attempt to shift left with overflow" when `s >= 32`.
      The `s` high bits of `a` are shifted out and zeros are shifted in, so
      the result is the product with 2^s reduced modulo 2^32. */
  function Shl(a: U32, s: U32): (r: U32)
    requires s < BITS
    ensures r == (a * Pow2(s)) % MODULUS
  {
    var kept := Pow2(BITS - s);
    Pow2Add(BITS - s, s);
    Pow2Values();
    ScaledRemainder(a, kept, Pow2(s));
    (a % kept) * Pow2(s)
  }

  /** `a >> s`; panics "attempt to shift right with overflow" when `s >= 32`.
      Zeros are shifted in at the top, so the result is the floor quotient by 2^s. */
  function Shr(a: U32, s: U32): (r: U32)
    requires s < BITS
    ensures Pow2(s) * r <= a < Pow2(s) * (r + 1)
  {
    Division(a, Pow2(s));
    a / Pow2(s)
  }

  /** `wrapping_shl`: shifts by `s % 32`. */
  function WrappingShl(a: U32, s: U32): (r: U32)
    ensures r == (a * Pow2(s % 32)) % MODULUS
  {
    Shl(a, s % 32)
  }

  /** `wrapping_shr`: shifts by `s % 32`. */
  function WrappingShr(a: U32, s: U32): (r: U32)
    ensures r == a / Pow2(s % 32)
  {
    Shr(a, s % 32)
  }

  /** `overflowing_shl`: the masked shift and whether the amount was too large. */
  function OverflowingShl(a: U32, s: U32): (r: (U32, bool))
    ensures r.1 <==> s >= BITS
    ensures r.0 == WrappingShl(a, s)
    ensures !r.1 ==> r.0 == Shl(a, s)
  {
    assert s < BITS ==> s % 32 == s;
    (WrappingShl(a, s), s >= BITS)
  }

  /** `overflowing_shr`: the masked shift and whether the amount was too large. */
  function OverflowingShr(a: U32, s: U32): (r: (U32, bool))
    ensures r.1 <==> s >= BITS
    ensures r.0 == WrappingShr(a, s)
    ensures !r.1 ==> r.0 == Shr(a, s)
  {
    assert s < BITS ==> s % 32 == s;
    (WrappingShr(a, s), s >= BITS)
  }

  /** `checked_shl`. */
  function CheckedShl(a: U32, s: U32): (r: Option<U32>)
    ensures r.None? <==> s >= BITS
    ensures r.Some? ==> r.value == (a * Pow2(s)) % MODULUS
  {
    var (shifted, overflow) := OverflowingShl(a, s);
    if overflow then None else Some(shifted)
  }

  /** `checked_shr`. */
  function CheckedShr(a: U32, s: U32): (r: Option<U32>)
    ensures r.None? <==> s >= BITS
    ensures r.Some? ==> r.value == a / Pow2(s)
  {
    var (shifted, overflow) := OverflowingShr(a, s);
    if overflow then None else Some(shifted)
  }

  /** Shifting left and back right recovers exactly the bits that were not
      shifted out: the low `32 - s` bits. */
  lemma ShrAfterShl(a: U32, s: U32)
    requires s < BITS
    ensures Shr(Shl(a, s), s) == a % Pow2(BITS - s)
  {
    var kept := Pow2(BITS - s);
    Pow2Add(BITS - s, s);
    Pow2Values();
    ScaledRemainder(a, kept, Pow2(s));
    DivModUnique((a % kept) * Pow2(s), Pow2(s), a % kept, 0);
  }

  /** Shifting right and back left clears the low `s` bits and keeps the rest. */
  lemma ShlAfterShr(a: U32, s: U32)
    requires s < BITS
    ensures Shl(Shr(a, s), s) == a - a % Pow2(s)
  {
    var p, q := Pow2(s), Shr(a, s);
    assert q * p == a - a % p by {
      Division(a, p);
    }
    calc {
      Shl(q, s);
      (q * p) % MODULUS;
      { DivModUnique(q * p, MODULUS, 0, q * p); }
      q * p;
    }
  }

  /** The shifts of the examples: in range they shift, and an amount of 32
      or more is reduced modulo 32 by the wrapping and overflowing forms
      and refused by the checked ones. */
  lemma ShiftExamples()
    ensures Shl(5, 1) == 10 && Shl(1, 31) == 0x8000_0000
    ensures Shr(5, 1) == 2 && Shr(4, 1) == 2
    ensures OverflowingShl(2, 32) == (2, true) && OverflowingShl(2, 33) == (4, true)
    ensures WrappingShl(2, 32) == 2 && WrappingShl(2, 33) == 4
    ensures CheckedShl(0, 32) == None && CheckedShl(1, 33) == None && CheckedShl(2, 64) == None
    ensures OverflowingShr(4, 32) == (4, true) && OverflowingShr(4, 33) == (2, true)
    ensures WrappingShr(4, 32) == 4 && WrappingShr(4, 33) == 2
    ensures CheckedShr(0, 33) == None && CheckedShr(1, 64) == None
  {
    Pow2Values();
    assert Pow2(1) == 2;
  }
}

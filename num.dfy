/** The 32-bit unsigned integer type `u32` of `sus::num`: a wrapper whose single
    field `primitive_value` is a 32-bit unsigned bit pattern. Here the field is
    modelled by its numeric value, an unbounded integer constrained to the range
    of the type; every operation that can leave the range states explicitly what
    it does there (panic, absent result, flag, clamp or wrap modulo 2^32). */
module Num {

  /** `u32::BITS`. */
  const BITS: nat := 32
  /** `u32::MIN`. */
  const MIN: int := 0
  /** `u32::MAX`. */
  const MAX: int := 0xffff_ffff
  /** 2^BITS: the modulus of wrapping arithmetic. */
  const MODULUS: int := 0x1_0000_0000

  /** `u32`, identified with its `primitive_value`. */
  type U32 = x: int | 0 <= x <= 0xffff_ffff

  /** `i32`, used for the signed operand of the `*_add_signed` family. */
  type I32 = x: int | -0x8000_0000 <= x <= 0x7fff_ffff

  /** 2 to the power k. */
  function Pow2(k: nat): (r: nat)
    ensures r >= 1
  {
    if k == 0 then 1 else 2 * Pow2(k - 1)
  }

  lemma {:induction false} Pow2Add(j: nat, k: nat)
    ensures Pow2(j + k) == Pow2(j) * Pow2(k)
  {
    if k > 0 {
      Pow2Add(j, k - 1);
      assert Pow2(j + k) == 2 * Pow2(j + k - 1);
    }
  }

  lemma {:induction false} Pow2Monotone(j: nat, k: nat)
    requires j <= k
    ensures Pow2(j) <= Pow2(k)
  {
    if j < k {
      Pow2Monotone(j, k - 1);
    }
  }

  /** The powers of two the model names by value. */
  lemma Pow2Values()
    ensures Pow2(8) == 0x100 && Pow2(16) == 0x1_0000 && Pow2(24) == 0x100_0000
    ensures Pow2(31) == 0x8000_0000 && Pow2(32) == MODULUS
  {
    assert Pow2(1) == 2;
    assert Pow2(2) == 4;
    assert Pow2(4) == 16 by { Pow2Add(2, 2); }
    assert Pow2(8) == 0x100 by { Pow2Add(4, 4); }
    assert Pow2(16) == 0x1_0000 by { Pow2Add(8, 8); }
    assert Pow2(24) == 0x100_0000 by { Pow2Add(16, 8); }
    assert Pow2(31) == 0x8000_0000 by { Pow2Add(24, 4); Pow2Add(28, 2); Pow2Add(30, 1); }
    assert Pow2(32) == MODULUS by { Pow2Add(31, 1); }
  }

  /** The truncating cast `static_cast<uint32_t>` of an arbitrary integer:
      its residue modulo 2^32, which for a negative value is its two's
      complement bit pattern. */
  function Truncate(x: int): (r: U32)
    ensures (x - r) % MODULUS == 0
    ensures 0 <= x <= MAX ==> r == x
  {
    x % MODULUS
  }

  lemma MulSign(m: int, d: int)
    requires m > 0
    ensures d >= 1 ==> m * d >= m
    ensures d <= -1 ==> m * d <= -m
  {
    if d >= 1 {
      assert m * d == m + m * (d - 1);
    } else if d <= -1 {
      assert m * d == -m + m * (d + 1);
    }
  }

  /** Division with remainder is determined by its defining equation. */
  lemma DivModUnique(x: int, m: int, q: int, r: int)
    requires m > 0 && 0 <= r < m && x == m * q + r
    ensures x / m == q && x % m == r
  {
    var q', r' := x / m, x % m;
    assert m * (q' - q) == r - r';
    MulSign(m, q' - q);
  }

  /** Dividing a natural number by a positive one gives a natural number no
      larger than the dividend. */
  lemma QuotientBounds(x: int, p: int)
    requires x >= 0 && p > 0
    ensures 0 <= x / p <= x
  {
    MulSign(p, x / p);
    if x / p >= 1 {
      MulSign(x / p, p);
    }
  }

  /** The quotient and remainder of a natural number by a positive one. */
  lemma Division(a: int, p: int)
    requires a >= 0 && p > 0
    ensures a == p * (a / p) + a % p && 0 <= a % p < p
    ensures 0 <= a / p <= a
    ensures p * (a / p) <= a < p * (a / p + 1)
  {
    QuotientBounds(a, p);
    assert p * (a / p + 1) == p * (a / p) + p;
  }

  lemma MulMono(x: int, y: int, z: int)
    requires 0 <= x <= y && z >= 0
    ensures x * z <= y * z
  {
  }

  /** Scaling by q maps residues modulo p to residues modulo p * q. */
  lemma ScaledRemainder(a: nat, p: nat, q: nat)
    requires p > 0 && q > 0
    ensures (a % p) * q < p * q
    ensures (a * q) % (p * q) == (a % p) * q
    ensures (a * q) / (p * q) == a / p
  {
    MulMono(a % p + 1, p, q);
    assert a == p * (a / p) + a % p;
    assert a * q == (p * q) * (a / p) + (a % p) * q;
    DivModUnique(a * q, p * q, a / p, (a % p) * q);
  }
}

/** The bit operations of `u32`: population counts, leading and trailing
    runs, bit reversal, rotation and the power-of-two test. Each is defined
    on the 32-bit pattern of the value (least significant bit first), and
    its contract ties the result back to the number where that is what the
    operation means. */
module U32Bits {
  import opened Num
  import opened BitSeq
  import opened U32Shift

  /** The 32-bit pattern of `x`, least significant bit first. */
  function Bits(x: U32): (s: seq<bool>)
    ensures |s| == BITS
    ensures FromBits(s) == x
  {
    Pow2Values();
    BitsOfValue(x, BITS);
    ToBits(x, BITS)
  }

  /** The `u32` whose 32-bit pattern is `s`. */
  function Value(s: seq<bool>): (x: U32)
    requires |s| == BITS
    ensures Bits(x) == s
  {
    Pow2Values();
    ToFromBits(s);
    FromBits(s)
  }

  /** Two values whose patterns agree bit by bit are equal. */
  lemma SameBits(x: U32, y: U32)
    requires forall i :: 0 <= i < BITS ==> Bits(x)[i] == Bits(y)[i]
    ensures x == y
  {
    assert Bits(x) == Bits(y);
  }

  /** 2^k, for k < 32, is a `u32` with bit k set and no other. */
  lemma BitsPow2(k: nat)
    requires k < BITS
    ensures Pow2(k) <= MAX
    ensures forall i :: 0 <= i < BITS ==> Bits(Pow2(k))[i] == (i == k)
  {
    Pow2Values();
    Pow2Monotone(k, 31);
    ToBitsPow2(k, BITS);
  }

  /** 2^k - 1 for k <= 32 has exactly its k low bits set. */
  lemma BitsLowMask(x: U32, k: nat)
    requires k <= BITS && x == Pow2(k) - 1
    ensures forall i :: 0 <= i < BITS ==> Bits(x)[i] == (i < k)
  {
    ToBitsLowMask(x, k, BITS);
  }

  /** Zero has no bit set. */
  lemma BitsZero()
    ensures forall i :: 0 <= i < BITS ==> !Bits(0)[i]
  {
    ToBitsZero(BITS);
  }

  /** Bitwise complement `!x`. */
  function BitNot(x: U32): (r: U32)
    ensures forall i :: 0 <= i < BITS ==> Bits(r)[i] == !Bits(x)[i]
  {
    Pow2Values();
    ToBitsComplement(x, BITS);
    MAX - x
  }

  // --------------------------------------------------------------- counts

  /** `count_ones`: how many bits are set. */
  function CountOnes(x: U32): (r: U32)
    ensures r == multiset(Bits(x))[true]
    ensures r <= BITS
  {
    Count(Bits(x), true)
  }

  /** `count_zeros`: how many bits are clear; with the ones, all 32. */
  function CountZeros(x: U32): (r: U32)
    ensures r == multiset(Bits(x))[false]
    ensures CountOnes(x) + r == BITS
  {
    CountBoth(Bits(x));
    Count(Bits(x), false)
  }

  // ----------------------------------------------------------------- runs

  /** `leading_zeros`: the number of clear bits above the highest set bit,
      that is, 32 minus the bit length of `x`. */
  function LeadingZeros(x: U32): (r: U32)
    ensures r <= BITS
    ensures forall i :: BITS - r <= i < BITS ==> !Bits(x)[i]
    ensures r < BITS ==> Bits(x)[BITS - 1 - r]
    ensures x < Pow2(BITS - r)
    ensures x > 0 ==> r < BITS && Pow2(BITS - 1 - r) <= x
    ensures x == 0 <==> r == BITS
  {
    var s := Bits(x);
    var r := TrailingRun(s, false);
    HighBitsClear(s, BITS - r);
    if r < BITS then
      SetBitBound(s, BITS - 1 - r);
      r
    else
      r
  }

  /** `leading_ones`: the leading zeros of the complement, which is the
      number of set bits above the highest clear bit. */
  function LeadingOnes(x: U32): (r: U32)
    ensures r <= BITS
    ensures forall i :: BITS - r <= i < BITS ==> Bits(x)[i]
    ensures r < BITS ==> !Bits(x)[BITS - 1 - r]
  {
    LeadingZeros(BitNot(x))
  }

  /** `trailing_zeros`: the number of clear bits below the lowest set bit;
      `x` is a multiple of 2^r and the quotient is odd. */
  function TrailingZeros(x: U32): (r: U32)
    ensures r <= BITS
    ensures forall i :: 0 <= i < r ==> !Bits(x)[i]
    ensures r < BITS ==> Bits(x)[r]
    ensures x % Pow2(r) == 0
    ensures r < BITS ==> (x / Pow2(r)) % 2 == 1
  {
    var s := Bits(x);
    var r := LeadingRun(s, false);
    ToBitsPrefix(x, BITS, r);
    CountAbsent(s[..r], true);
    NoBitsSet(s[..r]);
    FromToBits(x, r);
    if r < BITS then
      ToBitsSuffix(x, BITS, r);
      assert s[r..][0] == s[r];
      r
    else
      r
  }

  /** `trailing_ones`: the trailing zeros of the complement, which is the
      number of set bits below the lowest clear bit. */
  function TrailingOnes(x: U32): (r: U32)
    ensures r <= BITS
    ensures forall i :: 0 <= i < r ==> Bits(x)[i]
    ensures r < BITS ==> !Bits(x)[r]
  {
    TrailingZeros(BitNot(x))
  }

  // ---------------------------------------------------------- transforms

  /** `reverse_bits`: bit i of the result is bit 31 - i of `x`. */
  function ReverseBits(x: U32): (r: U32)
    ensures forall i :: 0 <= i < BITS ==> Bits(r)[i] == Bits(x)[BITS - 1 - i]
  {
    Value(Reverse(Bits(x)))
  }

  /** `rotate_left`: the rotation amount is taken modulo 32, and bit i
      moves to bit i + n modulo 32, so bit i of the result is bit
      i - n modulo 32 of `x`. */
  function RotateLeft(x: U32, n: U32): (r: U32)
    ensures forall i :: 0 <= i < BITS ==> Bits(r)[i] == Bits(x)[(i + BITS - n % 32) % 32]
  {
    var s, k := Bits(x), n % 32;
    var t := s[BITS - k..] + s[..BITS - k];
    RotatedLeft(s, k, t);
    assert Bits(Value(t)) == t;
    Value(t)
  }

  /** `rotate_right`: the rotation amount is taken modulo 32, and bit i
      of the result is bit i + n modulo 32 of `x`. */
  function RotateRight(x: U32, n: U32): (r: U32)
    ensures forall i :: 0 <= i < BITS ==> Bits(r)[i] == Bits(x)[(i + n % 32) % 32]
  {
    var s, k := Bits(x), n % 32;
    var t := s[k..] + s[..k];
    RotatedRight(s, k, t);
    assert Bits(Value(t)) == t;
    Value(t)
  }

  lemma RotatedLeft(s: seq<bool>, k: nat, t: seq<bool>)
    requires |s| == BITS && k < BITS && t == s[BITS - k..] + s[..BITS - k]
    ensures forall i :: 0 <= i < BITS ==> t[i] == s[(i + BITS - k) % 32]
  {
    forall i | 0 <= i < BITS
      ensures t[i] == s[(i + BITS - k) % 32]
    {
      Wrap32(i + BITS - k);
    }
  }

  lemma RotatedRight(s: seq<bool>, k: nat, t: seq<bool>)
    requires |s| == BITS && k < BITS && t == s[k..] + s[..k]
    ensures forall i :: 0 <= i < BITS ==> t[i] == s[(i + k) % 32]
  {
    forall i | 0 <= i < BITS
      ensures t[i] == s[(i + k) % 32]
    {
      Wrap32(i + k);
    }
  }

  /** `is_power_of_two`: exactly one bit set. */
  function IsPowerOfTwo(x: U32): (r: bool)
    ensures r <==> IsPow2(x)
  {
    Pow2Values();
    OneBitIffPow2(x, BITS);
    CountOnes(x) == 1
  }

  // -------------------------------------------------------------- lemmas

  /** `reverse_bits` is its own inverse. */
  lemma ReverseBitsInvolution(x: U32)
    ensures ReverseBits(ReverseBits(x)) == x
  {
    var y := ReverseBits(x);
    forall i | 0 <= i < BITS
      ensures Bits(ReverseBits(y))[i] == Bits(x)[i]
    {
      assert Bits(ReverseBits(y))[i] == Bits(y)[BITS - 1 - i];
    }
    SameBits(ReverseBits(y), x);
  }

  /** Reversal moves the only set bit of 2^k to position 31 - k: this gives
      `reverse_bits` of 1 and of 2. */
  lemma ReverseBitsPow2(k: nat)
    requires k < BITS
    ensures Pow2(k) <= MAX && Pow2(BITS - 1 - k) <= MAX
    ensures ReverseBits(Pow2(k)) == Pow2(BITS - 1 - k)
  {
    BitsPow2(k);
    BitsPow2(BITS - 1 - k);
    var y := ReverseBits(Pow2(k));
    forall i | 0 <= i < BITS
      ensures Bits(y)[i] == Bits(Pow2(BITS - 1 - k))[i]
    {
      assert Bits(y)[i] == Bits(Pow2(k))[BITS - 1 - i];
    }
    SameBits(y, Pow2(BITS - 1 - k));
  }

  /** Zero reversed is zero. */
  lemma ReverseBitsZero()
    ensures ReverseBits(0) == 0
  {
    BitsZero();
    forall i | 0 <= i < BITS
      ensures Bits(ReverseBits(0))[i] == Bits(0)[i]
    {
      assert Bits(ReverseBits(0))[i] == Bits(0)[BITS - 1 - i];
    }
    SameBits(ReverseBits(0), 0);
  }

  /** Reversal keeps the number of set bits. */
  lemma ReverseBitsCountOnes(x: U32)
    ensures CountOnes(ReverseBits(x)) == CountOnes(x)
  {
    assert Bits(ReverseBits(x)) == Reverse(Bits(x));
    CountReverse(Bits(x), true);
  }

  /** Reversal turns leading zeros into trailing zeros. */
  lemma ReverseBitsTrailingZeros(x: U32)
    ensures TrailingZeros(ReverseBits(x)) == LeadingZeros(x)
  {
    assert Bits(ReverseBits(x)) == Reverse(Bits(x));
    LeadingRunReverse(Bits(x), false);
  }

  /** Index arithmetic of rotations, on literal moduli. */
  lemma RotationIndices(i: int, k: int)
    requires 0 <= i < 32 && 0 <= k < 32
    ensures ((i + k) % 32 + 32 - k) % 32 == i
    ensures ((i + 32 - k) % 32 + k) % 32 == i
  {
  }

  lemma RotationTargets(i: int, k: int, m: int)
    requires 0 <= i < 32 && 0 <= k < 32 && 0 <= m < 32
    ensures ((i + 32 - m) % 32 == k) == (i == (k + m) % 32)
    ensures ((i + m) % 32 == k) == (i == (k + 32 - m) % 32)
  {
    Wrap32(i + 32 - m);
    Wrap32(k + m);
    Wrap32(i + m);
    Wrap32(k + 32 - m);
  }

  /** Reduction modulo 32 of a number below 64. */
  lemma Wrap32(a: int)
    requires 0 <= a < 64
    ensures a % 32 == if a < 32 then a else a - 32
  {
    if a < 32 {
      DivModUnique(a, 32, 0, a);
    } else {
      DivModUnique(a, 32, 1, a - 32);
    }
  }

  /** Rotating right by the amount rotated left restores the value. */
  lemma RotateRightAfterLeft(x: U32, n: U32)
    ensures RotateRight(RotateLeft(x, n), n) == x
  {
    var k, y := n % 32, RotateLeft(x, n);
    var z := RotateRight(y, n);
    forall i | 0 <= i < BITS
      ensures Bits(z)[i] == Bits(x)[i]
    {
      RotationIndices(i, k);
    }
    SameBits(z, x);
  }

  /** Rotating left by the amount rotated right restores the value. */
  lemma RotateLeftAfterRight(x: U32, n: U32)
    ensures RotateLeft(RotateRight(x, n), n) == x
  {
    var k, y := n % 32, RotateRight(x, n);
    var z := RotateLeft(y, n);
    forall i | 0 <= i < BITS
      ensures Bits(z)[i] == Bits(x)[i]
    {
      RotationIndices(i, k);
    }
    SameBits(z, x);
  }

  /** A rotation by a multiple of 32 changes nothing. */
  lemma RotateFullTurn(x: U32, n: U32)
    requires n % 32 == 0
    ensures RotateLeft(x, n) == x && RotateRight(x, n) == x
  {
    forall i | 0 <= i < BITS
      ensures Bits(RotateLeft(x, n))[i] == Bits(x)[i]
      ensures Bits(RotateRight(x, n))[i] == Bits(x)[i]
    {
      RotationIndices(i, 0);
    }
    SameBits(RotateLeft(x, n), x);
    SameBits(RotateRight(x, n), x);
  }

  /** The low m bits of `x` are worth `x % 2^m`. */
  lemma LowBitsValue(x: U32, m: nat)
    requires m <= BITS
    ensures FromBits(Bits(x)[..m]) == x % Pow2(m)
  {
    ToBitsPrefix(x, BITS, m);
    FromToBits(x, m);
  }

  /** The bits of `x` from position m up are worth `x / 2^m`. */
  lemma HighBitsValue(x: U32, m: nat)
    requires m <= BITS
    ensures FromBits(Bits(x)[m..]) == x / Pow2(m)
  {
    var k := BITS - m;
    ToBitsSuffix(x, BITS, m);
    assert x < Pow2(m) * Pow2(k) by {
      Pow2Values();
      Pow2Add(m, k);
    }
    QuotientBounds(x, Pow2(m));
    QuotientBelow(x, Pow2(m), Pow2(k));
    BitsOfValue(x / Pow2(m), k);
  }

  /** The bits of `x` from position m up, followed by its m low bits, are
      worth `x / 2^m + 2^(32 - m) * (x % 2^m)`. */
  lemma SwappedValue(x: U32, m: nat)
    requires 0 < m < BITS
    ensures FromBits(Bits(x)[m..] + Bits(x)[..m])
         == x / Pow2(m) + Pow2(BITS - m) * (x % Pow2(m))
  {
    var s := Bits(x);
    LowBitsValue(x, m);
    HighBitsValue(x, m);
    FromBitsAppend(s[m..], s[..m]);
  }

  /** `rotate_left` by 0 < n % 32 as shifts: the top n % 32 bits of `x`
      come down to the bottom and the rest move up,
      `(x << k) | (x >> (32 - k))` with k = n % 32. */
  lemma RotateLeftArithmetic(x: U32, n: U32)
    requires n % 32 != 0
    ensures RotateLeft(x, n) == x / Pow2(BITS - n % 32) + Pow2(n % 32) * (x % Pow2(BITS - n % 32))
  {
    var s, k := Bits(x), n % 32;
    var t := s[BITS - k..] + s[..BITS - k];
    SwappedValue(x, BITS - k);
    assert RotateLeft(x, n) == FromBits(t);
  }

  /** `rotate_right` by 0 < n % 32 as shifts: the low n % 32 bits of `x`
      go up to the top and the rest move down,
      `(x >> k) | (x << (32 - k))` with k = n % 32. */
  lemma RotateRightArithmetic(x: U32, n: U32)
    requires n % 32 != 0
    ensures RotateRight(x, n) == x / Pow2(n % 32) + Pow2(BITS - n % 32) * (x % Pow2(n % 32))
  {
    var s, k := Bits(x), n % 32;
    var t := s[k..] + s[..k];
    SwappedValue(x, k);
    assert RotateRight(x, n) == FromBits(t);
  }

  lemma QuotientBelow(x: nat, p: nat, q: nat)
    requires p > 0 && x < p * q
    ensures x / p < q
  {
    if x / p >= q {
      MulMono(q, x / p, p);
    }
  }

  /** Rotating a single set bit left moves it up by the rotation amount;
      this gives `1.rotate_left(n)`. */
  lemma RotateLeftPow2(k: nat, n: U32)
    requires k < BITS
    ensures Pow2(k) <= MAX && Pow2((k + n % 32) % 32) <= MAX
    ensures RotateLeft(Pow2(k), n) == Pow2((k + n % 32) % 32)
  {
    var l := (k + n % 32) % 32;
    BitsPow2(k);
    BitsPow2(l);
    RotatedSingleBit(Bits(Pow2(k)), Bits(RotateLeft(Pow2(k), n)), Bits(Pow2(l)), k, n % 32);
  }

  /** Rotating a single set bit right moves it down by the rotation amount;
      this gives `1.rotate_right(n)`. */
  lemma RotateRightPow2(k: nat, n: U32)
    requires k < BITS
    ensures Pow2(k) <= MAX && Pow2((k + 32 - n % 32) % 32) <= MAX
    ensures RotateRight(Pow2(k), n) == Pow2((k + 32 - n % 32) % 32)
  {
    var l := (k + 32 - n % 32) % 32;
    BitsPow2(k);
    BitsPow2(l);
    RotatedSingleBitBack(Bits(Pow2(k)), Bits(RotateRight(Pow2(k), n)), Bits(Pow2(l)), k, n % 32);
  }

  /** The pattern with only bit k set, rotated up by m, has only bit
      k + m (mod 32) set. */
  lemma RotatedSingleBit(s: seq<bool>, r: seq<bool>, t: seq<bool>, k: nat, m: nat)
    requires |s| == |r| == |t| == BITS && k < BITS && m < BITS
    requires forall j :: 0 <= j < BITS ==> r[j] == s[(j + BITS - m) % 32]
    requires forall j :: 0 <= j < BITS ==> s[j] == (j == k)
    requires forall j :: 0 <= j < BITS ==> t[j] == (j == (k + m) % 32)
    ensures r == t
  {
    forall i | 0 <= i < BITS
      ensures r[i] == t[i]
    {
      RotationTargets(i, k, m);
    }
  }

  /** The pattern with only bit k set, rotated down by m, has only bit
      k - m (mod 32) set. */
  lemma RotatedSingleBitBack(s: seq<bool>, r: seq<bool>, t: seq<bool>, k: nat, m: nat)
    requires |s| == |r| == |t| == BITS && k < BITS && m < BITS
    requires forall j :: 0 <= j < BITS ==> r[j] == s[(j + m) % 32]
    requires forall j :: 0 <= j < BITS ==> s[j] == (j == k)
    requires forall j :: 0 <= j < BITS ==> t[j] == (j == (k + 32 - m) % 32)
    ensures r == t
  {
    forall i | 0 <= i < BITS
      ensures r[i] == t[i]
    {
      RotationTargets(i, k, m);
    }
  }

  // ------------------------------------------------- particular values

  /** The set bits of 2^k - 1, the k low ones, number k. */
  lemma LowMaskCountOnes(x: U32, k: nat)
    requires k <= BITS && x == Pow2(k) - 1
    ensures CountOnes(x) == k && CountZeros(x) == BITS - k
  {
    BitsLowMask(x, k);
    CountLowMask(Bits(x), k);
  }

  /** Above the k low set bits of 2^k - 1 lie 32 - k clear ones. */
  lemma LowMaskLeadingZeros(x: U32, k: nat)
    requires k <= BITS && x == Pow2(k) - 1
    ensures LeadingZeros(x) == BITS - k
  {
    BitsLowMask(x, k);
    var r := LeadingZeros(x);
    if k > 0 {
      assert Bits(x)[k - 1];
      assert r <= BITS - k;
      assert Bits(x)[BITS - 1 - r];
    }
  }

  /** The set bits of 2^k - 1 form a run of k from the bottom. */
  lemma LowMaskTrailingOnes(x: U32, k: nat)
    requires k <= BITS && x == Pow2(k) - 1
    ensures TrailingOnes(x) == k
  {
    BitsLowMask(x, k);
    var r := TrailingOnes(x);
    if k < BITS {
      assert !Bits(x)[k];
    }
    if r < BITS {
      assert !Bits(x)[r];
    }
  }

  /** 2^k - 1 has a set top bit only for k = 32, when all 32 are set. */
  lemma LowMaskLeadingOnes(x: U32, k: nat)
    requires k <= BITS && x == Pow2(k) - 1
    ensures LeadingOnes(x) == if k == BITS then BITS else 0
  {
    BitsLowMask(x, k);
    var r := LeadingOnes(x);
    if k < BITS {
      assert !Bits(x)[BITS - 1];
    }
    if r < BITS {
      assert !Bits(x)[BITS - 1 - r];
    }
  }

  /** 2^k - 1 has bit 0 set unless k = 0, when it is zero. */
  lemma LowMaskTrailingZeros(x: U32, k: nat)
    requires k <= BITS && x == Pow2(k) - 1
    ensures TrailingZeros(x) == if k == 0 then BITS else 0
  {
    BitsLowMask(x, k);
    var r := TrailingZeros(x);
    if k > 0 {
      assert Bits(x)[0];
    }
    if r < BITS {
      assert Bits(x)[r];
    }
  }

  /** A rotation left that carries no set bit past bit 31 is a shift left:
      this gives `3.rotate_left(2) == 12` and `1.rotate_left(4) == 16`. */
  lemma RotateLeftNoWrap(x: U32, n: U32)
    requires n % 32 != 0 && x < Pow2(BITS - n % 32)
    ensures RotateLeft(x, n) == x * Pow2(n % 32)
  {
    RotateLeftArithmetic(x, n);
    NoWrapValue(x, Pow2(BITS - n % 32), Pow2(n % 32), RotateLeft(x, n));
  }

  lemma NoWrapValue(x: int, p: int, q: int, v: int)
    requires 0 <= x < p && v == x / p + q * (x % p)
    ensures v == x * q
  {
    DivModUnique(x, p, 0, x);
  }

  /** A rotation right by k is a rotation left by 32 - k. */
  lemma RotateRightIsLeft(x: U32, n: U32)
    requires n % 32 != 0
    ensures RotateRight(x, n) == RotateLeft(x, BITS - n % 32)
  {
    var k := n % 32;
    var m: U32 := BITS - k;
    assert m % 32 == m;
    forall i | 0 <= i < BITS
      ensures Bits(RotateRight(x, n))[i] == Bits(RotateLeft(x, m))[i]
    {
      assert (i + BITS - m) % 32 == (i + k) % 32;
    }
    SameBits(RotateRight(x, n), RotateLeft(x, m));
  }

  /** A rotation right that carries no set bit past bit 0 is a shift right:
      this gives `2.rotate_right(1) == 1` and `16.rotate_right(4) == 1`. */
  lemma RotateRightNoWrap(x: U32, n: U32)
    requires n % 32 != 0 && x % Pow2(n % 32) == 0
    ensures RotateRight(x, n) == x / Pow2(n % 32)
  {
    RotateRightArithmetic(x, n);
    NoCarryValue(x / Pow2(n % 32), Pow2(BITS - n % 32), x % Pow2(n % 32), RotateRight(x, n));
  }

  lemma NoCarryValue(a: int, p: int, r: int, v: int)
    requires r == 0 && v == a + p * r
    ensures v == a
  {
  }
}

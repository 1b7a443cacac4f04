/** The bit pattern of an unsigned integer as a sequence of booleans, least
    significant bit first, with the counting and scanning functions the bit
    operations of `u32` are specified by. */
module BitSeq {
  import opened Num

  /** The low `n` bits of `x`, least significant first. */
  function ToBits(x: nat, n: nat): (s: seq<bool>)
    ensures |s| == n
  {
    if n == 0 then [] else [x % 2 == 1] + ToBits(x / 2, n - 1)
  }

  /** The number whose binary digits, least significant first, are `s`. */
  function FromBits(s: seq<bool>): (x: nat)
    ensures x < Pow2(|s|)
  {
    if s == [] then 0 else (if s[0] then 1 else 0) + 2 * FromBits(s[1..])
  }

  /** How many elements of `s` equal `v`. */
  function Count(s: seq<bool>, v: bool): (r: nat)
    ensures r == multiset(s)[v]
  {
    if s == [] then 0
    else
      assert s == [s[0]] + s[1..];
      (if s[0] == v then 1 else 0) + Count(s[1..], v)
  }

  /** The length of the longest prefix of `s` made of `v` only. */
  function LeadingRun(s: seq<bool>, v: bool): (r: nat)
    ensures r <= |s|
    ensures forall i :: 0 <= i < r ==> s[i] == v
    ensures r < |s| ==> s[r] != v
  {
    if s == [] || s[0] != v then 0 else 1 + LeadingRun(s[1..], v)
  }

  /** The length of the longest suffix of `s` made of `v` only. */
  function TrailingRun(s: seq<bool>, v: bool): (r: nat)
    ensures r <= |s|
    ensures forall i :: |s| - r <= i < |s| ==> s[i] == v
    ensures r < |s| ==> s[|s| - 1 - r] != v
  {
    if s == [] || s[|s| - 1] != v then 0 else 1 + TrailingRun(s[..|s| - 1], v)
  }

  /** `s` backwards. */
  function Reverse(s: seq<bool>): (r: seq<bool>)
    ensures |r| == |s|
    ensures forall i :: 0 <= i < |s| ==> r[i] == s[|s| - 1 - i]
  {
    if s == [] then [] else Reverse(s[1..]) + [s[0]]
  }

  lemma ReverseReverse(s: seq<bool>)
    ensures Reverse(Reverse(s)) == s
  {
  }

  // ----------------------------------------------------- value and bits

  /** Dropping the lowest bit is halving, and it leaves the remainder
      modulo the next lower power of two. */
  lemma HalfRemainder(x: nat, p: nat)
    requires p > 0
    ensures x % (2 * p) == x % 2 + 2 * ((x / 2) % p)
  {
    var h := x / 2;
    assert h == p * (h / p) + h % p;
    assert x == 2 * h + x % 2;
    MulMono(h % p, p - 1, 2);
    DivModUnique(x, 2 * p, h / p, x % 2 + 2 * (h % p));
  }

  lemma {:induction false} FromToBits(x: nat, n: nat)
    ensures FromBits(ToBits(x, n)) == x % Pow2(n)
  {
    if n > 0 {
      var s := ToBits(x, n);
      assert s[1..] == ToBits(x / 2, n - 1);
      FromToBits(x / 2, n - 1);
      HalfRemainder(x, Pow2(n - 1));
    }
  }

  lemma {:induction false} ToFromBits(s: seq<bool>)
    ensures ToBits(FromBits(s), |s|) == s
  {
    if s != [] {
      var b := if s[0] then 1 else 0;
      DivModUnique(FromBits(s), 2, FromBits(s[1..]), b);
      ToFromBits(s[1..]);
      assert s == [s[0]] + s[1..];
    }
  }

  /** A number below 2^n is determined by its low n bits. */
  lemma BitsOfValue(x: nat, n: nat)
    requires x < Pow2(n)
    ensures FromBits(ToBits(x, n)) == x
  {
    FromToBits(x, n);
    DivModUnique(x, Pow2(n), 0, x);
  }

  /** The value of a concatenation. */
  lemma {:induction false} FromBitsAppend(a: seq<bool>, b: seq<bool>)
    ensures FromBits(a + b) == FromBits(a) + Pow2(|a|) * FromBits(b)
  {
    if a == [] {
      assert a + b == b;
    } else {
      var t, c := a[1..], if a[0] then 1 else 0;
      assert FromBits(a + b) == c + 2 * FromBits(t + b) by {
        assert (a + b)[0] == a[0];
        assert (a + b)[1..] == t + b;
      }
      FromBitsAppend(t, b);
      Distribute(c, FromBits(t), Pow2(|t|), FromBits(b));
    }
  }

  lemma Distribute(c: int, f: int, p: int, v: int)
    ensures c + 2 * (f + p * v) == (c + 2 * f) + (2 * p) * v
  {
  }

  /** Halving and then dividing by p is dividing by 2 * p. */
  lemma HalfQuotient(x: nat, p: nat)
    requires p > 0
    ensures (x / 2) / p == x / (2 * p)
  {
    var h := x / 2;
    var q, r := h / p, h % p;
    assert h == p * q + r;
    assert x == 2 * h + x % 2;
    MulMono(r, p - 1, 2);
    DivModUnique(x, 2 * p, q, 2 * r + x % 2);
  }

  /** The low m of the first n bits are the first m bits. */
  lemma {:induction false} ToBitsPrefix(x: nat, n: nat, m: nat)
    requires m <= n
    ensures ToBits(x, n)[..m] == ToBits(x, m)
  {
    if m > 0 {
      ToBitsPrefix(x / 2, n - 1, m - 1);
      assert ToBits(x, n)[1..] == ToBits(x / 2, n - 1);
      assert ToBits(x, n)[..m] == [x % 2 == 1] + ToBits(x, n)[1..][..m - 1];
    }
  }

  /** Past the first m bits come the bits of the quotient by 2^m. */
  lemma {:induction false} ToBitsSuffix(x: nat, n: nat, m: nat)
    requires m <= n
    ensures ToBits(x, n)[m..] == ToBits(x / Pow2(m), n - m)
  {
    if m > 0 {
      ToBitsSuffix(x / 2, n - 1, m - 1);
      assert ToBits(x, n)[1..] == ToBits(x / 2, n - 1);
      assert ToBits(x, n)[m..] == ToBits(x, n)[1..][m - 1..];
      HalfQuotient(x, Pow2(m - 1));
    }
  }

  // ------------------------------------------------- single set bits

  /** A sequence with no bit set is worth zero. */
  lemma {:induction false} NoBitsSet(s: seq<bool>)
    requires Count(s, true) == 0
    ensures FromBits(s) == 0
  {
    if s != [] {
      NoBitsSet(s[1..]);
    }
  }

  /** A set bit at position k makes the value at least 2^k. */
  lemma {:induction false} SetBitBound(s: seq<bool>, k: nat)
    requires k < |s| && s[k]
    ensures FromBits(s) >= Pow2(k)
  {
    if k > 0 {
      SetBitBound(s[1..], k - 1);
    }
  }

  /** Bits above position k that are all clear do not add to the value. */
  lemma {:induction false} HighBitsClear(s: seq<bool>, k: nat)
    requires k <= |s|
    requires forall i :: k <= i < |s| ==> !s[i]
    ensures FromBits(s) == FromBits(s[..k])
  {
    if k == 0 {
      assert Count(s, true) == 0 by {
        assert forall i :: 0 <= i < |s| ==> s[i] != true;
        CountAbsent(s, true);
      }
      NoBitsSet(s);
    } else {
      HighBitsClear(s[1..], k - 1);
      assert s[..k][1..] == s[1..][..k - 1];
    }
  }

  lemma {:induction false} CountAbsent(s: seq<bool>, v: bool)
    requires forall i :: 0 <= i < |s| ==> s[i] != v
    ensures Count(s, v) == 0
  {
    if s != [] {
      CountAbsent(s[1..], v);
    }
  }

  lemma {:induction false} CountBoth(s: seq<bool>)
    ensures Count(s, true) + Count(s, false) == |s|
  {
    if s != [] {
      CountBoth(s[1..]);
    }
  }

  lemma {:induction false} CountReverse(s: seq<bool>, v: bool)
    ensures Count(Reverse(s), v) == Count(s, v)
  {
    if s != [] {
      assert Reverse(s) == Reverse(s[1..]) + [s[0]];
      assert multiset(Reverse(s)) == multiset(Reverse(s[1..])) + multiset{s[0]};
      CountReverse(s[1..], v);
      assert s == [s[0]] + s[1..];
    }
  }

  /** Zero is the only number whose low bits are all clear. */
  lemma {:induction false} NoOnesIffZero(x: nat, n: nat)
    requires x < Pow2(n)
    ensures Count(ToBits(x, n), true) == 0 <==> x == 0
  {
    if n > 0 {
      var s := ToBits(x, n);
      assert s[1..] == ToBits(x / 2, n - 1);
      NoOnesIffZero(x / 2, n - 1);
    }
  }

  /** Powers of two, recognised by halving. */
  predicate IsPow2(x: nat)
  {
    x == 1 || (x >= 2 && x % 2 == 0 && IsPow2(x / 2))
  }

  lemma {:induction false} Pow2IsPow2(k: nat)
    ensures IsPow2(Pow2(k))
  {
    if k > 0 {
      Pow2IsPow2(k - 1);
      assert Pow2(k) / 2 == Pow2(k - 1);
    }
  }

  /** A number has exactly one bit set iff it is a power of two. */
  lemma {:induction false} OneBitIffPow2(x: nat, n: nat)
    requires x < Pow2(n)
    ensures Count(ToBits(x, n), true) == 1 <==> IsPow2(x)
  {
    if n > 0 {
      var s := ToBits(x, n);
      assert s[1..] == ToBits(x / 2, n - 1);
      if x % 2 == 1 {
        NoOnesIffZero(x / 2, n - 1);
      } else {
        OneBitIffPow2(x / 2, n - 1);
      }
    }
  }

  // ------------------------------------------------ particular patterns

  lemma {:induction false} ToBitsZero(n: nat)
    ensures forall i :: 0 <= i < n ==> !ToBits(0, n)[i]
  {
    if n > 0 {
      ToBitsZero(n - 1);
      assert ToBits(0, n)[1..] == ToBits(0, n - 1);
    }
  }

  /** 2^k has bit k set and no other. */
  lemma {:induction false} ToBitsPow2(k: nat, n: nat)
    requires k < n
    ensures forall i :: 0 <= i < n ==> ToBits(Pow2(k), n)[i] == (i == k)
  {
    var s := ToBits(Pow2(k), n);
    if k == 0 {
      ToBitsZero(n - 1);
      assert s[1..] == ToBits(0, n - 1);
    } else {
      ToBitsPow2(k - 1, n - 1);
      assert Pow2(k) % 2 == 0 && Pow2(k) / 2 == Pow2(k - 1);
      assert s[1..] == ToBits(Pow2(k - 1), n - 1);
    }
  }

  /** 2^k - 1 has its k low bits set and no other. */
  lemma {:induction false} ToBitsLowMask(x: nat, k: nat, n: nat)
    requires x == Pow2(k) - 1 && k <= n
    ensures forall i :: 0 <= i < n ==> ToBits(x, n)[i] == (i < k)
  {
    var s := ToBits(x, n);
    if k == 0 {
      ToBitsZero(n);
    } else {
      ToBitsLowMask(Pow2(k - 1) - 1, k - 1, n - 1);
      DivModUnique(x, 2, Pow2(k - 1) - 1, 1);
      assert s[1..] == ToBits(Pow2(k - 1) - 1, n - 1);
    }
  }

  /** A pattern whose first k elements are set and the rest clear has k
      set elements. */
  lemma {:induction false} CountLowMask(s: seq<bool>, k: nat)
    requires k <= |s|
    requires forall i :: 0 <= i < |s| ==> s[i] == (i < k)
    ensures Count(s, true) == k
  {
    if s != [] {
      CountLowMask(s[1..], if k == 0 then 0 else k - 1);
    }
  }

  /** 2^n - 1 - x, the complement of x in n bits, has every bit flipped. */
  lemma {:induction false} ToBitsComplement(x: nat, n: nat)
    requires x < Pow2(n)
    ensures forall i :: 0 <= i < n ==> ToBits(Pow2(n) - 1 - x, n)[i] == !ToBits(x, n)[i]
  {
    if n > 0 {
      var y := Pow2(n) - 1 - x;
      var h := Pow2(n - 1) - 1 - x / 2;
      assert y == 2 * h + (1 - x % 2);
      DivModUnique(y, 2, h, 1 - x % 2);
      ToBitsComplement(x / 2, n - 1);
      assert ToBits(y, n)[1..] == ToBits(h, n - 1);
      assert ToBits(x, n)[1..] == ToBits(x / 2, n - 1);
    }
  }

  /** `LeadingRun` is determined by the properties its contract states. */
  lemma LeadingRunUnique(s: seq<bool>, v: bool, k: nat)
    requires k <= |s|
    requires forall i :: 0 <= i < k ==> s[i] == v
    requires k < |s| ==> s[k] != v
    ensures LeadingRun(s, v) == k
  {
  }

  /** A run at the front of the reversed sequence is a run at the back of
      the original one. */
  lemma LeadingRunReverse(s: seq<bool>, v: bool)
    ensures LeadingRun(Reverse(s), v) == TrailingRun(s, v)
  {
    var t, k := Reverse(s), TrailingRun(s, v);
    forall i | 0 <= i < k
      ensures t[i] == v
    {
      assert t[i] == s[|s| - 1 - i];
    }
    LeadingRunUnique(t, v, k);
  }
}

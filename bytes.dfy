/** Byte order of `u32`: the four bytes of a value in little- and big-endian
    order, `swap_bytes`, and the conversions `to_be` / `from_be` / `to_le` /
    `from_le` / `to_ne_bytes`, which depend on the byte order of the host.
    That byte order is a parameter here. */
module U32Bytes {
  import opened Num

  /** `u8`. */
  type Byte = x: int | 0 <= x <= 0xff

  /** The byte order of the host (`std::endian::native`). */
  datatype Endian = Little | Big

  /** The number that four bytes stand for, least significant byte first. */
  function LeValue(b: seq<Byte>): (v: nat)
    requires |b| == 4
    ensures v <= MAX
  {
    var b0, b1, b2, b3: int := b[0], b[1], b[2], b[3];
    b0 + 0x100 * b1 + 0x1_0000 * b2 + 0x100_0000 * b3
  }

  /** The number that four bytes stand for, most significant byte first. */
  function BeValue(b: seq<Byte>): (v: nat)
    requires |b| == 4
    ensures v <= MAX
  {
    var b0, b1, b2, b3: int := b[0], b[1], b[2], b[3];
    0x100_0000 * b0 + 0x1_0000 * b1 + 0x100 * b2 + b3
  }

  /** Four bytes are determined by the number they stand for. */
  lemma LeValueInjective(b: seq<Byte>, c: seq<Byte>)
    requires |b| == 4 && |c| == 4 && LeValue(b) == LeValue(c)
    ensures b == c
  {
    var v := LeValue(b);
    var b0, b1, b2, b3: int := b[0], b[1], b[2], b[3];
    var c0, c1, c2, c3: int := c[0], c[1], c[2], c[3];
    DivModUnique(v, 0x100, b1 + 0x100 * b2 + 0x1_0000 * b3, b0);
    DivModUnique(v, 0x100, c1 + 0x100 * c2 + 0x1_0000 * c3, c0);
    var q := v / 0x100;
    DivModUnique(q, 0x100, b2 + 0x100 * b3, b1);
    DivModUnique(q, 0x100, c2 + 0x100 * c3, c1);
    var q' := q / 0x100;
    DivModUnique(q', 0x100, b3, b2);
    DivModUnique(q', 0x100, c3, c2);
  }

  /** `to_le_bytes`: the bytes of `x`, least significant first. */
  function ToLeBytes(x: U32): (r: seq<Byte>)
    ensures |r| == 4 && LeValue(r) == x
  {
    var q1 := x / 0x100;
    var q2 := q1 / 0x100;
    [x % 0x100, q1 % 0x100, q2 % 0x100, q2 / 0x100]
  }

  /** `to_be_bytes`: the bytes of `x`, most significant first. */
  function ToBeBytes(x: U32): (r: seq<Byte>)
    ensures |r| == 4 && BeValue(r) == x
  {
    var b := ToLeBytes(x);
    [b[3], b[2], b[1], b[0]]
  }

  /** The little-endian bytes are the only ones that stand for `x`. */
  lemma ToLeBytesOfValue(b: seq<Byte>)
    requires |b| == 4
    ensures ToLeBytes(LeValue(b)) == b
  {
    LeValueInjective(ToLeBytes(LeValue(b)), b);
  }

  /** The big-endian bytes are the little-endian ones in reverse order. */
  lemma BeBytesReversed(x: U32)
    ensures forall i :: 0 <= i < 4 ==> ToBeBytes(x)[i] == ToLeBytes(x)[3 - i]
  {
  }

  /** `swap_bytes`: the value whose little-endian bytes are the big-endian
      bytes of `x`. */
  function SwapBytes(x: U32): (r: U32)
    ensures ToLeBytes(r) == ToBeBytes(x)
  {
    ToLeBytesOfValue(ToBeBytes(x));
    LeValue(ToBeBytes(x))
  }

  /** Swapping twice restores the value. */
  lemma SwapBytesInvolution(x: U32)
    ensures SwapBytes(SwapBytes(x)) == x
  {
    var y := SwapBytes(x);
    assert ToLeBytes(SwapBytes(y)) == ToLeBytes(x);
    assert SwapBytes(y) == LeValue(ToLeBytes(SwapBytes(y)));
  }

  /** `to_be`: the value whose bytes, read in the host's order, are the
      big-endian bytes of `x`. */
  function ToBe(x: U32, native: Endian): (r: U32)
    ensures native == Little ==> ToLeBytes(r) == ToBeBytes(x)
    ensures native == Big ==> r == x
  {
    if native == Little then SwapBytes(x) else x
  }

  /** `from_be`: reads `x` as big-endian bytes in the host's order. */
  function FromBe(x: U32, native: Endian): (r: U32)
    ensures native == Little ==> ToBeBytes(r) == ToLeBytes(x)
    ensures native == Big ==> r == x
  {
    if native == Little then
      SwapBytesInvolution(x);
      SwapBytes(x)
    else
      x
  }

  /** `to_le`: the value whose bytes, read in the host's order, are the
      little-endian bytes of `x`. */
  function ToLe(x: U32, native: Endian): (r: U32)
    ensures native == Big ==> ToBeBytes(r) == ToLeBytes(x)
    ensures native == Little ==> r == x
  {
    if native == Big then
      SwapBytesInvolution(x);
      SwapBytes(x)
    else
      x
  }

  /** `from_le`: reads `x` as little-endian bytes in the host's order. */
  function FromLe(x: U32, native: Endian): (r: U32)
    ensures native == Big ==> ToLeBytes(r) == ToBeBytes(x)
    ensures native == Little ==> r == x
  {
    if native == Big then SwapBytes(x) else x
  }

  /** `to_ne_bytes`: the bytes of `x` in the host's order. */
  function ToNeBytes(x: U32, native: Endian): (r: seq<Byte>)
    ensures |r| == 4
    ensures native == Little ==> LeValue(r) == x
    ensures native == Big ==> BeValue(r) == x
  {
    if native == Big then ToBeBytes(x) else ToLeBytes(x)
  }

  /** On either host, `to_be` lays out the big-endian bytes and `to_le` the
      little-endian bytes, and `from_be` / `from_le` undo them. */
  lemma ByteOrderConversions(x: U32, native: Endian)
    ensures ToNeBytes(ToBe(x, native), native) == ToBeBytes(x)
    ensures ToNeBytes(ToLe(x, native), native) == ToLeBytes(x)
    ensures FromBe(ToBe(x, native), native) == x && FromLe(ToLe(x, native), native) == x
  {
    SwapBytesInvolution(x);
  }

  /** The byte layouts of 0x12345678. */
  lemma ByteExamples()
    ensures ToLeBytes(0x12345678) == [0x78, 0x56, 0x34, 0x12]
    ensures ToBeBytes(0x12345678) == [0x12, 0x34, 0x56, 0x78]
    ensures ToNeBytes(0x12345678, Little) == [0x78, 0x56, 0x34, 0x12]
    ensures ToNeBytes(0x12345678, Big) == [0x12, 0x34, 0x56, 0x78]
  {
  }

  /** `swap_bytes` of 0x12345678, 0 and 1 << 31. */
  lemma SwapBytesExamples()
    ensures SwapBytes(0x12345678) == 0x78563412
    ensures SwapBytes(0) == 0 && SwapBytes(0x8000_0000) == 0x80
  {
    SwapBytesIs(0x12345678, [0x12, 0x34, 0x56, 0x78]);
    SwapBytesIs(0, [0, 0, 0, 0]);
    SwapBytesIs(0x8000_0000, [0x80, 0, 0, 0]);
  }

  /** `swap_bytes` of the value with big-endian bytes b. */
  lemma SwapBytesIs(x: U32, b: seq<Byte>)
    requires |b| == 4 && BeValue(b) == x
    ensures SwapBytes(x) == LeValue(b)
  {
    ToLeBytesOfValue([b[3], b[2], b[1], b[0]]);
    LeValueInjective(ToLeBytes(SwapBytes(x)), ToLeBytes(LeValue(b)));
  }

  /** On a big-endian host `to_le` and `from_le` leave MIN, which is 0,
      unchanged: the value 0x80 is what they give for 1 << 31. */
  lemma ToLeOfMinOnBigEndian()
    ensures ToLe(MIN, Big) == MIN && FromLe(MIN, Big) == MIN
    ensures ToLe(MIN, Big) != 0x80 && FromLe(MIN, Big) != 0x80
  {
    SwapBytesExamples();
  }

  /** On a big-endian host `to_le` and `from_le` move the top bit of
      1 << 31 to bit 7, as `to_be` and `from_be` do on a little-endian host. */
  lemma ToLeOfTopBitOnBigEndian()
    ensures ToLe(0x8000_0000, Big) == 0x80 && FromLe(0x8000_0000, Big) == 0x80
    ensures ToBe(0x8000_0000, Little) == 0x80 && FromBe(0x8000_0000, Little) == 0x80
  {
    SwapBytesExamples();
  }
}

/** Conversions into `u32` from the other integer types: `from`, which
    exists only for the unsigned types no wider than `u32` and cannot fail,
    and `try_from`, which fails exactly when the value is out of range. */
module U32Convert {
  import opened Wrappers
  import opened Num

  /** The integer types a `u32` can be built from; `isize` and `usize`
      are taken to be 64 bits wide. */
  datatype IntType = I8 | I16 | I32 | I64 | ISize | U8 | U16 | U32Type | U64 | USize

  /** The error of a failed `try_from` (`TryFromIntError`). */
  datatype TryFromIntError = OutOfRange

  /** The least value of an integer type. */
  function MinOf(t: IntType): (m: int)
    ensures t.U8? || t.U16? || t.U32Type? || t.U64? || t.USize? <==> m == 0
  {
    match t
    case I8 => -0x80
    case I16 => -0x8000
    case I32 => -0x8000_0000
    case I64 | ISize => -0x8000_0000_0000_0000
    case _ => 0
  }

  /** The greatest value of an integer type. */
  function MaxOf(t: IntType): (m: int)
    ensures m > 0
  {
    match t
    case I8 => 0x7f
    case I16 => 0x7fff
    case I32 => 0x7fff_ffff
    case I64 | ISize => 0x7fff_ffff_ffff_ffff
    case U8 => 0xff
    case U16 => 0xffff
    case U32Type => 0xffff_ffff
    case U64 | USize => 0xffff_ffff_ffff_ffff
  }

  /** A value of type t. */
  predicate InType(t: IntType, v: int)
  {
    MinOf(t) <= v <= MaxOf(t)
  }

  /** `u32::try_from(v)` for a value v of type t. */
  function TryFrom(t: IntType, v: int): (r: Result<U32, TryFromIntError>)
    requires InType(t, v)
    ensures r.Ok? <==> MIN <= v <= MAX
    ensures r.Ok? ==> r.value == v
  {
    if MIN <= v <= MAX then Ok(v) else Err(OutOfRange)
  }

  /** The types every value of which is a `u32`: `u32::from` exists for
      exactly these. */
  predicate Widens(t: IntType)
  {
    t.U8? || t.U16? || t.U32Type?
  }

  /** `u32::from(v)`: only for the types that widen into `u32`. */
  function From(t: IntType, v: int): (r: U32)
    requires Widens(t) && InType(t, v)
    ensures r == v
  {
    v
  }

  /** `from` and `try_from` agree where both exist, and `try_from` never
      fails there; on any other type it fails for some value. */
  lemma FromIsInfallible(t: IntType)
    ensures Widens(t) ==> forall v :: InType(t, v) ==> TryFrom(t, v) == Ok(From(t, v))
    ensures !Widens(t) ==> exists v :: InType(t, v) && TryFrom(t, v).Err?
  {
    if !Widens(t) {
      if MinOf(t) < 0 {
        assert InType(t, -1) && TryFrom(t, -1).Err?;
      } else {
        assert InType(t, MAX + 1) && TryFrom(t, MAX + 1).Err?;
      }
    }
  }

  /** Widening a `u32` into any type that holds it, and converting back,
      gives the value back. */
  lemma TryFromRoundTrip(x: U32, t: IntType)
    requires InType(t, x)
    ensures TryFrom(t, x) == Ok(x)
  {
  }

  /** The boundary values: the extremes of `u32` convert, one past them do
      not, and neither do the extremes of the wider types. */
  lemma TryFromBoundaries()
    ensures TryFrom(I64, MAX).Ok? && TryFrom(I64, MAX + 1).Err?
    ensures TryFrom(I64, 0).Ok? && TryFrom(I64, -1).Err?
    ensures TryFrom(I32, 0).Ok? && TryFrom(I32, -1).Err?
    ensures TryFrom(U64, MAX).Ok? && TryFrom(U64, MAX + 1).Err?
    ensures TryFrom(I32, MinOf(I32)).Err? && TryFrom(I32, MaxOf(I32)).Ok?
    ensures TryFrom(I64, MinOf(I64)).Err? && TryFrom(I64, MaxOf(I64)).Err?
    ensures TryFrom(U64, MaxOf(U64)).Err?
    ensures forall t :: TryFrom(t, 2) == Ok(2)
  {
  }
}

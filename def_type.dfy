/** The tagged numeric union `def` that feeds the matrix: one alternative per
    primitive numeric type, each carrying exactly one value of that type. */
module DefType {

  // Payload ranges of the fixed-width integer types.
  type Int8 = x: int | -0x80 <= x < 0x80
  type Int16 = x: int | -0x8000 <= x < 0x8000
  type Int32 = x: int | -0x8000_0000 <= x < 0x8000_0000
  type Int64 = x: int | -0x8000_0000_0000_0000 <= x < 0x8000_0000_0000_0000
  type Int128 = x: int
    | -0x8000_0000_0000_0000_0000_0000_0000_0000 <= x < 0x8000_0000_0000_0000_0000_0000_0000_0000
  type Uint8 = x: int | 0 <= x < 0x100
  type Uint16 = x: int | 0 <= x < 0x1_0000
  type Uint32 = x: int | 0 <= x < 0x1_0000_0000
  type Uint64 = x: int | 0 <= x < 0x1_0000_0000_0000_0000
  type Uint128 = x: int | 0 <= x < 0x1_0000_0000_0000_0000_0000_0000_0000_0000

  // Pointer-sized integers, for a 64-bit target.
  type ISize = Int64
  type USize = Uint64

  /** The 14 alternatives. Floating-point payloads are abstracted as reals. */
  datatype Def =
    | I1(i8: Int8)
    | I2(i16: Int16)
    | I4(i32: Int32)
    | I8(i64: Int64)
    | I16(i128: Int128)
    | U1(u8: Uint8)
    | U2(u16: Uint16)
    | U4(u32: Uint32)
    | U8(u64: Uint64)
    | U16(u128: Uint128)
    | U(usize: USize)
    | I(isize: ISize)
    | F4(f32: real)
    | F8(f64: real)

  predicate IsFloat(d: Def)
  {
    d.F4? || d.F8?
  }

  /** Smallest value of an integer alternative's payload type. */
  function Lo(d: Def): (lo: int)
    requires !IsFloat(d)
  {
    match d
    case I1(_) => -0x80
    case I2(_) => -0x8000
    case I4(_) => -0x8000_0000
    case I8(_) => -0x8000_0000_0000_0000
    case I16(_) => -0x8000_0000_0000_0000_0000_0000_0000_0000
    case I(_) => -0x8000_0000_0000_0000
    case U1(_) => 0
    case U2(_) => 0
    case U4(_) => 0
    case U8(_) => 0
    case U16(_) => 0
    case U(_) => 0
  }

  /** One past the largest value of an integer alternative's payload type. */
  function Hi(d: Def): (hi: int)
    requires !IsFloat(d)
  {
    match d
    case I1(_) => 0x80
    case I2(_) => 0x8000
    case I4(_) => 0x8000_0000
    case I8(_) => 0x8000_0000_0000_0000
    case I16(_) => 0x8000_0000_0000_0000_0000_0000_0000_0000
    case I(_) => 0x8000_0000_0000_0000
    case U1(_) => 0x100
    case U2(_) => 0x1_0000
    case U4(_) => 0x1_0000_0000
    case U8(_) => 0x1_0000_0000_0000_0000
    case U16(_) => 0x1_0000_0000_0000_0000_0000_0000_0000_0000
    case U(_) => 0x1_0000_0000_0000_0000
  }

  /** The payload of an integer alternative, which lies inside its type's range. */
  function IntPayload(d: Def): (n: int)
    requires !IsFloat(d)
    ensures Lo(d) <= n < Hi(d)
  {
    match d
    case I1(n) => n
    case I2(n) => n
    case I4(n) => n
    case I8(n) => n
    case I16(n) => n
    case I(n) => n
    case U1(n) => n
    case U2(n) => n
    case U4(n) => n
    case U8(n) => n
    case U16(n) => n
    case U(n) => n
  }

  /** 2^53: every integer of at most this magnitude is exactly an `f64` value. */
  const ExactF64Limit: int := 0x20_0000_0000_0000
}

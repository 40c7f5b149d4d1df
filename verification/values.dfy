/** The typed values a preference can hold, as Android's SharedPreferences sees them. */
module Values {

  /** Kotlin `Int`: a signed 32-bit integer. */
  newtype Int32 = x: int | -0x8000_0000 <= x < 0x8000_0000

  /** Kotlin `Long`: a signed 64-bit integer. */
  newtype Int64 = x: int | -0x8000_0000_0000_0000 <= x < 0x8000_0000_0000_0000

  /** Kotlin `Float`, kept as an opaque 32-bit payload: no arithmetic is done on it. */
  datatype Float32 = Float32(bits: bv32)

  /** A stored preference value. A boxed `Integer` and a boxed `Long` are different
      kinds, so a value stored as `IntV` is not readable as a `Long`. */
  datatype Value =
    | IntV(i: Int32)
    | LongV(l: Int64)
    | FloatV(f: Float32)
    | BoolV(b: bool)
    | StrV(s: string)
    | StrSetV(ss: set<string>)
}

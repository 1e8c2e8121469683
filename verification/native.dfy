/** The native Rust values the conversion layer works with.

    Floating-point numbers are kept abstract: nothing in the conversion layer
    computes with them, it only hands them to, or receives them from, the
    numeric conversions of the `json` crate. */
module Native {

  /** Rust's `f32`. */
  type F32(==)

  /** Rust's `f64`. */
  type F64(==)

  /** Rust's `u8`. */
  newtype U8 = x: int | 0 <= x < 256

  /** Rust's `Option<T>`. */
  datatype Option<T> = None | Some(value: T)
}

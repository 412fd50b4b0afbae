/** Value types shared by the model: Rust's `u32`, `Option` and the unit-error `Result`. */
module Types {

  /** 2^32, one more than the largest `u32`. */
  const UINT32_LIMIT: nat := 0x1_0000_0000

  /** Rust's `u32`. */
  type uint32 = x: int | 0 <= x < 0x1_0000_0000

  datatype Option<+T> = None | Some(value: T)

  /** `Result<T, ()>`: the source's error values carry no information. */
  datatype Result<+T> = Ok(value: T) | Err
}

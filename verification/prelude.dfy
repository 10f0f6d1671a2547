/**
 * Shared vocabulary of the model: octets, Rust's `u64`, and the
 * Option/Result shapes that stand for Rust's `Option` and `Result`.
 */
module Prelude {

  /** An octet: the element type of Rust's `&[u8]` and `Vec<u8>`. */
  type byte = b: int | 0 <= b < 256

  /** 2^64, the modulus of Rust's `as u64` cast. */
  const TWO_64: nat := 0x1_0000_0000_0000_0000

  /** Rust's `u64`. */
  type u64 = n: int | 0 <= n < 0x1_0000_0000_0000_0000

  datatype Option<+T> = None | Some(value: T)

  datatype Result<+T, +E> = Ok(value: T) | Err(error: E)
}

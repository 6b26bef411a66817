/** Shared vocabulary: fixed-width integers, public keys and the
    Option/Result wrappers used for the program's error exits. */
module Common {

  /** An unsigned 8-bit value (Rust `u8`). */
  type byte = x: int | 0 <= x < 256

  const U64_LIMIT: int := 0x1_0000_0000_0000_0000

  /** An unsigned 64-bit value (Rust `u64`). */
  type u64 = x: int | 0 <= x < 0x1_0000_0000_0000_0000

  const PUBKEY_BYTES: nat := 32

  /** A public key: 32 raw bytes, as `solana_sdk::pubkey::Pubkey` holds them. */
  type Pubkey = k: seq<byte> | |k| == PUBKEY_BYTES witness seq(PUBKEY_BYTES, _ => 0)

  datatype Option<T> = None | Some(value: T)

  datatype Result<T, E> = Ok(value: T) | Err(error: E)
}

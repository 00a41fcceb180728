/** Shared vocabulary of the model: bytes, 64-bit unsigned integers, optional
    values, and the outcome of an operation of the Rust core, which either
    returns a value, returns an error through `Result`, or panics. */
module Base {

  type Byte = x: int | 0 <= x < 256
  type Bytes = seq<Byte>

  /** Rust's `u64`: seconds since the Unix epoch are read into one. */
  type U64 = x: int | 0 <= x < 0x1_0000_0000_0000_0000

  datatype Option<+T> = None | Some(value: T) {
    /** `unwrap_or` / `unwrap_or_default` */
    function GetOr(default: T): T {
      if Some? then value else default
    }
  }

  /** The errors the core surfaces through `anyhow::Result`. */
  datatype Error =
    | EncryptionFailed     // "Enc failed" in crypto.rs
    | DecryptionFailed     // "Dec failed" in crypto.rs: the AEAD tag did not verify
    | KeyDerivationFailed  // an Argon2 error, mapped by derive_key
    | InvalidHex           // hex::decode of a destination
    | NoIdentity           // "No Identity" in api.rs
    | UniqueViolation      // SQLite refusing a duplicate primary key
    | InvalidDigest        // secp256k1 refusing a message that is not 32 bytes
    | ConnectFailed        // the WebSocket could not be opened
    | SendFailed           // a frame could not be written
    | CloseFailed          // the WebSocket could not be closed cleanly

  /** Outcome of a call: a value, an error, or a panic that unwinds out of it. */
  datatype Res<+T> = Ok(value: T) | Err(error: Error) | Panic(reason: string)

  function Min(a: int, b: int): int {
    if a <= b then a else b
  }
}

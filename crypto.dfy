/** crypto.rs: mailbox addressing and the authenticated encryption keyed by
    a shared root secret. Every function is a straight composition of
    library calls; the random nonce is a parameter. */
module Crypto {
  import opened Base
  import Hex
  import opened Foreign

  /** Mailboxes rotate on hour boundaries. */
  const SLOT_SECONDS: nat := 3600
  /** XChaCha20-Poly1305 nonces are 24 bytes. */
  const NONCE_LEN: nat := 24
  /** `b"gossamer_enc"`, the HKDF info string. */
  const ENC_INFO: Bytes := [103, 111, 115, 115, 97, 109, 101, 114, 95, 101, 110, 99]
  /** `SaltString::encode_b64(b"gossamer_salt_v1")`: unpadded base64 of the fixed salt. */
  const ARGON2_SALT: string := "Z29zc2FtZXJfc2FsdF92MQ"

  /** The 24 bytes `OsRng.fill_bytes` writes into the nonce buffer. */
  type Entropy = s: Bytes | |s| == 24
    witness [0, 0, 0, 0, 0, 0, 0, 0, 0, 0, 0, 0, 0, 0, 0, 0, 0, 0, 0, 0, 0, 0, 0, 0]

  function Pow256(n: nat): (r: nat)
    ensures r >= 1
  {
    if n == 0 then 1 else 256 * Pow256(n - 1)
  }

  /** The n-byte big-endian representation of x modulo 256^n. */
  function BigEndian(x: nat, n: nat): (r: Bytes)
    ensures |r| == n
  {
    if n == 0 then [] else BigEndian(x / 256, n - 1) + [x % 256]
  }

  function FromBigEndian(s: Bytes): nat {
    if s == [] then 0 else FromBigEndian(s[..|s| - 1]) * 256 + s[|s| - 1]
  }

  lemma {:induction false} BigEndianRoundTrip(x: nat, n: nat)
    requires x < Pow256(n)
    ensures FromBigEndian(BigEndian(x, n)) == x
  {
    if n > 0 {
      var init := BigEndian(x / 256, n - 1);
      assert BigEndian(x, n)[..n - 1] == init;
      BigEndianRoundTrip(x / 256, n - 1);
    }
  }

  /** `slot.to_be_bytes()` for `slot = time / 3600`: the MAC input. */
  function SlotBytes(time: U64): (r: Bytes)
    ensures |r| == 8
    ensures FromBigEndian(r) == time / SLOT_SECONDS
  {
    assert Pow256(8) == 0x1_0000_0000_0000_0000;
    BigEndianRoundTrip(time / SLOT_SECONDS, 8);
    BigEndian(time / SLOT_SECONDS, 8)
  }

  /** generate_mailbox: lowercase hex of HMAC-SHA256 keyed by the root over
      the hour slot. HMAC accepts keys of any length, so there is no error. */
  function Mailbox(p: Primitives, root: Bytes, time: U64): (m: string)
    ensures Hex.IsLowerHex(m) && |m| == 2 * |p.hmacSha256(root, SlotBytes(time))|
    ensures Hex.Decode(m) == Some(p.hmacSha256(root, SlotBytes(time)))
  {
    Hex.DecodeEncode(p.hmacSha256(root, SlotBytes(time)));
    Hex.Encode(p.hmacSha256(root, SlotBytes(time)))
  }

  /** Two times in the same hour slot give the same mailbox. */
  lemma MailboxSlotInvariant(p: Primitives, root: Bytes, t1: U64, t2: U64)
    requires t1 / SLOT_SECONDS == t2 / SLOT_SECONDS
    ensures Mailbox(p, root, t1) == Mailbox(p, root, t2)
  {
  }

  /** A mailbox is 64 characters from 0-9a-f. */
  lemma MailboxShape(p: Primitives, root: Bytes, time: U64)
    requires Sound(p)
    ensures |Mailbox(p, root, time)| == 64
    ensures Hex.IsLowerHex(Mailbox(p, root, time))
  {
  }

  /** The AEAD key: HKDF-SHA256 with the nonce as salt, the root as input key
      material and "gossamer_enc" as info, expanded into a 32-byte buffer. */
  function AeadKey(p: Primitives, nonce: Bytes, root: Bytes): Bytes {
    p.hkdfSha256(nonce, root, ENC_INFO)
  }

  /** encrypt: returns (ciphertext, nonce); the nonce is the 24 random bytes. */
  function Encrypt(p: Primitives, root: Bytes, data: Bytes, entropy: Entropy): (r: Res<(Bytes, Bytes)>)
    ensures !r.Panic?
    ensures r.Ok? ==> |r.value.1| == NONCE_LEN && r.value.1 == entropy
    ensures r.Err? ==> r.error == EncryptionFailed
  {
    match p.seal(AeadKey(p, entropy, root), entropy, data)
    case Some(ct) => Ok((ct, entropy))
    case None => Err(EncryptionFailed)
  }

  /** decrypt: derives the key as encrypt does; `XNonce::from_slice` panics
      unless the nonce is 24 bytes; a tag that does not verify is an error. */
  function Decrypt(p: Primitives, root: Bytes, nonce: Bytes, data: Bytes): (r: Res<Bytes>)
    ensures r.Panic? <==> |nonce| != NONCE_LEN
    ensures r.Err? ==> r.error == DecryptionFailed
  {
    var key := AeadKey(p, nonce, root);
    if |nonce| != NONCE_LEN then Panic("XNonce::from_slice: nonce is not 24 bytes")
    else
      match p.open(key, nonce, data)
      case Some(plain) => Ok(plain)
      case None => Err(DecryptionFailed)
  }

  /** Whatever encrypt produced, decrypt under the same root recovers. */
  lemma DecryptEncrypt(p: Primitives, root: Bytes, data: Bytes, entropy: Entropy)
    requires Sound(p)
    requires Encrypt(p, root, data, entropy).Ok?
    ensures var (ct, nonce) := Encrypt(p, root, data, entropy).value;
            Decrypt(p, root, nonce, ct) == Ok(data)
  {
    var key := AeadKey(p, entropy, root);
    assert p.seal(key, entropy, data).Some?;
  }

  /** derive_key: Argon2 with default parameters over the pin's bytes and a
      fixed salt, rendered as a PHC string. */
  function DeriveKey(p: Primitives, pin: string): (r: Res<string>)
    ensures !r.Panic?
    ensures r.Ok? <==> p.argon2(p.utf8Encode(pin), ARGON2_SALT).Some?
  {
    match p.argon2(p.utf8Encode(pin), ARGON2_SALT)
    case Some(phc) => Ok(phc)
    case None => Err(KeyDerivationFailed)
  }

  /** The derived key depends on nothing but the pin's bytes: no per-call
      salt or randomness enters it. */
  lemma DeriveKeyDeterministic(p: Primitives, pin1: string, pin2: string)
    requires p.utf8Encode(pin1) == p.utf8Encode(pin2)
    ensures DeriveKey(p, pin1) == DeriveKey(p, pin2)
  {
  }
}

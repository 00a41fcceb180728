/** The library calls the core makes and does not implement: HMAC-SHA256
    (RFC 2104), HKDF-SHA256 (RFC 5869), XChaCha20-Poly1305, Argon2, SHA-256,
    MD5, BIP-340 Schnorr signatures on secp256k1, base64, UTF-8 and
    serde_json. Each is an uninterpreted function passed in as a field of
    `Primitives`; `Sound` collects the only facts the model takes as given about them:
    output lengths and the inverse pairs. */
module Foreign {
  import opened Base
  import Json

  datatype Primitives = Primitives(
    hmacSha256: (Bytes, Bytes) -> Bytes,           // (key, message) -> tag
    hkdfSha256: (Bytes, Bytes, Bytes) -> Bytes,    // (salt, input key material, info) -> 32-byte key
    seal: (Bytes, Bytes, Bytes) -> Option<Bytes>,  // AEAD (key, nonce, plaintext) -> ciphertext
    open: (Bytes, Bytes, Bytes) -> Option<Bytes>,  // AEAD (key, nonce, ciphertext) -> plaintext
    argon2: (Bytes, string) -> Option<string>,     // (password, salt string) -> PHC hash string
    sha256: Bytes -> Bytes,
    md5: Bytes -> Bytes,
    schnorrPublic: Bytes -> Bytes,                 // secret key -> serialized public key
    schnorrSign: (Bytes, Bytes) -> Bytes,          // (message, secret key) -> signature
    schnorrVerify: (Bytes, Bytes, Bytes) -> bool,  // (message, public key, signature)
    base64Encode: Bytes -> string,
    base64Decode: string -> Option<Bytes>,
    utf8Encode: string -> Bytes,                   // str::as_bytes
    utf8Lossy: Bytes -> string,                    // String::from_utf8_lossy
    jsonWrite: Json.Value -> string,               // Value::to_string
    jsonParse: string -> Option<Json.Value>        // serde_json::from_str::<Value>
  )

  ghost predicate Sound(p: Primitives) {
    && (forall k, m :: |p.hmacSha256(k, m)| == 32)
    && (forall m :: |p.sha256(m)| == 32)
    && (forall k, n, m :: p.seal(k, n, m).Some? ==> p.open(k, n, p.seal(k, n, m).value) == Some(m))
    && (forall m, sk :: p.schnorrVerify(m, p.schnorrPublic(sk), p.schnorrSign(m, sk)))
    && (forall b :: p.base64Decode(p.base64Encode(b)) == Some(b))
    && (forall s :: p.utf8Lossy(p.utf8Encode(s)) == s)
    && (forall v :: p.jsonParse(p.jsonWrite(v)) == Some(v))
  }
}

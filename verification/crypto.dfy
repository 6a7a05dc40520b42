/** The cryptographic and serialization primitives the store relies on
    (src/crypto.rs and the CBOR calls of src/vault.rs). They are library code
    (Argon2, XChaCha20-Poly1305, ciborium), so they enter the model as an
    uninterpreted bundle of functions, and the properties the store depends
    on are stated as explicit hypotheses about that bundle.
 */
module Crypto {
  import opened Model

  const SALT_LEN: nat := 16
  const KEY_LEN: nat := 32
  const NONCE_LEN: nat := 24

  /** The per-vault random salt (src/vault.rs:31-35). */
  type Salt = s: Bytes | |s| == SALT_LEN witness seq(16, _ => 0)

  /** The 32-byte key `derive_key` fills (src/crypto.rs:9-14). */
  type Key = s: Bytes | |s| == KEY_LEN witness seq(32, _ => 0)

  /** The 24-byte XChaCha20 nonce `encrypt` draws (src/crypto.rs:16-22). */
  type Nonce = s: Bytes | |s| == NONCE_LEN witness seq(24, _ => 0)

  /** The primitives, as total deterministic functions. Randomness is not
      part of them: `seal` takes the nonce that `encrypt` would draw.
      - deriveKey: Argon2 with default parameters over the master password's
        bytes and the salt (src/crypto.rs:9-14)
      - seal: XChaCha20-Poly1305 encryption (src/crypto.rs:16-22)
      - open: XChaCha20-Poly1305 decryption, None on authentication failure
        (src/crypto.rs:24-30)
      - encode / decode: ciborium serialization of `VaultV1`
        (src/vault.rs:43, 83, 96) */
  datatype Primitives = Primitives(
    deriveKey: (Bytes, Salt) -> Key,
    seal: (Key, Nonce, Bytes) -> Bytes,
    open: (Key, Nonce, Bytes) -> Option<Bytes>,
    encode: VaultV1 -> Bytes,
    decode: Bytes -> Option<VaultV1>)

  /** Decryption undoes encryption under the same key and nonce
      (tests/crypto.rs:4-12). */
  ghost predicate AeadRoundTrip(p: Primitives) {
    forall k: Key, n: Nonce, m: Bytes :: p.open(k, n, p.seal(k, n, m)) == Some(m)
  }

  /** A ciphertext sealed under one key does not open under another
      (tests/crypto.rs:14-25). This is an idealization: a real AEAD meets it
      only except with negligible probability (a forged tag), so the
      wrong-password lemmas of `Store` hold under that idealization. */
  ghost predicate AeadRejectsWrongKey(p: Primitives) {
    forall k1: Key, k2: Key, n: Nonce, m: Bytes
      :: k1 != k2 ==> p.open(k2, n, p.seal(k1, n, m)).None?
  }

  /** Decoding undoes encoding, up to the precision of the serde
      `ts_seconds` adapter on both timestamps (src/model.rs:14-21). */
  ghost predicate CodecRoundTrip(p: Primitives) {
    forall v: VaultV1 :: p.decode(p.encode(v)) == Some(AsSerialized(v))
  }

  /** `seal`, applied to the key derived from a password and salt: the key
      derivation and encryption steps of `init` and `save`. */
  function SealUnder(p: Primitives, master: Bytes, salt: Salt, nonce: Nonce, plaintext: Bytes): Bytes {
    p.seal(p.deriveKey(master, salt), nonce, plaintext)
  }

  /** A deliberately insecure instance (the key is the password length
      modulo 256 followed by salt bytes; the "ciphertext" is the key followed
      by the plaintext) that shows the two AEAD hypotheses can hold together,
      with passwords of different lengths deriving different keys. */
  function ToyPrimitives(encode: VaultV1 -> Bytes, decode: Bytes -> Option<VaultV1>): (p: Primitives)
    ensures AeadRoundTrip(p) && AeadRejectsWrongKey(p)
    ensures forall master: Bytes, salt: Salt :: p.deriveKey(master, salt)[0] as int == |master| % 0x100
  {
    var p := Primitives(
      (master: Bytes, salt: Salt) => [(|master| % 0x100) as byte] + salt + salt[..15],
      (k: Key, n: Nonce, m: Bytes) => k + m,
      (k: Key, n: Nonce, c: Bytes) => if |c| >= KEY_LEN && c[..KEY_LEN] == k then Some(c[KEY_LEN..]) else None,
      encode,
      decode);
    assert forall k: Key, m: Bytes :: (k + m)[..KEY_LEN] == k && (k + m)[KEY_LEN..] == m;
    p
  }
}

/** The on-disk container layout: the 24-byte nonce immediately followed by
    the ciphertext, with no length prefix and no header (written at
    src/vault.rs:46-48 and src/vault.rs:99-101, split at src/vault.rs:79-80).
 */
module Container {
  import opened Model
  import opened Crypto

  /** `vault_data = nonce ++ ciphertext`. */
  function Frame(nonce: Nonce, ciphertext: Bytes): (c: Bytes)
    ensures |c| == NONCE_LEN + |ciphertext|
    ensures nonce <= c
    ensures c[NONCE_LEN..] == ciphertext
  {
    nonce + ciphertext
  }

  /** `(&vault_data[..24], &vault_data[24..])`. The slice `[..24]` panics on a
      shorter buffer, which is why the caller must establish the length. */
  function Split(c: Bytes): (r: (Nonce, Bytes))
    requires |c| >= NONCE_LEN
    ensures Frame(r.0, r.1) == c
  {
    (c[..NONCE_LEN], c[NONCE_LEN..])
  }

  /** Splitting what was framed recovers the nonce and the ciphertext. */
  lemma SplitFrame(nonce: Nonce, ciphertext: Bytes)
    ensures |Frame(nonce, ciphertext)| >= NONCE_LEN
    ensures Split(Frame(nonce, ciphertext)) == (nonce, ciphertext)
  {
  }

  /** Framing is injective: different (nonce, ciphertext) pairs never produce
      the same container. */
  lemma FrameInjective(n1: Nonce, c1: Bytes, n2: Nonce, c2: Bytes)
    requires Frame(n1, c1) == Frame(n2, c2)
    ensures n1 == n2 && c1 == c2
  {
    SplitFrame(n1, c1);
    SplitFrame(n2, c2);
  }
}

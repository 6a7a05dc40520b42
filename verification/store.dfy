/** The vault store of src/vault.rs:30-108: `init`, `load` and `save` as
    transitions of an abstract data directory holding the two artifacts
    `salt.bin` and `vault.cbor`. Paths, directory creation and the byte-level
    file I/O are not modelled; only their effect on the two artifacts is.
    Fresh randomness (salt, nonce) and wall-clock readings are parameters.
 */
module Store {
  import opened Model
  import opened Crypto
  import opened Container

  /** The data directory: the contents of `salt.bin` and of `vault.cbor`,
      None when the file does not exist. Every existing file is assumed
      readable in full: permission errors, a directory in place of a file,
      or a file removed after its `exists()` check are not represented. */
  datatype Disk = Disk(salt: Option<Bytes>, container: Option<Bytes>)

  /** The `std::io::ErrorKind`s the modelled reads can produce. */
  datatype IoErrorKind = NotFound | UnexpectedEof

  /** The errors `load` and `save` return through `anyhow::Result`. */
  datatype Error =
    | VaultNotFound      // "Vault not found. Please initialize your vault first"
    | Io(kind: IoErrorKind)
    | DecryptionFailed   // "Decryption failed: ..." from crypto::decrypt
    | DecodeFailed       // a ciborium deserialization error

  /** What a call to `load` ends in. `Panicked` is not an `Err`: the slice
      `vault_data[..24]` aborts the program on a container shorter than the
      nonce (src/vault.rs:79). */
  datatype LoadOutcome = Loaded(vault: VaultV1) | Failed(error: Error) | Panicked

  /** `salt.bin` exists and holds at least the 16 bytes `read_exact` needs. */
  predicate SaltReadable(d: Disk) {
    d.salt.Some? && |d.salt.value| >= SALT_LEN
  }

  /** `read_exact` into a 16-byte buffer (src/vault.rs:67-68, 90-91): the
      first 16 bytes of the file, or UnexpectedEof on a shorter file. */
  function ReadSalt(content: Bytes): (r: Result<Salt, Error>)
    ensures r.Ok? <==> |content| >= SALT_LEN
    ensures r.Ok? ==> r.value <= content
    ensures r.Err? ==> r.error == Io(UnexpectedEof)
  {
    if |content| < SALT_LEN then Err(Io(UnexpectedEof)) else Ok(content[..SALT_LEN])
  }

  /** `init` (src/vault.rs:30-59): draws a salt, seals an empty vault stamped
      with two readings of the clock, and writes `vault.cbor` and then
      `salt.bin` with `File::create`, replacing whatever was there. There is
      no already-exists check, so the previous disk `d` plays no part. */
  function Init(d: Disk, master: Bytes, salt: Salt, nonce: Nonce,
                createdAt: Timestamp, lastModified: Timestamp, p: Primitives): (r: Disk)
    ensures r.salt == Some(salt)
    ensures SaltReadable(r)
    ensures r.container.Some? && |r.container.value| >= NONCE_LEN
    ensures r.container.Some? ==> Split(r.container.value).0 == nonce
  {
    var empty := VaultV1(createdAt, lastModified, []);
    var ciphertext := SealUnder(p, master, salt, nonce, p.encode(empty));
    SplitFrame(nonce, ciphertext);
    Disk(Some(salt), Some(Frame(nonce, ciphertext)))
  }

  /** `load` (src/vault.rs:62-85). The checks run in source order: salt file
      present, salt readable, container present, container long enough to
      slice, decryption, deserialization. */
  function Load(d: Disk, master: Bytes, p: Primitives): (r: LoadOutcome)
    ensures d.salt.None? ==> r == Failed(VaultNotFound)
    ensures d.salt.Some? && |d.salt.value| < SALT_LEN ==> r == Failed(Io(UnexpectedEof))
    ensures SaltReadable(d) && d.container.None? ==> r == Failed(VaultNotFound)
    ensures r == Failed(VaultNotFound) <==> d.salt.None? || (SaltReadable(d) && d.container.None?)
    ensures r.Panicked? <==> SaltReadable(d) && d.container.Some? && |d.container.value| < NONCE_LEN
    ensures r.Loaded? ==> SaltReadable(d) && d.container.Some? && |d.container.value| >= NONCE_LEN
  {
    if d.salt.None? then Failed(VaultNotFound)
    else match ReadSalt(d.salt.value)
      case Err(e) => Failed(e)
      case Ok(salt) =>
        var key := p.deriveKey(master, salt);
        if d.container.None? then Failed(VaultNotFound)
        else if |d.container.value| < NONCE_LEN then Panicked
        else
          var (nonce, ciphertext) := Split(d.container.value);
          match p.open(key, nonce, ciphertext)
          case None => Failed(DecryptionFailed)
          case Some(plaintext) =>
            match p.decode(plaintext)
            case None => Failed(DecodeFailed)
            case Some(v) => Loaded(v)
  }

  /** `save` (src/vault.rs:88-108): reads the existing salt (never drawing a
      new one), seals the vault under a fresh nonce and rewrites only
      `vault.cbor`. Neither the password nor the previous container is
      checked, and a missing container is simply created. */
  function Save(d: Disk, master: Bytes, v: VaultV1, nonce: Nonce, p: Primitives): (r: (Disk, Result<(), Error>))
    ensures r.0.salt == d.salt
    ensures r.1.Ok? <==> SaltReadable(d)
    ensures d.salt.None? ==> r.1 == Err(Io(NotFound))
    ensures d.salt.Some? && |d.salt.value| < SALT_LEN ==> r.1 == Err(Io(UnexpectedEof))
    ensures r.1.Err? ==> r.0 == d
    ensures r.1.Ok? ==> r.0.container.Some? && |r.0.container.value| >= NONCE_LEN
    ensures r.1.Ok? ==> Split(r.0.container.value).0 == nonce
  {
    if d.salt.None? then (d, Err(Io(NotFound)))
    else match ReadSalt(d.salt.value)
      case Err(e) => (d, Err(e))
      case Ok(salt) =>
        var ciphertext := SealUnder(p, master, salt, nonce, p.encode(v));
        SplitFrame(nonce, ciphertext);
        (d.(container := Some(Frame(nonce, ciphertext))), Ok(()))
  }

  /** The salt `load` and `save` would read from a disk. */
  function StoredSalt(d: Disk): Salt
    requires SaltReadable(d)
  {
    d.salt.value[..SALT_LEN]
  }

  /** A disk whose container holds `v` sealed under the key derived from
      `master` and the stored salt, with some nonce. */
  ghost predicate Holds(d: Disk, master: Bytes, v: VaultV1, p: Primitives) {
    && SaltReadable(d)
    && d.container.Some?
    && exists nonce: Nonce ::
         d.container.value == Frame(nonce, SealUnder(p, master, StoredSalt(d), nonce, p.encode(v)))
  }

  lemma SaveHolds(d: Disk, master: Bytes, v: VaultV1, nonce: Nonce, p: Primitives)
    requires SaltReadable(d)
    ensures Holds(Save(d, master, v, nonce, p).0, master, v, p)
  {
    var d' := Save(d, master, v, nonce, p).0;
    assert d'.container.value == Frame(nonce, SealUnder(p, master, StoredSalt(d'), nonce, p.encode(v)));
  }

  lemma InitHolds(d: Disk, master: Bytes, salt: Salt, nonce: Nonce,
                  createdAt: Timestamp, lastModified: Timestamp, p: Primitives)
    ensures Holds(Init(d, master, salt, nonce, createdAt, lastModified, p), master,
                  VaultV1(createdAt, lastModified, []), p)
  {
    var d' := Init(d, master, salt, nonce, createdAt, lastModified, p);
    assert StoredSalt(d') == salt;
    assert d'.container.value == Frame(nonce, SealUnder(p, master, StoredSalt(d'), nonce,
                                                        p.encode(VaultV1(createdAt, lastModified, []))));
  }

  /** Loading with the password a vault was sealed under returns that vault,
      timestamps reduced to whole seconds. */
  lemma LoadHeld(d: Disk, master: Bytes, v: VaultV1, p: Primitives)
    requires AeadRoundTrip(p) && CodecRoundTrip(p)
    requires Holds(d, master, v, p)
    ensures Load(d, master, p) == Loaded(AsSerialized(v))
  {
    var nonce: Nonce :| d.container.value == Frame(nonce, SealUnder(p, master, StoredSalt(d), nonce, p.encode(v)));
    SplitFrame(nonce, SealUnder(p, master, StoredSalt(d), nonce, p.encode(v)));
  }

  /** Loading with a password whose key differs from the sealing key fails
      with DecryptionFailed and exposes no entry. */
  lemma LoadHeldWrongPassword(d: Disk, master: Bytes, wrong: Bytes, v: VaultV1, p: Primitives)
    requires AeadRejectsWrongKey(p)
    requires Holds(d, master, v, p)
    requires p.deriveKey(wrong, StoredSalt(d)) != p.deriveKey(master, StoredSalt(d))
    ensures Load(d, wrong, p) == Failed(DecryptionFailed)
  {
    var nonce: Nonce :| d.container.value == Frame(nonce, SealUnder(p, master, StoredSalt(d), nonce, p.encode(v)));
    SplitFrame(nonce, SealUnder(p, master, StoredSalt(d), nonce, p.encode(v)));
  }

  /** Load after save returns the saved vault (tests/vault.rs:30-57): every
      entry comes back unchanged, the timestamps as whole seconds. */
  lemma LoadAfterSave(d: Disk, master: Bytes, v: VaultV1, nonce: Nonce, p: Primitives)
    requires AeadRoundTrip(p) && CodecRoundTrip(p)
    requires SaltReadable(d)
    ensures Load(Save(d, master, v, nonce, p).0, master, p) == Loaded(AsSerialized(v))
  {
    SaveHolds(d, master, v, nonce, p);
    LoadHeld(Save(d, master, v, nonce, p).0, master, v, p);
  }

  /** Load after init returns an empty vault stamped with the two clock
      readings, whatever the disk held before. */
  lemma LoadAfterInit(d: Disk, master: Bytes, salt: Salt, nonce: Nonce,
                      createdAt: Timestamp, lastModified: Timestamp, p: Primitives)
    requires AeadRoundTrip(p) && CodecRoundTrip(p)
    ensures Load(Init(d, master, salt, nonce, createdAt, lastModified, p), master, p)
         == Loaded(VaultV1(WholeSeconds(createdAt), WholeSeconds(lastModified), []))
  {
    InitHolds(d, master, salt, nonce, createdAt, lastModified, p);
    LoadHeld(Init(d, master, salt, nonce, createdAt, lastModified, p), master,
             VaultV1(createdAt, lastModified, []), p);
  }

  /** A freshly initialised vault does not open under a password that
      derives a different key (tests/crypto.rs:14-25 at the store level). */
  lemma LoadAfterInitWrongPassword(d: Disk, master: Bytes, wrong: Bytes, salt: Salt, nonce: Nonce,
                                   createdAt: Timestamp, lastModified: Timestamp, p: Primitives)
    requires AeadRejectsWrongKey(p)
    requires p.deriveKey(wrong, salt) != p.deriveKey(master, salt)
    ensures Load(Init(d, master, salt, nonce, createdAt, lastModified, p), wrong, p) == Failed(DecryptionFailed)
  {
    var d' := Init(d, master, salt, nonce, createdAt, lastModified, p);
    InitHolds(d, master, salt, nonce, createdAt, lastModified, p);
    assert StoredSalt(d') == salt;
    LoadHeldWrongPassword(d', master, wrong, VaultV1(createdAt, lastModified, []), p);
  }

  /** `save` does not check the password: a save under a password with a
      different key succeeds, and afterwards the original password no
      longer opens the vault. */
  lemma SaveWithWrongPasswordLocksOut(d: Disk, master: Bytes, wrong: Bytes, v: VaultV1, nonce: Nonce, p: Primitives)
    requires AeadRejectsWrongKey(p)
    requires SaltReadable(d)
    requires p.deriveKey(wrong, StoredSalt(d)) != p.deriveKey(master, StoredSalt(d))
    ensures Save(d, wrong, v, nonce, p).1.Ok?
    ensures Load(Save(d, wrong, v, nonce, p).0, master, p) == Failed(DecryptionFailed)
  {
    SaveHolds(d, wrong, v, nonce, p);
    LoadHeldWrongPassword(Save(d, wrong, v, nonce, p).0, wrong, master, v, p);
  }

  /** The scenario of tests/vault.rs:30-57: init, load, push one entry and
      restamp `last_modified`, save, load again. The reloaded vault holds
      exactly the pushed entry, and the salt is the one `init` drew. */
  lemma AddEntryScenario(d: Disk, master: Bytes, salt: Salt, n1: Nonce, n2: Nonce,
                         t1: Timestamp, t2: Timestamp, t3: Timestamp, e: Entry, p: Primitives)
    requires AeadRoundTrip(p) && CodecRoundTrip(p)
    ensures var d1 := Init(d, master, salt, n1, t1, t2, p);
            && Load(d1, master, p).Loaded?
            && var v := Load(d1, master, p).vault;
            && var v' := v.(entries := v.entries + [e], lastModified := t3);
            && Save(d1, master, v', n2, p).1.Ok?
            && Save(d1, master, v', n2, p).0.salt == Some(salt)
            && Load(Save(d1, master, v', n2, p).0, master, p).Loaded?
            && Load(Save(d1, master, v', n2, p).0, master, p).vault.entries == [e]
  {
    var d1 := Init(d, master, salt, n1, t1, t2, p);
    LoadAfterInit(d, master, salt, n1, t1, t2, p);
    var v := Load(d1, master, p).vault;
    var v' := v.(entries := v.entries + [e], lastModified := t3);
    LoadAfterSave(d1, master, v', n2, p);
  }
}

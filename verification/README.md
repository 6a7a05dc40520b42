# rustpass vault core, modelled in Dafny

rustpass is a single-vault command-line password manager. Its own logic
lives in `src/vault.rs`:

- the entry operations `find_entry`, `find_entry_mut`, `remove_entry` and
  `edit_entry` over the in-memory `VaultV1`;
- the store operations `init`, `load` and `save`, which move a vault
  between memory and two files in the data directory:
  - `salt.bin` holds the 16-byte Argon2 salt;
  - `vault.cbor` holds the container: a 24-byte XChaCha20 nonce followed
    by the ciphertext of the CBOR-serialized vault.

This project models both parts as pure functions over immutable
datatypes. It proves what each operation returns and which artifact it
touches. Under three stated hypotheses about the primitives (below), it
proves the load-after-save round trip that `tests/vault.rs` exercises. The
encrypt/decrypt round trip that `tests/crypto.rs` checks is not proved: it
is one of those hypotheses.

Files:

- `model.dfy` (module `Model`) holds the record shapes of `src/model.rs`.
  Strings are arbitrary byte sequences (a superset of valid UTF-8). `u32` ids are a newtype. A
  `DateTime<Utc>` is seconds plus nanoseconds.
- `ascii.dfy` (module `Ascii`) holds `eq_ignore_ascii_case`. Only ASCII
  letters fold; every other byte must match exactly.
- `entries.dfy` (module `Entries`) holds the four entry operations. Rust
  mutates through `&mut`; each model function returns the new vault and
  the Rust return value. A `&mut Entry` is modelled by its position.
- `crypto.dfy` (module `Crypto`) holds Argon2, XChaCha20-Poly1305 and the
  CBOR codec as an uninterpreted bundle of functions (`Primitives`).
  Three named hypotheses state what the store needs of them:
  - `AeadRoundTrip`: decryption undoes encryption under the same key and nonce;
  - `AeadRejectsWrongKey`: a ciphertext does not open under another key.
    This is an idealization: real XChaCha20-Poly1305 meets it only except
    with negligible probability, and the wrong-password lemmas hold under
    that idealization;
  - `CodecRoundTrip`: decoding undoes encoding, keeping only whole seconds
    of both timestamps (the serde `ts_seconds` adapter of `src/model.rs`).

  `ToyPrimitives` is an insecure instance that satisfies both AEAD
  hypotheses. Its key depends on the password length, so two passwords
  can derive different keys.
- `toy_codec.dfy` (module `ToyCodec`) holds a small self-delimiting byte
  encoding of `VaultV1` with its decoder. It is not CBOR. Combined with
  `ToyPrimitives`, it gives one bundle that satisfies all three hypotheses
  (`ToyVaultPrimitives`). So the store lemmas that assume them are not
  vacuous. `ToyWrongPasswordFails` also meets the wrong-password
  precondition with this bundle.
- `container.dfy` (module `Container`) holds the framing `nonce ++
  ciphertext` and the split at offset 24.
- `store.dfy` (module `Store`) holds `init`, `load` and `save` as functions
  of an abstract `Disk`. A `Disk` is a record of two optional byte strings,
  the salt file and the container file. Each operation takes its fresh
  salt, nonce and clock readings as parameters.

Behaviour of the code worth noting:

- `init` has no already-exists check. It overwrites both files.
- `load` panics on a container shorter than 24 bytes. It slices without a
  length check. The model's outcome is `Panicked`, distinct from every
  error.
- `load` reads the salt before it checks that the container exists. A short
  salt file therefore fails with an I/O error, not "Vault not found".
- `save` on a missing salt file fails with an I/O `NotFound` error from
  `File::open`, not with "Vault not found".
- rustpass has a single vault and never assigns entry ids. `remove_entry`
  returns a boolean, not a count.

## Model

| member | source | states |
|---|---|---|
| Ascii.ToAsciiLowercase | src/vault.rs:111 | an upper-case letter folds to the lower-case letter 0x20 above it; the folded byte is never an upper-case letter; a byte is a letter after folding exactly when it was one before; every non-letter and every lower-case letter is returned unchanged |
| Ascii.FoldedEqual | src/vault.rs:111 | true exactly when every position of two equal-length byte strings agrees after folding |
| Ascii.EqIgnoreAsciiCase | src/vault.rs:111 | true exactly when the lengths are equal and every position agrees after ASCII folding |
| Ascii.EqIgnoreAsciiCaseIffFoldCase | src/vault.rs:111 | two names match exactly when their whole-string lower-case forms are equal |
| Ascii.EqIgnoreAsciiCaseIsEquivalence | src/vault.rs:111 | name matching is reflexive, symmetric and transitive |
| Ascii.NonLettersMatchExactly | src/vault.rs:111 | in matching names, a byte that is not an ASCII letter equals the other name's byte at that position |
| Ascii.LettersMatchUpToCase | src/vault.rs:111 | in matching names, an upper-case letter faces itself or the letter 0x20 above it, and a lower-case letter faces itself or the letter 0x20 below it |
| Ascii.GitHubMatchesLowercase | src/vault.rs:110-112 | the query "GitHub" matches the stored name "github" but not "GitHub!" |
| Entries.FirstMatch | src/vault.rs:111 | the front-to-back scan returns the first matching position, and None exactly when no entry matches |
| Entries.FindEntryMut | src/vault.rs:115-117 | the position returned holds a matching entry with no match before it; None exactly when no entry matches |
| Entries.FindEntry | src/vault.rs:110-112 | the entry returned is the first in sequence order whose name matches; None exactly when no entry matches |
| Entries.FindEntryAgreesWithFindEntryMut | src/vault.rs:110-117 | both lookups find or miss together, and the entry found is the one at the position found |
| Entries.Retain | src/vault.rs:122 | the kept entries are exactly those whose name does not match; nothing is dropped exactly when nothing matches |
| Entries.RetainConcat | src/vault.rs:122 | filtering a concatenation gives the concatenation of the filtered parts, so relative order is kept |
| Entries.KeptPositions | src/vault.rs:122 | reference definition: the positions whose entry does not match, strictly increasing, each position included exactly when its entry does not match |
| Entries.RetainPicksKeptPositions | src/vault.rs:122 | `retain` yields exactly the entries at the non-matching positions, in their original order, duplicates included |
| Entries.RemoveEntry | src/vault.rs:120-124 | removes every matching entry and keeps every other one; returns true iff some entry matched iff the count dropped; both timestamps unchanged; with no match the vault is unchanged |
| Entries.RemoveEntryKeepsNonMatchingInOrder | src/vault.rs:120-124 | the entries left after removal are exactly the non-matching entries, in their original relative order |
| Entries.RemoveEntryTwice | src/vault.rs:120-124 | a second removal of the same name returns false and changes nothing |
| Entries.FindAfterRemove | src/vault.rs:110-124 | after removing a name, looking it up finds nothing |
| Entries.EditEntry | src/vault.rs:127-134 | with a match, only the first matching position is replaced by the new entry and the result is true; length and both timestamps unchanged; with no match the result is false and the vault unchanged |
| Entries.EditEntryChangesOnlyFirstMatch | src/vault.rs:127-134 | every position other than the first match keeps its entry |
| Entries.FindAfterEdit | src/vault.rs:127-134 | when the replacement's name still matches, the next lookup returns the replacement |
| Container.Frame | src/vault.rs:46-48 | the container starts with the nonce, continues after offset 24 with exactly the ciphertext, and is 24 bytes longer than the ciphertext |
| Container.Split | src/vault.rs:79-80 | splitting a container of at least 24 bytes at offset 24 gives a nonce and ciphertext that frame back to the same container |
| Container.SplitFrame | src/vault.rs:79-80 | splitting a framed container recovers the nonce and ciphertext that were framed |
| Container.FrameInjective | src/vault.rs:99-101 | two containers are equal only when their nonces and ciphertexts are |
| Store.ReadSalt | src/vault.rs:67-68 | reading the salt succeeds iff the file has at least 16 bytes, yielding a prefix of it; otherwise an UnexpectedEof I/O error |
| Store.Init | src/vault.rs:30-58 | writes the drawn salt and a container that begins with the drawn nonce, whatever the disk held before |
| Store.Load | src/vault.rs:62-84 | salt file absent, or salt readable and container absent, yields "Vault not found" and nothing else does; a short salt file yields UnexpectedEof; it panics exactly when the salt is readable, the container exists and the container is shorter than 24 bytes |
| Store.Save | src/vault.rs:88-107 | the salt artifact is never changed; success iff the salt is readable; a missing salt gives NotFound and a short one UnexpectedEof, both leaving the disk unchanged; on success the container begins with the fresh nonce |
| Store.SaveHolds | src/vault.rs:88-107 | after a successful save the container is the given vault sealed under the key derived from the password and the stored salt |
| Store.InitHolds | src/vault.rs:30-58 | after init the container is an empty vault sealed under the key derived from the password and the new salt |
| Store.LoadHeld | src/vault.rs:62-84 | loading a container sealed under the same password returns the sealed vault with whole-second timestamps |
| Store.LoadHeldWrongPassword | src/vault.rs:82 | loading a container under a password that derives another key fails with a decryption error |
| Store.LoadAfterSave | tests/vault.rs:30-57 | load after save returns the saved entries unchanged, timestamps as whole seconds |
| Store.LoadAfterInit | src/vault.rs:30-85 | load after init returns an empty vault stamped with the two init clock readings |
| Store.LoadAfterInitWrongPassword | tests/crypto.rs:14-25 | a freshly initialised vault does not open under a password that derives another key |
| Store.SaveWithWrongPasswordLocksOut | src/vault.rs:88-107 | save does not check the password: a save under another password succeeds, and then the original password fails to decrypt |
| Store.AddEntryScenario | tests/vault.rs:30-57 | init, load, push one entry, save and load again yields exactly that entry, with the salt that init drew |

## Left out

- Key derivation, encryption and decryption (`src/crypto.rs`) are library
  calls. They are uninterpreted functions with stated hypotheses, not
  models of Argon2 or XChaCha20-Poly1305.
- CBOR serialization through ciborium is a library call. It is an
  uninterpreted encode/decode pair; serialization is assumed not to fail.
- Randomness for the salt and the nonce is not modelled. Each is a
  parameter.
- `Utc::now()` is not modelled. Each clock reading is a parameter.
- Path resolution (`ProjectDirs`, `create_dir_all`) is not modelled. Its
  failures are not modelled either.
- Failures of file creation and file writes are not modelled. The model
  assumes that every write of `init` and `save` succeeds. A real failure
  between the two writes of `init` would leave a new container beside
  the old salt.
- Panics inside the primitives are not modelled: Argon2's `expect` in
  `derive_key` and the AEAD's `expect` in `encrypt`. Neither fires for the
  fixed salt length and in-memory vault sizes.
- `src/main.rs` (argument parsing, coloured output, error classification by
  message substring) is command-line glue and is not part of this model.
- Read failures other than a missing file or a salt file shorter than 16
  bytes are not modelled: permission errors, a directory in place of a
  file, or a file removed between the `exists()` check and `File::open`.
  The model assumes every existing file can be read in full, so the
  success and error cases of `Store.Load` and `Store.Save` hold under that
  assumption.
- Store.Load: the decrypted vault is only related to the container by the
  lemmas (`LoadHeld`, `LoadHeldWrongPassword`), since without the
  hypotheses on the primitives nothing more can be said about it.

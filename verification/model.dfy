/** Record shapes of the password vault: `Entry` and `VaultV1` (src/model.rs),
    together with the small vocabulary (bytes, options, results, timestamps)
    that the other modules share.
 */
module Model {

  /** An unsigned 8-bit value. Rust strings are UTF-8 byte strings; names,
      usernames, passwords and notes are modelled as arbitrary byte
      sequences, a superset of valid UTF-8. */
  newtype byte = x: int | 0 <= x < 0x100

  type Bytes = seq<byte>

  /** Rust's `u32`, the type of `Entry::id`. */
  newtype u32 = x: int | 0 <= x < 0x1_0000_0000

  datatype Option<+T> = None | Some(value: T)

  datatype Result<+T, +E> = Ok(value: T) | Err(error: E)

  /** The sub-second part of a chrono `DateTime<Utc>`. */
  type Nanos = n: nat | n < 1_000_000_000

  /** A chrono `DateTime<Utc>`: whole seconds since the Unix epoch and a
      non-negative sub-second part. The wall clock itself is not modelled:
      every "now" is a value supplied by the caller. */
  datatype Timestamp = Timestamp(seconds: int, nanos: Nanos)

  /** One credential record (src/model.rs:5-12). */
  datatype Entry = Entry(
    id: u32,
    name: Bytes,
    username: Bytes,
    password: Bytes,
    notes: Option<Bytes>)

  /** The whole decrypted vault (src/model.rs:14-21). Entry order is the
      listing order. */
  datatype VaultV1 = VaultV1(
    createdAt: Timestamp,
    lastModified: Timestamp,
    entries: seq<Entry>)

  /** The precision the serde `ts_seconds` adapter keeps: whole seconds only. */
  function WholeSeconds(t: Timestamp): Timestamp {
    Timestamp(t.seconds, 0)
  }

  /** The vault as it comes back from its serialized form: both timestamps
      reduced to whole seconds, every entry unchanged. */
  function AsSerialized(v: VaultV1): VaultV1 {
    v.(createdAt := WholeSeconds(v.createdAt), lastModified := WholeSeconds(v.lastModified))
  }

  /** The UTF-8 bytes of an ASCII string literal, for stating examples. */
  function AsciiBytes(s: string): (r: Bytes)
    requires forall i :: 0 <= i < |s| ==> s[i] as int < 0x80
    ensures |r| == |s|
    ensures forall i :: 0 <= i < |s| ==> r[i] as int == s[i] as int
  {
    seq(|s|, i requires 0 <= i < |s| => s[i] as int as byte)
  }
}

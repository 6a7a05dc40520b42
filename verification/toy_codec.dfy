/** A concrete, self-delimiting byte encoding of `VaultV1`, standing in for
    CBOR. It keeps whole seconds of both timestamps, as the serde
    `ts_seconds` adapter does, and every entry field exactly. Together with
    `Crypto.ToyPrimitives` it gives one bundle of primitives satisfying all
    three hypotheses the store lemmas assume, so those lemmas are not
    vacuous. It is not a model of ciborium's wire format.
 */
module ToyCodec {
  import opened Model
  import opened Crypto
  import opened Store

  /** A natural number as a run of 0xFF bytes (each worth 255) closed by
      one byte below 0xFF. */
  function EncNat(n: nat): Bytes
    decreases n
  {
    if n < 0xFF then [n as byte] else [0xFF as byte] + EncNat(n - 0xFF)
  }

  function DecNat(b: Bytes): Option<(nat, Bytes)>
    decreases |b|
  {
    if |b| == 0 then None
    else if b[0] < 0xFF then Some((b[0] as nat, b[1..]))
    else match DecNat(b[1..])
      case None => None
      case Some((n, rest)) => Some((n + 0xFF, rest))
  }

  lemma {:induction false} DecNatEncNat(n: nat, rest: Bytes)
    ensures DecNat(EncNat(n) + rest) == Some((n, rest))
    decreases n
  {
    if n < 0xFF {
      assert (EncNat(n) + rest)[1..] == rest;
    } else {
      assert (EncNat(n) + rest)[1..] == EncNat(n - 0xFF) + rest;
      DecNatEncNat(n - 0xFF, rest);
    }
  }

  /** Integers through the zig-zag map 0, -1, 1, -2, 2, ... onto 0, 1, 2, ... */
  function EncInt(i: int): Bytes {
    EncNat(if i >= 0 then 2 * i else -2 * i - 1)
  }

  function DecInt(b: Bytes): Option<(int, Bytes)> {
    match DecNat(b)
    case None => None
    case Some((n, rest)) => Some((if n % 2 == 0 then n / 2 else -(n + 1) / 2, rest))
  }

  lemma DecIntEncInt(i: int, rest: Bytes)
    ensures DecInt(EncInt(i) + rest) == Some((i, rest))
  {
    DecNatEncNat(if i >= 0 then 2 * i else -2 * i - 1, rest);
  }

  /** A byte string, length first. */
  function EncBytes(s: Bytes): Bytes {
    EncNat(|s|) + s
  }

  function DecBytes(b: Bytes): Option<(Bytes, Bytes)> {
    match DecNat(b)
    case None => None
    case Some((n, rest)) => if |rest| < n then None else Some((rest[..n], rest[n..]))
  }

  lemma DecBytesEncBytes(s: Bytes, rest: Bytes)
    ensures DecBytes(EncBytes(s) + rest) == Some((s, rest))
  {
    assert EncBytes(s) + rest == EncNat(|s|) + (s + rest);
    DecNatEncNat(|s|, s + rest);
    assert (s + rest)[..|s|] == s;
    assert (s + rest)[|s|..] == rest;
  }

  function EncNotes(o: Option<Bytes>): Bytes {
    match o
    case None => [0]
    case Some(s) => [1] + EncBytes(s)
  }

  function DecNotes(b: Bytes): Option<(Option<Bytes>, Bytes)> {
    if |b| == 0 then None
    else if b[0] == 0 then Some((None, b[1..]))
    else if b[0] == 1 then
      match DecBytes(b[1..])
      case None => None
      case Some((s, rest)) => Some((Some(s), rest))
    else None
  }

  lemma DecNotesEncNotes(o: Option<Bytes>, rest: Bytes)
    ensures DecNotes(EncNotes(o) + rest) == Some((o, rest))
  {
    match o
    case None =>
      assert (EncNotes(o) + rest)[1..] == rest;
    case Some(s) =>
      assert (EncNotes(o) + rest)[1..] == EncBytes(s) + rest;
      DecBytesEncBytes(s, rest);
  }

  /** The text fields of an entry: name, username, password, notes. */
  function EncFields(e: Entry): Bytes {
    EncBytes(e.name) + EncBytes(e.username) + EncBytes(e.password) + EncNotes(e.notes)
  }

  function DecFields(b: Bytes): Option<((Bytes, Bytes, Bytes, Option<Bytes>), Bytes)> {
    match DecBytes(b)
    case None => None
    case Some((name, r1)) =>
      match DecBytes(r1)
      case None => None
      case Some((username, r2)) =>
        match DecBytes(r2)
        case None => None
        case Some((password, r3)) =>
          match DecNotes(r3)
          case None => None
          case Some((notes, r4)) => Some(((name, username, password, notes), r4))
  }

  lemma DecFieldsEncFields(e: Entry, rest: Bytes)
    ensures DecFields(EncFields(e) + rest) == Some(((e.name, e.username, e.password, e.notes), rest))
  {
    var r3 := EncNotes(e.notes) + rest;
    var r2 := EncBytes(e.password) + r3;
    var r1 := EncBytes(e.username) + r2;
    assert EncFields(e) + rest == EncBytes(e.name) + r1;
    DecBytesEncBytes(e.name, r1);
    DecBytesEncBytes(e.username, r2);
    DecBytesEncBytes(e.password, r3);
    DecNotesEncNotes(e.notes, rest);
  }

  function EncEntry(e: Entry): Bytes {
    EncNat(e.id as nat) + EncFields(e)
  }

  function DecEntry(b: Bytes): Option<(Entry, Bytes)> {
    match DecNat(b)
    case None => None
    case Some((id, r1)) =>
      if id >= 0x1_0000_0000 then None
      else match DecFields(r1)
        case None => None
        case Some(((name, username, password, notes), r2)) =>
          Some((Entry(id as u32, name, username, password, notes), r2))
  }

  lemma DecEntryEncEntry(e: Entry, rest: Bytes)
    ensures DecEntry(EncEntry(e) + rest) == Some((e, rest))
  {
    assert EncEntry(e) + rest == EncNat(e.id as nat) + (EncFields(e) + rest);
    DecNatEncNat(e.id as nat, EncFields(e) + rest);
    DecFieldsEncFields(e, rest);
  }

  function EncEntries(es: seq<Entry>): Bytes
    decreases |es|
  {
    if |es| == 0 then [] else EncEntry(es[0]) + EncEntries(es[1..])
  }

  function DecEntries(count: nat, b: Bytes): Option<(seq<Entry>, Bytes)>
    decreases count
  {
    if count == 0 then Some(([], b))
    else match DecEntry(b)
      case None => None
      case Some((e, r1)) =>
        match DecEntries(count - 1, r1)
        case None => None
        case Some((es, r2)) => Some(([e] + es, r2))
  }

  lemma {:induction false} DecEntriesEncEntries(es: seq<Entry>, rest: Bytes)
    ensures DecEntries(|es|, EncEntries(es) + rest) == Some((es, rest))
    decreases |es|
  {
    if |es| == 0 {
      assert EncEntries(es) + rest == rest;
    } else {
      var tail := EncEntries(es[1..]) + rest;
      assert EncEntries(es) + rest == EncEntry(es[0]) + tail;
      DecEntryEncEntry(es[0], tail);
      DecEntriesEncEntries(es[1..], rest);
      assert DecEntries(|es| - 1, tail) == Some((es[1..], rest));
      assert [es[0]] + es[1..] == es;
    }
  }

  /** Both timestamps (whole seconds), the entry count, then the entries. */
  function Encode(v: VaultV1): Bytes {
    EncInt(v.createdAt.seconds) + EncInt(v.lastModified.seconds) + EncNat(|v.entries|) + EncEntries(v.entries)
  }

  /** The inverse of `Encode`, rejecting trailing bytes. */
  function Decode(b: Bytes): Option<VaultV1> {
    match DecInt(b)
    case None => None
    case Some((created, r1)) =>
      match DecInt(r1)
      case None => None
      case Some((modified, r2)) =>
        match DecNat(r2)
        case None => None
        case Some((count, r3)) =>
          match DecEntries(count, r3)
          case None => None
          case Some((es, r4)) =>
            if |r4| != 0 then None
            else Some(VaultV1(Timestamp(created, 0), Timestamp(modified, 0), es))
  }

  lemma DecodeEncode(v: VaultV1)
    ensures Decode(Encode(v)) == Some(AsSerialized(v))
  {
    var r3 := EncEntries(v.entries);
    var r2 := EncNat(|v.entries|) + r3;
    var r1 := EncInt(v.lastModified.seconds) + r2;
    assert Encode(v) == EncInt(v.createdAt.seconds) + r1;
    DecIntEncInt(v.createdAt.seconds, r1);
    assert DecInt(Encode(v)) == Some((v.createdAt.seconds, r1));
    DecIntEncInt(v.lastModified.seconds, r2);
    DecNatEncNat(|v.entries|, r3);
    assert r3 == r3 + [];
    DecEntriesEncEntries(v.entries, []);
  }

  /** The toy AEAD with the toy codec satisfies every hypothesis at once. */
  function ToyVaultPrimitives(): (p: Primitives)
    ensures AeadRoundTrip(p) && AeadRejectsWrongKey(p) && CodecRoundTrip(p)
  {
    var p := ToyPrimitives(Encode, Decode);
    assert forall v: VaultV1 :: p.decode(p.encode(v)) == Some(AsSerialized(v)) by {
      forall v: VaultV1 ensures p.decode(p.encode(v)) == Some(AsSerialized(v)) {
        DecodeEncode(v);
      }
    }
    p
  }

  /** With the toy bundle, the wrong-password precondition of the store
      lemmas is met: the empty password and a one-byte password derive
      different keys, and the vault `init` seals under one of them does
      not load under the other. */
  lemma ToyWrongPasswordFails(d: Disk, salt: Salt, nonce: Nonce, createdAt: Timestamp, lastModified: Timestamp)
    ensures ToyVaultPrimitives().deriveKey([], salt) != ToyVaultPrimitives().deriveKey([0], salt)
    ensures Load(Init(d, [0], salt, nonce, createdAt, lastModified, ToyVaultPrimitives()), [], ToyVaultPrimitives())
         == Failed(DecryptionFailed)
  {
    var p := ToyVaultPrimitives();
    assert p.deriveKey([], salt)[0] as int == 0;
    assert p.deriveKey([0], salt)[0] as int == 1;
    LoadAfterInitWrongPassword(d, [0], [], salt, nonce, createdAt, lastModified, p);
  }
}

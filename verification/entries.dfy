/** The entry operations of src/vault.rs:110-134 over an in-memory vault.
    Rust mutates `VaultV1` through `&mut`; here every operation returns the
    new vault (and the boolean the Rust function returns) instead. A mutable
    reference into `entries` is modelled by the position it refers to.
 */
module Entries {
  import opened Model
  import opened Ascii

  /** The predicate every lookup uses: the entry's name equals the query
      under ASCII case folding. */
  predicate NameMatches(e: Entry, name: Bytes) {
    EqIgnoreAsciiCase(e.name, name)
  }

  /** No entry of `es` matches `name`. */
  ghost predicate NoMatch(es: seq<Entry>, name: Bytes) {
    forall j :: 0 <= j < |es| ==> !NameMatches(es[j], name)
  }

  /** Position `i` holds the first entry of `es`, in sequence order, that
      matches `name`. */
  ghost predicate IsFirstMatch(es: seq<Entry>, name: Bytes, i: int) {
    && 0 <= i < |es|
    && NameMatches(es[i], name)
    && NoMatch(es[..i], name)
  }

  /** The scan `Iterator::find` performs: front to back, stopping at the
      first match. */
  function FirstMatch(es: seq<Entry>, name: Bytes): (r: Option<nat>)
    ensures r.Some? ==> IsFirstMatch(es, name, r.value)
    ensures r.None? <==> NoMatch(es, name)
    decreases |es|
  {
    if |es| == 0 then None
    else if NameMatches(es[0], name) then Some(0)
    else match FirstMatch(es[1..], name)
      case None => None
      case Some(i) => Some(i + 1)
  }

  /** `find_entry_mut` (src/vault.rs:115-117): the position of the first
      entry whose name matches, or None when there is none. */
  function FindEntryMut(v: VaultV1, name: Bytes): (r: Option<nat>)
    ensures r.Some? ==> IsFirstMatch(v.entries, name, r.value)
    ensures r.None? <==> NoMatch(v.entries, name)
  {
    FirstMatch(v.entries, name)
  }

  /** `find_entry` (src/vault.rs:110-112): the first entry whose name
      matches, or None exactly when no entry matches. */
  function FindEntry(v: VaultV1, name: Bytes): (r: Option<Entry>)
    ensures r.Some? ==> exists i :: IsFirstMatch(v.entries, name, i) && v.entries[i] == r.value
    ensures r.None? <==> NoMatch(v.entries, name)
  {
    match FirstMatch(v.entries, name)
    case None => None
    case Some(i) => Some(v.entries[i])
  }

  /** There is at most one first match, so the two lookups agree: the entry
      `find_entry` returns is the one `find_entry_mut` points at. */
  lemma FindEntryAgreesWithFindEntryMut(v: VaultV1, name: Bytes)
    ensures FindEntry(v, name).Some? <==> FindEntryMut(v, name).Some?
    ensures FindEntry(v, name).Some? ==> FindEntry(v, name).value == v.entries[FindEntryMut(v, name).value]
  {
    if FindEntry(v, name).Some? {
      var i :| IsFirstMatch(v.entries, name, i) && v.entries[i] == FindEntry(v, name).value;
      FirstMatchIsUnique(v.entries, name, i, FindEntryMut(v, name).value);
    }
  }

  lemma FirstMatchIsUnique(es: seq<Entry>, name: Bytes, i: int, j: int)
    requires IsFirstMatch(es, name, i) && IsFirstMatch(es, name, j)
    ensures i == j
  {
  }

  /** `Vec::retain` with the predicate "name does not match": the entries
      that survive, in their original relative order. */
  function Retain(es: seq<Entry>, name: Bytes): (kept: seq<Entry>)
    ensures |kept| <= |es|
    ensures forall e :: e in kept <==> e in es && !NameMatches(e, name)
    ensures |kept| == |es| <==> NoMatch(es, name)
    ensures NoMatch(es, name) ==> kept == es
    decreases |es|
  {
    if |es| == 0 then []
    else if NameMatches(es[0], name) then Retain(es[1..], name)
    else [es[0]] + Retain(es[1..], name)
  }

  /** `retain` keeps the order: filtering a concatenation is the concatenation
      of the filtered parts. */
  lemma {:induction false} RetainConcat(a: seq<Entry>, b: seq<Entry>, name: Bytes)
    ensures Retain(a + b, name) == Retain(a, name) + Retain(b, name)
    decreases |a|
  {
    if |a| == 0 {
      assert a + b == b;
    } else {
      assert (a + b)[1..] == a[1..] + b;
      RetainConcat(a[1..], b, name);
    }
  }

  /** `remove_entry` (src/vault.rs:120-124): drops every entry whose name
      matches and reports whether the entry count changed. */
  function RemoveEntry(v: VaultV1, name: Bytes): (r: (VaultV1, bool))
    ensures r.0.createdAt == v.createdAt && r.0.lastModified == v.lastModified
    ensures forall e :: e in r.0.entries <==> e in v.entries && !NameMatches(e, name)
    ensures NoMatch(r.0.entries, name)
    ensures r.1 <==> !NoMatch(v.entries, name)
    ensures r.1 <==> |r.0.entries| < |v.entries|
    ensures !r.1 ==> r.0 == v
  {
    var kept := Retain(v.entries, name);
    (v.(entries := kept), |v.entries| != |kept|)
  }

  /** Reference definition: the positions of `es` whose entry does not
      match, in increasing order. */
  function KeptPositions(es: seq<Entry>, name: Bytes): (ps: seq<nat>)
    ensures forall k :: 0 <= k < |ps| ==> ps[k] < |es|
    ensures forall k, l :: 0 <= k < l < |ps| ==> ps[k] < ps[l]
    ensures forall i :: 0 <= i < |es| ==> (i in ps <==> !NameMatches(es[i], name))
    decreases |es|
  {
    if |es| == 0 then []
    else
      var init := KeptPositions(es[..|es| - 1], name);
      if NameMatches(es[|es| - 1], name) then init else init + [|es| - 1]
  }

  /** The entries of `es` at the positions `ps`, in the order of `ps`. */
  function Pick(es: seq<Entry>, ps: seq<nat>): seq<Entry>
    requires forall k :: 0 <= k < |ps| ==> ps[k] < |es|
  {
    seq(|ps|, k requires 0 <= k < |ps| => es[ps[k]])
  }

  lemma PickFromPrefix(front: seq<Entry>, es: seq<Entry>, ps: seq<nat>)
    requires front <= es
    requires forall k :: 0 <= k < |ps| ==> ps[k] < |front|
    ensures Pick(front, ps) == Pick(es, ps)
  {
  }

  lemma PickAppend(es: seq<Entry>, ps: seq<nat>, n: nat)
    requires forall k :: 0 <= k < |ps| ==> ps[k] < |es|
    requires n < |es|
    ensures Pick(es, ps + [n]) == Pick(es, ps) + [es[n]]
  {
  }

  /** `retain` keeps exactly the non-matching entries, in their original
      relative order, duplicates included. */
  lemma {:induction false} RetainPicksKeptPositions(es: seq<Entry>, name: Bytes)
    ensures Retain(es, name) == Pick(es, KeptPositions(es, name))
    decreases |es|
  {
    if |es| > 0 {
      var n := |es| - 1;
      var front := es[..n];
      var ps := KeptPositions(front, name);
      assert es == front + [es[n]];
      RetainConcat(front, [es[n]], name);
      RetainPicksKeptPositions(front, name);
      PickFromPrefix(front, es, ps);
      if !NameMatches(es[n], name) {
        PickAppend(es, ps, n);
      }
    }
  }

  /** What `remove_entry` leaves behind: the entries at the non-matching
      positions, in order. */
  lemma RemoveEntryKeepsNonMatchingInOrder(v: VaultV1, name: Bytes)
    ensures RemoveEntry(v, name).0.entries == Pick(v.entries, KeptPositions(v.entries, name))
  {
    RetainPicksKeptPositions(v.entries, name);
  }

  /** A second removal with the same name finds nothing, returns false and
      leaves the vault as the first removal left it. */
  lemma RemoveEntryTwice(v: VaultV1, name: Bytes)
    ensures RemoveEntry(RemoveEntry(v, name).0, name) == (RemoveEntry(v, name).0, false)
  {
  }

  /** After a removal, a lookup of the same name finds nothing. */
  lemma FindAfterRemove(v: VaultV1, name: Bytes)
    ensures FindEntry(RemoveEntry(v, name).0, name) == None
  {
  }

  /** `edit_entry` (src/vault.rs:127-134): overwrites the first matching entry
      with `newEntry` (its id and name included) and returns true; with no
      match it returns false and leaves the vault alone. */
  function EditEntry(v: VaultV1, name: Bytes, newEntry: Entry): (r: (VaultV1, bool))
    ensures r.0.createdAt == v.createdAt && r.0.lastModified == v.lastModified
    ensures |r.0.entries| == |v.entries|
    ensures r.1 <==> !NoMatch(v.entries, name)
    ensures r.1 ==> exists i :: IsFirstMatch(v.entries, name, i) && r.0.entries == v.entries[i := newEntry]
    ensures !r.1 ==> r.0 == v
  {
    match FindEntryMut(v, name)
    case Some(i) => (v.(entries := v.entries[i := newEntry]), true)
    case None => (v, false)
  }

  /** An edit touches one position only: every other entry is unchanged. */
  lemma EditEntryChangesOnlyFirstMatch(v: VaultV1, name: Bytes, newEntry: Entry, j: int)
    requires 0 <= j < |v.entries|
    requires !IsFirstMatch(v.entries, name, j)
    ensures EditEntry(v, name, newEntry).0.entries[j] == v.entries[j]
  {
  }

  /** If the replacement still carries a matching name, the next lookup
      returns it. */
  lemma FindAfterEdit(v: VaultV1, name: Bytes, newEntry: Entry)
    requires EditEntry(v, name, newEntry).1
    requires NameMatches(newEntry, name)
    ensures FindEntry(EditEntry(v, name, newEntry).0, name) == Some(newEntry)
  {
    var i := FindEntryMut(v, name).value;
    var es' := EditEntry(v, name, newEntry).0.entries;
    assert es'[..i] == v.entries[..i];
    assert IsFirstMatch(es', name, i);
    var r := FindEntry(EditEntry(v, name, newEntry).0, name);
    var k :| IsFirstMatch(es', name, k) && es'[k] == r.value;
    FirstMatchIsUnique(es', name, i, k);
  }
}
